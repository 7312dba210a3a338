/** Threadpool::GetInstance: double-checked creation, for any number of callers and any interleaving of
    their statements (sequentially consistent). */
module Singleton {
  import opened Text

  /** Where a caller is. `Returned` records the object it got and whether that pool was running then;
      pools are numbered in the order of construction. */
  datatype Pc =
    | FirstCheck                  // reads _instance without the lock
    | Waiting                     // about to lock
    | SecondCheck                 // holds the lock
    | Constructing                // holds the lock: new Threadpool, assigned to _instance
    | Initializing                // holds the lock: InitThreadPool, which sets _isrunning
    | Starting                    // holds the lock: Start
    | Leaving(slow: bool)         // about to read _instance and return; slow: went through the lock
    | Returned(pool: Option<nat>, running: bool, slow: bool)

  /** `stops` counts the calls of Stop; `stopped` is whether one came after InitThreadPool. */
  datatype State = State(
    callers: seq<Pc>, constructed: nat, instance: Option<nat>, running: bool, lock: Option<nat>,
    stops: nat, stopped: bool)

  function Init(callers: nat): State {
    State(seq(callers, _ => FirstCheck), 0, None, false, None, 0, false)
  }

  predicate Enabled(s: State, i: nat) {
    && i < |s.callers|
    && (s.callers[i].Waiting? ==> s.lock.None?)
  }

  /** The next statement of a caller. One that has the pool may call Stop on it, as often as it likes. */
  function Next(s: State, i: nat): State
    requires Enabled(s, i)
  {
    match s.callers[i]
    case FirstCheck => Move(s, i, if s.instance.None? then Waiting else Leaving(false))
    case Waiting => Move(s, i, SecondCheck).(lock := Some(i))
    case SecondCheck =>
      if s.instance.None? then Move(s, i, Constructing) else Move(s, i, Leaving(true)).(lock := None)
    case Constructing =>
      Move(s, i, Initializing).(constructed := s.constructed + 1, instance := Some(s.constructed), running := false)
    case Initializing => Move(s, i, Starting).(running := true, stopped := false)
    case Starting => Move(s, i, Leaving(true)).(lock := None)
    case Leaving(slow) => Move(s, i, Returned(s.instance, s.running, slow))
    case Returned(_, _, _) => s.(running := false, stops := s.stops + 1, stopped := true)
  }

  function Move(s: State, i: nat, pc: Pc): State
    requires i < |s.callers|
  {
    s.(callers := s.callers[i := pc])
  }

  predicate Follows(s: State, schedule: seq<nat>)
    decreases |schedule|
  {
    schedule != [] ==> Enabled(s, schedule[0]) && Follows(Next(s, schedule[0]), schedule[1..])
  }

  function After(s: State, schedule: seq<nat>): State
    requires Follows(s, schedule)
    decreases |schedule|
  {
    if schedule == [] then s else After(Next(s, schedule[0]), schedule[1..])
  }

  ghost predicate Reachable(s: State) {
    exists n: nat, schedule :: Follows(Init(n), schedule) && s == After(Init(n), schedule)
  }

  predicate InLock(pc: Pc) {
    pc.SecondCheck? || pc.Constructing? || pc.Initializing? || pc.Starting?
  }

  /** Between its publication and the end of InitThreadPool, which is the creator's next statement. */
  predicate BeingInitialized(s: State) {
    s.lock.Some? && s.lock.value < |s.callers| && s.callers[s.lock.value].Initializing?
  }

  predicate Inv(s: State) { Shared(s) && Private(s) }

  predicate Shared(s: State) {
    && (forall i | 0 <= i < |s.callers| :: InLock(s.callers[i]) <==> s.lock == Some(i))
    && s.instance == (if s.constructed == 0 then None else Some(0))
    && s.constructed <= 1
    && (s.running ==> s.constructed == 1)
    && (s.stopped ==> s.stops > 0)
    && (s.constructed == 1 ==> (s.running <==> !BeingInitialized(s) && !s.stopped))
  }

  predicate Private(s: State) {
    forall i | 0 <= i < |s.callers| ::
      match s.callers[i]
      case Constructing => s.constructed == 0
      case Initializing => s.constructed == 1
      case Starting => s.constructed == 1
      // the lock was free or its own after the initialization
      case Leaving(slow) => s.constructed == 1 && (slow ==> !BeingInitialized(s))
      case Returned(pool, running, slow) =>
        pool == Some(0) && s.constructed == 1 && (slow && !running ==> s.stops > 0)
      case _ => true
  }

  lemma StepKeepsShared(s: State, i: nat)
    requires Inv(s) && Enabled(s, i)
    ensures Shared(Next(s, i))
  {
    var t := Next(s, i);
    assert forall j | 0 <= j < |s.callers| && j != i :: t.callers[j] == s.callers[j];
  }

  lemma StepKeepsPrivate(s: State, i: nat)
    requires Inv(s) && Enabled(s, i)
    ensures Private(Next(s, i))
  {
    var t := Next(s, i);
    assert forall j | 0 <= j < |s.callers| && j != i :: t.callers[j] == s.callers[j];
  }

  lemma InvStep(s: State, i: nat)
    requires Inv(s) && Enabled(s, i)
    ensures Inv(Next(s, i))
  {
    StepKeepsShared(s, i);
    StepKeepsPrivate(s, i);
  }

  lemma {:induction false} InvAfter(s: State, schedule: seq<nat>)
    requires Inv(s) && Follows(s, schedule)
    ensures Inv(After(s, schedule))
    decreases |schedule|
  {
    hide Inv, Enabled, Next;
    if schedule != [] {
      InvStep(s, schedule[0]);
      InvAfter(Next(s, schedule[0]), schedule[1..]);
    }
  }

  lemma InvReachable(s: State)
    requires Reachable(s)
    ensures Inv(s)
  {
    var n: nat, schedule :| Follows(Init(n), schedule) && s == After(Init(n), schedule);
    InvAfter(Init(n), schedule);
  }

  /** In every interleaving at most one pool is constructed, all callers get that one, and a caller that
      went through the lock gets it running unless somebody has called Stop. */
  lemma OneInstance(s: State)
    requires Reachable(s)
    ensures s.constructed <= 1
    ensures forall i | 0 <= i < |s.callers| && s.callers[i].Returned? ::
              s.callers[i].pool == Some(0) && (s.callers[i].slow && s.stops == 0 ==> s.callers[i].running)
  {
    InvReachable(s);
  }

  /** A caller on the fast path can get the pool before it runs, and then Enqueue on it refuses tasks:
      _instance is published before InitThreadPool is called. */
  lemma PublishedTooEarly()
    ensures exists s :: Reachable(s) && |s.callers| == 2 && s.stops == 0 && s.callers[1] == Returned(Some(0), false, false)
  {
    var s0 := Init(2);
    var s1 := Next(s0, 0);
    var s2 := Next(s1, 0);
    var s3 := Next(s2, 0);
    var s4 := Next(s3, 0);
    var s5 := Next(s4, 1);
    var s6 := Next(s5, 1);
    FollowsOne(s5, 1, []);
    FollowsOne(s4, 1, [1]);
    FollowsOne(s3, 0, [1, 1]);
    FollowsOne(s2, 0, [0, 1, 1]);
    FollowsOne(s1, 0, [0, 0, 1, 1]);
    FollowsOne(s0, 0, [0, 0, 0, 1, 1]);
    assert Reachable(s6);
  }

  lemma FollowsOne(s: State, i: nat, rest: seq<nat>)
    requires Enabled(s, i) && Follows(Next(s, i), rest)
    ensures Follows(s, [i] + rest) && After(s, [i] + rest) == After(Next(s, i), rest)
  {
    assert ([i] + rest)[1..] == rest;
  }

  /** A caller finds the pool not running exactly when it returns between the publication and the end of
      InitThreadPool, which takes the fast path, or after a Stop that came after InitThreadPool. */
  lemma NotRunningExactlyWhen(s: State, i: nat)
    requires Reachable(s) && Enabled(s, i) && s.callers[i].Leaving?
    ensures !Next(s, i).callers[i].running <==> BeingInitialized(s) || s.stopped
    ensures BeingInitialized(s) ==> !s.callers[i].slow
  {
    InvReachable(s);
  }

  /** The pool is initialized and not running. */
  predicate Over(s: State) {
    Inv(s) && s.constructed == 1 && s.stopped && !BeingInitialized(s)
  }

  lemma {:induction false} OverForGood(s: State, schedule: seq<nat>)
    requires Over(s) && Follows(s, schedule)
    ensures !After(s, schedule).running
    decreases |schedule|
  {
    if schedule != [] {
      var i := schedule[0];
      InvStep(s, i);
      assert s.callers[i].Initializing? ==> s.lock == Some(i);
      OverForGood(Next(s, i), schedule[1..]);
    }
  }

  /** A call of Stop lasts exactly when the pool is not being initialized: InitThreadPool sets _isrunning
      whatever happened since the publication, and nothing else does. */
  lemma StopLastsExactlyWhen(s: State, i: nat)
    requires Reachable(s) && Enabled(s, i) && s.callers[i].Returned?
    ensures (forall schedule | Follows(Next(s, i), schedule) :: !After(Next(s, i), schedule).running)
            <==> !BeingInitialized(s)
  {
    InvReachable(s);
    InvStep(s, i);
    var t := Next(s, i);
    if BeingInitialized(s) {
      var creator := s.lock.value;
      FollowsOne(t, creator, []);
      assert After(t, [creator] + []).running;
    } else {
      forall schedule | Follows(t, schedule)
        ensures !After(t, schedule).running
      {
        OverForGood(t, schedule);
      }
    }
  }
}
