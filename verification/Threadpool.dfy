/** The task queue monitor: workers and callers interleave between any two statements that touch the
    shared fields, threads blocked in pthread_cond_wait may wake up for no reason, and a signal may
    wake more than one of them. */
module Threadpool {
  /** Where a worker is in TaskHandler. */
  datatype Pc<T> =
    | Idle                // about to lock the mutex
    | Testing             // holds the mutex, at the condition of the inner loop
    | Entering            // holds the mutex, has counted itself as waiting, about to wait
    | Blocked             // in pthread_cond_wait, not woken
    | Signalled           // in pthread_cond_wait, woken, about to lock the mutex again
    | Returning           // holds the mutex again, still counted as waiting
    | Taking              // holds the mutex, about to take the front task
    | Unlocking(taken: T) // holds the mutex and a task
    | Working(task: T)    // runs a task
    | Quitting            // holds the mutex, about to leave
    | Gone

  /** Where the caller that holds the mutex is, in Enqueue or in Stop. */
  datatype Caller<T> =
    | EnqueueLocked(task: T) | EnqueuePushed | EnqueueSignal | EnqueueDone(ret: bool)
    | StopLocked | StopSet | StopBroadcast | StopDone

  datatype Owner<T> = Free | Worker(id: nat) | Client(at: Caller<T>)

  /** `accepted`, `started` and `finished` record which tasks Enqueue took in, which were taken off the
      queue, and which have run, in order. */
  datatype Pool<T> = Pool(
    workers: seq<Pc<T>>, queue: seq<T>, waitnum: int, running: bool, owner: Owner<T>,
    accepted: seq<T>, started: seq<T>, finished: seq<T>)

  function Init<T>(threadnum: nat): Pool<T> {
    Pool(seq(threadnum, _ => Idle), [], 0, true, Free, [], [], [])
  }

  // ------------------------------------------------------------------- steps

  datatype Action<T> =
    | Work(id: nat)                  // the next statement of a worker
    | Spurious(id: nat)              // a blocked worker wakes up for no reason
    | CallEnqueue(task: T) | CallStop
    | Proceed(woken: seq<bool>)      // the next statement of the caller; whom a signal wakes

  function SetPc<T>(s: Pool<T>, i: nat, pc: Pc<T>): Pool<T>
    requires i < |s.workers|
  {
    s.(workers := s.workers[i := pc])
  }

  /** Wakes the blocked threads among `woken`. */
  function Wake<T>(ws: seq<Pc<T>>, woken: seq<bool>): (r: seq<Pc<T>>)
    requires |woken| == |ws|
    ensures |r| == |ws|
    ensures forall i | 0 <= i < |ws| :: r[i] == if woken[i] && ws[i].Blocked? then Signalled else ws[i]
  {
    if ws == [] then []
    else [if woken[0] && ws[0].Blocked? then Signalled else ws[0]] + Wake(ws[1..], woken[1..])
  }

  predicate SomeoneWakes<T>(ws: seq<Pc<T>>, woken: seq<bool>)
    requires |woken| == |ws|
  {
    exists i | 0 <= i < |ws| :: woken[i] && ws[i].Blocked?
  }

  predicate SomeoneBlocked<T>(ws: seq<Pc<T>>) {
    exists i | 0 <= i < |ws| :: ws[i].Blocked?
  }

  predicate Enabled<T>(s: Pool<T>, a: Action<T>) {
    match a
    case Work(i) =>
      i < |s.workers| &&
      (match s.workers[i]
       case Idle => s.owner.Free?
       case Signalled => s.owner.Free?
       case Blocked => false
       case Gone => false
       case Working(_) => true
       case _ => s.owner == Worker(i))
    case Spurious(i) => i < |s.workers| && s.workers[i].Blocked?
    case CallEnqueue(_) => s.owner.Free?
    case CallStop => s.owner.Free?
    case Proceed(woken) =>
      s.owner.Client? && |woken| == |s.workers| &&
      (match s.owner.at
       // a signal unblocks at least one of the blocked threads, if there are any
       case EnqueueSignal => SomeoneBlocked(s.workers) ==> SomeoneWakes(s.workers, woken)
       // a broadcast unblocks all of them
       case StopBroadcast => forall i | 0 <= i < |woken| :: woken[i]
       case _ => true)
  }

  function WorkerNext<T>(s: Pool<T>, i: nat): Pool<T>
    requires i < |s.workers|
  {
    match s.workers[i]
    case Idle => SetPc(s, i, Testing).(owner := Worker(i))
    case Testing =>
      if s.queue == [] && s.running then SetPc(s, i, Entering).(waitnum := s.waitnum + 1)
      else if s.queue == [] then SetPc(s, i, Quitting)
      else SetPc(s, i, Taking)
    case Entering => SetPc(s, i, Blocked).(owner := Free)
    case Signalled => SetPc(s, i, Returning).(owner := Worker(i))
    case Returning => SetPc(s, i, Testing).(waitnum := s.waitnum - 1)
    case Taking =>
      if s.queue == [] then s
      else SetPc(s, i, Unlocking(s.queue[0])).(queue := s.queue[1..], started := s.started + [s.queue[0]])
    case Unlocking(t) => SetPc(s, i, Working(t)).(owner := Free)
    case Working(t) => SetPc(s, i, Idle).(finished := s.finished + [t])
    case Quitting => SetPc(s, i, Gone).(owner := Free)
    case _ => s
  }

  function CallerNext<T>(s: Pool<T>, woken: seq<bool>): Pool<T>
    requires s.owner.Client? && |woken| == |s.workers|
  {
    match s.owner.at
    case EnqueueLocked(t) =>
      if s.running then s.(queue := s.queue + [t], accepted := s.accepted + [t], owner := Client(EnqueuePushed))
      else s.(owner := Client(EnqueueDone(false)))
    case EnqueuePushed => s.(owner := Client(if s.waitnum > 0 then EnqueueSignal else EnqueueDone(true)))
    case EnqueueSignal => s.(workers := Wake(s.workers, woken), owner := Client(EnqueueDone(true)))
    case EnqueueDone(_) => s.(owner := Free)
    case StopLocked => s.(running := false, owner := Client(StopSet))
    case StopSet => s.(owner := Client(if s.waitnum > 0 then StopBroadcast else StopDone))
    case StopBroadcast => s.(workers := Wake(s.workers, woken), owner := Client(StopDone))
    case StopDone => s.(owner := Free)
  }

  function Next<T>(s: Pool<T>, a: Action<T>): Pool<T>
    requires Enabled(s, a)
  {
    match a
    case Work(i) => WorkerNext(s, i)
    case Spurious(i) => SetPc(s, i, Signalled)
    case CallEnqueue(t) => s.(owner := Client(EnqueueLocked(t)))
    case CallStop => s.(owner := Client(StopLocked))
    case Proceed(woken) => CallerNext(s, woken)
  }

  /** Each of the actions can happen in its turn. */
  predicate Follows<T>(s: Pool<T>, acts: seq<Action<T>>)
    decreases |acts|
  {
    acts != [] ==> Enabled(s, acts[0]) && Follows(Next(s, acts[0]), acts[1..])
  }

  function After<T>(s: Pool<T>, acts: seq<Action<T>>): Pool<T>
    requires Follows(s, acts)
    decreases |acts|
  {
    if acts == [] then s else After(Next(s, acts[0]), acts[1..])
  }

  /** Some number of workers and some interleaving lead to `s`. */
  ghost predicate Reachable<T(!new)>(s: Pool<T>) {
    exists n: nat, acts :: Follows(Init(n), acts) && s == After(Init(n), acts)
  }

  // ---------------------------------------------------------------- counting

  datatype Kind = Asleep | Woken | Counted

  predicate Is<T>(pc: Pc<T>, k: Kind) {
    match k
    case Asleep => pc.Blocked?
    case Woken => pc.Signalled?
    // between ++_waitnum and --_waitnum
    case Counted => pc.Entering? || pc.Blocked? || pc.Signalled? || pc.Returning?
  }

  function Count<T>(ws: seq<Pc<T>>, k: Kind): nat {
    if ws == [] then 0 else (if Is(ws[0], k) then 1 else 0) + Count(ws[1..], k)
  }

  ghost function InHand<T>(ws: seq<Pc<T>>): multiset<T> {
    if ws == [] then multiset{} else Held(ws[0]) + InHand(ws[1..])
  }

  ghost function Held<T>(pc: Pc<T>): multiset<T> {
    match pc
    case Unlocking(t) => multiset{t}
    case Working(t) => multiset{t}
    case _ => multiset{}
  }

  lemma {:induction false} CountSet<T>(ws: seq<Pc<T>>, i: nat, pc: Pc<T>, k: Kind)
    requires i < |ws|
    ensures Count(ws[i := pc], k) + (if Is(ws[i], k) then 1 else 0) == Count(ws, k) + (if Is(pc, k) then 1 else 0)
  {
    if i == 0 {
      assert ws[0 := pc][1..] == ws[1..];
    } else {
      assert ws[i := pc][1..] == ws[1..][i - 1 := pc];
      CountSet(ws[1..], i - 1, pc, k);
    }
  }

  lemma {:induction false} InHandSet<T>(ws: seq<Pc<T>>, i: nat, pc: Pc<T>)
    requires i < |ws|
    ensures InHand(ws[i := pc]) + Held(ws[i]) == InHand(ws) + Held(pc)
  {
    if i == 0 {
      assert ws[0 := pc][1..] == ws[1..];
    } else {
      assert ws[i := pc][1..] == ws[1..][i - 1 := pc];
      InHandSet(ws[1..], i - 1, pc);
      var h, a, b := Held(ws[0]), InHand(ws[1..][i - 1 := pc]), InHand(ws[1..]);
      assert (h + a) + Held(ws[i]) == h + (a + Held(ws[1..][i - 1])) == h + (b + Held(pc)) == (h + b) + Held(pc);
    }
  }

  lemma Cancel<T>(a: multiset<T>, b: multiset<T>, c: multiset<T>)
    requires a + c == b + c
    ensures a == b
  {
    forall x
      ensures a[x] == b[x]
    {
      assert (a + c)[x] == (b + c)[x];
    }
  }

  /** A step that neither takes nor gives back a task. */
  lemma InHandSame<T>(ws: seq<Pc<T>>, i: nat, pc: Pc<T>)
    requires i < |ws| && Held(ws[i]) == Held(pc)
    ensures InHand(ws[i := pc]) == InHand(ws)
  {
    InHandSet(ws, i, pc);
    Cancel(InHand(ws[i := pc]), InHand(ws), Held(pc));
  }

  lemma {:induction false} CountWake<T>(ws: seq<Pc<T>>, woken: seq<bool>)
    requires |woken| == |ws|
    ensures var r := Wake(ws, woken);
            && Count(r, Counted) == Count(ws, Counted) && InHand(r) == InHand(ws)
            && Count(r, Asleep) + Count(r, Woken) == Count(ws, Asleep) + Count(ws, Woken)
            && Count(r, Asleep) <= Count(ws, Asleep)
            && (SomeoneWakes(ws, woken) ==> Count(r, Asleep) < Count(ws, Asleep))
            && ((forall i | 0 <= i < |woken| :: woken[i]) ==> Count(r, Asleep) == 0)
  {
    if ws != [] {
      CountWake(ws[1..], woken[1..]);
      assert Wake(ws, woken)[1..] == Wake(ws[1..], woken[1..]);
      if SomeoneWakes(ws, woken) && !(woken[0] && ws[0].Blocked?) {
        var i :| 0 <= i < |ws| && woken[i] && ws[i].Blocked?;
        assert woken[1..][i - 1] && ws[1..][i - 1].Blocked?;
      }
    }
  }

  lemma {:induction false} CountZero<T>(ws: seq<Pc<T>>, k: Kind)
    ensures Count(ws, k) == 0 <==> forall i | 0 <= i < |ws| :: !Is(ws[i], k)
  {
    if ws != [] {
      CountZero(ws[1..], k);
      assert forall i | 0 < i < |ws| :: ws[i] == ws[1..][i - 1];
    }
  }

  lemma {:induction false} CountOrder<T>(ws: seq<Pc<T>>)
    ensures Count(ws, Asleep) + Count(ws, Woken) <= Count(ws, Counted)
  {
    if ws != [] {
      CountOrder(ws[1..]);
    }
  }

  // --------------------------------------------------------------- invariant

  predicate HoldsMutex<T>(pc: Pc<T>) {
    pc.Testing? || pc.Entering? || pc.Returning? || pc.Taking? || pc.Unlocking? || pc.Quitting?
  }

  /** One task is accounted for by whoever holds the mutex: a worker that will look at the queue again,
      or a caller that has pushed and not signalled yet. */
  predicate Attended<T>(s: Pool<T>) {
    match s.owner
    case Free => false
    case Worker(i) =>
      i < |s.workers| && (s.workers[i].Testing? || s.workers[i].Returning? || s.workers[i].Taking?)
    case Client(at) => at.EnqueuePushed? || at.EnqueueSignal?
  }

  predicate Stopping<T>(s: Pool<T>) {
    s.owner.Client? && (s.owner.at.StopSet? || s.owner.at.StopBroadcast?)
  }

  /** Whoever is at a statement inside a critical section is the one that holds the mutex. */
  predicate Exclusive<T>(s: Pool<T>) {
    && (forall i | 0 <= i < |s.workers| :: HoldsMutex(s.workers[i]) <==> s.owner == Worker(i))
    && (s.owner.Worker? ==> s.owner.id < |s.workers|)
  }

  predicate Control<T>(s: Pool<T>) {
    && (forall i | 0 <= i < |s.workers| :: s.workers[i].Entering? ==> s.running && s.queue == [])
    && (forall i | 0 <= i < |s.workers| :: s.workers[i].Taking? ==> s.queue != [])
    && (forall i | 0 <= i < |s.workers| :: s.workers[i].Quitting? || s.workers[i].Gone? ==> !s.running && s.queue == [])
    && (s.owner.Client? && (s.owner.at.EnqueuePushed? || s.owner.at.EnqueueSignal?) ==> s.running)
    && (Stopping(s) ==> !s.running)
  }

  /** _waitnum is the number of workers between its increment and its decrement. */
  predicate WaitnumExact<T>(s: Pool<T>) {
    s.waitnum == Count(s.workers, Counted)
  }

  /** No lost wakeup: while the pool runs and somebody sleeps, every queued task has a woken worker or
      is attended to. After Stop nobody sleeps. */
  predicate Wakeups<T>(s: Pool<T>) {
    && (s.running && Count(s.workers, Asleep) > 0 ==>
          |s.queue| <= Count(s.workers, Woken) + (if Attended(s) then 1 else 0))
    && (!s.running && !Stopping(s) ==> Count(s.workers, Asleep) == 0)
  }

  /** First in, first out, nothing lost, nothing twice. */
  ghost predicate Conserved<T>(s: Pool<T>) {
    && s.started + s.queue == s.accepted
    && multiset(s.started) == multiset(s.finished) + InHand(s.workers)
  }

  ghost predicate Inv<T>(s: Pool<T>) {
    Exclusive(s) && Control(s) && WaitnumExact(s) && Wakeups(s) && Conserved(s)
  }

  lemma {:induction false} InHandInit<T>(ws: seq<Pc<T>>)
    requires forall i | 0 <= i < |ws| :: Held(ws[i]) == multiset{}
    ensures InHand(ws) == multiset{}
  {
    if ws != [] {
      InHandInit(ws[1..]);
    }
  }

  lemma InvInit<T>(threadnum: nat)
    ensures Inv<T>(Init(threadnum))
  {
    var ws := Init<T>(threadnum).workers;
    InHandInit(ws);
    CountZero(ws, Asleep);
    CountZero(ws, Counted);
  }

  lemma CountsSet<T>(ws: seq<Pc<T>>, i: nat, pc: Pc<T>)
    requires i < |ws|
    ensures forall k :: Count(ws[i := pc], k) == Count(ws, k) - (if Is(ws[i], k) then 1 else 0) + (if Is(pc, k) then 1 else 0)
  {
    forall k
      ensures Count(ws[i := pc], k) == Count(ws, k) - (if Is(ws[i], k) then 1 else 0) + (if Is(pc, k) then 1 else 0)
    {
      CountSet(ws, i, pc, k);
    }
  }

  lemma OnlyOneMoves<T>(s: Pool<T>, i: nat)
    requires i < |s.workers|
    ensures var t := WorkerNext(s, i);
            && |t.workers| == |s.workers| && t.workers == s.workers[i := t.workers[i]]
            && forall j | 0 <= j < |s.workers| && j != i :: t.workers[j] == s.workers[j]
  {}

  lemma WorkerKeepsLock<T>(s: Pool<T>, i: nat)
    requires Exclusive(s) && Enabled(s, Work(i))
    ensures Exclusive(WorkerNext(s, i))
  {
    OnlyOneMoves(s, i);
  }

  lemma WorkerKeepsControl<T>(s: Pool<T>, i: nat)
    requires Exclusive(s) && Control(s) && Enabled(s, Work(i))
    ensures Control(WorkerNext(s, i))
  {
    OnlyOneMoves(s, i);
    var t := WorkerNext(s, i);
    assert t.running == s.running;
    if s.workers[i].Taking? {
      assert forall j | 0 <= j < |s.workers| && j != i :: !HoldsMutex(s.workers[j]);
      assert s.owner == Worker(i);
    } else {
      assert t.queue == s.queue;
    }
  }

  lemma WorkerKeepsCounts<T>(s: Pool<T>, i: nat)
    requires Inv(s) && Enabled(s, Work(i))
    ensures WaitnumExact(WorkerNext(s, i)) && Wakeups(WorkerNext(s, i))
  {
    hide Count, InHand, Conserved;
    var t := WorkerNext(s, i);
    OnlyOneMoves(s, i);
    CountsSet(s.workers, i, t.workers[i]);
    CountOrder(s.workers);
  }

  lemma TakeKeepsTasks<T>(s: Pool<T>, i: nat)
    requires Conserved(s) && i < |s.workers| && s.workers[i].Taking? && s.queue != []
    ensures Conserved(WorkerNext(s, i))
  {
    hide InHand;
    var t, x := WorkerNext(s, i), s.queue[0];
    InHandSet(s.workers, i, Unlocking(x));
    assert s.queue == [x] + s.queue[1..];
    assert t.started + t.queue == s.started + s.queue;
    assert InHand(t.workers) + multiset{} == InHand(t.workers);
    assert multiset(t.started) == multiset(s.started) + multiset{x};
  }

  lemma FinishKeepsTasks<T>(s: Pool<T>, i: nat)
    requires Conserved(s) && i < |s.workers| && s.workers[i].Working?
    ensures Conserved(WorkerNext(s, i))
  {
    hide InHand;
    var t, x := WorkerNext(s, i), s.workers[i].task;
    InHandSet(s.workers, i, Idle);
    assert InHand(s.workers) + multiset{} == InHand(s.workers);
    assert multiset(t.finished) == multiset(s.finished) + multiset{x};
  }

  lemma OtherStep<T>(s: Pool<T>, i: nat)
    requires i < |s.workers| && !s.workers[i].Taking? && !s.workers[i].Working?
    ensures var t := WorkerNext(s, i);
            && t.queue == s.queue && t.accepted == s.accepted && t.started == s.started && t.finished == s.finished
            && Held(t.workers[i]) == Held(s.workers[i])
  {}

  lemma WorkerKeepsTasks<T>(s: Pool<T>, i: nat)
    requires Conserved(s) && Control(s) && i < |s.workers|
    ensures Conserved(WorkerNext(s, i))
  {
    hide InHand;
    if s.workers[i].Taking? {
      TakeKeepsTasks(s, i);
    } else if s.workers[i].Working? {
      FinishKeepsTasks(s, i);
    } else {
      OtherStep(s, i);
      OnlyOneMoves(s, i);
      hide Control, WorkerNext, Held;
      InHandSame(s.workers, i, WorkerNext(s, i).workers[i]);
    }
  }

  lemma CallerKeepsControl<T>(s: Pool<T>, woken: seq<bool>)
    requires Exclusive(s) && Control(s) && Enabled(s, Proceed(woken))
    ensures Exclusive(CallerNext(s, woken)) && Control(CallerNext(s, woken))
  {
    hide SomeoneBlocked, SomeoneWakes;
    assert forall i | 0 <= i < |s.workers| :: !HoldsMutex(s.workers[i]);
  }

  lemma CallerKeepsCounts<T>(s: Pool<T>, woken: seq<bool>)
    requires Inv(s) && Enabled(s, Proceed(woken))
    ensures WaitnumExact(CallerNext(s, woken)) && Wakeups(CallerNext(s, woken))
  {
    hide Count, InHand, Wake, Exclusive, Conserved;
    CountWake(s.workers, woken);
    CountOrder(s.workers);
    CountZero(s.workers, Asleep);
  }

  lemma CallerKeepsTasks<T>(s: Pool<T>, woken: seq<bool>)
    requires Conserved(s) && Enabled(s, Proceed(woken))
    ensures Conserved(CallerNext(s, woken))
  {
    hide Count, InHand, Wake, SomeoneBlocked, SomeoneWakes;
    CountWake(s.workers, woken);
    if s.owner.at.EnqueueLocked? {
      assert s.started + (s.queue + [s.owner.at.task]) == (s.started + s.queue) + [s.owner.at.task];
    }
  }

  lemma SpuriousKeeps<T>(s: Pool<T>, i: nat)
    requires Inv(s) && Enabled(s, Spurious(i))
    ensures Inv(SetPc(s, i, Signalled))
  {
    hide Count, InHand;
    CountsSet(s.workers, i, Signalled);
    InHandSame(s.workers, i, Signalled);
  }

  lemma InvStep<T>(s: Pool<T>, a: Action<T>)
    requires Inv(s) && Enabled(s, a)
    ensures Inv(Next(s, a))
  {
    match a
    case Work(i) =>
      WorkerKeepsLock(s, i);
      WorkerKeepsControl(s, i);
      WorkerKeepsCounts(s, i);
      WorkerKeepsTasks(s, i);
    case Proceed(woken) =>
      CallerKeepsControl(s, woken);
      CallerKeepsCounts(s, woken);
      CallerKeepsTasks(s, woken);
    case Spurious(i) =>
      SpuriousKeeps(s, i);
    case _ =>
  }

  lemma {:induction false} InvAfter<T>(s: Pool<T>, acts: seq<Action<T>>)
    requires Inv(s) && Follows(s, acts)
    ensures Inv(After(s, acts))
    decreases |acts|
  {
    hide Inv, Enabled, Next;
    if acts != [] {
      InvStep(s, acts[0]);
      InvAfter(Next(s, acts[0]), acts[1..]);
    }
  }

  lemma InvReachable<T(!new)>(s: Pool<T>)
    requires Reachable(s)
    ensures Inv(s)
  {
    hide Inv, Init, Follows, After;
    var n: nat, acts :| Follows(Init(n), acts) && s == After(Init(n), acts);
    InvInit<T>(n);
    InvAfter(Init(n), acts);
  }

  // ---------------------------------------------------------- no lost wakeup

  /** In every reachable state, whenever the mutex is free: _waitnum counts exactly the workers in
      pthread_cond_wait; and while the pool runs and one of them sleeps, the queue is no longer than
      the number of workers already woken. */
  lemma NoLostWakeup<T(!new)>(s: Pool<T>)
    requires Reachable(s) && s.owner.Free?
    ensures s.waitnum == Count(s.workers, Asleep) + Count(s.workers, Woken)
    ensures s.running && Count(s.workers, Asleep) > 0 ==> |s.queue| <= Count(s.workers, Woken)
  {
    InvReachable(s);
    CountFree(s.workers);
  }

  lemma {:induction false} CountFree<T>(ws: seq<Pc<T>>)
    requires forall i | 0 <= i < |ws| :: !HoldsMutex(ws[i])
    ensures Count(ws, Counted) == Count(ws, Asleep) + Count(ws, Woken)
  {
    if ws != [] {
      CountFree(ws[1..]);
    }
  }

  /** A worker that can move on by itself. */
  predicate Ready<T>(s: Pool<T>, i: nat) {
    Enabled(s, Work(i))
  }

  /** So a queued task never waits with every worker asleep: some worker can take a step. */
  lemma TasksAreServed<T(!new)>(s: Pool<T>)
    requires Reachable(s) && s.owner.Free? && s.workers != []
    requires s.queue != []
    ensures exists i: nat :: Ready(s, i)
  {
    InvReachable(s);
    NoLostWakeup(s);
    if Count(s.workers, Asleep) > 0 {
      CountZero(s.workers, Woken);
      var i :| 0 <= i < |s.workers| && Is(s.workers[i], Woken);
      assert Ready(s, i);
    } else {
      CountZero(s.workers, Asleep);
      assert !Is(s.workers[0], Asleep);
      assert Ready(s, 0);
    }
  }

  /** First in, first out: what was taken off the queue and what is in it are what Enqueue accepted, in
      order; and each taken task is being run, or was run, exactly once. */
  lemma FirstInFirstOut<T(!new)>(s: Pool<T>)
    requires Reachable(s)
    ensures s.started <= s.accepted && s.queue == s.accepted[|s.started|..]
    ensures multiset(s.started) == multiset(s.finished) + InHand(s.workers)
  {
    InvReachable(s);
  }

  // ----------------------------------------------------------- whole calls

  /** These steps do not go beyond the call that holds the mutex: its last statement, the one that returns,
      is not among them. */
  predicate WithinCall<T>(s: Pool<T>, acts: seq<Action<T>>)
    requires Follows(s, acts)
    decreases |acts|
  {
    acts != [] ==>
      && s.owner.Client? && !s.owner.at.EnqueueDone? && !s.owner.at.StopDone?
      && WithinCall(Next(s, acts[0]), acts[1..])
  }

  function Sleeping<T>(s: Pool<T>): nat { Count(s.workers, Asleep) }

  /** What the other threads can do while a caller holds the mutex. */
  lemma OthersInCall<T>(s: Pool<T>, a: Action<T>)
    requires s.owner.Client? && Enabled(s, a) && !a.Proceed?
    ensures var t := Next(s, a);
            && t == s.(workers := t.workers, finished := t.finished) && Sleeping(t) <= Sleeping(s)
  {
    hide Count;
    match a
    case Work(i) => CountSet(s.workers, i, Idle, Asleep);
    case Spurious(i) => CountSet(s.workers, i, Signalled, Asleep);
  }

  /** The caller's own next statement in Enqueue. */
  lemma EnqueueStep<T>(s: Pool<T>, woken: seq<bool>)
    requires Inv(s) && Enabled(s, Proceed(woken)) && InEnqueue(s.owner) && !s.owner.at.EnqueueDone?
    ensures var t := CallerNext(s, woken);
            && InEnqueue(t.owner) && t.running == s.running && t.started == s.started && Sleeping(t) <= Sleeping(s)
            && (s.owner.at.EnqueuePushed? ==>
                  t.owner.at.EnqueueSignal? || (t.owner.at == EnqueueDone(true) && Sleeping(s) == 0))
            && (s.owner.at.EnqueueSignal? ==>
                  t.owner.at == EnqueueDone(true) && (Sleeping(s) > 0 ==> Sleeping(t) < Sleeping(s)))
  {
    hide Count, Conserved, Control;
    CountOrder(s.workers);
    if s.owner.at.EnqueueSignal? {
      CountWake(s.workers, woken);
      CountZero(s.workers, Asleep);
    }
  }

  predicate InEnqueue<T>(o: Owner<T>) {
    o.Client? && (o.at.EnqueueLocked? || o.at.EnqueuePushed? || o.at.EnqueueSignal? || o.at.EnqueueDone?)
  }

  /** From wherever Enqueue is to the point where it is about to return `ret`. */
  lemma {:induction false} EnqueueRest<T>(s: Pool<T>, acts: seq<Action<T>>, ret: bool)
    requires Inv(s) && InEnqueue(s.owner) && Follows(s, acts) && WithinCall(s, acts)
    requires After(s, acts).owner == Client(EnqueueDone(ret))
    ensures var e, at := After(s, acts), s.owner.at;
            && e.running == s.running && e.started == s.started && Sleeping(e) <= Sleeping(s)
            && ret == (match at case EnqueueLocked(_) => s.running case EnqueueDone(r) => r case _ => true)
            && var pushed := if at.EnqueueLocked? && ret then [at.task] else [];
            && e.accepted == s.accepted + pushed && e.queue == s.queue + pushed
            && (ret && !at.EnqueueDone? && Sleeping(s) > 0 ==> Sleeping(e) < Sleeping(s))
    decreases |acts|
  {
    hide Count, Inv, Sleeping;
    if acts == [] {
      assert s.queue + [] == s.queue && s.accepted + [] == s.accepted;
    } else {
      var a := acts[0];
      InvStep(s, a);
      if a.Proceed? {
        EnqueueStep(s, a.woken);
      } else {
        OthersInCall(s, a);
      }
      EnqueueRest(Next(s, a), acts[1..], ret);
    }
  }

  /** One whole call of Enqueue, from any reachable state, with whatever the other threads do meanwhile: it
      returns whether the pool runs; if so the task is accepted and at the end of the queue, and if somebody
      slept, fewer do. */
  lemma EnqueueCall<T(!new)>(s: Pool<T>, task: T, acts: seq<Action<T>>, ret: bool)
    requires Reachable(s) && s.owner.Free?
    requires var c := Next(s, CallEnqueue(task));
             Follows(c, acts) && WithinCall(c, acts) && After(c, acts).owner == Client(EnqueueDone(ret))
    ensures var e := After(Next(s, CallEnqueue(task)), acts);
            && (ret <==> s.running) && e.running == s.running && e.started == s.started
            && e.accepted == s.accepted + (if ret then [task] else [])
            && e.queue == s.queue + (if ret then [task] else [])
            && Sleeping(e) <= Sleeping(s) && (ret && Sleeping(s) > 0 ==> Sleeping(e) < Sleeping(s))
  {
    hide Inv, Follows, WithinCall, After;
    InvReachable(s);
    InvStep(s, CallEnqueue(task));
    EnqueueRest(Next(s, CallEnqueue(task)), acts, ret);
  }

  predicate InStop<T>(o: Owner<T>) {
    o.Client? && (o.at.StopLocked? || o.at.StopSet? || o.at.StopBroadcast? || o.at.StopDone?)
  }

  lemma {:induction false} StopRest<T>(s: Pool<T>, acts: seq<Action<T>>)
    requires Inv(s) && InStop(s.owner) && (s.owner.at.StopDone? ==> !s.running)
    requires Follows(s, acts) && WithinCall(s, acts)
    ensures var e := After(s, acts);
            && Inv(e) && InStop(e.owner) && (e.owner.at.StopDone? ==> !e.running)
            && e.accepted == s.accepted && e.queue == s.queue && e.started == s.started
    decreases |acts|
  {
    hide Count, Conserved, Wake, SomeoneBlocked, SomeoneWakes;
    if acts != [] {
      InvStep(s, acts[0]);
      if !acts[0].Proceed? {
        OthersInCall(s, acts[0]);
      }
      StopRest(Next(s, acts[0]), acts[1..]);
    }
  }

  /** One whole call of Stop: at its end the pool does not run and nobody sleeps; no task is touched. */
  lemma StopCall<T(!new)>(s: Pool<T>, acts: seq<Action<T>>)
    requires Reachable(s) && s.owner.Free?
    requires var c := Next(s, CallStop);
             Follows(c, acts) && WithinCall(c, acts) && After(c, acts).owner == Client(StopDone)
    ensures var e := After(Next(s, CallStop), acts);
            && !e.running && Sleeping(e) == 0
            && e.accepted == s.accepted && e.queue == s.queue && e.started == s.started
  {
    hide Follows, WithinCall, After, Conserved;
    InvReachable(s);
    InvStep(s, CallStop);
    StopRest(Next(s, CallStop), acts);
  }

  // ---------------------------------------------------------------- shutdown

  /** Stop has woken everybody up. */
  predicate Stopped<T>(s: Pool<T>) {
    !s.running && !Stopping(s)
  }

  /** How many statements a worker has left before it leaves or takes another task. */
  function Left<T>(pc: Pc<T>): nat {
    match pc
    case Entering => 9
    case Blocked => 8
    case Signalled => 7
    case Returning => 6
    case Unlocking(_) => 7
    case Working(_) => 6
    case Idle => 5
    case Testing => 4
    case Taking => 3
    case Quitting => 2
    case Gone => 0
  }

  function LeftAll<T>(ws: seq<Pc<T>>): nat {
    if ws == [] then 0 else Left(ws[0]) + LeftAll(ws[1..])
  }

  function Measure<T>(s: Pool<T>): nat {
    5 * |s.queue| + LeftAll(s.workers)
  }

  lemma {:induction false} LeftSet<T>(ws: seq<Pc<T>>, i: nat, pc: Pc<T>)
    requires i < |ws|
    ensures LeftAll(ws[i := pc]) + Left(ws[i]) == LeftAll(ws) + Left(pc)
  {
    if i == 0 {
      assert ws[0 := pc][1..] == ws[1..];
    } else {
      assert ws[i := pc][1..] == ws[1..][i - 1 := pc];
      LeftSet(ws[1..], i - 1, pc);
    }
  }

  lemma NobodyToWake<T>(ws: seq<Pc<T>>, woken: seq<bool>)
    requires |woken| == |ws| && Count(ws, Asleep) == 0
    ensures Wake(ws, woken) == ws
  {
    CountZero(ws, Asleep);
    assert forall i | 0 <= i < |ws| :: !Is(ws[i], Asleep);
  }

  lemma StoppedWork<T>(s: Pool<T>, i: nat)
    requires Exclusive(s) && Control(s) && !s.running && Count(s.workers, Asleep) == 0 && Enabled(s, Work(i))
    ensures var t := WorkerNext(s, i);
            && !t.running && !Is(t.workers[i], Asleep)
            && 5 * |t.queue| + Left(t.workers[i]) < 5 * |s.queue| + Left(s.workers[i])
            && t.accepted == s.accepted
  {
    hide Count;
  }

  lemma StoppedCaller<T>(s: Pool<T>, woken: seq<bool>)
    requires !s.running && Count(s.workers, Asleep) == 0 && Enabled(s, Proceed(woken))
    ensures var t := CallerNext(s, woken);
            && !t.running && t.workers == s.workers && t.queue == s.queue && t.accepted == s.accepted
  {
    NobodyToWake(s.workers, woken);
  }

  /** Once stopped, always stopped, except for the moments inside a further Stop; no worker goes to
      sleep any more; every worker step brings the end closer, and nothing pushes it away. */
  lemma StoppedStep<T>(s: Pool<T>, a: Action<T>)
    requires Inv(s) && !s.running && Count(s.workers, Asleep) == 0 && Enabled(s, a)
    ensures var t := Next(s, a);
            && !t.running && Count(t.workers, Asleep) == 0
            && (if a.Work? then Measure(t) < Measure(s) else Measure(t) == Measure(s))
            && t.accepted == s.accepted
  {
    hide Count, LeftAll, WorkerNext, CallerNext;
    match a
    case Work(i) =>
      OnlyOneMoves(s, i);
      StoppedWork(s, i);
      var pc := WorkerNext(s, i).workers[i];
      CountSet(s.workers, i, pc, Asleep);
      LeftSet(s.workers, i, pc);
    case Spurious(i) =>
      CountZero(s.workers, Asleep);
      assert false;
    case Proceed(woken) =>
      StoppedCaller(s, woken);
    case _ =>
  }

  /** Nothing left to do for the workers. */
  predicate AtRest<T>(s: Pool<T>) {
    s.owner.Free? && forall i | 0 <= i < |s.workers| :: !Enabled(s, Work(i))
  }

  /** When a stopped pool of at least one worker comes to rest, every worker has left, the queue is
      empty, and every accepted task has run exactly once. */
  lemma ShutdownDrains<T(!new)>(s: Pool<T>)
    requires Reachable(s) && Stopped(s) && AtRest(s) && s.workers != []
    ensures forall i | 0 <= i < |s.workers| :: s.workers[i].Gone?
    ensures s.queue == [] && s.started == s.accepted
    ensures multiset(s.finished) == multiset(s.accepted)
  {
    InvReachable(s);
    CountZero(s.workers, Asleep);
    forall i | 0 <= i < |s.workers|
      ensures s.workers[i].Gone?
    {
      assert !Is(s.workers[i], Asleep) && !Enabled(s, Work(i));
    }
    assert s.workers[0].Gone?;
    InHandInit(s.workers);
    assert multiset(s.finished) + multiset{} == multiset(s.finished);
    assert s.started + [] == s.started;
  }

  function WorkSteps<T>(acts: seq<Action<T>>): nat {
    if acts == [] then 0 else (if acts[0].Work? then 1 else 0) + WorkSteps(acts[1..])
  }

  /** After Stop the workers take only finitely many more steps, whatever callers do meanwhile: each
      step counts against a measure fixed at that moment. */
  lemma {:induction false} ShutdownTerminates<T>(s: Pool<T>, acts: seq<Action<T>>)
    requires Inv(s) && !s.running && Count(s.workers, Asleep) == 0 && Follows(s, acts)
    ensures WorkSteps(acts) + Measure(After(s, acts)) <= Measure(s)
    ensures After(s, acts).accepted == s.accepted
    decreases |acts|
  {
    hide Count, Inv, Enabled, Next, Measure;
    if acts != [] {
      StoppedStep(s, acts[0]);
      InvStep(s, acts[0]);
      ShutdownTerminates(Next(s, acts[0]), acts[1..]);
    }
  }

  /** Somebody can always go on until everybody has left: a caller, or a worker. */
  lemma NeverStuck<T(!new)>(s: Pool<T>)
    requires Reachable(s) && Stopped(s)
    requires exists i :: 0 <= i < |s.workers| && !s.workers[i].Gone?
    ensures (exists i: nat :: Enabled(s, Work(i))) || (exists woken :: Enabled(s, Proceed(woken)))
  {
    InvReachable(s);
    CountZero(s.workers, Asleep);
    match s.owner
    case Free =>
      var i :| 0 <= i < |s.workers| && !s.workers[i].Gone?;
      assert !Is(s.workers[i], Asleep);
      assert Enabled(s, Work(i));
    case Worker(i) =>
      assert Enabled(s, Work(i));
    case Client(at) =>
      var woken := seq(|s.workers|, _ => true);
      assert forall i | 0 <= i < |s.workers| :: !Is(s.workers[i], Asleep);
      assert Enabled(s, Proceed(woken));
  }
}
