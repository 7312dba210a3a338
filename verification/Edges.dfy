/** One descriptor under edge-triggered epoll: an event is reported once, so whatever a handler leaves
    unread must be behind an event that is still to come. */
module Edges {
  import opened Kernel
  import opened Loops

  /** The listening socket with its Accepter, or a connection with its HandlerRecv. */
  datatype Kind = Accepting | Receiving

  /** What waits in the socket (connections, or bytes), whether the peer has closed, whether an event is
      pending, whether the handler is running, whether it met an interruption, and whether the connection
      was removed. */
  datatype Fd = Fd(queue: nat, closed: bool, edge: bool, busy: bool, interrupted: bool, gone: bool)

  datatype Action =
    | Arrive | Close       // the peer
    | Rearm                // EPOLL_CTL_MOD by EnableReadWrite looks at the socket again
    | Report               // epoll_wait returns the event and the handler starts
    | Take(n: nat)         // accept or recv delivers
    | TryAgain             // EAGAIN
    | Retry                // EINTR
    | EndOfFile            // recv returns 0
    | Fail(lost: nat)      // another error; an aborted connection is gone from the queue, EMFILE takes none

  predicate Running(s: Fd) { s.busy && !s.gone }

  predicate Enabled(kind: Kind, s: Fd, a: Action) {
    match a
    case Arrive => !s.closed && !s.gone
    case Close => kind.Receiving? && !s.closed && !s.gone
    case Rearm => kind.Receiving? && !s.gone
    case Report => s.edge && !s.busy && !s.gone
    case Take(n) => Running(s) && 0 < n <= s.queue && n < (if kind.Accepting? then 2 else 1024)
    case TryAgain => Running(s) && s.queue == 0 && !s.closed
    case Retry => Running(s)
    case EndOfFile => kind.Receiving? && Running(s) && s.queue == 0 && s.closed
    case Fail(lost) => Running(s) && lost <= s.queue && lost <= (if kind.Accepting? then 1 else 0)
  }

  function Next(kind: Kind, s: Fd, a: Action): Fd
    requires Enabled(kind, s, a)
  {
    match a
    case Arrive => s.(queue := s.queue + 1, edge := true)
    case Close => s.(closed := true, edge := true)
    case Rearm => s.(edge := s.edge || Readable(s))
    case Report => s.(edge := false, busy := true, interrupted := false)
    case Take(n) => s.(queue := s.queue - n)
    case TryAgain => s.(busy := false)
    case Retry => s.(interrupted := true)
    // the errno of an earlier interruption is still there
    case EndOfFile => if s.interrupted then s else s.(busy := false, gone := true)
    // the accept loop breaks off, the receive loop removes the connection
    case Fail(lost) =>
      if kind.Accepting? then s.(busy := false, queue := s.queue - lost) else s.(busy := false, gone := true)
  }

  predicate Readable(s: Fd) { s.queue > 0 || s.closed }

  /** Something waits, nobody is looking, and no event will tell. */
  predicate Stuck(s: Fd) {
    Readable(s) && !s.edge && !s.busy && !s.gone
  }

  /** The accept loop breaks off on an error, leaving clients in the queue, and none has arrived since its
      event was reported. */
  predicate Loses(kind: Kind, s: Fd, a: Action) {
    kind.Accepting? && a.Fail? && s.queue > a.lost && !s.edge
  }

  predicate Follows(kind: Kind, s: Fd, acts: seq<Action>)
    decreases |acts|
  {
    acts != [] ==> Enabled(kind, s, acts[0]) && Follows(kind, Next(kind, s, acts[0]), acts[1..])
  }

  function After(kind: Kind, s: Fd, acts: seq<Action>): Fd
    requires Follows(kind, s, acts)
    decreases |acts|
  {
    if acts == [] then s else After(kind, Next(kind, s, acts[0]), acts[1..])
  }

  /** Nobody is stuck at any moment of the run. */
  predicate NeverStuck(kind: Kind, s: Fd, acts: seq<Action>)
    requires Follows(kind, s, acts)
    decreases |acts|
  {
    !Stuck(s) && (acts != [] ==> NeverStuck(kind, Next(kind, s, acts[0]), acts[1..]))
  }

  predicate NeverLoses(kind: Kind, s: Fd, acts: seq<Action>)
    requires Follows(kind, s, acts)
    decreases |acts|
  {
    acts != [] ==> !Loses(kind, s, acts[0]) && NeverLoses(kind, Next(kind, s, acts[0]), acts[1..])
  }

  /** The step that makes a descriptor stuck is exactly a losing one. */
  lemma StepLoses(kind: Kind, s: Fd, a: Action)
    requires !Stuck(s) && Enabled(kind, s, a) && (kind.Accepting? ==> !s.closed)
    ensures Stuck(Next(kind, s, a)) <==> Loses(kind, s, a)
  {}

  /** No edge is lost: in every run, whatever waits is behind a pending event whenever the handler is not
      running, if and only if no accept loop breaks off on an error with clients left and no new event. */
  lemma {:induction false} NoEdgeLost(kind: Kind, s: Fd, acts: seq<Action>)
    requires !Stuck(s) && Follows(kind, s, acts) && (kind.Accepting? ==> !s.closed)
    ensures NeverStuck(kind, s, acts) <==> NeverLoses(kind, s, acts)
    decreases |acts|
  {
    if acts != [] {
      StepLoses(kind, s, acts[0]);
      if !Loses(kind, s, acts[0]) {
        NoEdgeLost(kind, Next(kind, s, acts[0]), acts[1..]);
      }
    }
  }

  lemma {:induction false} ReceiverNeverLoses(s: Fd, acts: seq<Action>)
    requires Follows(Receiving, s, acts)
    ensures NeverLoses(Receiving, s, acts)
    decreases |acts|
  {
    if acts != [] {
      ReceiverNeverLoses(Next(Receiving, s, acts[0]), acts[1..]);
    }
  }

  /** A connection never gets stuck: HandlerRecv leaves it only when it is empty, or removes it. */
  lemma ReceiverNeverStuck(s: Fd, acts: seq<Action>)
    requires !Stuck(s) && Follows(Receiving, s, acts)
    ensures NeverStuck(Receiving, s, acts)
  {
    ReceiverNeverLoses(s, acts);
    NoEdgeLost(Receiving, s, acts);
  }

  /** A stuck listening socket stays stuck, with its clients waiting, until another client arrives: every
      way the run can go on begins with that. */
  lemma StuckUntilArrival(s: Fd, acts: seq<Action>)
    requires Stuck(s) && Follows(Accepting, s, acts) && acts != []
    ensures acts[0] == Arrive
  {
    assert Enabled(Accepting, s, acts[0]);
  }

  /** A run that gets there: two clients, one event, and the first accept fails with ECONNABORTED. */
  lemma AbortedConnection()
    ensures var s, acts := Fd(0, false, false, false, false, false), [Arrive, Arrive, Report, Fail(1)];
            && Follows(Accepting, s, acts) && Stuck(After(Accepting, s, acts))
            && After(Accepting, s, acts).queue == 1
  {
    var s0 := Fd(0, false, false, false, false, false);
    var s1 := Next(Accepting, s0, Arrive);
    var s2 := Next(Accepting, s1, Arrive);
    var s3 := Next(Accepting, s2, Report);
    FollowsOne(Accepting, s3, Fail(1), []);
    FollowsOne(Accepting, s2, Report, [Fail(1)]);
    FollowsOne(Accepting, s1, Arrive, [Report, Fail(1)]);
    FollowsOne(Accepting, s0, Arrive, [Arrive, Report, Fail(1)]);
    assert [Arrive] + [Arrive, Report, Fail(1)] == [Arrive, Arrive, Report, Fail(1)];
    assert [Arrive] + [Report, Fail(1)] == [Arrive, Report, Fail(1)];
    assert [Report] + [Fail(1)] == [Report, Fail(1)] && [Fail(1)] + [] == [Fail(1)];
  }

  lemma FollowsOne(kind: Kind, s: Fd, a: Action, rest: seq<Action>)
    requires Enabled(kind, s, a) && Follows(kind, Next(kind, s, a), rest)
    ensures Follows(kind, s, [a] + rest) && After(kind, s, [a] + rest) == After(kind, Next(kind, s, a), rest)
  {
    assert ([a] + rest)[1..] == rest;
  }

  // ------------------------------------------------ these are the two loops

  function AcceptAnswer(a: Action): (r: seq<AcceptResult>)
    ensures |r| <= 1
  {
    match a
    case Take(_) => [Incoming]
    case TryAgain => [AcceptFailed(Again)]
    case Retry => [AcceptFailed(Interrupted)]
    case Fail(_) => [AcceptFailed(OtherError)]
    case _ => []
  }

  /** The answers accept gives in a stretch of a run. */
  function AcceptAnswers(acts: seq<Action>): seq<AcceptResult> {
    if acts == [] then [] else AcceptAnswer(acts[0]) + AcceptAnswers(acts[1..])
  }

  lemma AcceptLoopStep(answer: seq<AcceptResult>, rest: seq<AcceptResult>)
    requires |answer| <= 1
    ensures AcceptLoop(answer + rest).back
            == if answer == [] || answer[0] in {Incoming, AcceptFailed(Interrupted)} then AcceptLoop(rest).back else true
  {
    if answer == [] {
      assert answer + rest == rest;
    } else {
      assert (answer + rest)[1..] == rest;
    }
  }

  /** During one call, the handler is running exactly as long as the accept loop does on those answers. */
  lemma {:induction false} RunsAsAcceptLoop(s: Fd, acts: seq<Action>)
    requires Follows(Accepting, s, acts) && Report !in acts
    ensures if Running(s) then Running(After(Accepting, s, acts)) <==> !AcceptLoop(AcceptAnswers(acts)).back
            else !Running(After(Accepting, s, acts)) && AcceptAnswers(acts) == []
    decreases |acts|
  {
    hide AcceptLoop;
    if acts == [] {
      NoAnswersYet();
    } else {
      assert acts == [acts[0]] + acts[1..];
      RunsAsAcceptLoop(Next(Accepting, s, acts[0]), acts[1..]);
      AcceptLoopStep(AcceptAnswer(acts[0]), AcceptAnswers(acts[1..]));
    }
  }

  lemma NoAnswersYet()
    ensures !AcceptLoop([]).back
    ensures forall errno :: RecvLoop([], errno).exit == RecvStarved
  {}

  function RecvAnswer(a: Action): (r: seq<RecvResult>)
    ensures |r| <= 1
  {
    match a
    case Take(n) => if 0 < n < 1024 then [Data(seq(n, _ => 'x'))] else []
    case TryAgain => [RecvFailed(Again)]
    case Retry => [RecvFailed(Interrupted)]
    case EndOfFile => [Eof]
    case Fail(_) => [RecvFailed(OtherError)]
    case _ => []
  }

  function RecvAnswers(acts: seq<Action>): seq<RecvResult> {
    if acts == [] then [] else RecvAnswer(acts[0]) + RecvAnswers(acts[1..])
  }

  function ErrnoOf(s: Fd): Errno { if s.interrupted then Interrupted else NoError }

  lemma RecvLoopStep(answer: seq<RecvResult>, rest: seq<RecvResult>, errno: Errno)
    requires |answer| <= 1 && (errno == NoError || errno == Interrupted)
    ensures RecvLoop(answer + rest, errno).exit ==
            if answer == [] || answer[0].Data? then RecvLoop(rest, errno).exit
            else
              var e := if answer[0].RecvFailed? then answer[0].errno else errno;
              if e == Interrupted then RecvLoop(rest, Interrupted).exit else if e == Again then UpToDate else RecvBroken
  {
    if answer == [] {
      assert answer + rest == rest;
    } else {
      assert (answer + rest)[1..] == rest;
      if !answer[0].Data? {
        var e := if answer[0].RecvFailed? then answer[0].errno else errno;
        assert RecvLoop(answer + rest, errno) == RecvNothing(rest, e);
      }
    }
  }

  lemma RecvAction(s: Fd, a: Action, rest: seq<RecvResult>)
    requires Enabled(Receiving, s, a) && a != Report
    ensures var n := Next(Receiving, s, a);
            if Running(s) then
              var exit := RecvLoop(RecvAnswer(a) + rest, ErrnoOf(s)).exit;
              exit == if Running(n) then RecvLoop(rest, ErrnoOf(n)).exit else if n.gone then RecvBroken else UpToDate
            else RecvAnswer(a) == [] && !Running(n) && n.gone == s.gone
  {
    hide RecvLoop;
    RecvLoopStep(RecvAnswer(a), rest, ErrnoOf(s));
  }

  /** And the receive loop: it is running, left the connection empty, or gave it up, alike. */
  lemma {:induction false} RunsAsRecvLoop(s: Fd, acts: seq<Action>)
    requires Follows(Receiving, s, acts) && Report !in acts
    ensures var t := After(Receiving, s, acts);
            if Running(s) then
              var exit := RecvLoop(RecvAnswers(acts), ErrnoOf(s)).exit;
              && (Running(t) <==> exit == RecvStarved) && (t.gone <==> exit == RecvBroken)
            else !Running(t) && t.gone == s.gone && RecvAnswers(acts) == []
    decreases |acts|
  {
    if acts == [] {
      NoAnswersYet();
    } else {
      hide RecvLoop, RecvAnswer, Next, Enabled, Running;
      assert acts == [acts[0]] + acts[1..];
      RunsAsRecvLoop(Next(Receiving, s, acts[0]), acts[1..]);
      RecvAction(s, acts[0], RecvAnswers(acts[1..]));
    }
  }
}
