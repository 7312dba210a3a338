/** A fixed table of descriptors with -1 for an empty slot, seen as the set of descriptors in it. */
module FdTable {
  import opened Kernel

  const DEFAULTFD: int := -1

  /** How a step of a select or poll server ends: it is over, a system call has not come back, the null
      result of a failed accept was used, or a descriptor was used that an fd_set has no bit for. */
  datatype Status = Done | Stalled | NullSocket | OutOfBounds

  function Live(slots: seq<int>): set<int> {
    set i | 0 <= i < |slots| && slots[i] != DEFAULTFD :: slots[i]
  }

  /** No descriptor is in two slots. */
  predicate Distinct(slots: seq<int>) {
    forall i, j | 0 <= i < j < |slots| && slots[i] != DEFAULTFD :: slots[i] != slots[j]
  }

  predicate Full(slots: seq<int>) {
    forall i | 0 <= i < |slots| :: slots[i] != DEFAULTFD
  }

  /** `r` is `slots` with `fd` in its first empty slot. */
  ghost predicate Stored(slots: seq<int>, fd: int, r: seq<int>) {
    exists i | 0 <= i < |slots| ::
      slots[i] == DEFAULTFD && (forall j | 0 <= j < i :: slots[j] != DEFAULTFD) && r == slots[i := fd]
  }

  lemma Store(slots: seq<int>, i: nat, fd: int)
    requires Distinct(slots) && i < |slots| && slots[i] == DEFAULTFD
    requires fd != DEFAULTFD && fd !in Live(slots)
    ensures Distinct(slots[i := fd]) && Live(slots[i := fd]) == Live(slots) + {fd}
  {
    var r := slots[i := fd];
    forall d | d in Live(slots) + {fd}
      ensures d in Live(r)
    {
      if d == fd {
        assert r[i] == d;
      } else {
        var j :| 0 <= j < |slots| && slots[j] != DEFAULTFD && slots[j] == d;
        assert r[j] == d;
      }
    }
    forall j, k | 0 <= j < k < |r| && r[j] != DEFAULTFD
      ensures r[j] != r[k]
    {
      assert j != i ==> r[j] == slots[j] && slots[j] in Live(slots);
      assert k != i && slots[k] != DEFAULTFD ==> r[k] == slots[k] && slots[k] in Live(slots);
    }
  }

  lemma Clear(slots: seq<int>, i: nat)
    requires Distinct(slots) && i < |slots| && slots[i] != DEFAULTFD
    ensures Distinct(slots[i := DEFAULTFD]) && Live(slots[i := DEFAULTFD]) == Live(slots) - {slots[i]}
  {
    var r := slots[i := DEFAULTFD];
    forall d | d in Live(slots) - {slots[i]}
      ensures d in Live(r)
    {
      var j :| 0 <= j < |slots| && slots[j] != DEFAULTFD && slots[j] == d;
      assert r[j] == d;
    }
    forall d | d in Live(r)
      ensures d in Live(slots) && d != slots[i]
    {
      var j :| 0 <= j < |r| && r[j] != DEFAULTFD && r[j] == d;
      assert slots[j] == d && (j < i || i < j);
    }
  }

  /** A table with distinct entries is full exactly when it holds as many descriptors as it has slots. */
  lemma {:induction false} FullMeansCapacity(slots: seq<int>)
    requires Distinct(slots)
    ensures |Live(slots)| <= |slots| && (|Live(slots)| == |slots| <==> Full(slots))
  {
    if slots == [] {
      assert Live(slots) == {};
    } else {
      var n := |slots| - 1;
      var front := slots[..n];
      FullMeansCapacity(front);
      assert forall j | 0 <= j < n :: front[j] == slots[j];
      if slots[n] == DEFAULTFD {
        LiveFront(slots);
        assert Live(slots) == Live(front);
      } else {
        LiveFront(slots);
        assert Live(slots) == Live(front) + {slots[n]};
        assert slots[n] !in Live(front);
      }
    }
  }

  lemma LiveFront(slots: seq<int>)
    requires slots != []
    ensures var n := |slots| - 1;
            Live(slots) == Live(slots[..n]) + (if slots[n] == DEFAULTFD then {} else {slots[n]})
  {
    var n := |slots| - 1;
    var front := slots[..n];
    forall d | d in Live(slots)
      ensures d in Live(front) || d == slots[n] != DEFAULTFD
    {
      var i :| 0 <= i < |slots| && slots[i] != DEFAULTFD && slots[i] == d;
      if i < n {
        assert front[i] == d;
      }
    }
    forall d | d in Live(front)
      ensures d in Live(slots)
    {
      var i :| 0 <= i < n && front[i] != DEFAULTFD && front[i] == d;
      assert slots[i] == d;
    }
  }

  /** The descriptors in slots `from` and up that are in `ready`, in slot order. */
  function ReadyFrom(slots: seq<int>, ready: set<int>, from: nat): seq<int>
    decreases |slots| - from
  {
    if from >= |slots| then []
    else (if slots[from] != DEFAULTFD && slots[from] in ready then [slots[from]] else [])
         + ReadyFrom(slots, ready, from + 1)
  }

  lemma NoneReadyBehind(slots: seq<int>, ready: set<int>, before: seq<int>)
    ensures before + ReadyFrom(slots, ready, |slots|) == before
  {}

  /** Servicing slot `from` when its turn comes. */
  lemma ReadyStep(slots: seq<int>, ready: set<int>, from: nat, before: seq<int>)
    requires from < |slots|
    ensures before + ReadyFrom(slots, ready, from)
            == (if slots[from] != DEFAULTFD && slots[from] in ready then before + [slots[from]] else before)
               + ReadyFrom(slots, ready, from + 1)
  {}

  /** They are exactly the ready descriptors of those slots, each once. */
  lemma {:induction false} ReadyFromExact(slots: seq<int>, ready: set<int>, from: nat)
    requires Distinct(slots)
    ensures var r := ReadyFrom(slots, ready, from);
            && (forall d :: d in r <==> d in ready && exists i | from <= i < |slots| :: slots[i] == d != DEFAULTFD)
            && (forall j, k | 0 <= j < k < |r| :: r[j] != r[k])
    decreases |slots| - from
  {
    if from < |slots| {
      ReadyFromExact(slots, ready, from + 1);
    }
  }

  // ------------------------------------------------------------- the rounds

  /** What a server asked for in its rounds, put together. */
  function Flatten(asked: seq<seq<int>>): seq<int> {
    if asked == [] then [] else Flatten(asked[..|asked| - 1]) + asked[|asked| - 1]
  }

  /** How many of the reports have the listening socket. */
  function Knocks(reports: seq<set<int>>, listenfd: int): nat {
    if reports == [] then 0
    else Knocks(reports[..|reports| - 1], listenfd) + if listenfd in reports[|reports| - 1] then 1 else 0
  }

  /** recv was called on reported clients only, and on none of them twice. */
  ghost predicate Begun(listenfd: int, report: set<int>, asked: seq<int>) {
    && (forall d | d in asked :: d in report && d != listenfd)
    && forall j, k | 0 <= j < k < |asked| :: asked[j] != asked[k]
  }

  /** It was called on every one of them. */
  ghost predicate Serviced(listenfd: int, report: set<int>, asked: seq<int>) {
    Begun(listenfd, report, asked) && forall d | d in report && d != listenfd :: d in asked
  }

  /** Of the reports, the first `over` were serviced, and the others begun. */
  ghost predicate Rounds(listenfd: int, reports: seq<set<int>>, asked: seq<seq<int>>, over: nat) {
    && |asked| == |reports|
    && (forall k | 0 <= k < |reports| :: Begun(listenfd, reports[k], asked[k]))
    && forall k | 0 <= k < |reports| && k < over :: Serviced(listenfd, reports[k], asked[k])
  }

  lemma NoRounds(listenfd: int)
    ensures Rounds(listenfd, [], [], 0) && Flatten([]) == [] && Knocks([], listenfd) == 0
  {}

  lemma OneMoreRound(listenfd: int, reports: seq<set<int>>, asked: seq<seq<int>>, report: set<int>, more: seq<int>,
                     before: seq<int>)
    requires Rounds(listenfd, reports, asked, |asked|) && Begun(listenfd, report, more)
    ensures Rounds(listenfd, reports + [report], asked + [more], |asked|)
    ensures Serviced(listenfd, report, more) ==> Rounds(listenfd, reports + [report], asked + [more], |asked| + 1)
    ensures before + Flatten(asked + [more]) == before + Flatten(asked) + more
    ensures Knocks(reports + [report], listenfd) == Knocks(reports, listenfd) + if listenfd in report then 1 else 0
  {
    hide Begun, Serviced;
    assert (asked + [more])[..|asked|] == asked && (reports + [report])[..|reports|] == reports;
  }

  /** accept was called once, recv never. */
  ghost predicate AcceptCalled(before: Record, after: Record) {
    && after.acceptCalls == before.acceptCalls + 1
    && after.asked == before.asked && after.reports == before.reports
  }

  /** recv was called once, on `fd`, and accept never. */
  ghost predicate RecvCalled(before: Record, after: Record, fd: int) {
    && after.asked == before.asked + [fd]
    && after.acceptCalls == before.acceptCalls && after.reports == before.reports
  }

  /** What a scan has done about the listening socket, `news` being what it stored: if that was reported,
      accept was called once and gave a client, which got a slot unless the table was full. */
  ghost predicate Heard(ready: bool, full: bool, before: seq<AcceptResult>, after: seq<AcceptResult>,
                        callsBefore: nat, callsAfter: nat, news: seq<int>)
  {
    if ready then
      && before != [] && before[0] == Incoming && after == before[1..]
      && callsAfter == callsBefore + 1 && |news| == if full then 0 else 1
    else
      after == before && callsAfter == callsBefore && news == []
  }

  /** Scanning the slots after the listening socket's for a report services it; and stopping early begins to. */
  lemma ScanServices(slots: seq<int>, listenfd: int, report: set<int>, asked: seq<int>)
    requires Distinct(slots) && slots != [] && slots[0] == listenfd != DEFAULTFD && report <= Live(slots)
    requires asked <= ReadyFrom(slots, report, 1)
    ensures Begun(listenfd, report, asked)
    ensures asked == ReadyFrom(slots, report, 1) ==> Serviced(listenfd, report, asked)
  {
    hide ReadyFrom;
    ReadyFromExact(slots, report, 1);
    var all := ReadyFrom(slots, report, 1);
    assert forall d | d in asked :: d in all;
    assert forall k | 0 <= k < |asked| :: asked[k] == all[k];
  }

  /** What one scan did is what the report calls for. */
  lemma ScanIsRound(slots: seq<int>, listenfd: int, report: set<int>, before: seq<int>, after: seq<int>)
    requires Distinct(slots) && slots != [] && slots[0] == listenfd >= 0 && report <= Live(slots)
    requires before <= after <= before + ReadyFrom(slots, report, 1)
    ensures before + after[|before|..] == after && Begun(listenfd, report, after[|before|..])
    ensures after == before + ReadyFrom(slots, report, 1) ==> Serviced(listenfd, report, after[|before|..])
  {
    hide ReadyFrom, Distinct, Live, Begun, Serviced;
    ScanServices(slots, listenfd, report, after[|before|..]);
  }
}
