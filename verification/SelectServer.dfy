/** The select server: an array of descriptors, scanned while it changes. */
module SelectServer {
  import opened Kernel
  import opened FdTable

  const N: nat := 1024  // bits in an fd_set

  /** Descriptors that have a bit in an fd_set. */
  ghost predicate InBounds(fds: set<int>) { forall fd | fd in fds :: fd < N }

  predicate AllBelow(fds: seq<int>) { forall fd | fd in fds :: fd < N }

  /** `news` is what this scan stored so far; slots from `from` on are still to be scanned, and a descriptor
      without a bit is one of both. */
  ghost predicate Unscanned(slots: seq<int>, news: seq<int>, from: nat) {
    && |news| <= 1
    && (forall j | 0 <= j < |slots| && slots[j] >= N :: news == [slots[j]] && from <= j)
    && (!AllBelow(news) ==> exists j | from <= j < |slots| :: slots[j] == news[0])
  }

  lemma ScanStarts(slots: seq<int>)
    requires forall j | 0 <= j < |slots| :: slots[j] < N
    ensures Unscanned(slots, [], 0)
  {}

  /** Slot `i` is left as it is, or emptied. */
  lemma ScanSlot(slots: seq<int>, news: seq<int>, i: nat)
    requires i < |slots| && Unscanned(slots, news, i)
    ensures if slots[i] >= N then !AllBelow(news)
            else Unscanned(slots, news, i + 1) && Unscanned(slots[i := DEFAULTFD], news, i + 1)
  {
    if slots[i] >= N {
      assert news[0] in news;
    } else if !AllBelow(news) {
      var j :| i <= j < |slots| && slots[j] == news[0];
      assert slots[i := DEFAULTFD][j] == news[0];
    }
  }

  /** Slot 0 stores a client in a later slot. */
  lemma ScanStores(slots: seq<int>, fd: int, next: seq<int>)
    requires slots != [] && slots[0] != DEFAULTFD && slots[0] < N
    requires Unscanned(slots, [], 0) && Stored(slots, fd, next)
    ensures Unscanned(next, [fd], 1)
  {
    var i :| 0 <= i < |slots| && slots[i] == DEFAULTFD && next == slots[i := fd];
    assert next[i] == fd && i != 0;
    assert forall j | 0 <= j < |slots| :: slots[j] < N;
  }

  lemma ScanEnds(slots: seq<int>, news: seq<int>)
    requires Unscanned(slots, news, |slots|)
    ensures AllBelow(news) && forall j | 0 <= j < |slots| :: slots[j] < N
  {}

  class Server {
    const listenfd: int
    const kernel: Sockets
    const fdArray: array<int>
    ghost var stored: seq<int>  // the accepted descriptors that got a slot

    /** The table holds exactly the open sockets, each in one slot, and the listening one in slot 0. */
    ghost predicate Table()
      reads fdArray, kernel`open
    {
      && fdArray.Length == N && 0 <= listenfd && fdArray[0] == listenfd
      && Distinct(fdArray[..]) && Live(fdArray[..]) == kernel.open
    }

    constructor (sockets: Sockets, listener: int)
      requires sockets.open == {listener} && 0 <= listener
      ensures Table() && fresh(fdArray) && kernel == sockets && listenfd == listener && stored == []
    {
      listenfd, kernel, stored := listener, sockets, [];
      fdArray := new int[N];
      new;
      for i := 0 to N
        modifies fdArray
        invariant forall j | 0 <= j < i :: fdArray[j] == DEFAULTFD
      {
        fdArray[i] := DEFAULTFD;
      }
      fdArray[0] := listenfd;
      assert fdArray[..][0] == listenfd;
      assert Live(fdArray[..]) == {listenfd};
    }

    /** A new client gets the first empty slot; if there is none, its socket is closed again. */
    method AcceptClient() returns (status: Status, ghost fd: int)
      requires Table()
      modifies fdArray, kernel`open, kernel`interest, kernel`accepts, kernel`record, `stored
      ensures Table() && status != OutOfBounds
      ensures status == (if old(kernel.accepts) == [] then Stalled
                         else if old(kernel.accepts)[0] == Incoming then Done else NullSocket)
      ensures kernel.accepts == if old(kernel.accepts) == [] then [] else old(kernel.accepts)[1..]
      ensures AcceptCalled(old(kernel.record), kernel.record)
      ensures status != Done ==> fdArray[..] == old(fdArray[..])
      ensures stored == old(stored) + if status == Done && |old(kernel.open)| != N then [fd] else []
      ensures status == Done ==> fd >= 0 && fd !in old(kernel.open)
      ensures status == Done ==>
                if |old(kernel.open)| == N then fdArray[..] == old(fdArray[..]) && kernel.open == old(kernel.open)
                else Stored(old(fdArray[..]), fd, fdArray[..]) && kernel.open == old(kernel.open) + {fd}
    {
      FullMeansCapacity(fdArray[..]);
      var r, sockfd := kernel.Accept();
      fd := sockfd;
      if r.None? {
        return Stalled, fd;
      }
      if r.value != Incoming {
        return NullSocket, fd;
      }
      status := Done;
      var pos := 1;
      while pos < N && fdArray[pos] != DEFAULTFD
        invariant 1 <= pos <= N
        invariant forall j | 0 <= j < pos :: fdArray[..][j] != DEFAULTFD
      {
        pos := pos + 1;
      }
      if pos == N {
        kernel.Close(sockfd);
      } else {
        Store(fdArray[..], pos, sockfd);
        fdArray[pos] := sockfd;
        stored := stored + [sockfd];
        assert fdArray[..] == old(fdArray[..])[pos := sockfd];
      }
    }

    /** One recv on the client in slot `pos`; its slot is emptied when there is nothing more to come. */
    method ServiceIO(pos: nat) returns (status: Status)
      requires Table() && 0 < pos < N && fdArray[pos] != DEFAULTFD
      modifies fdArray, kernel`open, kernel`interest, kernel`recvs, kernel`record
      ensures Table()
      ensures status in {Done, Stalled} && (status == Stalled <==> old(kernel.recvs) == [])
      ensures kernel.recvs == if status == Stalled then [] else old(kernel.recvs)[1..]
      ensures RecvCalled(old(kernel.record), kernel.record, old(fdArray[pos]))
      ensures var gone := status == Done && !old(kernel.recvs)[0].Data?;
              && fdArray[..] == (if gone then old(fdArray[..])[pos := DEFAULTFD] else old(fdArray[..]))
              && kernel.open == old(kernel.open) - (if gone then {old(fdArray[pos])} else {})
    {
      assert fdArray[..][pos] in Live(fdArray[..]);
      var r := kernel.Recv(fdArray[pos]);
      if r.None? {
        return Stalled;
      }
      status := Done;
      if !r.value.Data? {
        kernel.Close(fdArray[pos]);
        Clear(fdArray[..], pos);
        fdArray[pos] := DEFAULTFD;
        assert fdArray[..] == old(fdArray[..])[pos := DEFAULTFD];
      }
    }

    /** Only slot 0 holds the listening socket, and only sockets are in the set. */
    lemma ListenerInFront()
      requires Table()
      ensures forall i | 0 < i < N :: fdArray[i] != listenfd
      ensures DEFAULTFD !in kernel.open
    {
      assert forall i | 0 <= i < N :: fdArray[..][i] == fdArray[i];
    }

    /** Slots not reached yet hold what they held when select returned, or one client accepted since. */
    static ghost predicate Ahead(was: seq<int>, now: seq<int>, rfds: set<int>, from: nat) {
      && |was| == |now|
      && forall j | from <= j < |now| && now[j] != was[j] :: was[j] == DEFAULTFD && now[j] !in rfds
    }

    lemma BoundedTable()
      requires Table() && forall i | 0 <= i < N :: fdArray[i] < N
      ensures InBounds(kernel.open)
    {}

    lemma BoundedSlots()
      requires Table() && InBounds(kernel.open)
      ensures forall i | 0 <= i < N :: fdArray[i] < N
    {
      assert forall i | 0 <= i < N :: fdArray[i] == fdArray[..][i]
                                      && (fdArray[..][i] != DEFAULTFD ==> fdArray[..][i] in Live(fdArray[..]));
    }

    /** One scan of the table: it calls recv on exactly the clients that were ready when select
        returned, each once, in slot order; clients accepted during the scan are left alone. A client is
        accepted if and only if the listening socket was ready, and stored if and only if a slot was empty.
        But FD_ISSET also looks at such a client, so the scan runs out of the fd_set exactly when the
        descriptor accepted and stored in it has no bit there. */
    method HandlerRead(rfds: set<int>) returns (status: Status)
      requires Table() && rfds <= kernel.open && InBounds(kernel.open)
      modifies fdArray, kernel`open, kernel`interest, kernel`accepts, kernel`recvs, kernel`record, `stored
      ensures Table() && kernel.record.reports == old(kernel.record.reports)
      ensures status == Done ==> kernel.record.asked == old(kernel.record.asked) + ReadyFrom(old(fdArray[..]), rfds, 1)
      ensures old(kernel.record.asked) <= kernel.record.asked
              <= old(kernel.record.asked) + ReadyFrom(old(fdArray[..]), rfds, 1)
      ensures old(stored) <= stored && |stored| <= |old(stored)| + 1
      ensures status in {Done, OutOfBounds} ==>
                Heard(listenfd in rfds, |old(kernel.open)| == N, old(kernel.accepts), kernel.accepts,
                      old(kernel.record.acceptCalls), kernel.record.acceptCalls, stored[|old(stored)|..])
      ensures listenfd !in rfds ==> kernel.accepts == old(kernel.accepts) && stored == old(stored)
      ensures status in {Done, OutOfBounds} ==> (status == OutOfBounds <==> !AllBelow(stored[|old(stored)|..]))
      ensures status == Done ==> InBounds(kernel.open)
    {
      hide Distinct, Live, Unscanned, InBounds, AllBelow, ReadyFrom;
      status := Done;
      ghost var was := fdArray[..];
      ghost var news: seq<int> := [];
      ListenerInFront();
      BoundedSlots();
      ScanStarts(was);
      // slot 0: the listening socket, before any client is closed
      for i := 0 to N
        invariant Table() && status == Done && kernel.record.reports == old(kernel.record.reports)
        invariant i == 0 ==> fdArray[..] == was && kernel.open == old(kernel.open) && news == []
        invariant Heard(i > 0 && listenfd in rfds, |old(kernel.open)| == N, old(kernel.accepts), kernel.accepts,
                        old(kernel.record.acceptCalls), kernel.record.acceptCalls, news)
        invariant Ahead(was, fdArray[..], rfds, i)
        invariant old(kernel.record.asked) <= kernel.record.asked
        invariant old(kernel.record.asked) + ReadyFrom(was, rfds, 1)
                  == kernel.record.asked + ReadyFrom(was, rfds, if i == 0 then 1 else i)
        invariant stored == old(stored) + news && |news| <= 1 && Unscanned(fdArray[..], news, i)
      {
        ghost var now := fdArray[..];
        assert now[i] == fdArray[i] && stored[|old(stored)|..] == news;
        ScanSlot(now, news, i);
        ReadyStep(was, rfds, i, kernel.record.asked);
        if fdArray[i] == DEFAULTFD {
          continue;
        }
        if fdArray[i] >= N {
          // FD_ISSET reads outside the set
          return OutOfBounds;
        }
        ListenerInFront();
        if fdArray[i] in rfds {
          if fdArray[i] == listenfd {
            ghost var fd;
            assert i == 0;
            status, fd := AcceptClient();
            if status == Done && |stored| > |old(stored)| {
              news := [fd];
              assert now == was;
              ScanStores(now, fd, fdArray[..]);
            } else {
              assert status == Done ==> fdArray[..] == now;
            }
          } else {
            status := ServiceIO(i);
            assert fdArray[..] == now || fdArray[..] == now[i := DEFAULTFD];
          }
          if status != Done {
            return;
          }
        }
      }
      assert stored[|old(stored)|..] == news;
      ScanEnds(fdArray[..], news);
      NoneReadyBehind(was, rfds, kernel.record.asked);
      BoundedTable();
    }

    /** The set handed to select, and the largest descriptor in it. FD_SET writes outside the set exactly
        when some open descriptor has no bit in it. */
    method BuildSet() returns (status: Status, rfds: set<int>, maxfd: int)
      requires Table()
      ensures status in {Done, OutOfBounds} && (status == OutOfBounds <==> !InBounds(kernel.open))
      ensures status == Done ==> rfds == kernel.open && maxfd in rfds && forall fd | fd in rfds :: fd <= maxfd
    {
      status, rfds, maxfd := Done, {}, DEFAULTFD;
      for i := 0 to N
        invariant status == Done && rfds == Live(fdArray[..i]) && InBounds(rfds)
        invariant if i == 0 then maxfd == DEFAULTFD else maxfd in rfds && maxfd >= 0
        invariant forall fd | fd in rfds :: fd <= maxfd
      {
        assert fdArray[..i + 1] == fdArray[..i] + [fdArray[i]];
        LiveFront(fdArray[..i + 1]);
        if fdArray[i] == DEFAULTFD {
          continue;
        }
        if fdArray[i] >= N {
          assert fdArray[..][i] in Live(fdArray[..]);
          return OutOfBounds, rfds, maxfd;
        }
        rfds := rfds + {fdArray[i]};
        if fdArray[i] > maxfd {
          maxfd := fdArray[i];
        }
      }
      assert fdArray[..N] == fdArray[..];
    }

    /** The table has a slot for every open socket. */
    lemma RoomForAll()
      requires Table()
      ensures listenfd in kernel.open && |kernel.open| <= N
    {
      FullMeansCapacity(fdArray[..]);
      assert fdArray[..][0] == listenfd && fdArray[..][0] in Live(fdArray[..]);
    }

    /** The server loop, any number of rounds, whichever of the watched descriptors select reports: `asked`
        has for each report the descriptors recv was called on because of it. Unless a call does not come
        back, the loop stays inside its fd_sets exactly as long as every descriptor it began with and every
        one it accepted and stored has a bit there. */
    method Loop(rounds: nat) returns (status: Status, ghost asked: seq<seq<int>>)
      requires Table()
      modifies fdArray, kernel, `stored
      ensures Table() && listenfd in kernel.open && |kernel.open| <= N
      ensures old(kernel.record.reports) <= kernel.record.reports && old(stored) <= stored
      ensures kernel.record.asked == old(kernel.record.asked) + Flatten(asked)
      ensures var reports := kernel.record.reports[|old(kernel.record.reports)|..];
              && Rounds(listenfd, reports, asked, if status == Done || asked == [] then |asked| else |asked| - 1)
              && (status == Done ==>
                    |reports| == rounds
                    && kernel.record.acceptCalls == old(kernel.record.acceptCalls) + Knocks(reports, listenfd))
      ensures status in {Done, OutOfBounds} && rounds > 0 ==>
                (status == OutOfBounds <==> !(InBounds(old(kernel.open)) && AllBelow(stored[|old(stored)|..])))
    {
      hide ReadyFrom, Distinct, Live, Rounds, Begun, Serviced, Flatten, Knocks;
      status, asked := Done, [];
      ghost var reports: seq<set<int>> := [];
      var n := 0;
      RoomForAll();
      NoRounds(listenfd);
      while n < rounds && status == Done
        invariant Table() && listenfd in kernel.open && |kernel.open| <= N
        invariant n <= rounds && old(stored) <= stored
        invariant kernel.record.reports == old(kernel.record.reports) + reports
        invariant kernel.record.asked == old(kernel.record.asked) + Flatten(asked)
        invariant Rounds(listenfd, reports, asked, if status == Done || asked == [] then |asked| else |asked| - 1)
        invariant status == Done ==>
                    |reports| == |asked| == n
                    && kernel.record.acceptCalls == old(kernel.record.acceptCalls) + Knocks(reports, listenfd)
        invariant n == 0 ==> status == Done && kernel.open == old(kernel.open) && stored == old(stored)
        invariant n > 0 && status == Done ==>
                    InBounds(kernel.open) && InBounds(old(kernel.open)) && AllBelow(stored[|old(stored)|..])
        invariant status == OutOfBounds ==> !(InBounds(old(kernel.open)) && AllBelow(stored[|old(stored)|..]))
        decreases rounds - n
      {
        n := n + 1;
        var rfds, maxfd;
        status, rfds, maxfd := BuildSet();
        if status == Done {
          var ready := kernel.Select(rfds);
          ghost var before, slots, was := stored, fdArray[..], kernel.record.asked;
          status := HandlerRead(ready);
          ScanIsRound(slots, listenfd, ready, was, kernel.record.asked);
          OneMoreRound(listenfd, reports, asked, ready, kernel.record.asked[|was|..], old(kernel.record.asked));
          reports, asked := reports + [ready], asked + [kernel.record.asked[|was|..]];
          assert stored[|old(stored)|..] == before[|old(stored)|..] + stored[|before|..];
          assert forall fd | fd in stored[|before|..] :: fd in stored[|old(stored)|..];
          RoomForAll();
        }
      }
    }
  }

  /** The table after `k` clients when the process has descriptors 0 to 2 open besides and accept gives the
      lowest free number, as POSIX.1-2017 says: 3 for the listening socket, then 4, 5, and so on. */
  function Lowest(k: nat): seq<int> {
    seq(N, i requires 0 <= i => if i <= k then i + 3 else DEFAULTFD)
  }

  /** Each is what AcceptClient makes of the one before, starting from the constructor's table. */
  lemma LowestFirst(k: nat)
    requires k + 1 < N
    ensures Distinct(Lowest(k)) && !Full(Lowest(k)) && |Live(Lowest(k))| < N
    ensures forall fd :: fd in Live(Lowest(k)) <==> 3 <= fd <= k + 3
    ensures Stored(Lowest(k), k + 4, Lowest(k + 1))
    ensures Live(Lowest(0)) == {3}
  {
    var t := Lowest(k);
    FullMeansCapacity(t);
    assert t[k + 1] == DEFAULTFD && Lowest(k + 1) == t[k + 1 := k + 4];
    forall fd | 3 <= fd <= k + 3
      ensures fd in Live(t)
    {
      assert t[fd - 3] == fd;
    }
    assert Lowest(0)[0] == 3;
  }

  /** The full-table branch does not protect the set: with client 1021 the table holds a descriptor that has
      no bit, while slots are still empty. One client earlier all have one. */
  lemma SetOverflowsFirst()
    ensures Distinct(Lowest(1021)) && |Live(Lowest(1021))| < N && 1024 in Live(Lowest(1021))
    ensures !InBounds(Live(Lowest(1021))) && InBounds(Live(Lowest(1020)))
  {
    LowestFirst(1021);
    LowestFirst(1020);
  }
}
