/** The poll server: the same table, with requested and returned events kept in each slot. */
module PollServer {
  import opened Kernel
  import opened FdTable

  const N: nat := 1024

  /** The flags the server asks for or looks at. */
  datatype Flags = Flags(pollin: bool, pollout: bool)

  const NOTHING: Flags := Flags(false, false)

  datatype PollFd = PollFd(fd: int, events: Flags, revents: Flags)

  function Fds(slots: seq<PollFd>): seq<int> {
    seq(|slots|, i requires 0 <= i < |slots| => slots[i].fd)
  }

  lemma FdsUpdate(slots: seq<PollFd>, i: nat, p: PollFd)
    requires i < |slots|
    ensures Fds(slots[i := p]) == Fds(slots)[i := p.fd]
  {}

  /** The clients poll reported as readable, in slot order. */
  function Reported(slots: seq<PollFd>, from: nat): seq<int>
    decreases |slots| - from
  {
    if from >= |slots| then []
    else (if slots[from].fd != DEFAULTFD && slots[from].revents.pollin then [slots[from].fd] else [])
         + Reported(slots, from + 1)
  }

  lemma ReportedStep(slots: seq<PollFd>, from: nat, before: seq<int>)
    requires from < |slots|
    ensures before + Reported(slots, from)
            == (if slots[from].fd != DEFAULTFD && slots[from].revents.pollin then before + [slots[from].fd] else before)
               + Reported(slots, from + 1)
  {}

  lemma NoneReportedBehind(slots: seq<PollFd>, before: seq<int>)
    ensures before + Reported(slots, |slots|) == before
  {}

  /** The descriptors poll reported as readable. */
  function Readable(slots: seq<PollFd>): set<int> {
    set i | 0 <= i < |slots| && slots[i].fd != DEFAULTFD && slots[i].revents.pollin :: slots[i].fd
  }

  /** So one scan of the poll table services what one scan of the select table does for the same set. */
  lemma {:induction false} ReportedIsReady(slots: seq<PollFd>, from: nat)
    requires Distinct(Fds(slots))
    ensures Reported(slots, from) == ReadyFrom(Fds(slots), Readable(slots), from)
    decreases |slots| - from
  {
    if from < |slots| {
      ReportedIsReady(slots, from + 1);
      if slots[from].fd != DEFAULTFD && slots[from].fd in Readable(slots) {
        var i :| 0 <= i < |slots| && slots[i].fd != DEFAULTFD && slots[i].revents.pollin && slots[i].fd == slots[from].fd;
        assert Fds(slots)[i] == Fds(slots)[from];
      }
    }
  }

  class Server {
    const listenfd: int
    const kernel: Sockets
    const fds: array<PollFd>
    ghost var stored: seq<int>  // the accepted descriptors that got a slot

    /** The table holds exactly the open sockets, each in one slot, the listening one in slot 0; input is
        asked for exactly on the slots in use, and empty slots report nothing. */
    ghost predicate Table()
      reads fds, kernel`open
    {
      && fds.Length == N && 0 <= listenfd && fds[0].fd == listenfd
      && Distinct(Fds(fds[..])) && Live(Fds(fds[..])) == kernel.open
      && (forall i | 0 <= i < N :: fds[i].events == Flags(fds[i].fd != DEFAULTFD, false))
      && (forall i | 0 <= i < N && fds[i].fd == DEFAULTFD :: fds[i].revents == NOTHING)
    }

    constructor (sockets: Sockets, listener: int)
      requires sockets.open == {listener} && 0 <= listener
      ensures Table() && fresh(fds) && kernel == sockets && listenfd == listener && stored == []
    {
      listenfd, kernel, stored := listener, sockets, [];
      fds := new PollFd[N](_ => PollFd(DEFAULTFD, NOTHING, NOTHING));
      new;
      for i := 0 to N
        modifies fds
        invariant forall j | 0 <= j < i :: fds[j] == PollFd(DEFAULTFD, NOTHING, NOTHING)
      {
        fds[i] := PollFd(DEFAULTFD, NOTHING, NOTHING);
      }
      fds[0] := PollFd(listenfd, Flags(true, false), NOTHING);
      assert Fds(fds[..])[0] == listenfd;
      assert Live(Fds(fds[..])) == {listenfd};
    }

    /** A new client gets the first empty slot, with nothing reported on it yet; if there is none, its
        socket is closed again. */
    method AcceptClient() returns (status: Status, ghost fd: int)
      requires Table()
      modifies fds, kernel`open, kernel`interest, kernel`accepts, kernel`record, `stored
      ensures Table() && status != OutOfBounds
      ensures status == (if old(kernel.accepts) == [] then Stalled
                         else if old(kernel.accepts)[0] == Incoming then Done else NullSocket)
      ensures kernel.accepts == if old(kernel.accepts) == [] then [] else old(kernel.accepts)[1..]
      ensures AcceptCalled(old(kernel.record), kernel.record)
      ensures stored == old(stored) + if status == Done && |old(kernel.open)| != N then [fd] else []
      ensures status != Done ==> fds[..] == old(fds[..])
      ensures status == Done ==> fd >= 0 && fd !in old(kernel.open)
      ensures status == Done ==>
                if |old(kernel.open)| == N then fds[..] == old(fds[..]) && kernel.open == old(kernel.open)
                else Stored(old(Fds(fds[..])), fd, Fds(fds[..])) && kernel.open == old(kernel.open) + {fd}
      ensures forall i | 0 <= i < N ::
                fds[i] == old(fds[i]) || (old(fds[i]).fd == DEFAULTFD && fds[i].revents == NOTHING)
    {
      hide Live, Distinct;
      FullMeansCapacity(Fds(fds[..]));
      var r, sockfd := kernel.Accept();
      fd := sockfd;
      if r.None? {
        return Stalled, fd;
      }
      if r.value != Incoming {
        return NullSocket, fd;
      }
      status := Done;
      var pos := 1;
      while pos < N && fds[pos].fd != DEFAULTFD
        invariant 1 <= pos <= N
        invariant forall j | 0 <= j < pos :: Fds(fds[..])[j] != DEFAULTFD
      {
        pos := pos + 1;
      }
      if pos == N {
        kernel.Close(sockfd);
      } else {
        Store(Fds(fds[..]), pos, sockfd);
        ghost var was := fds[..];
        assert was[pos].fd == DEFAULTFD;
        fds[pos] := PollFd(sockfd, Flags(true, false), NOTHING);
        stored := stored + [sockfd];
        assert fds[..] == was[pos := fds[pos]];
        FdsUpdate(was, pos, fds[pos]);
        assert Fds(was)[pos] == DEFAULTFD;
      }
    }

    /** One recv on the client in slot `pos`; its slot is emptied when there is nothing more to come. */
    method ServiceIO(pos: nat) returns (status: Status)
      requires Table() && 0 < pos < N && fds[pos].fd != DEFAULTFD
      modifies fds, kernel`open, kernel`interest, kernel`recvs, kernel`record
      ensures Table()
      ensures status in {Done, Stalled} && (status == Stalled <==> old(kernel.recvs) == [])
      ensures kernel.recvs == if status == Stalled then [] else old(kernel.recvs)[1..]
      ensures RecvCalled(old(kernel.record), kernel.record, old(fds[pos].fd))
      ensures var gone := status == Done && !old(kernel.recvs)[0].Data?;
              && fds[..] == (if gone then old(fds[..])[pos := PollFd(DEFAULTFD, NOTHING, NOTHING)] else old(fds[..]))
              && kernel.open == old(kernel.open) - (if gone then {old(fds[pos].fd)} else {})
    {
      assert Fds(fds[..])[pos] in Live(Fds(fds[..]));
      var r := kernel.Recv(fds[pos].fd);
      if r.None? {
        return Stalled;
      }
      status := Done;
      if !r.value.Data? {
        kernel.Close(fds[pos].fd);
        Clear(Fds(fds[..]), pos);
        FdsUpdate(fds[..], pos, PollFd(DEFAULTFD, NOTHING, NOTHING));
        fds[pos] := PollFd(DEFAULTFD, NOTHING, NOTHING);
        assert fds[..] == old(fds[..])[pos := fds[pos]];
      }
    }

    /** Only slot 0 holds the listening socket. */
    lemma ListenerInFront()
      requires Table()
      ensures forall i | 0 < i < N :: fds[i].fd != listenfd
    {
      assert forall i | 0 <= i < N :: Fds(fds[..])[i] == fds[i].fd;
    }

    /** Slots not reached yet hold what they held when poll returned, or a client accepted since. */
    static ghost predicate Ahead(was: seq<PollFd>, now: seq<PollFd>, from: nat) {
      && |was| == |now|
      && forall j | from <= j < |now| && now[j] != was[j] :: was[j].fd == DEFAULTFD && now[j].revents == NOTHING
    }

    /** One scan of the table: it calls recv on exactly the clients poll reported, each once, in slot
        order; clients accepted during the scan are left alone. A client is accepted if and only if the
        listening socket was reported, and stored if and only if a slot was empty. */
    method HandlerRead() returns (status: Status)
      requires Table()
      modifies fds, kernel`open, kernel`interest, kernel`accepts, kernel`recvs, kernel`record, `stored
      ensures Table() && status != OutOfBounds && kernel.record.reports == old(kernel.record.reports)
      ensures status == Done ==> kernel.record.asked == old(kernel.record.asked) + Reported(old(fds[..]), 1)
      ensures old(kernel.record.asked) <= kernel.record.asked <= old(kernel.record.asked) + Reported(old(fds[..]), 1)
      ensures old(stored) <= stored && |stored| <= |old(stored)| + 1
      ensures status == Done ==>
                Heard(old(fds[0]).revents.pollin, |old(kernel.open)| == N, old(kernel.accepts), kernel.accepts,
                      old(kernel.record.acceptCalls), kernel.record.acceptCalls, stored[|old(stored)|..])
      ensures !old(fds[0]).revents.pollin ==> kernel.accepts == old(kernel.accepts) && stored == old(stored)
    {
      hide Distinct, Live, Fds, Reported;
      status := Done;
      ghost var was := fds[..];
      ghost var news: seq<int> := [];
      for i := 0 to N
        invariant Table() && status == Done && kernel.record.reports == old(kernel.record.reports)
        invariant i == 0 ==> fds[..] == was && kernel.open == old(kernel.open)
        invariant Ahead(was, fds[..], i)
        invariant old(kernel.record.asked) <= kernel.record.asked
        invariant old(kernel.record.asked) + Reported(was, 1)
                  == kernel.record.asked + Reported(was, if i == 0 then 1 else i)
        invariant Heard(i > 0 && was[0].revents.pollin, |old(kernel.open)| == N, old(kernel.accepts), kernel.accepts,
                        old(kernel.record.acceptCalls), kernel.record.acceptCalls, news)
        invariant stored == old(stored) + news && |news| <= 1
      {
        ReportedStep(was, i, kernel.record.asked);
        if fds[i].fd == DEFAULTFD {
          continue;
        }
        ghost var now := fds[..];
        assert now[i] == fds[i];
        ListenerInFront();
        if fds[i].revents.pollin {
          if fds[i].fd == listenfd {
            ghost var fd;
            assert i == 0;
            status, fd := AcceptClient();
            if status == Done && |old(kernel.open)| != N {
              news := [fd];
            }
          } else {
            status := ServiceIO(i);
          }
          if status != Done {
            return;
          }
        }
      }
      assert stored[|old(stored)|..] == news;
      NoneReportedBehind(was, kernel.record.asked);
    }

    /** poll: input reported on some of the slots in use, and anything else on any of them. */
    method Poll()
      requires Table()
      modifies fds, kernel`recvs, kernel`sends, kernel`accepts, kernel`record
      ensures Table() && Fds(fds[..]) == old(Fds(fds[..])) && Readable(fds[..]) <= kernel.open
      ensures fds[0].revents.pollin <==> listenfd in Readable(fds[..])
      ensures kernel.record == old(kernel.record).(reports := old(kernel.record).reports + [Readable(fds[..])])
    {
      hide Live, Distinct, Readable;
      ghost var slots := Fds(fds[..]);
      var asked := set i | 0 <= i < N && fds[..][i].fd != DEFAULTFD :: fds[..][i].fd;
      LiveFds(fds[..]);
      var ready := kernel.Select(asked);
      for i := 0 to N
        modifies fds
        invariant Table() && Fds(fds[..]) == slots
        invariant forall j | 0 <= j < i && fds[j].fd != DEFAULTFD :: fds[j].revents.pollin <==> fds[j].fd in ready
      {
        var out: bool := *;
        ghost var was := fds[..];
        if fds[i].fd != DEFAULTFD {
          fds[i] := fds[i].(revents := Flags(fds[i].fd in ready, out));
        }
        assert fds[..] == was[i := fds[i]];
        FdsUpdate(was, i, fds[i]);
        assert Fds(was)[i] == fds[i].fd;
        assert Fds(fds[..]) == Fds(was);
      }
      assert forall i | 0 <= i < N :: fds[..][i] == fds[i];
      ReadableIs(fds[..], ready);
    }

    static lemma ReadableIs(slots: seq<PollFd>, ready: set<int>)
      requires ready <= Live(Fds(slots))
      requires forall i | 0 <= i < |slots| && slots[i].fd != DEFAULTFD :: slots[i].revents.pollin <==> slots[i].fd in ready
      ensures Readable(slots) == ready
    {
      LiveFds(slots);
    }

    static lemma LiveFds(slots: seq<PollFd>)
      ensures Live(Fds(slots)) == set i | 0 <= i < |slots| && slots[i].fd != DEFAULTFD :: slots[i].fd
    {
      assert forall i | 0 <= i < |slots| :: Fds(slots)[i] == slots[i].fd;
    }

    /** The table has a slot for every open socket. */
    lemma RoomForAll()
      requires Table()
      ensures listenfd in kernel.open && |kernel.open| <= N
    {
      var slots := Fds(fds[..]);
      FullMeansCapacity(slots);
      assert slots[0] == listenfd && slots[0] in Live(slots);
    }

    /** The server loop, any number of rounds: `asked` has for each report of poll the descriptors recv was
        called on because of it. */
    method Loop(rounds: nat) returns (status: Status, ghost asked: seq<seq<int>>)
      requires Table()
      modifies fds, kernel, `stored
      ensures status != OutOfBounds && Table() && listenfd in kernel.open && |kernel.open| <= N
      ensures old(kernel.record.reports) <= kernel.record.reports && old(stored) <= stored
      ensures kernel.record.asked == old(kernel.record.asked) + Flatten(asked)
      ensures var reports := kernel.record.reports[|old(kernel.record.reports)|..];
              && Rounds(listenfd, reports, asked, if status == Done || asked == [] then |asked| else |asked| - 1)
              && (status == Done ==>
                    |reports| == rounds
                    && kernel.record.acceptCalls == old(kernel.record.acceptCalls) + Knocks(reports, listenfd))
    {
      hide ReadyFrom, Distinct, Live, Fds, Readable, Reported, Rounds, Begun, Serviced, Flatten, Knocks;
      status, asked := Done, [];
      ghost var reports: seq<set<int>> := [];
      var n := 0;
      RoomForAll();
      NoRounds(listenfd);
      while n < rounds && status == Done
        invariant status != OutOfBounds && Table() && listenfd in kernel.open && |kernel.open| <= N
        invariant n <= rounds && old(stored) <= stored
        invariant kernel.record.reports == old(kernel.record.reports) + reports
        invariant kernel.record.asked == old(kernel.record.asked) + Flatten(asked)
        invariant Rounds(listenfd, reports, asked, if status == Done || asked == [] then |asked| else |asked| - 1)
        invariant status == Done ==>
                    |reports| == |asked| == n
                    && kernel.record.acceptCalls == old(kernel.record.acceptCalls) + Knocks(reports, listenfd)
        decreases rounds - n
      {
        Poll();
        ghost var slots, ready, was := Fds(fds[..]), Readable(fds[..]), kernel.record.asked;
        ReportedIsReady(fds[..], 1);
        ListenerAtZero(fds[..]);
        status := HandlerRead();
        ScanIsRound(slots, listenfd, ready, was, kernel.record.asked);
        OneMoreRound(listenfd, reports, asked, ready, kernel.record.asked[|was|..], old(kernel.record.asked));
        reports, asked := reports + [ready], asked + [kernel.record.asked[|was|..]];
        RoomForAll();
        n := n + 1;
      }
    }

    static lemma ListenerAtZero(slots: seq<PollFd>)
      requires slots != []
      ensures Fds(slots) != [] && Fds(slots)[0] == slots[0].fd
    {}
  }
}
