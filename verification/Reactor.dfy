/** The edge-triggered reactor: connections, handlers, dispatch. */
module ReactorServer {
  import opened Text
  import opened Protocol
  import opened Draining
  import opened Service
  import opened Kernel
  import opened Loops
  import opened Handlers

  /** The callbacks a connection can carry. */
  datatype Handler = NoHandler | Accepter | HandlerRecv | HandlerSend | HandlerExcept

  // -------------------------------------------------------------- connection

  class Connection {
    const fd: int
    var inbuf: string
    var outbuf: string
    var events: Mask
    var recver: Handler
    var sender: Handler
    var excepter: Handler

    ghost var rx: seq<string>     // the chunks recv delivered
    ghost var tx: string          // the bytes send took
    ghost var bursts: seq<Burst>  // what each finished run of the receive loop handed to Parse
    ghost var alive: bool         // not deleted yet

    constructor (sockfd: int)
      ensures fd == sockfd && alive && inbuf == "" && outbuf == "" && rx == [] && tx == "" && bursts == []
    {
      fd, inbuf, outbuf, rx, tx, bursts, alive := sockfd, "", "", [], "", [], true;
      events, recver, sender, excepter := Mask(false, false, false), NoHandler, NoHandler, NoHandler;
    }

    ghost function Now(): Side
      reads `rx, `inbuf, `tx, `outbuf
    {
      Side(rx, inbuf, tx, outbuf)
    }

    method SetEvent(m: Mask)
      requires alive
      modifies `events
      ensures events == m
    {
      events := m;
    }

    method Register(r: Handler, s: Handler, e: Handler)
      requires alive
      modifies `recver, `sender, `excepter
      ensures recver == r && sender == s && excepter == e
    {
      recver, sender, excepter := r, s, e;
    }

    /** recv on this connection. */
    method Recv(kernel: Sockets) returns (r: Option<RecvResult>)
      requires alive && fd in kernel.open
      modifies `rx, kernel`recvs, kernel`record
      ensures if r.None? then old(kernel.recvs) == kernel.recvs == [] else old(kernel.recvs) == [r.value] + kernel.recvs
      ensures rx == if r.Some? && r.value.Data? then old(rx) + [r.value.bytes] else old(rx)
      ensures var asked := old(kernel.record).(asked := old(kernel.record).asked + [fd]);
              kernel.record == if r.Some? && r.value.Data? then asked.Received(fd, r.value.bytes) else asked
    {
      r := kernel.Recv(fd);
      if r.Some? && r.value.Data? {
        rx := rx + [r.value.bytes];
      }
    }

    /** send of the output buffer on this connection. */
    method Send(kernel: Sockets) returns (r: Option<SendResult>)
      requires alive && fd in kernel.open
      modifies `tx, kernel`sends, kernel`record
      ensures if r.None? then old(kernel.sends) == kernel.sends == []
              else |old(kernel.sends)| > 0 && kernel.sends == old(kernel.sends)[1..]
                   && r.value == Clip(old(kernel.sends)[0], |outbuf|)
      ensures tx == if r.Some? && r.value.Took? then old(tx) + outbuf[..r.value.n] else old(tx)
      ensures kernel.record == if r.Some? && r.value.Took? then old(kernel.record).Took(fd, outbuf[..r.value.n])
                               else old(kernel.record)
    {
      r := kernel.Send(fd, outbuf);
      if r.Some? && r.value.Took? {
        tx := tx + outbuf[..r.value.n];
      }
    }

    method AppendInbuff(buff: string)
      requires alive
      modifies `inbuf
      ensures inbuf == old(inbuf) + CString(buff)
    {
      inbuf := inbuf + CString(buff);
    }

    method AppendOutbuff(buff: string)
      requires alive
      modifies `outbuf
      ensures outbuf == old(outbuf) + buff
    {
      outbuf := outbuf + buff;
    }

    method OutBufferRemove(n: nat)
      requires alive
      modifies `outbuf
      ensures outbuf == if n <= |old(outbuf)| then old(outbuf)[n..] else ""
    {
      outbuf := if n <= |outbuf| then outbuf[n..] else "";
    }

    /** Decode on the input buffer, in place. */
    method DecodeInbuffer() returns (threw: bool, package: string)
      requires alive
      modifies `inbuf
      ensures threw <==> Decode(old(inbuf)) == Threw
      ensures if threw then inbuf == old(inbuf) else Decode(old(inbuf)) == Returned(package, inbuf)
    {
      threw, package := false, "";
      match Decode(inbuf)
      case Threw => threw := true;
      case Returned(message, rest) => package, inbuf := message, rest;
    }
  }

  // ------------------------------------------------- what a connection keeps

  /** A connection as seen from the wire, with the bursts that were served on it. */
  datatype Wire = Wire(rx: seq<string>, tx: string, bursts: seq<Burst>)

  /** What went out is a prefix of what the served bursts call for, and they are a prefix of what came in. */
  ghost predicate WireOk(w: Wire) {
    && w.tx <= ServeAll("", w.bursts).out
    && Concat(Texts(w.bursts)) <= Received(w.rx)
  }

  /** Every received byte was handed to the drain loop; every reply is on the wire or buffered. */
  ghost predicate CaughtUp(c: Connection)
    reads c`rx, c`tx, c`bursts, c`inbuf, c`outbuf
  {
    Balanced(Wire(c.rx, c.tx, c.bursts), c.inbuf, c.outbuf)
  }

  ghost predicate Balanced(w: Wire, inbuf: string, outbuf: string) {
    && ServeAll("", w.bursts) == Served(w.tx + outbuf, Waiting(inbuf))
    && Concat(Texts(w.bursts)) == Received(w.rx)
  }

  /** Moving bytes from the output buffer to the wire loses none of them. */
  lemma MovedToWire(w: Wire, inbuf: string, taken: string, outbuf: string)
    requires Balanced(w, inbuf, taken + outbuf)
    ensures Balanced(w.(tx := w.tx + taken), inbuf, outbuf)
  {
    assert w.tx + (taken + outbuf) == w.tx + taken + outbuf;
  }

  /** Between two handler calls the connection is in addition watched for output exactly when
      there is output. */
  ghost predicate Resting(c: Connection)
    reads c`rx, c`tx, c`bursts, c`inbuf, c`outbuf, c`events
  {
    CaughtUp(c) && c.events == Mask(true, c.outbuf != "", true)
  }

  /** What holds at every moment, also inside a handler. */
  ghost predicate OnTrack(c: Connection)
    reads c`rx, c`tx, c`bursts, c`outbuf
  {
    WireOk(Wire(c.rx, c.tx + c.outbuf, c.bursts))
  }

  lemma CaughtUpIsOnTrack(c: Connection)
    requires CaughtUp(c)
    ensures OnTrack(c) && WireOk(Wire(c.rx, c.tx, c.bursts))
  {}

  /** The connection right after a receive loop: `got` is in the input buffer but was not parsed. */
  ghost predicate Unparsed(c: Connection, got: string)
    reads c`rx, c`tx, c`bursts, c`inbuf, c`outbuf, c`events
  {
    var s := ServeAll("", c.bursts);
    && s.out == c.tx + c.outbuf && s.end.Waiting? && c.inbuf == s.end.rest + got
    && Concat(Texts(c.bursts)) + got == Received(c.rx)
    && c.events == Mask(true, c.outbuf != "", true)
  }

  lemma UnparsedIsOnTrack(c: Connection, got: string)
    requires Unparsed(c, got)
    ensures OnTrack(c) && WireOk(Wire(c.rx, c.tx, c.bursts))
  {}

  lemma KeysRemoved(connections: map<int, Connection>, interest: map<int, Mask>, fd: int)
    requires connections.Keys == interest.Keys
    ensures (connections - {fd}).Keys == (interest - {fd} - {fd}).Keys == connections.Keys - {fd}
    ensures forall g :: g in connections - {fd} <==> g in connections && g != fd
    ensures forall g | g in connections - {fd} :: (connections - {fd})[g] == connections[g]
    ensures forall g | g in interest - {fd} - {fd} :: (interest - {fd} - {fd})[g] == interest[g]
  {}

  /** Callback `handler` was called on `conn` for an event raised on `fd`. */
  datatype Call = Call(fd: int, conn: Connection, handler: Handler)

  class Reactor {
    var connections: map<int, Connection>
    const kernel: Sockets
    ghost const listenfd: int
    ghost var finished: seq<Wire>  // the connections that were removed
    ghost var calls: seq<Call>     // the callbacks LoopOnce has called

    /** Every open socket is watched and has an entry, filed under its own descriptor; the entry is
        live, stores the mask the kernel has, and carries the callbacks of its kind. */
    ghost predicate Table()
      reads `connections, kernel`interest, kernel`open, connections.Values`alive, connections.Values`events
      reads connections.Values`recver, connections.Values`sender, connections.Values`excepter
    {
      && connections.Keys == kernel.interest.Keys == kernel.open
      && listenfd in connections
      && forall fd | fd in connections ::
           && connections[fd].fd == fd && connections[fd].alive
           && connections[fd].events == kernel.interest[fd]
           && HandlersOf(fd, connections[fd])
    }

    ghost predicate HandlersOf(fd: int, c: Connection)
      reads c`recver, c`sender, c`excepter
    {
      if fd == listenfd then c.recver == Accepter && c.sender == NoHandler && c.excepter == NoHandler
      else c.recver == HandlerRecv && c.sender == HandlerSend && c.excepter == HandlerExcept
    }

    /** What the connections say crossed their sockets is what the kernel recorded, also for those removed. */
    ghost predicate Recorded()
      reads `connections, `finished, kernel`record, connections.Values`rx, connections.Values`tx
    {
      && (forall fd | fd in connections && fd != listenfd :: OnRecord(kernel.record, fd, connections[fd]))
      && |finished| == |kernel.record.ended|
      && forall i | 0 <= i < |finished| :: kernel.record.ended[i] == Stream(finished[i].rx, finished[i].tx)
    }

    static ghost predicate OnRecord(record: Record, fd: int, c: Connection)
      reads c`rx, c`tx
    {
      record.RecvdOn(fd) == c.rx && record.SentOn(fd) == c.tx
    }

    ghost predicate FinishedWell()
      reads `finished
    {
      forall w | w in finished :: WireOk(w)
    }

    ghost predicate OthersRest(fd: int)
      reads `connections, connections.Values
    {
      forall g | g in connections && g != fd && g != listenfd :: Resting(connections[g])
    }

    /** The state at every LoopOnce boundary. */
    ghost predicate Rest()
      reads `connections, `finished, kernel`interest, kernel`open, kernel`record, connections.Values
    {
      Table() && OthersRest(listenfd) && FinishedWell() && Recorded()
    }

    ghost predicate Safe()
      reads `connections, `finished, kernel`interest, kernel`open, kernel`record, connections.Values
    {
      && Table() && FinishedWell() && Recorded()
      && forall fd | fd in connections && fd != listenfd :: OnTrack(connections[fd])
    }

    /** `c` is the registered client connection a handler is running on. */
    ghost predicate Handling(c: Connection)
      reads `connections, `finished, kernel`interest, kernel`open, kernel`record, connections.Values
    {
      && Table() && OthersRest(c.fd) && FinishedWell() && Recorded()
      && c.fd in connections && connections[c.fd] == c && c.fd != listenfd
    }

    /** What happens on the connection being handled concerns no other one. */
    twostate lemma OthersUntouched(c: Connection)
      requires old(Handling(c)) && connections == old(connections) && finished == old(finished)
      requires forall x | x in connections.Values && x != c :: unchanged(x)
      requires kernel.record.ended == old(kernel.record.ended) && OnRecord(kernel.record, c.fd, c)
      requires forall g | g != c.fd :: kernel.record.RecvdOn(g) == old(kernel.record).RecvdOn(g)
                                       && kernel.record.SentOn(g) == old(kernel.record).SentOn(g)
      ensures OthersRest(c.fd) && Recorded()
    {
      forall g | g in connections && g != c.fd && g != listenfd
        ensures Resting(connections[g]) && OnRecord(kernel.record, g, connections[g])
      {
        assert connections[g] in connections.Values && connections[g] != c;
      }
    }

    /** As long as only the buffers change, and what crossed the socket is on record, it is still handled. */
    twostate lemma StillHandling(c: Connection)
      requires old(Handling(c)) && connections == old(connections) && finished == old(finished)
      requires kernel.interest == old(kernel.interest) && kernel.open == old(kernel.open)
      requires forall x | x in connections.Values && x != c :: unchanged(x)
      requires unchanged(c`alive, c`events, c`recver, c`sender, c`excepter)
      requires kernel.record.ended == old(kernel.record.ended) && OnRecord(kernel.record, c.fd, c)
      requires forall g | g != c.fd :: kernel.record.RecvdOn(g) == old(kernel.record).RecvdOn(g)
                                       && kernel.record.SentOn(g) == old(kernel.record).SentOn(g)
      ensures Handling(c)
    {
      hide Resting, HandlersOf, WireOk;
      OthersUntouched(c);
    }

    lemma HandlingMeans(c: Connection)
      requires Handling(c)
      ensures Table() && OnRecord(kernel.record, c.fd, c) && c.alive && c.fd in kernel.open
      ensures c.fd in connections && connections[c.fd] == c && c.fd != listenfd
    {}

    lemma HandlingIsSafe(c: Connection)
      requires Handling(c) && OnTrack(c)
      ensures Safe()
    {
      forall fd | fd in connections && fd != listenfd && fd != c.fd
        ensures OnTrack(connections[fd])
      {
        CaughtUpIsOnTrack(connections[fd]);
      }
    }

    lemma RestIsSafe()
      requires Rest()
      ensures Safe()
    {
      forall fd | fd in connections && fd != listenfd
        ensures OnTrack(connections[fd])
      {
        CaughtUpIsOnTrack(connections[fd]);
      }
    }

    /** Which callbacks an entry has, and that its handler may run. */
    lemma Entry(fd: int)
      requires Rest() && fd in connections
      ensures var c := connections[fd];
              && c.fd == fd
              && (if fd == listenfd then c.recver == Accepter && c.sender == NoHandler
                  else c.recver == HandlerRecv && c.sender == HandlerSend && Handling(c) && Resting(c) && CaughtUp(c))
    {}

    lemma SafeIsRight()
      requires Safe()
      ensures forall fd | fd in kernel.open && fd != listenfd ::
                RightSoFar(kernel.record.RecvdOn(fd), kernel.record.SentOn(fd))
      ensures forall e | e in kernel.record.ended :: RightSoFar(e.rx, e.tx)
    {
      hide RightSoFar, ServeAll, Texts, Concat, Received, HandlersOf;
      forall fd | fd in connections && fd != listenfd
        ensures RightSoFar(kernel.record.RecvdOn(fd), kernel.record.SentOn(fd))
      {
        var c := connections[fd];
        assert OnTrack(c) && OnRecord(kernel.record, fd, c);
        WireIsRight(Wire(c.rx, c.tx, c.bursts));
      }
      forall e | e in kernel.record.ended
        ensures RightSoFar(e.rx, e.tx)
      {
        var i :| 0 <= i < |finished| && kernel.record.ended[i] == e;
        WireIsRight(finished[i]);
      }
    }

    lemma RestIsAnswered()
      requires Rest()
      ensures forall fd | fd in connections && fd != listenfd ::
                AllAnswered(connections[fd]) && OnRecord(kernel.record, fd, connections[fd])
    {
      hide AllAnswered, CaughtUp, HandlersOf;
      forall fd | fd in connections && fd != listenfd
        ensures AllAnswered(connections[fd]) && OnRecord(kernel.record, fd, connections[fd])
      {
        CaughtUpIsAnswered(connections[fd]);
      }
    }

    /** Table and kernel agree, and a client is watched for output exactly when there is output for it. */
    lemma RestIsWatched()
      requires Rest()
      ensures connections.Keys == kernel.interest.Keys == kernel.open
      ensures forall fd | fd in connections && fd != listenfd ::
                connections[fd].fd == fd
                && connections[fd].events == kernel.interest[fd] == Mask(true, connections[fd].outbuf != "", true)
    {
      forall fd | fd in connections && fd != listenfd
        ensures connections[fd].fd == fd
        ensures connections[fd].events == kernel.interest[fd] == Mask(true, connections[fd].outbuf != "", true)
      {
        assert Resting(connections[fd]);
      }
    }

    lemma OwnDescriptors()
      requires Rest()
      ensures forall fd | fd in connections :: connections[fd].fd == fd
      ensures listenfd in connections
    {}

    lemma WatchedIsCurrent(batch: seq<Ready>)
      requires Rest() && forall r | r in batch :: r.fd in kernel.interest
      ensures Dispatcher.Current(this, connections, batch)
    {}

    lemma RestAfter(c: Connection)
      requires Handling(c) && Resting(c)
      ensures Rest() && Safe()
    {
      RestIsSafe();
    }

    /** The server as `main` sets it up: only the listening socket is open, and it is watched. */
    constructor (sockets: Sockets, listener: int)
      requires sockets.open == {listener} && sockets.interest == map[] && sockets.record == NO_RECORD
      modifies sockets`interest
      ensures Rest() && kernel == sockets && listenfd == listener && finished == []
      ensures connections.Keys == {listener} && fresh(connections[listener])
    {
      kernel, listenfd, connections, finished, calls := sockets, listener, map[], [], [];
      new;
      var conn := AddConnection(listener, Mask(true, false, true), Accepter, NoHandler, NoHandler);
    }

    method ConnectionIsExist(sockfd: int) returns (exist: bool)
      ensures exist <==> sockfd in connections
    {
      exist := sockfd in connections;
    }

    method AddConnection(sockfd: int, events: Mask, recver: Handler, sender: Handler, excepter: Handler)
      returns (conn: Connection)
      modifies `connections, kernel`interest
      ensures fresh(conn) && conn.fd == sockfd && conn.alive && conn.events == events
      ensures conn.recver == recver && conn.sender == sender && conn.excepter == excepter
      ensures conn.inbuf == "" && conn.outbuf == "" && conn.rx == [] && conn.tx == "" && conn.bursts == []
      ensures kernel.interest ==
              if sockfd in kernel.open && sockfd !in old(kernel.interest) then old(kernel.interest)[sockfd := events]
              else old(kernel.interest)
      ensures connections == if sockfd in old(connections) then old(connections) else old(connections)[sockfd := conn]
    {
      conn := new Connection(sockfd);
      conn.SetEvent(events);
      conn.Register(recver, sender, excepter);
      var ok := kernel.Add(conn.fd, conn.events);
      // insert keeps an entry that is already there
      if sockfd !in connections {
        connections := connections[sockfd := conn];
      }
    }

    /** The ghost argument names the object registered under `sockfd`, the only one that changes. */
    method EnableReadWrite(sockfd: int, wr: bool, rd: bool, ghost conn: Connection)
      requires Table()
      requires sockfd in connections ==> connections[sockfd] == conn
      modifies kernel`interest, conn`events
      ensures Table()
      ensures old(Handling(conn)) ==> Handling(conn)
      ensures conn.events == if sockfd in connections then Mask(rd, wr, true) else old(conn.events)
    {
      hide HandlersOf, Resting, WireOk;
      var events := Mask(rd, wr, true);
      var exist := ConnectionIsExist(sockfd);
      if exist {
        connections[sockfd].SetEvent(events);
        var ok := kernel.Mod(sockfd, events);
        forall fd | fd in connections
          ensures connections[fd].fd == fd && connections[fd].alive && HandlersOf(fd, connections[fd])
          ensures connections[fd].events == kernel.interest[fd]
        {
          if fd != sockfd {
            assert connections[fd] != conn;
          }
        }
        if old(Handling(conn)) {
          assert OnRecord(kernel.record, conn.fd, conn);
          OthersUntouched(conn);
        }
      }
    }

    method RemoveConnection(sockfd: int, ghost conn: Connection)
      requires Table()
      requires sockfd in connections ==> connections[sockfd] == conn
      modifies `connections, `finished, conn`alive, kernel`interest, kernel`open, kernel`record
      ensures sockfd != listenfd ==> Table()
      ensures kernel.record == if sockfd in old(connections) then old(kernel.record).Closed(sockfd) else old(kernel.record)
      ensures kernel.open == old(kernel.open) - {sockfd} && kernel.interest == old(kernel.interest) - {sockfd}
      ensures connections == old(connections) - {sockfd}
      ensures if sockfd in old(connections)
              then !conn.alive && finished == old(finished) + [Wire(conn.rx, conn.tx, conn.bursts)]
              else finished == old(finished) && conn.alive == old(conn.alive)
    {
      hide HandlersOf;
      var exist := ConnectionIsExist(sockfd);
      if !exist {
        return;
      }
      finished := finished + [Wire(conn.rx, conn.tx, conn.bursts)];
      var ok := kernel.Del(sockfd);
      kernel.Close(sockfd);
      conn.alive := false;
      connections := connections - {sockfd};
      KeysRemoved(old(connections), old(kernel.interest), sockfd);
    }
  }

  // ----------------------------------------------------------------- sending

  /** A handler that runs to its end, or until a call does not come back, leaves the connection and the
      kernel's answers as the function of it says; and how it ends is as that says in any case. */
  ghost predicate Leaves(R: Reactor, conn: Connection, status: Status, h: Handled)
    reads R`connections, R.kernel`recvs, R.kernel`sends, R.kernel`accepts
    reads conn`rx, conn`inbuf, conn`tx, conn`outbuf
  {
    && status == h.status && (conn.fd in R.connections <==> h.open)
    && (status == Done || status == Stalled ==> conn.Now() == h.side && R.kernel.ToCome() == h.io)
  }

  lemma SentIsOnRecord(before: Record, after: Record, fd: int, tx0: string, tx: string, rx: seq<string>)
    requires tx0 <= tx && OnlySent(before, after, fd, tx[|tx0|..])
    requires before.SentOn(fd) == tx0 && before.RecvdOn(fd) == rx
    ensures after.SentOn(fd) == tx && after.RecvdOn(fd) == rx && after.ended == before.ended && after.waits == before.waits
    ensures forall g | g != fd :: after.SentOn(g) == before.SentOn(g) && after.RecvdOn(g) == before.RecvdOn(g)
  {
    assert tx0 + tx[|tx0|..] == tx;
    assert after.recvd == before.recvd;
  }

  lemma ReceivedIsOnRecord(before: Record, after: Record, fd: int, rx0: seq<string>, rx: seq<string>, tx: string)
    requires rx0 <= rx && OnlyReceived(before, after, fd, rx[|rx0|..])
    requires before.RecvdOn(fd) == rx0 && before.SentOn(fd) == tx
    ensures after.RecvdOn(fd) == rx && after.SentOn(fd) == tx && after.ended == before.ended && after.waits == before.waits
    ensures forall g | g != fd :: after.SentOn(g) == before.SentOn(g) && after.RecvdOn(g) == before.RecvdOn(g)
  {
    assert rx0 + rx[|rx0|..] == rx;
    assert after.sent == before.sent;
  }

  class IOService {
    static method HandlerExcept(R: Reactor, conn: Connection)
      requires R.Handling(conn) && WireOk(Wire(conn.rx, conn.tx, conn.bursts))
      modifies R`connections, R`finished, conn`alive, R.kernel`interest, R.kernel`open, R.kernel`record
      ensures R.Rest() && !conn.alive && R.kernel.record == old(R.kernel.record).Closed(conn.fd)
      ensures R.connections == old(R.connections) - {conn.fd}
      ensures R.finished == old(R.finished) + [Wire(conn.rx, conn.tx, conn.bursts)]
    {
      hide WireOk, CaughtUp, Reactor.HandlersOf;
      assert Reactor.OnRecord(R.kernel.record, conn.fd, conn);
      R.RemoveConnection(conn.fd, conn);
      forall fd | fd in R.connections && fd != R.listenfd
        ensures Reactor.OnRecord(R.kernel.record, fd, R.connections[fd])
      {
        assert fd != conn.fd;
      }
    }

    /** The loop of HandlerSend. */
    static method SendWhilePossible(kernel: Sockets, conn: Connection) returns (exit: SendExit)
      requires conn.alive && conn.fd in kernel.open
      modifies conn`outbuf, conn`tx, kernel`sends, kernel`record
      ensures old(conn.tx) <= conn.tx
      ensures OnlySent(old(kernel.record), kernel.record, conn.fd, conn.tx[|old(conn.tx)|..])
      ensures Sent(old(Outgoing(conn.outbuf, conn.tx, kernel.sends)), Outgoing(conn.outbuf, conn.tx, kernel.sends), exit)
    {
      hide Sending, Sent, SendLoop, OnlySent;
      ghost var start, taken := Outgoing(conn.outbuf, conn.tx, kernel.sends), "";
      SendStart(start);
      NothingSentYet(kernel.record, conn.fd, conn.tx);
      while true
        invariant old(conn.tx) <= conn.tx
        invariant OnlySent(old(kernel.record), kernel.record, conn.fd, conn.tx[|old(conn.tx)|..])
        invariant Sending(start, taken, Outgoing(conn.outbuf, conn.tx, kernel.sends))
        decreases |kernel.sends|
      {
        SendStep(start, taken, Outgoing(conn.outbuf, conn.tx, kernel.sends));
        ghost var tx, record := conn.tx, kernel.record;
        var r := conn.Send(kernel);
        if r.None? {
          return SendStarved;
        }
        if r.value.Took? {
          SentMore(old(kernel.record), record, conn.fd, |old(conn.tx)|, tx, conn.outbuf[..r.value.n]);
        }
        match r.value
        case Took(n) =>
          if n == 0 {
            assert conn.tx == tx + "" == tx;
            return Stopped;
          }
          taken := taken + conn.outbuf[..n];
          conn.OutBufferRemove(n);
          if conn.outbuf == "" {
            return Stopped;
          }
        case SendFailed(e) =>
          if e == Again {
            return Stopped;
          } else if e != Interrupted {
            return SendBroken;
          }
      }
    }

    /** Sends until the buffer is empty or the kernel takes no more, then watches for output exactly
        when some is left. */
    static method HandlerSend(R: Reactor, conn: Connection) returns (status: Status)
      requires R.Handling(conn) && CaughtUp(conn)
      modifies R`connections, R`finished, conn`outbuf, conn`tx, conn`events, conn`alive
      modifies R.kernel`interest, R.kernel`open, R.kernel`sends, R.kernel`record
      ensures R.Safe() && (status == Done ==> R.Rest())
      ensures R.kernel.record.waits == old(R.kernel.record.waits)
      ensures Handled(conn.Now(), R.kernel.ToCome(), status, conn.fd in R.connections)
              == AfterSend(old(conn.Now()), old(R.kernel.ToCome()))
      ensures var run := SendLoop(old(R.kernel.sends), old(conn.outbuf));
              && R.kernel.sends == run.left && status == (if run.exit == SendStarved then Stalled else Done)
              && old(conn.outbuf) == run.taken + conn.outbuf && conn.tx == old(conn.tx) + run.taken
              && R.connections == old(R.connections) - (if run.exit == SendBroken then {conn.fd} else {})
              && R.finished == old(R.finished) +
                               (if run.exit == SendBroken then [Wire(conn.rx, conn.tx, conn.bursts)] else [])
    {
      hide WireOk, SendLoop, Balanced, OnlySent;
      hide Reactor.Handling, Reactor.Table, Reactor.Recorded, Reactor.Rest, Reactor.Safe;
      R.HandlingMeans(conn);
      ghost var before, taken := Wire(conn.rx, conn.tx, conn.bursts), SendLoop(R.kernel.sends, conn.outbuf).taken;
      var exit := SendWhilePossible(R.kernel, conn);
      SentIsOnRecord(old(R.kernel.record), R.kernel.record, conn.fd, old(conn.tx), conn.tx, conn.rx);
      assert conn.outbuf == old(conn.outbuf)[|taken|..];
      R.StillHandling(conn);
      R.HandlingMeans(conn);
      MovedToWire(before, conn.inbuf, taken, conn.outbuf);
      CaughtUpIsOnTrack(conn);
      status := Done;
      if exit == SendStarved {
        R.HandlingIsSafe(conn);
        status := Stalled;
      } else if exit == SendBroken {
        HandlerExcept(R, conn);
        R.RestIsSafe();
      } else {
        R.EnableReadWrite(conn.fd, conn.outbuf != "", true, conn);
        R.RestAfter(conn);
      }
    }

    /** The loop of HandlerRecv. */
    static method ReadWhilePossible(kernel: Sockets, conn: Connection) returns (exit: RecvExit)
      requires conn.alive && conn.fd in kernel.open
      modifies conn`inbuf, conn`rx, kernel`recvs, kernel`record
      ensures old(conn.rx) <= conn.rx
      ensures OnlyReceived(old(kernel.record), kernel.record, conn.fd, conn.rx[|old(conn.rx)|..])
      ensures Got(old(Arriving(conn.inbuf, conn.rx, kernel.recvs, NoError)), conn.inbuf, conn.rx, kernel.recvs, exit)
    {
      hide Receiving, Got, RecvLoop, OnlyReceived;
      var errno := NoError;
      ghost var start := Arriving(conn.inbuf, conn.rx, kernel.recvs, errno);
      ghost var got: seq<string> := [];
      RecvStart(start);
      NothingReceivedYet(kernel.record, conn.fd, conn.rx);
      while true
        invariant errno != Again && old(conn.rx) <= conn.rx
        invariant OnlyReceived(old(kernel.record), kernel.record, conn.fd, conn.rx[|old(conn.rx)|..])
        invariant Receiving(start, got, Arriving(conn.inbuf, conn.rx, kernel.recvs, errno))
        decreases |kernel.recvs|
      {
        RecvStep(start, got, Arriving(conn.inbuf, conn.rx, kernel.recvs, errno));
        ghost var rx, record := conn.rx, kernel.record;
        var r := conn.Recv(kernel);
        ReceivedMore(old(kernel.record), record, conn.fd, |old(conn.rx)|, rx,
                     if r.Some? && r.value.Data? then r.value.bytes else "");
        if r.None? {
          return RecvStarved;
        }
        if r.value.Data? {
          conn.AppendInbuff(r.value.bytes);
          got := got + [r.value.bytes];
        } else {
          if r.value.RecvFailed? {
            errno := r.value.errno;
          }
          if errno == Again {
            return UpToDate;
          } else if errno != Interrupted {
            return RecvBroken;
          }
        }
      }
    }

    /** Reads everything there is and hands it to Parse; a broken connection is removed, and what was
        read in the same call is dropped with it. */
    static method HandlerRecv(R: Reactor, conn: Connection) returns (status: Status, ghost stale: Request)
      requires R.Handling(conn) && Resting(conn)
      modifies R`connections, R`finished, R.kernel`interest, R.kernel`open, R.kernel`recvs, R.kernel`sends
      modifies R.kernel`record
      modifies conn`inbuf, conn`outbuf, conn`rx, conn`tx, conn`bursts, conn`events, conn`alive
      ensures R.Safe() && (status == Done ==> R.Rest())
      ensures R.kernel.record.waits == old(R.kernel.record.waits)
      ensures Leaves(R, conn, status, AfterRecv(old(conn.Now()), old(R.kernel.ToCome()), stale))
      ensures R.connections == old(R.connections) || R.connections == old(R.connections) - {conn.fd}
      ensures var run := RecvLoop(old(R.kernel.recvs), NoError);
              && R.kernel.recvs == run.left && conn.rx == old(conn.rx) + run.chunks
              && (run.exit == RecvStarved ==> status == Stalled)
              && (run.exit == RecvBroken ==>
                    && status == Done && conn.fd !in R.connections
                    && R.finished == old(R.finished) + [Wire(conn.rx, old(conn.tx), old(conn.bursts))])
              && (run.exit == UpToDate ==> conn.bursts == old(conn.bursts) + [Burst(Received(run.chunks), stale)])
    {
      hide RecvLoop, WireOk, Received, AfterRecv, AfterParse, OnlyReceived;
      hide Reactor.Handling, Reactor.Table, Reactor.Recorded, Reactor.Rest, Reactor.Safe;
      R.HandlingMeans(conn);
      ghost var run := RecvLoop(R.kernel.recvs, NoError);
      ghost var inbuf := conn.inbuf + Received(run.chunks);
      ghost var side, io := conn.Now(), R.kernel.ToCome();
      var exit := ReadWhilePossible(R.kernel, conn);
      ReceivedIsOnRecord(old(R.kernel.record), R.kernel.record, conn.fd, old(conn.rx), conn.rx, conn.tx);
      R.StillHandling(conn);
      R.HandlingMeans(conn);
      ghost var got := Received(RecvLoop(old(R.kernel.recvs), NoError).chunks);
      ReceivedAppend(old(conn.rx), RecvLoop(old(R.kernel.recvs), NoError).chunks);
      assert Unparsed(conn, got);
      UnparsedIsOnTrack(conn, got);
      hide CaughtUp, Unparsed;
      status := Done;
      stale := *;
      if exit == UpToDate {
        status, stale := PackageParse.Parse(R, conn, got);
        RecvCases(side, io, stale, run, inbuf);
      } else if exit == RecvBroken {
        HandlerExcept(R, conn);
        R.RestIsSafe();
        RecvCases(side, io, stale, run, inbuf);
      } else {
        R.HandlingIsSafe(conn);
        status := Stalled;
        RecvCases(side, io, stale, run, inbuf);
      }
    }
  }

  // ----------------------------------------------------------------- parsing

  lemma NextBurst(bursts: seq<Burst>, last: Burst)
    requires ServeAll("", bursts).end.Waiting?
    ensures var s := ServeAll("", bursts);
            var n := Serve(s.end.rest + last.text, last.stale);
            ServeAll("", bursts + [last]) == Served(s.out + n.out, n.end)
    ensures Concat(Texts(bursts + [last])) == Concat(Texts(bursts)) + last.text
  {
    hide Serve, ServeAll;
    ServeOneMore("", bursts, last);
    TextsAppend(bursts, [last]);
    ConcatAppend(Texts(bursts), Texts([last]));
    assert Texts([last]) == [last.text];
    assert Concat([last.text]) == last.text + "" == last.text;
  }

  /** One round of the drain loop. */
  lemma ServeStep(buf: string, req: Request, d: Decoded)
    requires d == Decode(buf)
    ensures d.Threw? ==> Serve(buf, req) == Served("", Died)
    ensures d.Returned? && d.message == "" ==> Serve(buf, req) == Served("", Waiting(d.rest))
    ensures d.Returned? && d.message != "" ==>
              var a := React(req, d.message);
              Serve(buf, req) ==
              if a.Crash? then Served("", Died)
              else if |d.rest| == |buf| then Served(a.reply, Spinning)
              else Served(a.reply + Serve(d.rest, a.req).out, Serve(d.rest, a.req).end)
  {}

  class PackageParse {
    /** The loop of Parse. */
    static method DrainInto(conn: Connection, first: Request) returns (status: Status)
      requires conn.alive
      modifies conn`inbuf, conn`outbuf
      ensures var s := Serve(old(conn.inbuf), first);
              && conn.outbuf == old(conn.outbuf) + s.out
              && (status == Done <==> s.end.Waiting?) && (status == Dead <==> s.end.Died?) && status != Stalled
              && (status == Done ==> conn.inbuf == s.end.rest)
    {
      hide Serve, Decode, React;
      var req := first;
      ghost var all, done := Serve(conn.inbuf, first), "";
      while true
        invariant conn.outbuf == old(conn.outbuf) + done
        invariant var now := Serve(conn.inbuf, req);
                  all == Served(done + now.out, now.end)
        decreases |conn.inbuf|
      {
        assert done + "" == done;
        ServeStep(conn.inbuf, req, Decode(conn.inbuf));
        var before := |conn.inbuf|;
        var threw, package := conn.DecodeInbuffer();
        if threw {
          return Dead;
        }
        if package == "" {
          return Done;
        }
        match React(req, package)
        case Crash =>
          return Dead;
        case Answer(r, reply) =>
          ghost var more := Serve(conn.inbuf, r).out;
          assert done + (reply + more) == done + reply + more;
          req := r;
          conn.AppendOutbuff(reply);
          done := done + reply;
          if |conn.inbuf| == before {
            // nothing was erased: the same round follows forever
            return Looping;
          }
      }
    }

    /** Answers every complete package in the input buffer and sends. `req` starts with whatever was
        in memory. */
    static method Parse(R: Reactor, conn: Connection, ghost got: string) returns (status: Status, ghost stale: Request)
      requires R.Handling(conn) && Unparsed(conn, got)
      modifies R`connections, R`finished, R.kernel`interest, R.kernel`open, R.kernel`sends, R.kernel`record
      modifies conn`inbuf, conn`outbuf, conn`tx, conn`bursts, conn`events, conn`alive
      ensures R.Safe() && (status == Done ==> R.Rest())
      ensures R.kernel.record.waits == old(R.kernel.record.waits)
      ensures Leaves(R, conn, status, AfterParse(old(conn.Now()), old(R.kernel.ToCome()), stale))
      ensures R.connections == old(R.connections) || R.connections == old(R.connections) - {conn.fd}
      ensures conn.bursts == old(conn.bursts) + [Burst(got, stale)]
    {
      hide Serve, ServeAll, Texts, Concat, Received, AfterParse, AfterSend;
      hide Reactor.Handling, Reactor.Table, Reactor.Recorded, Reactor.Rest, Reactor.Safe;
      R.HandlingMeans(conn);
      var req: Request := *;
      stale := req;
      ghost var s := Serve(conn.inbuf, req);
      ParseCases(conn.Now(), R.kernel.ToCome(), req, s, conn.outbuf + s.out);
      NextBurst(conn.bursts, Burst(got, req));
      conn.bursts := conn.bursts + [Burst(got, req)];
      status := DrainInto(conn, req);
      R.StillHandling(conn);
      if status != Done {
        R.HandlingIsSafe(conn);
      } else if conn.outbuf != "" {
        status := IOService.HandlerSend(R, conn);
      } else {
        R.RestAfter(conn);
      }
    }
  }

  // --------------------------------------------------------------- accepting

  lemma NewcomerRests(c: Connection)
    requires c.inbuf == "" && c.outbuf == "" && c.rx == [] && c.tx == "" && c.bursts == []
    requires c.events == Mask(true, false, true)
    ensures Resting(c)
  {}

  class Listener {
    /** One round of the accept loop. */
    static method AcceptOne(R: Reactor) returns (r: Option<AcceptResult>, ghost fd: int)
      requires R.Rest()
      modifies R`connections, R.kernel`interest, R.kernel`open, R.kernel`accepts, R.kernel`record
      ensures R.Rest() && R.kernel.record.waits == old(R.kernel.record.waits)
      ensures if r.None? then old(R.kernel.accepts) == R.kernel.accepts == []
              else old(R.kernel.accepts) == [r.value] + R.kernel.accepts
      ensures if r == Some(Incoming)
              then fd !in old(R.connections) && fd in R.connections && fresh(R.connections[fd])
                   && R.connections == old(R.connections)[fd := R.connections[fd]]
              else R.connections == old(R.connections)
    {
      hide Resting, WireOk;
      var sockfd;
      r, sockfd := R.kernel.Accept();
      fd := sockfd;
      if r == Some(Incoming) {
        var conn := R.AddConnection(sockfd, Mask(true, false, true), HandlerRecv, HandlerSend, HandlerExcept);
        NewcomerRests(conn);
        forall g | g in R.connections
          ensures R.connections[g].fd == g && R.connections[g].alive && R.HandlersOf(g, R.connections[g])
          ensures R.connections[g].events == R.kernel.interest[g]
          ensures g != R.listenfd ==> Resting(R.connections[g])
          ensures g != R.listenfd ==> Reactor.OnRecord(R.kernel.record, g, R.connections[g])
        {
          assert g != sockfd ==> R.connections[g] == old(R.connections)[g];
        }
      }
    }

    /** Accepts until nobody is waiting; every accepted socket gets an entry and is watched. */
    static method Accept(R: Reactor, conn: Connection) returns (status: Status)
      requires R.Rest() && R.connections[R.listenfd] == conn
      modifies R`connections, R.kernel`interest, R.kernel`open, R.kernel`accepts, R.kernel`record
      ensures R.Rest() && R.kernel.record.waits == old(R.kernel.record.waits)
      ensures forall fd | fd in old(R.connections) :: fd in R.connections && R.connections[fd] == old(R.connections)[fd]
      ensures forall fd | fd in R.connections && fd !in old(R.connections) :: fresh(R.connections[fd])
      ensures var run := AcceptLoop(old(R.kernel.accepts));
              && R.kernel.accepts == run.left && status == (if run.back then Done else Stalled)
              && |R.connections| == |old(R.connections)| + run.accepted
    {
      hide Reactor.Rest;
      ghost var run, n := AcceptLoop(R.kernel.accepts), 0;
      while true
        invariant R.Rest() && R.kernel.record.waits == old(R.kernel.record.waits)
        invariant forall fd | fd in old(R.connections) :: fd in R.connections && R.connections[fd] == old(R.connections)[fd]
        invariant forall fd | fd in R.connections && fd !in old(R.connections) :: fresh(R.connections[fd])
        invariant |R.connections| == |old(R.connections)| + n
        invariant var now := AcceptLoop(R.kernel.accepts);
                  run == AcceptRun(n + now.accepted, now.back, now.left)
        decreases |R.kernel.accepts|
      {
        var r, fd := AcceptOne(R);
        if r.None? {
          return Stalled;
        }
        match r.value
        case Incoming =>
          n := n + 1;
        case AcceptFailed(e) =>
          if e != Interrupted {
            return Done;
          }
      }
    }
  }

  // -------------------------------------------------------------- dispatching

  const GNUM: nat := 64

  lemma OtherEvents(batch: seq<Ready>, i: nat)
    requires DistinctFds(batch) && i < |batch|
    ensures batch[i] in batch[i..] && batch[..i + 1] == batch[..i] + [batch[i]]
    ensures forall s | s in batch[i + 1..] :: s in batch[i..] && s.fd != batch[i].fd
  {}

  class Dispatcher {
    /** The connections of the events still to come are the ones the events were raised for. */
    static ghost predicate Current(R: Reactor, at: map<int, Connection>, batch: seq<Ready>)
      reads R`connections
    {
      forall r | r in batch :: r.fd in at && r.fd in R.connections && R.connections[r.fd] == at[r.fd]
    }

    /** The callback for a readable descriptor: a client's runs its receive loop to the end and goes on from
        there, the listening socket's its accept loop. */
    static method Readable(R: Reactor, sockfd: int, ghost conn: Connection) returns (status: Status, ghost stale: Request)
      requires R.Rest() && sockfd in R.connections && R.connections[sockfd] == conn
      modifies R`connections, R`finished, R`calls, R.kernel, conn
      ensures R.Safe() && (status == Done ==> R.Rest())
      ensures forall fd | fd in old(R.connections) && fd != sockfd ::
                fd in R.connections && R.connections[fd] == old(R.connections)[fd]
      ensures sockfd in R.connections ==> R.connections[sockfd] == conn
      ensures sockfd == R.listenfd ==> sockfd in R.connections
      ensures forall fd | fd in R.connections && fd !in old(R.connections) :: fresh(R.connections[fd])
      ensures R.calls == old(R.calls) + [Call(sockfd, conn, old(conn.recver))]
      ensures R.kernel.record.waits == old(R.kernel.record.waits)
      ensures sockfd != R.listenfd ==> Leaves(R, conn, status, AfterRecv(old(conn.Now()), old(R.kernel.ToCome()), stale))
      ensures sockfd == R.listenfd ==>
                Accepted(R, old(R.kernel.ToCome()), status) && conn.Now() == old(conn.Now())
                && |R.connections| == |old(R.connections)| + AcceptLoop(old(R.kernel.accepts)).accepted
    {
      hide Reactor.Rest, Reactor.Handling, Reactor.Safe, Resting, CaughtUp, RecvLoop, AcceptLoop, AfterRecv;
      status := Done;
      stale := *;
      R.Entry(sockfd);
      var exist := R.ConnectionIsExist(sockfd);
      if exist && R.connections[sockfd].recver != NoHandler {
        R.calls := R.calls + [Call(sockfd, conn, conn.recver)];
        if R.connections[sockfd].recver == Accepter {
          status := Listener.Accept(R, R.connections[sockfd]);
          R.RestIsSafe();
        } else {
          status, stale := IOService.HandlerRecv(R, R.connections[sockfd]);
        }
      }
    }

    /** The accept loop ran, on these answers. */
    static ghost predicate Accepted(R: Reactor, io: Scripts, status: Status)
      reads R.kernel`recvs, R.kernel`sends, R.kernel`accepts
    {
      && R.kernel.ToCome() == io.(accepts := AcceptLoop(io.accepts).left)
      && status == if AcceptLoop(io.accepts).back then Done else Stalled
    }

    /** The callback for a writable descriptor, if there still is one: a client's runs its send loop. */
    static method Writable(R: Reactor, sockfd: int, ghost conn: Connection) returns (status: Status)
      requires R.Rest() && (sockfd in R.connections ==> R.connections[sockfd] == conn)
      modifies R`connections, R`finished, R`calls, R.kernel, conn
      ensures R.Safe() && (status == Done ==> R.Rest())
      ensures forall fd | fd in old(R.connections) && fd != sockfd ::
                fd in R.connections && R.connections[fd] == old(R.connections)[fd]
      ensures sockfd == R.listenfd ==> R.connections == old(R.connections)
      ensures sockfd in R.connections ==> R.connections[sockfd] == conn
      ensures forall fd | fd in R.connections :: fd in old(R.connections)
      ensures R.calls == old(R.calls) +
                         (if sockfd in old(R.connections) && sockfd != R.listenfd
                          then [Call(sockfd, conn, HandlerSend)] else [])
      ensures R.kernel.record.waits == old(R.kernel.record.waits)
      ensures if sockfd in old(R.connections) && sockfd != R.listenfd
              then conn.fd == sockfd && Leaves(R, conn, status, AfterSend(old(conn.Now()), old(R.kernel.ToCome())))
              else status == Done && conn.Now() == old(conn.Now()) && R.kernel.ToCome() == old(R.kernel.ToCome())
                   && R.connections == old(R.connections)
    {
      hide Reactor.Rest, Reactor.Handling, Reactor.Safe, Resting, CaughtUp, SendLoop, AfterSend;
      status := Done;
      R.RestIsSafe();
      if sockfd in R.connections {
        R.Entry(sockfd);
      }
      var exist := R.ConnectionIsExist(sockfd);
      if exist && R.connections[sockfd].sender != NoHandler {
        R.calls := R.calls + [Call(sockfd, conn, conn.sender)];
        status := IOService.HandlerSend(R, R.connections[sockfd]);
      }
    }

    /** Every call went to the connection that was registered for the event's descriptor in `at`. */
    static ghost predicate Faithful(at: map<int, Connection>, made: seq<Call>) {
      forall c | c in made :: c.fd in at && at[c.fd] == c.conn
    }

    /** The callbacks of one event: first the one for input, then the one for output. */
    static ghost function CallsFor(R: Reactor, conn: Connection, r: Ready, sent: bool): seq<Call> {
      (if WantsRead(r) then [Call(r.fd, conn, if r.fd == R.listenfd then Accepter else HandlerRecv)] else [])
      + (if sent then [Call(r.fd, conn, HandlerSend)] else [])
    }

    /** The callbacks of a batch: those of its events, in order. */
    static ghost function AllCalls(R: Reactor, at: map<int, Connection>, batch: seq<Ready>, sent: seq<bool>): seq<Call>
      requires |sent| <= |batch| && forall r | r in batch :: r.fd in at
      decreases |sent|
    {
      if sent == [] then []
      else
        var i := |sent| - 1;
        AllCalls(R, at, batch, sent[..i]) + CallsFor(R, at[batch[i].fd], batch[i], sent[i])
    }

    static lemma OneMoreEvent(R: Reactor, at: map<int, Connection>, batch: seq<Ready>, sent: seq<bool>, s: bool,
                              before: seq<Call>)
      requires |sent| < |batch| && forall r | r in batch :: r.fd in at
      ensures var r := batch[|sent|];
              before + AllCalls(R, at, batch, sent) + CallsFor(R, at[r.fd], r, s)
              == before + AllCalls(R, at, batch, sent + [s])
    {
      assert (sent + [s])[..|sent|] == sent;
    }

    static lemma {:induction false} AllCallsFaithful(R: Reactor, at: map<int, Connection>, batch: seq<Ready>,
                                                     sent: seq<bool>)
      requires |sent| <= |batch| && forall r | r in batch :: r.fd in at
      ensures Faithful(at, AllCalls(R, at, batch, sent))
      ensures sent == [] ==> AllCalls(R, at, batch, sent) == []
      decreases |sent|
    {
      if sent != [] {
        AllCallsFaithful(R, at, batch, sent[..|sent| - 1]);
      }
    }

    static ghost predicate Open(now: map<int, Connection>, fd: int, conn: Connection) {
      fd in now && now[fd] == conn
    }

    /** The callback for output is called only for a writable client, and for every one of those whose
        entry was not removed by its callback for input. */
    static ghost predicate OutputServed(listenfd: int, r: Ready, sent: bool, open: bool) {
      && (sent ==> WantsWrite(r) && r.fd != listenfd)
      && (WantsWrite(r) && r.fd != listenfd && !sent ==> WantsRead(r) && !open)
    }

    /** One event of a batch. */
    static method Dispatch(R: Reactor, r: Ready, ghost conn: Connection)
      returns (status: Status, ghost sent: bool, ghost stale: Request)
      requires R.Rest() && r.fd in R.connections && R.connections[r.fd] == conn
      modifies R`connections, R`finished, R`calls, R.kernel, conn
      ensures R.Safe() && (status == Done ==> R.Rest())
      ensures forall fd | fd in old(R.connections) && fd != r.fd ::
                fd in R.connections && R.connections[fd] == old(R.connections)[fd]
      ensures forall fd | fd in R.connections && fd !in old(R.connections) :: fresh(R.connections[fd])
      ensures r.fd in R.connections ==> R.connections[r.fd] == conn
      ensures forall c | c in R.connections.Values :: c in old(R.connections.Values) || fresh(c)
      ensures R.calls == old(R.calls) + CallsFor(R, conn, r, sent)
      ensures status == Done ==> OutputServed(R.listenfd, r, sent, Open(R.connections, r.fd, conn))
      ensures R.kernel.record.waits == old(R.kernel.record.waits)
      ensures r.fd != R.listenfd ==> Leaves(R, conn, status, AfterEvent(r, old(conn.Now()), old(R.kernel.ToCome()), stale))
      ensures r.fd == R.listenfd ==>
                conn.Now() == old(conn.Now()) && r.fd in R.connections &&
                if WantsRead(r)
                then Accepted(R, old(R.kernel.ToCome()), status)
                     && |R.connections| == |old(R.connections)| + AcceptLoop(old(R.kernel.accepts)).accepted
                else status == Done && R.kernel.ToCome() == old(R.kernel.ToCome()) && R.connections == old(R.connections)
    {
      hide Reactor.Rest, Reactor.Safe, Reactor.Handling, Resting, CaughtUp;
      hide AfterRecv, AfterSend, AfterEvent, AcceptLoop;
      status, sent, stale := Done, false, *;
      R.RestIsSafe();
      R.Entry(r.fd);
      if WantsRead(r) {
        status, stale := Readable(R, r.fd, conn);
      }
      ghost var before, io := old(conn.Now()), old(R.kernel.ToCome());
      EventCases(r, before, io, stale, if WantsRead(r) then AfterRecv(before, io, stale) else Handled(before, io, Done, true));
      if status != Done {
        return;
      }
      if WantsWrite(r) {
        sent := r.fd in R.connections && r.fd != R.listenfd;
        status := Writable(R, r.fd, conn);
      }
    }

    /** What Dispatch says of an event that came to its end. */
    static lemma EventIsDone(R: Reactor, r: Ready, conn: Connection, e: Effect)
      requires conn.fd == r.fd && (r.fd in R.connections ==> R.connections[r.fd] == conn)
      requires r.fd != R.listenfd ==> Leaves(R, conn, Done, AfterEvent(r, e.before, e.io, e.req))
      requires r.fd == R.listenfd ==>
                 && conn.Now() == e.before && r.fd in R.connections
                 && if WantsRead(r) then Accepted(R, e.io, Done) else R.kernel.ToCome() == e.io
      requires e.after == conn.Now() && e.next == R.kernel.ToCome() && e.open == Open(R.connections, r.fd, conn)
      ensures EventDone(R.listenfd, r, e)
    {
      hide AfterEvent, AcceptLoop;
    }

    /** The effects tell of the connections that were in the table `at`, and how those are now. */
    static ghost predicate Seen(R: Reactor, at: map<int, Connection>, batch: seq<Ready>, effects: seq<Effect>)
      reads R`connections, at.Values
    {
      forall i | 0 <= i < |effects| && i < |batch| && batch[i].fd in at ::
        var conn := at[batch[i].fd];
        effects[i].after == conn.Now() && effects[i].open == Open(R.connections, batch[i].fd, conn)
    }

    static ghost function Sides(R: Reactor): map<int, Side>
      reads R`connections, R.connections.Values
    {
      map fd | fd in R.connections :: R.connections[fd].Now()
    }

    /** The effects begin with the buffers as they were before the batch, and say whether input or errors were
        the reason when there was no callback for output. */
    static ghost predicate Noted(listenfd: int, batch: seq<Ready>, sent: seq<bool>, effects: seq<Effect>,
                                 was: map<int, Side>)
    {
      && |sent| == |effects| <= |batch|
      && forall i | 0 <= i < |effects| ::
           && OutputServed(listenfd, batch[i], sent[i], effects[i].open)
           && batch[i].fd in was && effects[i].before == was[batch[i].fd]
    }

    static lemma NotedMore(listenfd: int, batch: seq<Ready>, sent: seq<bool>, effects: seq<Effect>,
                           was: map<int, Side>, s: bool, e: Effect)
      requires Noted(listenfd, batch, sent, effects, was) && |sent| < |batch|
      requires var r := batch[|sent|];
               OutputServed(listenfd, r, s, e.open) && r.fd in was && e.before == was[r.fd]
      ensures Noted(listenfd, batch, sent + [s], effects + [e], was)
    {
      hide OutputServed;
    }

    /** Dispatch for the next event of a batch: what was seen of the earlier ones stays. A connection that was
        removed does not come back: an entry made later is another object. */
    static method DispatchNext(R: Reactor, batch: seq<Ready>, i: nat, ghost at: map<int, Connection>,
                               ghost effects: seq<Effect>)
      returns (status: Status, ghost sent: bool, ghost e: Effect)
      requires R.Rest() && DistinctFds(batch) && i < |batch| && Current(R, at, batch[i..])
      requires (forall fd | fd in at :: at[fd].fd == fd) && batch[i].fd in at
      requires |effects| == i && Seen(R, at, batch, effects)
      modifies R`connections, R`finished, R`calls, R.kernel, at[batch[i].fd]
      ensures R.Safe() && (status == Done ==> R.Rest())
      ensures Current(R, at, batch[i + 1..])
      ensures forall c | c in R.connections.Values :: c in old(R.connections.Values) || fresh(c)
      ensures R.calls == old(R.calls) + CallsFor(R, at[batch[i].fd], batch[i], sent)
      ensures R.kernel.record.waits == old(R.kernel.record.waits)
      ensures status == Done ==>
                && EventDone(R.listenfd, batch[i], e) && OutputServed(R.listenfd, batch[i], sent, e.open)
                && e.io == old(R.kernel.ToCome()) && e.next == R.kernel.ToCome()
                && e.before == old(at[batch[i].fd].Now()) && Seen(R, at, batch, effects + [e])
    {
      hide Reactor.Rest, Reactor.Safe, CallsFor, EventDone, AfterEvent, AcceptLoop, OutputServed;
      ghost var q;
      var r := batch[i];
      OtherEvents(batch, i);
      ghost var conn, before, side, io := at[r.fd], R.connections, at[r.fd].Now(), R.kernel.ToCome();
      status, sent, q := Dispatch(R, r, conn);
      e := Effect(side, conn.Now(), io, R.kernel.ToCome(), q, Open(R.connections, r.fd, conn));
      if status == Done {
        EventIsDone(R, r, conn, e);
        forall j | 0 <= j < i && batch[j].fd in at
          ensures Open(R.connections, batch[j].fd, at[batch[j].fd]) == effects[j].open
          ensures at[batch[j].fd].Now() == effects[j].after
        {
          assert Open(before, batch[j].fd, at[batch[j].fd]) == effects[j].open;
        }
      }
    }

    /** One batch of events. No callback is called on a connection other than the one its event was raised
        for, no event is passed over, and callbacks come in the order of the events, input before output.
        Each event does to its connection, and to the kernel's answers, what the handlers say. */
    static method LoopOnce(R: Reactor, batch: seq<Ready>)
      returns (status: Status, ghost sent: seq<bool>, ghost effects: seq<Effect>)
      requires R.Rest() && DistinctFds(batch) && Current(R, R.connections, batch)
      modifies R`connections, R`finished, R`calls, R.kernel, R.connections.Values
      ensures R.Safe() && (status == Done ==> R.Rest())
      ensures forall c | c in R.connections.Values :: c in old(R.connections.Values) || fresh(c)
      ensures |sent| <= |batch| && R.calls == old(R.calls) + AllCalls(R, old(R.connections), batch, sent)
      ensures Faithful(old(R.connections), R.calls[|old(R.calls)|..])
      ensures R.kernel.record.waits == old(R.kernel.record.waits)
      ensures status == Done ==>
                && EventsDone(R.listenfd, batch, effects, old(R.kernel.ToCome()), R.kernel.ToCome())
                && |sent| == |effects| == |batch| && Seen(R, old(R.connections), batch, effects)
                && Noted(R.listenfd, batch, sent, effects, old(Sides(R)))
      ensures status == Done ==> BatchServed(R.listenfd, batch, old(R.kernel.ToCome()), R.kernel.ToCome())
    {
      hide Reactor.Rest, Reactor.Safe, OutputServed, CallsFor, AllCalls, Faithful, EventDone, Seen, Noted;
      hide BatchServed, EventsDone, Current;
      ghost var at, start := R.connections, R.kernel.ToCome();
      ghost var was := Sides(R);
      status, sent, effects := Done, [], [];
      R.RestIsSafe();
      R.OwnDescriptors();
      BatchInTable(R, at, batch);
      AllCallsFaithful(R, at, batch, sent);
      assert batch[0..] == batch;
      NoneDone(R.listenfd, start);
      NothingSeen(R, at, batch, was);
      assert batch[..0] == [];
      var i := 0;
      while i < |batch|
        invariant 0 <= i <= |batch| && status == Done
        invariant R.Rest() && R.Safe() && R.kernel.record.waits == old(R.kernel.record.waits)
        invariant Current(R, at, batch[i..])
        invariant forall c | c in R.connections.Values :: c in old(R.connections.Values) || fresh(c)
        invariant |sent| == i && R.calls == old(R.calls) + AllCalls(R, at, batch, sent)
        invariant |effects| == i && EventsDone(R.listenfd, batch[..i], effects, start, R.kernel.ToCome())
        invariant Seen(R, at, batch, effects)
        invariant Noted(R.listenfd, batch, sent, effects, was)
        invariant forall j | i <= j < |batch| :: at[batch[j].fd].Now() == was[batch[j].fd]
      {
        ghost var s, e;
        OtherEvents(batch, i);
        status, s, e := DispatchNext(R, batch, i, at, effects);
        OneMoreEvent(R, at, batch, sent, s, old(R.calls));
        ghost var sentBefore := sent;
        sent := sent + [s];
        if status != Done {
          AllCallsFaithful(R, at, batch, sent);
          return;
        }
        OneMoreDone(R.listenfd, batch[..i], batch[i], effects, e, start);
        NotedMore(R.listenfd, batch, sentBefore, effects, was, s, e);
        effects := effects + [e];
        i := i + 1;
      }
      AllCallsFaithful(R, at, batch, sent);
      assert batch[..i] == batch;
      BatchAnswers(R.listenfd, batch, effects, start, R.kernel.ToCome());
    }

    static lemma NothingSeen(R: Reactor, at: map<int, Connection>, batch: seq<Ready>, was: map<int, Side>)
      ensures Seen(R, at, batch, []) && Noted(R.listenfd, batch, [], [], was)
    {}

    /** One batch keeps to itself: distinct descriptors, all in the table `at`, and every callback made for
        it ran on the entry of its descriptor there. */
    static ghost predicate Proper(R: Reactor, b: Batch) {
      && |b.sent| <= |b.events| && DistinctFds(b.events) && (forall r | r in b.events :: r.fd in b.at)
      && Faithful(b.at, AllCalls(R, b.at, b.events, b.sent))
    }

    static ghost function CallsOf(R: Reactor, log: seq<Batch>): seq<Call>
      requires forall b | b in log :: Proper(R, b)
    {
      if log == [] then []
      else
        var b := log[|log| - 1];
        assert Proper(R, b);
        CallsOf(R, log[..|log| - 1]) + AllCalls(R, b.at, b.events, b.sent)
    }

    static lemma OneMoreBatch(R: Reactor, log: seq<Batch>, b: Batch, before: seq<Call>)
      requires Proper(R, b) && forall c | c in log :: Proper(R, c)
      ensures forall c | c in log + [b] :: Proper(R, c)
      ensures before + CallsOf(R, log) + AllCalls(R, b.at, b.events, b.sent) == before + CallsOf(R, log + [b])
    {
      assert (log + [b])[..|log|] == log;
    }

    /** Epoller::Wait, asked for at most GNUM events. */
    static method WaitForEvents(R: Reactor) returns (batch: seq<Ready>)
      requires R.Rest()
      modifies R.kernel`recvs, R.kernel`sends, R.kernel`accepts, R.kernel`record
      ensures R.Rest() && |batch| <= GNUM && DistinctFds(batch) && Current(R, R.connections, batch)
      ensures R.kernel.record.waits
              == old(R.kernel.record.waits) + [Waited(old(R.kernel.ToCome()), R.kernel.ToCome(), batch)]
    {
      hide Reactor.HandlersOf, Resting, WireOk, DistinctFds;
      batch := R.kernel.Wait(GNUM);
      R.WatchedIsCurrent(batch);
    }

    /** The log says of every return of epoll_wait which batch it was; the rounds that are over came to the
        end of theirs. */
    static ghost predicate Logged(log: seq<Batch>, waits: seq<Waited>, over: nat) {
      && |log| == |waits|
      && (forall k | 0 <= k < |log| :: log[k].events == waits[k].events)
      && forall k | 0 <= k < |log| && k < over :: |log[k].sent| == |log[k].events|
    }

    /** The event loop: any number of rounds against any kernel. Whatever moment it is looked at, the kernel
        has taken on every descriptor, open or closed since, a prefix of the right answers to the bytes it
        delivered there; between rounds, what is not sent yet is in the output buffer. `log` has for every
        batch epoll_wait returned the table at that moment: the callbacks made are exactly theirs, and when
        epoll_wait is called again every event of the batch was served. */
    static method Despatcher(R: Reactor, rounds: nat) returns (status: Status, ghost log: seq<Batch>)
      requires R.Rest()
      modifies R`connections, R`finished, R`calls, R.kernel, R.connections.Values
      ensures R.Safe()
      ensures forall fd | fd in R.kernel.open && fd != R.listenfd ::
                RightSoFar(R.kernel.record.RecvdOn(fd), R.kernel.record.SentOn(fd))
      ensures forall e | e in R.kernel.record.ended :: RightSoFar(e.rx, e.tx)
      ensures |log| <= rounds && forall b | b in log :: Proper(R, b)
      ensures R.calls == old(R.calls) + CallsOf(R, log)
      ensures old(R.kernel.record.waits) <= R.kernel.record.waits
      ensures var waits := R.kernel.record.waits[|old(R.kernel.record.waits)|..];
              var over := if status != Done && log != [] then |log| - 1 else |log|;
              Logged(log, waits, over) && WorkedOff(R.listenfd, waits, R.kernel.ToCome(), over)
      ensures status == Done ==> |log| == rounds && R.Rest()
      ensures status == Done ==>
                forall fd | fd in R.connections && fd != R.listenfd ::
                  AllAnswered(R.connections[fd]) && Reactor.OnRecord(R.kernel.record, fd, R.connections[fd])
      ensures status == Done ==>
                && R.connections.Keys == R.kernel.interest.Keys == R.kernel.open
                && forall fd | fd in R.connections && fd != R.listenfd ::
                     R.kernel.interest[fd] == Mask(true, R.connections[fd].outbuf != "", true)
    {
      hide Reactor.Rest, Reactor.Safe, RightSoFar, AllAnswered, Current, AllCalls, Faithful, DistinctFds;
      hide Logged, WorkedOff, EventsDone, Seen, OutputServed, BatchServed;
      status, log := Done, [];
      ghost var waits: seq<Waited> := [];
      R.RestIsSafe();
      NoBatchYet(R.listenfd, R.kernel.ToCome());
      var n := 0;
      while n < rounds && status == Done
        invariant R.Safe() && (status == Done ==> R.Rest())
        invariant forall c | c in R.connections.Values :: c in old(R.connections.Values) || fresh(c)
        invariant |log| == n <= rounds && forall b | b in log :: Proper(R, b)
        invariant R.calls == old(R.calls) + CallsOf(R, log)
        invariant R.kernel.record.waits == old(R.kernel.record.waits) + waits
        invariant var over := if status != Done && log != [] then |log| - 1 else |log|;
                  Logged(log, waits, over) && WorkedOff(R.listenfd, waits, R.kernel.ToCome(), over)
        invariant status != Done ==> log != []
      {
        ghost var before := R.kernel.ToCome();
        var batch := WaitForEvents(R);
        ghost var sent, effects, at, toCome := [], [], R.connections, R.kernel.ToCome();
        BatchInTable(R, at, batch);
        status, sent, effects := LoopOnce(R, batch);
        AllCallsFaithful(R, at, batch, sent);
        OneMoreBatch(R, log, Batch(at, batch, sent), old(R.calls));
        LogMore(R.listenfd, log, waits, before, Waited(before, toCome, batch), Batch(at, batch, sent), R.kernel.ToCome());
        log, waits := log + [Batch(at, batch, sent)], waits + [Waited(before, toCome, batch)];
        n := n + 1;
      }
      R.SafeIsRight();
      if status == Done {
        R.RestIsAnswered();
        R.RestIsWatched();
      }
    }

    static lemma NoBatchYet(listenfd: int, now: Scripts)
      ensures Logged([], [], 0) && WorkedOff(listenfd, [], now, 0)
    {}

    static lemma LogMore(listenfd: int, log: seq<Batch>, waits: seq<Waited>, before: Scripts, w: Waited, b: Batch,
                         now: Scripts)
      requires Logged(log, waits, |log|) && WorkedOff(listenfd, waits, before, |log|)
      requires w.leftOver == before && w.events == b.events
      ensures Logged(log + [b], waits + [w], |log|) && WorkedOff(listenfd, waits + [w], now, |log|)
      ensures BatchServed(listenfd, w.events, w.toCome, now) && |b.sent| == |b.events| ==>
                Logged(log + [b], waits + [w], |log| + 1) && WorkedOff(listenfd, waits + [w], now, |log| + 1)
    {
      hide WorkedOff, BatchServed;
      WorkedOffMore(listenfd, waits, before, w, now);
      assert forall k | 0 <= k < |log| :: (log + [b])[k] == log[k] && (waits + [w])[k] == waits[k];
    }

    static lemma BatchInTable(R: Reactor, at: map<int, Connection>, batch: seq<Ready>)
      requires Current(R, at, batch)
      ensures forall r | r in batch :: r.fd in at
    {}
  }

  /** One return of epoll_wait: the table then, the events, and which of them had a callback for output. */
  datatype Batch = Batch(at: map<int, Connection>, events: seq<Ready>, sent: seq<bool>)

  // ----------------------------------------------------------- what it means

  /** The bytes sent so far are a prefix of the right answers to the bytes received so far; and for a
      client that sends good requests, whichever they are, of the replies to those, in order. */
  ghost predicate RightSoFar(rx: seq<string>, tx: string) {
    var s := Received(rx);
    && (WellFormed(s) ==> AllGood(Drain(s).packages) && tx <= Answers(Drain(s).packages))
    && (forall requests | FromClient(s, requests) :: tx <= Answers(requests))
  }

  /** Sent and buffered bytes together are the right answers to all bytes received; and the input
      buffer holds what follows the last complete request. */
  ghost predicate AllAnswered(c: Connection)
    reads c`rx, c`tx, c`inbuf, c`outbuf
  {
    var s := Received(c.rx);
    && (WellFormed(s) ==>
          && Drain(s).end == Waiting(c.inbuf)
          && AllGood(Drain(s).packages) && c.tx + c.outbuf == Answers(Drain(s).packages))
    && (forall requests | FromClient(s, requests) :: Consumed(requests, c))
  }

  /** Nothing is missing: the bytes received are the frames of the requests consumed so far followed by
      the input buffer, and the bytes sent followed by the output buffer are the replies to exactly those. */
  ghost predicate Consumed(requests: seq<string>, c: Connection)
    requires AllGood(requests)
    reads c`rx, c`tx, c`inbuf, c`outbuf
  {
    exists n: nat | n <= |requests| ::
      && Received(c.rx) == Frames(requests[..n]) + c.inbuf
      && AllGood(requests[..n]) && c.tx + c.outbuf == Answers(requests[..n])
  }

  /** From the recorded bursts to the wire alone: neither the chunking nor leftover memory shows. */
  lemma WireIsRight(w: Wire)
    requires WireOk(w)
    ensures RightSoFar(w.rx, w.tx)
  {
    hide Drain, Robust, ServeAll, Good, Answers, Received, Texts, Concat, Frames, WellFormed;
    var s := Received(w.rx);
    if WellFormed(s) {
      AnswersSoFar(s, w.bursts);
    }
    forall requests | FromClient(s, requests)
      ensures w.tx <= Answers(requests)
    {
      RepliesInOrder(requests, w);
    }
  }

  lemma CaughtUpIsAnswered(c: Connection)
    requires CaughtUp(c)
    ensures AllAnswered(c)
  {
    hide Drain, Robust, ServeAll, Good, Answers, Received, Texts, Concat, Frames, WellFormed, Consumed;
    var s := Received(c.rx);
    if WellFormed(s) {
      AnswersIndependentOfDelivery(s, c.bursts);
    }
    forall requests | FromClient(s, requests)
      ensures Consumed(requests, c)
    {
      NothingMissing(requests, c);
    }
  }

  /** For a client that sends well-formed requests in frames: however much of them has arrived, and in
      whatever pieces, the bytes on the wire are a prefix of the replies to the requests, in order. There
      is no bound on how long that goes on. */
  lemma RepliesInOrder(requests: seq<string>, w: Wire)
    requires FromClient(Received(w.rx), requests)
    requires WireOk(w)
    ensures w.tx <= Answers(requests)
  {
    hide Drain, Robust, Answers, Received, Frames, Good, WellFormed, ServeAll, Texts, Concat;
    var s := Received(w.rx);
    ClientIsWellFormed(s, requests);
    AnswersSoFar(s, w.bursts);
    PartOfFrames(requests, s);
    AnswersPrefix(Drain(s).packages, requests);
  }

  /** At rest nothing is missing, for as long as such a client goes on. */
  lemma NothingMissing(requests: seq<string>, c: Connection)
    requires FromClient(Received(c.rx), requests)
    requires CaughtUp(c)
    ensures Consumed(requests, c)
  {
    hide Drain, Robust, Answers, Received, Frames, Good, WellFormed, ServeAll, Texts, Concat;
    var s := Received(c.rx);
    ClientIsWellFormed(s, requests);
    AnswersIndependentOfDelivery(s, c.bursts);
    PartOfFrames(requests, s);
    var ps := Drain(s).packages;
    AnswersPrefix(ps, requests);
    assert ps == requests[..|ps|];
  }
}
