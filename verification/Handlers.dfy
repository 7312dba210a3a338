/** What the handlers do, as functions of a connection's buffers and of the kernel's answers. */
module Handlers {
  import opened Text
  import opened Protocol
  import opened Service
  import opened Kernel
  import opened Loops

  /** Done: the call returned. Otherwise it did not: a system call or the drain loop is still going on,
      or the process died. */
  datatype Status = Done | Stalled | Looping | Dead

  /** The two buffers of a connection and the bytes that crossed its socket. */
  datatype Side = Side(rx: seq<string>, inbuf: string, tx: string, outbuf: string)

  /** How a handler leaves them, and whether the connection is still there. */
  datatype Handled = Handled(side: Side, io: Scripts, status: Status, open: bool)

  /** HandlerSend. */
  function AfterSend(side: Side, io: Scripts): Handled {
    var run := SendLoop(io.sends, side.outbuf);
    Handled(side.(tx := side.tx + run.taken, outbuf := side.outbuf[|run.taken|..]), io.(sends := run.left),
            if run.exit == SendStarved then Stalled else Done, run.exit != SendBroken)
  }

  /** PackageParse::Parse, with the value `req` starts with. */
  function AfterParse(side: Side, io: Scripts, req: Request): Handled {
    var s := Serve(side.inbuf, req);
    var out := side.outbuf + s.out;
    match s.end
    case Waiting(rest) =>
      var parsed := side.(inbuf := rest, outbuf := out);
      if out != "" then AfterSend(parsed, io) else Handled(parsed, io, Done, true)
    case Died => Handled(side.(outbuf := out), io, Dead, true)
    case Spinning => Handled(side.(outbuf := out), io, Looping, true)
  }

  /** HandlerRecv. */
  function AfterRecv(side: Side, io: Scripts, req: Request): Handled {
    var run := RecvLoop(io.recvs, NoError);
    var filled := side.(rx := side.rx + run.chunks, inbuf := side.inbuf + Received(run.chunks));
    match run.exit
    case UpToDate => AfterParse(filled, io.(recvs := run.left), req)
    case RecvBroken => Handled(filled, io.(recvs := run.left), Done, false)
    case RecvStarved => Handled(filled, io.(recvs := run.left), Stalled, true)
  }

  lemma ParseCases(side: Side, io: Scripts, req: Request, s: Served, out: string)
    requires s == Serve(side.inbuf, req) && out == side.outbuf + s.out
    ensures s.end.Waiting? ==>
              var parsed := side.(inbuf := s.end.rest, outbuf := out);
              AfterParse(side, io, req) == if out != "" then AfterSend(parsed, io) else Handled(parsed, io, Done, true)
    ensures !s.end.Waiting? ==>
              AfterParse(side, io, req) == Handled(side.(outbuf := out), io, if s.end.Died? then Dead else Looping, true)
  {}

  lemma RecvCases(side: Side, io: Scripts, req: Request, run: RecvRun, inbuf: string)
    requires run == RecvLoop(io.recvs, NoError) && inbuf == side.inbuf + Received(run.chunks)
    ensures var filled := side.(rx := side.rx + run.chunks, inbuf := inbuf);
            AfterRecv(side, io, req) ==
            if run.exit == UpToDate then AfterParse(filled, io.(recvs := run.left), req)
            else
              Handled(filled, io.(recvs := run.left), if run.exit == RecvStarved then Stalled else Done,
                      run.exit == RecvStarved)
  {}

  // -------------------------------------------------------------- dispatching

  /** A hang-up or an error counts as readable and writable. */
  predicate WantsRead(r: Ready) { r.rd || r.hup || r.err }
  predicate WantsWrite(r: Ready) { r.wr || r.hup || r.err }

  /** What one event does to a client: HandlerRecv, then HandlerSend if the connection survived that. */
  function AfterEvent(r: Ready, side: Side, io: Scripts, req: Request): Handled {
    var h := if WantsRead(r) then AfterRecv(side, io, req) else Handled(side, io, Done, true);
    if h.status == Done && h.open && WantsWrite(r) then AfterSend(h.side, h.io) else h
  }

  /** What a whole batch does to the answers of recv and accept: each readable client reads until its loop
      ends, the listening socket accepts until its loop does. */
  function RecvsAfter(listenfd: int, events: seq<Ready>, recvs: seq<RecvResult>): seq<RecvResult>
    decreases |events|
  {
    if events == [] then recvs
    else
      RecvsAfter(listenfd, events[1..],
                 if WantsRead(events[0]) && events[0].fd != listenfd then RecvLoop(recvs, NoError).left else recvs)
  }

  function AcceptsAfter(listenfd: int, events: seq<Ready>, accepts: seq<AcceptResult>): seq<AcceptResult>
    decreases |events|
  {
    if events == [] then accepts
    else
      AcceptsAfter(listenfd, events[1..],
                   if WantsRead(events[0]) && events[0].fd == listenfd then AcceptLoop(accepts).left else accepts)
  }

  /** Recv and accept stand where serving every event of the batch from `start` on leaves them. */
  ghost predicate BatchServed(listenfd: int, events: seq<Ready>, start: Scripts, now: Scripts) {
    && now.recvs == RecvsAfter(listenfd, events, start.recvs)
    && now.accepts == AcceptsAfter(listenfd, events, start.accepts)
  }

  lemma {:induction false} OneMoreEvent(listenfd: int, events: seq<Ready>, r: Ready, io: Scripts)
    ensures RecvsAfter(listenfd, events + [r], io.recvs)
            == var recvs := RecvsAfter(listenfd, events, io.recvs);
               if WantsRead(r) && r.fd != listenfd then RecvLoop(recvs, NoError).left else recvs
    ensures AcceptsAfter(listenfd, events + [r], io.accepts)
            == var accepts := AcceptsAfter(listenfd, events, io.accepts);
               if WantsRead(r) && r.fd == listenfd then AcceptLoop(accepts).left else accepts
    decreases |events|
  {
    hide RecvLoop, AcceptLoop;
    if events == [] {
      assert events + [r] == [r] && [r][1..] == [];
    } else {
      assert (events + [r])[1..] == events[1..] + [r];
      var first := events[0];
      OneMoreEvent(listenfd, events[1..], r,
                   Scripts(if WantsRead(first) && first.fd != listenfd then RecvLoop(io.recvs, NoError).left else io.recvs,
                           io.sends,
                           if WantsRead(first) && first.fd == listenfd then AcceptLoop(io.accepts).left else io.accepts));
    }
  }

  /** The answers left over when epoll_wait was called after its k-th return, or now if it was not. */
  function LeftOver(waits: seq<Waited>, now: Scripts, k: nat): Scripts {
    if k + 1 < |waits| then waits[k + 1].leftOver else now
  }

  /** The first `n` batches epoll_wait returned were worked off: the answers left over afterwards were those
      that serving every event of the batch leaves. */
  ghost predicate WorkedOff(listenfd: int, waits: seq<Waited>, now: Scripts, n: nat) {
    forall k | 0 <= k < n && k < |waits| :: BatchServed(listenfd, waits[k].events, waits[k].toCome, LeftOver(waits, now, k))
  }

  lemma WorkedOffMore(listenfd: int, waits: seq<Waited>, before: Scripts, w: Waited, now: Scripts)
    requires WorkedOff(listenfd, waits, before, |waits|) && w.leftOver == before
    ensures WorkedOff(listenfd, waits + [w], now, |waits|)
    ensures BatchServed(listenfd, w.events, w.toCome, now) ==> WorkedOff(listenfd, waits + [w], now, |waits| + 1)
  {
    hide BatchServed;
    forall k: nat | k < |waits|
      ensures LeftOver(waits + [w], now, k) == LeftOver(waits, before, k)
    {}
  }

  /** Only accept is touched by the listening socket, and neither sends nor accepts by reading alone; recvs
      advance by exactly one receive loop. */
  lemma EventReads(r: Ready, side: Side, io: Scripts, req: Request)
    ensures var h := AfterEvent(r, side, io, req);
            && h.io.accepts == io.accepts
            && h.io.recvs == (if WantsRead(r) then RecvLoop(io.recvs, NoError).left else io.recvs)
            && h.side.rx == side.rx + (if WantsRead(r) then RecvLoop(io.recvs, NoError).chunks else [])
  {
    hide RecvLoop, SendLoop, Serve;
    assert side.rx + [] == side.rx;
  }

  /** One event of a batch: the buffers of its connection and the kernel's answers before and after it, the
      value `req` had, and whether the connection is still there. */
  datatype Effect = Effect(before: Side, after: Side, io: Scripts, next: Scripts, req: Request, open: bool)

  ghost predicate EventDone(listenfd: int, r: Ready, e: Effect) {
    if r.fd == listenfd then
      && e.after == e.before && e.open
      && e.next == (if WantsRead(r) then e.io.(accepts := AcceptLoop(e.io.accepts).left) else e.io)
      && (WantsRead(r) ==> AcceptLoop(e.io.accepts).back)
    else
      AfterEvent(r, e.before, e.io, e.req) == Handled(e.after, e.next, Done, e.open)
  }

  /** The events of a batch one after the other, the answers being `start` before them and `now` after. */
  ghost predicate EventsDone(listenfd: int, events: seq<Ready>, effects: seq<Effect>, start: Scripts, now: Scripts)
    decreases |events|
  {
    && |effects| == |events|
    && if events == [] then start == now
       else
         var i := |events| - 1;
         && effects[i].next == now && EventDone(listenfd, events[i], effects[i])
         && EventsDone(listenfd, events[..i], effects[..i], start, effects[i].io)
  }

  lemma NoneDone(listenfd: int, now: Scripts)
    ensures EventsDone(listenfd, [], [], now, now)
  {}

  lemma OneMoreDone(listenfd: int, events: seq<Ready>, r: Ready, effects: seq<Effect>, e: Effect, start: Scripts)
    requires EventsDone(listenfd, events, effects, start, e.io) && EventDone(listenfd, r, e)
    ensures EventsDone(listenfd, events + [r], effects + [e], start, e.next)
  {
    hide EventDone;
    assert (events + [r])[..|events|] == events && (effects + [e])[..|events|] == effects;
  }

  /** What the events of a batch did, one by one. */
  lemma {:induction false} EachDone(listenfd: int, events: seq<Ready>, effects: seq<Effect>, start: Scripts,
                                    now: Scripts, k: nat)
    requires EventsDone(listenfd, events, effects, start, now) && k < |events|
    ensures |effects| == |events| && EventDone(listenfd, events[k], effects[k])
    ensures effects[k].io == if k == 0 then start else effects[k - 1].next
    ensures k == |events| - 1 ==> effects[k].next == now
    decreases |events|
  {
    hide EventDone;
    var i := |events| - 1;
    if k < i {
      EachDone(listenfd, events[..i], effects[..i], start, effects[i].io, k);
    } else if k > 0 {
      EachDone(listenfd, events[..i], effects[..i], start, effects[i].io, k - 1);
    }
  }

  lemma {:induction false} BatchAnswers(listenfd: int, events: seq<Ready>, effects: seq<Effect>, start: Scripts,
                                        now: Scripts)
    requires EventsDone(listenfd, events, effects, start, now)
    ensures BatchServed(listenfd, events, start, now)
    decreases |events|
  {
    hide EventDone, RecvLoop, AcceptLoop;
    if events != [] {
      var i := |events| - 1;
      BatchAnswers(listenfd, events[..i], effects[..i], start, effects[i].io);
      EventAnswers(listenfd, events[i], effects[i]);
      OneMoreEvent(listenfd, events[..i], events[i], start);
      assert events[..i] + [events[i]] == events;
    }
  }

  lemma EventAnswers(listenfd: int, r: Ready, e: Effect)
    requires EventDone(listenfd, r, e)
    ensures e.next.recvs == if WantsRead(r) && r.fd != listenfd then RecvLoop(e.io.recvs, NoError).left else e.io.recvs
    ensures e.next.accepts == if WantsRead(r) && r.fd == listenfd then AcceptLoop(e.io.accepts).left else e.io.accepts
  {
    hide RecvLoop, AcceptLoop, AfterEvent;
    if r.fd != listenfd {
      EventReads(r, e.before, e.io, e.req);
    }
  }

  /** The event of a client, put together from its two callbacks. */
  lemma EventCases(r: Ready, side: Side, io: Scripts, req: Request, h: Handled)
    requires h == if WantsRead(r) then AfterRecv(side, io, req) else Handled(side, io, Done, true)
    ensures AfterEvent(r, side, io, req) ==
            if h.status == Done && h.open && WantsWrite(r) then AfterSend(h.side, h.io) else h
  {}
}
