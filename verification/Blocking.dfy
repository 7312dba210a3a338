/** The blocking calculator server and its client, and the two ends put together. */
module Blocking {
  import opened Text
  import opened Decimal
  import opened Protocol
  import opened Calculate
  import opened Draining
  import opened Service
  import opened Kernel

  /** A connected blocking socket. The scripts hold what the kernel will answer. */
  class Socket {
    var recvs: seq<RecvResult>
    var sends: seq<SendResult>
    ghost var offered: string  // what was handed to send
    ghost var wire: string     // what the kernel took of it
    ghost var short: bool      // some send took less than it was given

    /** Bytes are missing on the wire exactly when some send was short. */
    ghost predicate Valid()
      reads this
    {
      if short then |wire| < |offered| else wire == offered
    }

    constructor (recvs: seq<RecvResult>, sends: seq<SendResult>)
      ensures Valid() && this.recvs == recvs && this.sends == sends && offered == wire == "" && !short
    {
      this.recvs, this.sends, offered, wire, short := recvs, sends, "", "", false;
    }

    /** Received bytes are appended to the caller's string as a C string. The peer leaves at the end
        of the script. */
    method Recv(out: string) returns (n: int, r: string)
      modifies `recvs
      ensures n > 0 <==> Delivered(old(recvs)) != []
      ensures n > 0 ==> r == out + Delivered(old(recvs))[0] && Delivered(recvs) == Delivered(old(recvs))[1..]
      ensures n > 0 ==> |recvs| < |old(recvs)|
      ensures n <= 0 ==> r == out
    {
      r := out;
      if recvs == [] {
        return 0, r;
      }
      var first := recvs[0];
      recvs := recvs[1..];
      match first
      case Data(bytes) => return |bytes|, out + CString(bytes);
      case Eof => return 0, r;
      case RecvFailed(errno) => return -1, r;
    }

    /** The kernel takes some prefix, or nothing. */
    method Send(text: string) returns (n: int)
      requires Valid()
      modifies `sends, `offered, `wire, `short
      ensures sends == if old(sends) == [] then [] else old(sends)[1..]
      ensures n == SendCount(old(sends), |text|)
      ensures Valid() && offered == old(offered) + text
      ensures n <= |text| && wire == old(wire) + text[..if n < 0 then 0 else n]
      ensures short == (old(short) || BytesAt(old(sends), 0, |text|) != |text|)
    {
      n := |text|;
      if sends != [] {
        match sends[0] {
          case Took(k) => n := if k <= |text| then k else |text|;
          case SendFailed(errno) => n := -1;
        }
        sends := sends[1..];
      }
      short := short || (if n < 0 then 0 else n) < |text|;
      offered := offered + text;
      wire := wire + text[..if n < 0 then 0 else n];
    }
  }

  /** What the receive buffer gets, one text for each successful recv before the first that is not. */
  function Delivered(recvs: seq<RecvResult>): seq<string> {
    if recvs == [] || !recvs[0].Data? then [] else [CString(recvs[0].bytes)] + Delivered(recvs[1..])
  }

  /** What send number `i` returns for a text of this size. */
  function CountAt(sends: seq<SendResult>, i: nat, size: nat): int {
    if i >= |sends| then size
    else
      match Clip(sends[i], size)
      case Took(n) => n
      case SendFailed(_) => -1
  }

  function SendCount(sends: seq<SendResult>, size: nat): int { CountAt(sends, 0, size) }

  /** How many bytes it takes. */
  function BytesAt(sends: seq<SendResult>, i: nat, size: nat): nat {
    var n := CountAt(sends, i, size);
    if n < 0 then 0 else n
  }

  function AfterSends(sends: seq<SendResult>, n: nat): seq<SendResult> {
    if n <= |sends| then sends[n..] else []
  }

  /** The kernel's answers take every one of these texts whole. */
  predicate AllTaken(sends: seq<SendResult>, texts: seq<string>) {
    forall i | 0 <= i < |texts| :: BytesAt(sends, i, |texts[i]|) == |texts[i]|
  }

  lemma TakenAppend(sends: seq<SendResult>, a: seq<string>, b: seq<string>)
    ensures AllTaken(sends, a + b) <==> AllTaken(sends, a) && AllTaken(AfterSends(sends, |a|), b)
    ensures AfterSends(AfterSends(sends, |a|), |b|) == AfterSends(sends, |a + b|)
  {
    assert forall i: nat, size: nat :: BytesAt(AfterSends(sends, |a|), i, size) == BytesAt(sends, |a| + i, size);
    assert forall i | 0 <= i < |b| :: (a + b)[|a| + i] == b[i];
    if AllTaken(sends, a + b) {
      assert forall i | 0 <= i < |a| :: (a + b)[i] == a[i];
    }
  }

  lemma TakenOneMore(sends: seq<SendResult>, a: seq<string>, t: string)
    ensures AllTaken(sends, a + [t]) <==> AllTaken(sends, a) && BytesAt(AfterSends(sends, |a|), 0, |t|) == |t|
    ensures var left := AfterSends(sends, |a|);
            AfterSends(sends, |a + [t]|) == if left == [] then [] else left[1..]
  {
    TakenAppend(sends, a, [t]);
    assert [t][0] == t;
  }

  lemma NoneTaken(sends: seq<SendResult>)
    ensures AllTaken(sends, []) && AfterSends(sends, 0) == sends
  {}

  ghost predicate FailsToSend(sends: seq<SendResult>, i: nat) {
    i < |sends| && sends[i].SendFailed?
  }

  lemma CountFails(sends: seq<SendResult>, size: nat)
    ensures SendCount(sends, size) < 0 <==> FailsToSend(sends, 0)
    ensures sends == [] ==> SendCount(sends, size) == size
  {}

  // ----------------------------------------------------------------- server

  datatype Outcome = Quit | Crashed | Looping

  ghost predicate Matches(outcome: Outcome, end: End) {
    match outcome
    case Quit => end.Waiting?
    case Crashed => end.Died?
    case Looping => end.Spinning?
  }

  lemma Pad(texts: seq<string>) returns (bursts: seq<Burst>)
    ensures Texts(bursts) == texts
  {
    if texts == [] {
      bursts := [];
    } else {
      bursts := Pad(texts[1..]);
      bursts := [Burst(texts[0], Request(0, 0, '+'))] + bursts;
    }
  }

  /** Nothing that arrives after the loop has stopped matters. */
  lemma {:induction false} ServeAllStops(buf: string, a: seq<Burst>, b: seq<Burst>)
    requires !ServeAll(buf, a).end.Waiting?
    ensures ServeAll(buf, a + b) == ServeAll(buf, a)
    decreases |a|
  {
    hide Serve;
    assert (a + b)[1..] == a[1..] + b;
    var s := Serve(buf + a[0].text, a[0].stale);
    if s.end.Waiting? {
      ServeAllStops(s.end.rest, a[1..], b);
    }
  }

  lemma ServeNone()
    ensures Texts([]) == [] && ServeAll("", []) == Served("", Waiting("")) && RepliesAll("", []) == []
  {}

  lemma TextOf(b: Burst)
    ensures Texts([b]) == [b.text]
  {}

  /** What the inner loop works on. */
  datatype Answering = Answering(rest: string, req: Request, offered: string, sends: seq<SendResult>, short: bool)

  /** The loop that began at `start` has sent `sofar` and is at `now`. */
  ghost predicate Serving(start: Answering, sofar: seq<string>, now: Answering) {
    var all, left := Serve(start.rest, start.req), Serve(now.rest, now.req);
    && all.end == left.end && all.out == Concat(sofar) + left.out
    && Replies(start.rest, start.req) == sofar + Replies(now.rest, now.req)
    && now.offered == start.offered + Concat(sofar)
    && now.sends == AfterSends(start.sends, |sofar|)
    && now.short == (start.short || !AllTaken(start.sends, sofar))
  }

  /** It stopped like this, with these fields of the socket. */
  ghost predicate Finished(start: Answering, now: Answering, end: End) {
    var s, replies := Serve(start.rest, start.req), Replies(start.rest, start.req);
    && s.end == end && now.offered == start.offered + s.out
    && now.sends == AfterSends(start.sends, |replies|)
    && now.short == (start.short || !AllTaken(start.sends, replies))
  }

  lemma FinishedMeans(start: Answering, now: Answering, end: End)
    requires Finished(start, now, end)
    ensures var s, replies := Serve(start.rest, start.req), Replies(start.rest, start.req);
            && s.end == end && now.offered == start.offered + s.out
            && now.sends == AfterSends(start.sends, |replies|)
            && now.short == (start.short || !AllTaken(start.sends, replies))
  {}

  lemma ServingStart(start: Answering)
    ensures Serving(start, [], start)
  {
    NoneTaken(start.sends);
    assert Concat([]) == "";
  }

  /** The socket after the next send of this text. */
  function Offered(now: Answering, reply: string): Answering {
    Answering(now.rest, now.req, now.offered + reply, if now.sends == [] then [] else now.sends[1..],
              now.short || BytesAt(now.sends, 0, |reply|) != |reply|)
  }

  /** One round of the loop. */
  lemma ServingStep(start: Answering, sofar: seq<string>, now: Answering, d: Decoded)
    requires Serving(start, sofar, now) && d == Decode(now.rest)
    ensures d.Threw? ==> Finished(start, now, Died)
    ensures d.Returned? && d.message == "" ==> Finished(start, now, Waiting(d.rest))
    ensures d.Returned? && d.message != "" ==>
              var a := React(now.req, d.message);
              if a.Crash? then Finished(start, now, Died)
              else
                var next := Offered(now, a.reply).(rest := d.rest, req := a.req);
                if |d.rest| == |now.rest| then Finished(start, next, Spinning)
                else Serving(start, sofar + [a.reply], next)
  {
    hide Decode, React, AllTaken, AfterSends, BytesAt;
    assert sofar + [] == sofar && Concat(sofar) + "" == Concat(sofar);
    if d.Returned? && d.message != "" && React(now.req, d.message).Answer? {
      SendingStep(start, sofar, now, d.rest, React(now.req, d.message).req, React(now.req, d.message).reply);
    }
  }

  lemma SendingStep(start: Answering, sofar: seq<string>, now: Answering, rest: string, r: Request, reply: string)
    requires Serving(start, sofar, now)
    requires Decode(now.rest).Returned? && Decode(now.rest).rest == rest && Decode(now.rest).message != ""
    requires React(now.req, Decode(now.rest).message) == Answer(r, reply)
    ensures var next := Offered(now, reply).(rest := rest, req := r);
            if |rest| == |now.rest| then Finished(start, next, Spinning) else Serving(start, sofar + [reply], next)
  {
    hide Decode, React, AllTaken, AfterSends, BytesAt;
    TakenOneMore(start.sends, sofar, reply);
    ConcatAppend(sofar, [reply]);
    assert Concat([reply]) == reply + "" == reply;
    assert start.offered + Concat(sofar) + reply == start.offered + (Concat(sofar) + reply);
    if |rest| == |now.rest| {
      assert Replies(now.rest, now.req) == [reply] + [] == [reply];
    } else {
      var more, out := Replies(rest, r), Serve(rest, r).out;
      assert sofar + ([reply] + more) == sofar + [reply] + more;
      assert Concat(sofar) + (reply + out) == Concat(sofar) + reply + out;
    }
  }

  class CalculatorService {
    /** The inner loop of AddService: one reply sent for each complete package. */
    static method AnswerPackages(sock: Socket, recvmessage: string, first: Request)
      returns (outcome: Outcome, rest: string)
      requires sock.Valid()
      modifies sock`sends, sock`offered, sock`wire, sock`short
      ensures sock.Valid()
      ensures var s := Serve(recvmessage, first);
              && sock.offered == old(sock.offered) + s.out && Matches(outcome, s.end)
              && (outcome == Quit ==> rest == s.end.rest)
      ensures sock.sends == AfterSends(old(sock.sends), |Replies(recvmessage, first)|)
      ensures sock.short == (old(sock.short) || !AllTaken(old(sock.sends), Replies(recvmessage, first)))
    {
      hide Decode, React, Serving, Finished, SendCount, BytesAt;
      var req := first;
      rest := recvmessage;
      ghost var start := Answering(rest, req, sock.offered, sock.sends, sock.short);
      ghost var sofar: seq<string> := [];
      ServingStart(start);
      while true
        invariant sock.Valid()
        invariant Serving(start, sofar, Answering(rest, req, sock.offered, sock.sends, sock.short))
        decreases |rest|
      {
        ghost var now := Answering(rest, req, sock.offered, sock.sends, sock.short);
        var d := Decode(rest);
        ServingStep(start, sofar, now, d);
        if d.Threw? {
          FinishedMeans(start, now, Died);
          return Crashed, rest;
        }
        if d.message == "" {
          FinishedMeans(start, now, Waiting(d.rest));
          return Quit, d.rest;
        }
        match React(req, d.message)
        case Crash =>
          FinishedMeans(start, now, Died);
          return Crashed, rest;
        case Answer(r, reply) =>
          var n := sock.Send(reply);
          sofar := sofar + [reply];
          if |d.rest| == |rest| {
            // nothing was erased: the same round follows forever
            FinishedMeans(start, Answering(d.rest, r, sock.offered, sock.sends, sock.short), Spinning);
            return Looping, rest;
          }
          req, rest := r, d.rest;
      }
    }

    /** Serves one client until it quits. Whatever the recv answers, the bytes handed to send are the
        right answers to the bytes received, once each and in order. The count send returns is ignored, so
        the wire carries those answers exactly when the kernel takes every reply whole. */
    static method AddService(sock: Socket) returns (outcome: Outcome, ghost bursts: seq<Burst>)
      requires sock.Valid()
      modifies sock
      ensures sock.Valid()
      ensures Texts(bursts) == Delivered(old(sock.recvs))
      ensures sock.offered == old(sock.offered) + ServeAll("", bursts).out
      ensures Matches(outcome, ServeAll("", bursts).end)
      ensures var s := Concat(Delivered(old(sock.recvs)));
              WellFormed(s) ==>
              && AllGood(Drain(s).packages)
              && sock.offered == old(sock.offered) + Answers(Drain(s).packages) && Matches(outcome, Drain(s).end)
      ensures sock.short == (old(sock.short) || !AllTaken(old(sock.sends), RepliesAll("", bursts)))
      ensures !old(sock.short) ==>
                (sock.wire == old(sock.wire) + ServeAll("", bursts).out
                 <==> AllTaken(old(sock.sends), RepliesAll("", bursts)))
    {
      hide Serve, ServeAll, Drain, WellFormed, Answers, AllGood, Delivered, Concat, Texts;
      hide Replies, RepliesAll, AllTaken, AfterSends;
      ghost var all := Delivered(sock.recvs);
      var recvmessage := "";
      bursts := [];
      ServeNone();
      NoneTaken(sock.sends);
      while true
        invariant sock.Valid()
        invariant sock.sends == AfterSends(old(sock.sends), |RepliesAll("", bursts)|)
        invariant sock.short == (old(sock.short) || !AllTaken(old(sock.sends), RepliesAll("", bursts)))
        invariant all == Delivered(old(sock.recvs)) == Texts(bursts) + Delivered(sock.recvs)
        invariant ServeAll("", bursts).end == Waiting(recvmessage)
        invariant sock.offered == old(sock.offered) + ServeAll("", bursts).out
        decreases |sock.recvs|
      {
        var req: Request := *;
        ghost var recvs := sock.recvs;
        var n, text := sock.Recv(recvmessage);
        recvmessage := text;
        if n <= 0 {
          outcome := Quit;
          assert Texts(bursts) + [] == Texts(bursts);
          break;
        }
        ghost var last := Burst(Delivered(recvs)[0], req);
        ServeOneMore("", bursts, last);
        RepliesOneMore("", bursts, last);
        TakenAppend(old(sock.sends), RepliesAll("", bursts), Replies(recvmessage, req));
        TextsAppend(bursts, [last]);
        ServeNone();
        TextOf(last);
        assert Delivered(recvs) == [last.text] + Delivered(sock.recvs);
        assert all == Texts(bursts + [last]) + Delivered(sock.recvs);
        bursts := bursts + [last];
        outcome, recvmessage := AnswerPackages(sock, recvmessage, req);
        if outcome != Quit {
          ghost var missed := Pad(Delivered(sock.recvs));
          ServeAllStops("", bursts, missed);
          RepliesAllStop("", bursts, missed);
          TextsAppend(bursts, missed);
          bursts := bursts + missed;
          break;
        }
      }
      ghost var s := Concat(Delivered(old(sock.recvs)));
      if WellFormed(s) {
        AnswersIndependentOfDelivery(s, bursts);
      }
    }
  }

  // ----------------------------------------------------------------- client

  /** The value a Response object starts with. */
  const UNSET: Response := Response(0, 0, BAD_OPERATOR)

  datatype Shown = Shown(responses: seq<Response>, end: End)

  /** The object after DeSerialize; a rejected package leaves it as it was built. */
  function ReadReply(package: string): Option<Response> {
    match DeSerializeResponse(package)
    case NumberThrew => None
    case Rejected => Some(UNSET)
    case Accepted(v) => Some(v)
  }

  /** What the client makes of its receive buffer. */
  function Show(buf: string): Shown
    decreases |buf|
  {
    match Decode(buf)
    case Threw => Shown([], Died)
    case Returned(package, rest) =>
      if package == "" then Shown([], Waiting(rest))
      else
        match ReadReply(package)
        case None => Shown([], Died)
        case Some(v) =>
          if |rest| == |buf| then Shown([v], Spinning)
          else var s := Show(rest); Shown([v] + s.responses, s.end)
  }

  lemma ReplyRead(package: string, p: Parsed<Response>)
    requires p == DeSerializeResponse(package)
    ensures ReadReply(package) == if p.NumberThrew? then None else Some(if p.Accepted? then p.value else UNSET)
  {}

  /** One round of the client's loop, where `shown` was shown before. */
  lemma ShowStep(buf: string, d: Decoded, shown: seq<Response>)
    requires d == Decode(buf)
    ensures d.Threw? ==> Show(buf) == Shown([], Died)
    ensures d.Returned? && d.message == "" ==> Show(buf) == Shown([], Waiting(d.rest))
    ensures d.Returned? && d.message != "" ==>
              var v, next := ReadReply(d.message), Show(d.rest);
              if v.None? then Show(buf) == Shown([], Died)
              else if |d.rest| == |buf| then Show(buf) == Shown([v.value], Spinning)
              else Show(buf).end == next.end
                   && shown + Show(buf).responses == shown + [v.value] + next.responses
  {
    hide Decode, ReadReply;
    if d.Returned? && d.message != "" && ReadReply(d.message).Some? {
      var v, more := ReadReply(d.message).value, Show(d.rest).responses;
      assert shown + ([v] + more) == shown + [v] + more;
    }
  }

  /** The client's loop ends as the bytes say, unless a number in a reply cannot be read. */
  lemma {:induction false} ShowEnds(buf: string)
    requires Fits(buf)
    ensures Show(buf).end == if forall p | p in Drain(buf).packages :: ReadReply(p).Some? then Drain(buf).end else Died
    ensures Show(buf).end.Spinning? <==> Spins(buf) && forall p | p in Drain(buf).packages :: ReadReply(p).Some?
    decreases |buf|
  {
    hide Decode, ReadReply;
    DrainEnds(buf);
    hide Spins, Dies;
    match Decode(buf)
    case Threw =>
    case Returned(package, rest) =>
      if package != "" {
        var ps := Drain(buf).packages;
        assert package == ps[0] && package in ps;
        if |rest| != |buf| {
          assert ps == [package] + Drain(rest).packages;
          ShowEnds(rest);
        } else {
          assert ps == [package];
        }
      }
  }

  datatype ClientStatus = New | Connected | Disconnected | Close | Dead | Stuck

  function RequestTexts(rs: seq<Request>): (r: seq<string>)
    ensures |r| == |rs|
    ensures forall i | 0 <= i < |r| :: r[i] == SerializeRequest(rs[i])
  {
    if rs == [] then [] else [SerializeRequest(rs[0])] + RequestTexts(rs[1..])
  }

  /** The bytes of the first `n` requests, or of all there are. */
  function Asked(rs: seq<Request>, n: nat): string {
    Frames(RequestTexts(rs[..if n < |rs| then n else |rs|]))
  }

  /** Every finished round showed exactly what its own recv held. */
  ghost predicate ShownRight(shown: seq<seq<Response>>, texts: seq<string>) {
    |shown| <= |texts| &&
    forall i | 0 <= i < |shown| :: shown[i] == Show(texts[i]).responses && Show(texts[i]).end.Waiting?
  }

  /** The rounds so far were right, and these texts are left. */
  ghost predicate Rounds(shown: seq<seq<Response>>, all: seq<string>, left: seq<string>) {
    ShownRight(shown, all) && left == all[|shown|..]
  }

  lemma NextRound(shown: seq<seq<Response>>, all: seq<string>, left: seq<string>)
    requires Rounds(shown, all, left)
    ensures ShownRight(shown, all) && |shown| + |left| == |all|
    ensures left != [] ==> left[0] == all[|shown|]
    ensures left != [] && Show(left[0]).end.Waiting? ==> Rounds(shown + [Show(left[0]).responses], all, left[1..])
  {
    hide Show;
  }

  lemma NoRounds(all: seq<string>)
    ensures Rounds([], all, all)
  {}

  /** None of the first `n` sends failed. */
  ghost predicate NoneFailed(sends: seq<SendResult>, n: nat) {
    forall i: nat | i < n :: !FailsToSend(sends, i)
  }

  /** They used up these answers and left the others. */
  ghost predicate AllSent(all: seq<SendResult>, n: nat, left: seq<SendResult>) {
    NoneFailed(all, n) && left == if n <= |all| then all[n..] else []
  }

  lemma SendNext(all: seq<SendResult>, n: nat, left: seq<SendResult>)
    requires AllSent(all, n, left)
    ensures FailsToSend(left, 0) <==> FailsToSend(all, n)
    ensures NoneFailed(all, n) && (all == [] ==> left == [])
    ensures !FailsToSend(left, 0) ==> AllSent(all, n + 1, if left == [] then [] else left[1..])
  {}

  lemma NothingSent(all: seq<SendResult>)
    ensures AllSent(all, 0, all)
  {}

  class ClientConnection {
    var status: ClientStatus

    constructor ()
      ensures status == New
    {
      status := New;
    }

    method Connect(ok: bool)
      modifies this
      ensures status == if ok then Connected else Disconnected
    {
      status := if ok then Connected else Disconnected;
    }

    /** Takes every complete package out of one receive buffer and shows it. */
    static method ShowPackages(recvmessage: string) returns (shown: seq<Response>, end: End)
      ensures Shown(shown, end) == Show(recvmessage)
    {
      hide Decode, DeSerializeResponse, ReadReply, Show;
      shown := [];
      var rest := recvmessage;
      ghost var all := Show(recvmessage);
      while true
        invariant var now := Show(rest);
                  all == Shown(shown + now.responses, now.end)
        decreases |rest|
      {
        assert shown + [] == shown;
        var d := Decode(rest);
        ShowStep(rest, d, shown);
        if d.Threw? {
          return shown, Died;
        }
        if d.message == "" {
          return shown, Waiting(d.rest);
        }
        var resp := UNSET;
        var p := DeSerializeResponse(d.message);
        ReplyRead(d.message, p);
        if p.NumberThrew? {
          return shown, Died;
        }
        if p.Accepted? {
          resp := p.value;
        }
        shown := shown + [resp];
        if |d.rest| == |rest| {
          return shown, Spinning;
        }
        rest := d.rest;
      }
    }

    /** One request out, one recv into a fresh buffer, everything complete in it shown; for the given
        requests or until something goes wrong. `shown` has one entry for each finished round. */
    method Process(sock: Socket, requests: seq<Request>) returns (shown: seq<seq<Response>>)
      requires sock.Valid() && status == Connected
      modifies this, sock
      ensures sock.Valid() && |shown| <= |requests|
      ensures ShownRight(shown, Delivered(old(sock.recvs)))
      ensures NoneFailed(old(sock.sends), |shown|)
      ensures status == if |shown| == |requests| then Connected
                        else if FailsToSend(old(sock.sends), |shown|) then Close
                        else if |shown| == |Delivered(old(sock.recvs))| then Disconnected
                        else if Show(Delivered(old(sock.recvs))[|shown|]).end.Died? then Dead else Stuck
      ensures status in {Dead, Stuck} ==> !Show(Delivered(old(sock.recvs))[|shown|]).end.Waiting?
      ensures sock.offered == old(sock.offered) + Asked(requests, |shown| + 1)
      ensures old(sock.sends) == [] ==> sock.short == old(sock.short)
    {
      hide Show, Encode, Delivered, SerializeRequest, Asked, SendCount, FailsToSend, AllSent, NoneFailed, Rounds, ShownRight;
      shown := [];
      NothingSent(sock.sends);
      SendNext(sock.sends, 0, sock.sends);
      AskedAll(requests);
      ghost var all := Delivered(sock.recvs);
      NoRounds(all);
      while |shown| < |requests|
        invariant sock.Valid() && status == Connected && |shown| <= |requests|
        invariant all == Delivered(old(sock.recvs)) && Rounds(shown, all, Delivered(sock.recvs))
        invariant old(sock.sends) == [] ==> sock.short == old(sock.short)
        invariant AllSent(old(sock.sends), |shown|, sock.sends) && NoneFailed(old(sock.sends), |shown|)
        invariant sock.offered == old(sock.offered) + Asked(requests, |shown|)
      {
        var req := requests[|shown|];
        var sendmessage := Encode(SerializeRequest(req));
        OneMoreRequest(requests, |shown|);
        CountFails(sock.sends, |sendmessage|);
        SendNext(old(sock.sends), |shown|, sock.sends);
        NextRound(shown, all, Delivered(sock.recvs));
        var n := sock.Send(sendmessage);
        if n < 0 {
          status := Close;
          return;
        }
        var m, recvmessage := sock.Recv("");
        if m <= 0 {
          status := Disconnected;
          return;
        }
        assert recvmessage == all[|shown|];
        var responses, end := ShowPackages(recvmessage);
        if !end.Waiting? {
          status := if end.Died? then Dead else Stuck;
          return;
        }
        shown := shown + [responses];
        SendNext(old(sock.sends), |shown|, sock.sends);
      }
      NextRound(shown, all, Delivered(sock.recvs));
    }
  }

  lemma OneMoreRequest(rs: seq<Request>, n: nat)
    requires n < |rs|
    ensures Asked(rs, n + 1) == Asked(rs, n) + Encode(SerializeRequest(rs[n]))
  {
    hide Encode, SerializeRequest;
    var a, b := RequestTexts(rs[..n]), [SerializeRequest(rs[n])];
    assert RequestTexts(rs[..n + 1]) == a + b;
    FramesAppend(a, b);
    assert b[1..] == [] && Frames(b) == Encode(b[0]) + "";
  }

  lemma AskedAll(rs: seq<Request>)
    ensures Asked(rs, 0) == "" && Asked(rs, |rs| + 1) == Asked(rs, |rs|)
  {}

  // ---------------------------------------------------- one reply per round

  function ResponseFrame(v: Response): string { Encode(SerializeResponse(v)) }

  /** A response that survives the codec and whose frame has a length an int can hold. */
  ghost predicate Deliverable(v: Response) {
    DeSerializeResponse(SerializeResponse(v)) == Accepted(v) && Fits(ResponseFrame(v))
  }

  lemma ShowOne(v: Response, p: string)
    requires Deliverable(v) && p <= ResponseFrame(v)
    ensures Show(p).responses == [v] <==> p == ResponseFrame(v)
    ensures p != ResponseFrame(v) ==> Show(p) == Shown([], Waiting(p))
  {
    hide DeSerializeResponse, SerializeResponse, Encode, Decode;
    var m := SerializeResponse(v);
    if p == Encode(m) {
      assert Encode(m) + "" == p;
      DecodeEncode(m, "");
      BlankResponse(v);
      NothingDecodes();
      assert Show("") == Shown([], Waiting(""));
      assert [v] + [] == [v];
    } else {
      DecodePrefix(m, p);
    }
  }

  lemma BlankResponse(v: Response)
    ensures SerializeResponse(v) != "" && Encode(SerializeResponse(v)) != ""
  {
    NumeralBytes(v.result);
  }

  lemma NothingDecodes()
    ensures Decode("") == Returned("", "")
  {}

  /** The replies wait in the socket; each round takes a non-empty prefix of what is there. */
  ghost predicate Channel(pending: string, replies: seq<Response>, chunks: seq<string>)
    decreases |replies|
  {
    |chunks| == |replies| &&
    (replies != [] ==>
       var there := pending + ResponseFrame(replies[0]);
       chunks[0] != "" && chunks[0] <= there && Channel(there[|chunks[0]|..], replies[1..], chunks[1..]))
  }

  /** The client forgets its buffer after every round, so it shows every reply in its round exactly when
      every recv happened to deliver one whole frame. */
  lemma {:induction false} ClientNeedsWholeReplies(replies: seq<Response>, chunks: seq<string>)
    requires forall v | v in replies :: Deliverable(v)
    requires Channel("", replies, chunks)
    ensures (forall i | 0 <= i < |chunks| :: Show(chunks[i]).responses == [replies[i]])
            <==> (forall i | 0 <= i < |chunks| :: chunks[i] == ResponseFrame(replies[i]))
    decreases |replies|
  {
    hide Deliverable, ResponseFrame, Show;
    if replies != [] {
      var v := replies[0];
      assert "" + ResponseFrame(v) == ResponseFrame(v);
      ShowOne(v, chunks[0]);
      if chunks[0] == ResponseFrame(v) {
        assert ResponseFrame(v)[|chunks[0]|..] == "";
        ClientNeedsWholeReplies(replies[1..], chunks[1..]);
        assert forall i | 0 < i < |chunks| :: chunks[i] == chunks[1..][i - 1] && replies[i] == replies[1..][i - 1];
        assert forall i | 0 <= i < |chunks[1..]| :: chunks[1..][i] == chunks[i + 1] && replies[1..][i] == replies[i + 1];
      }
    }
  }

  // ------------------------------------------------ client, server and back

  /** What receive buffers make of the chunks recv delivers. */
  function CStrings(chunks: seq<string>): (r: seq<string>)
    ensures |r| == |chunks|
  {
    if chunks == [] then [] else [CString(chunks[0])] + CStrings(chunks[1..])
  }

  lemma {:induction false} CStringWhole(s: string)
    requires '\0' !in s
    ensures CString(s) == s
  {
    if s != "" {
      assert s == [s[0]] + s[1..];
      CStringWhole(s[1..]);
    }
  }

  /** All bytes reach the receive buffer, however they are chunked, exactly when none of them is NUL. */
  lemma {:induction false} BytesSurvive(chunks: seq<string>)
    ensures |Concat(CStrings(chunks))| <= |Concat(chunks)|
    ensures |Concat(CStrings(chunks))| == |Concat(chunks)| <==> '\0' !in Concat(chunks)
    ensures '\0' !in Concat(chunks) ==> CStrings(chunks) == chunks
    decreases |chunks|
  {
    hide CString;
    if chunks != [] {
      var c, t := chunks[0], chunks[1..];
      BytesSurvive(t);
      assert forall b :: b in c + Concat(t) <==> b in c || b in Concat(t);
      if '\0' !in c {
        CStringWhole(c);
      } else {
        assert CString(c) != c;
        assert |CString(c)| < |c|;
      }
    }
  }

  lemma NumeralNotNul(n: int)
    ensures '\0' !in ToString(n)
  {
    var d := Digits(if n < 0 then -n else n);
    assert forall c | c in d :: IsDigit(c);
  }

  lemma FrameNotNul(m: string)
    ensures '\0' in Encode(m) <==> '\0' in m
  {
    NumeralNotNul(Wrap32(|m|));
  }

  /** A request has a NUL byte on the wire exactly when its operator is one. */
  lemma RequestNul(r: Request)
    ensures '\0' in Encode(SerializeRequest(r)) <==> r.oper == '\0'
  {
    hide ToString;
    FrameNotNul(SerializeRequest(r));
    NumeralNotNul(r.x);
    NumeralNotNul(r.y);
    assert SerializeRequest(r)[|ToString(r.x)| + 1] == r.oper;
  }

  lemma TextsNotNul()
    ensures '\0' !in BAD_OPERATOR && '\0' !in DIVISION_BY_ZERO && '\0' !in MODULO_BY_ZERO
  {}

  lemma ComputedNotNul(r: Request, result: int)
    requires r.oper != '\0' && Computed(r, result).Some?
    ensures '\0' !in Computed(r, result).value.equation
  {
    hide ToString;
    NumeralNotNul(r.x);
    NumeralNotNul(r.y);
    NumeralNotNul(result);
  }

  lemma EquationNotNul(r: Request)
    requires Execute(r).Some?
    ensures '\0' !in Execute(r).value.equation
  {
    hide Computed, TruncDiv, TruncMod;
    TextsNotNul();
    forall result | Computed(r, result).Some? && r.oper != '\0'
      ensures '\0' !in Computed(r, result).value.equation
    {
      ComputedNotNul(r, result);
    }
  }

  /** No reply ever has one. */
  lemma ReplyNotNul(r: Request)
    requires Execute(r).Some?
    ensures '\0' !in Encode(SerializeResponse(Execute(r).value))
  {
    hide ToString, Execute;
    var v := Execute(r).value;
    EquationNotNul(r);
    FrameNotNul(SerializeResponse(v));
    NumeralNotNul(v.result);
    NumeralNotNul(v.flag);
  }

  lemma {:induction false} FramesNul(ms: seq<string>)
    ensures '\0' in Frames(ms) <==> exists m :: m in ms && '\0' in Encode(m)
    decreases |ms|
  {
    hide Encode;
    if ms != [] {
      assert ms == [ms[0]] + ms[1..];
      FramesNul(ms[1..]);
    }
  }

  /** Every request is short. */
  lemma RequestFits(r: Request)
    ensures Fits(Encode(SerializeRequest(r)))
  {
    hide ToString;
    NumeralBound(r.x);
    NumeralBound(r.y);
    var m := SerializeRequest(r);
    assert |m| < 30;
    NumeralBound(|m|);
  }

  lemma GoodRequest(r: Request)
    requires Execute(r).Some?
    ensures Good(SerializeRequest(r)) && SerializeRequest(r) != ""
    ensures ResponseText(SerializeRequest(r)) == SerializeResponse(Execute(r).value)
  {
    hide Execute, DeSerializeRequest;
    RequestRoundTrip(r);
  }

  lemma RequestsAreGood(rs: seq<Request>)
    requires forall r | r in rs :: Execute(r).Some?
    ensures AllGood(RequestTexts(rs)) && Sendable(RequestTexts(rs))
    ensures forall i | 0 <= i < |rs| :: ResponseTexts(RequestTexts(rs))[i] == SerializeResponse(Execute(rs[i]).value)
  {
    hide Execute, SerializeRequest, SerializeResponse, Good, ResponseText, Encode;
    forall i | 0 <= i < |rs|
      ensures Good(RequestTexts(rs)[i]) && RequestTexts(rs)[i] != "" && Fits(Encode(RequestTexts(rs)[i]))
      ensures ResponseText(RequestTexts(rs)[i]) == SerializeResponse(Execute(rs[i]).value)
    {
      GoodRequest(rs[i]);
      RequestFits(rs[i]);
    }
  }

  /** A request stream reaches the server's buffer unharmed, however it is chunked, exactly when no
      operator is the NUL byte. */
  lemma RequestsArrive(rs: seq<Request>, arrivals: seq<string>)
    requires Concat(arrivals) == Frames(RequestTexts(rs))
    ensures CStrings(arrivals) == arrivals <==> forall r | r in rs :: r.oper != '\0'
  {
    hide Encode, SerializeRequest;
    var ms := RequestTexts(rs);
    forall i | 0 <= i < |rs|
      ensures ms[i] in ms && ('\0' in Encode(ms[i]) <==> rs[i].oper == '\0')
    {
      RequestNul(rs[i]);
    }
    FramesNul(ms);
    BytesSurvive(arrivals);
  }

  lemma QuietNothing()
    ensures Quiet("")
  {}

  /** The server's half: whatever the chunking, one reply for each request, in order, and nothing left. */
  lemma RequestsAreAnswered(rs: seq<Request>, arrivals: seq<string>, bursts: seq<Burst>)
    requires forall r | r in rs :: Execute(r).Some? && r.oper != '\0'
    requires Concat(arrivals) == Frames(RequestTexts(rs))
    requires Texts(bursts) == CStrings(arrivals)
    ensures AllGood(RequestTexts(rs))
    ensures ServeAll("", bursts) == Served(Answers(RequestTexts(rs)), Waiting(""))
  {
    hide Execute, SerializeRequest, Answers, ServeAll, Drain, WellFormed, AllGood, Encode;
    var ms := RequestTexts(rs);
    RequestsAreGood(rs);
    RequestsArrive(rs, arrivals);
    QuietNothing();
    assert Frames(ms) + "" == Frames(ms);
    FramesDrain(ms, "");
    ClientIsWellFormed(Frames(ms), ms);
    AnswersIndependentOfDelivery(Frames(ms), bursts);
  }

  /** The way back: whatever the chunking, the frames cut out of the reply stream parse to exactly the
      results, in order, and nothing is left. */
  lemma RepliesAreRecovered(rs: seq<Request>, back: seq<string>)
    requires forall r | r in rs :: Execute(r).Some?
    requires AllGood(RequestTexts(rs)) && Concat(back) == Answers(RequestTexts(rs))
    ensures var f := Feed("", CStrings(back));
            && f.end == Waiting("") && |f.packages| == |rs|
            && forall i | 0 <= i < |rs| :: DeSerializeResponse(f.packages[i]) == Accepted(Execute(rs[i]).value)
  {
    hide Execute, SerializeRequest, SerializeResponse, DeSerializeResponse, ResponseText, Good, AllGood, Encode, Feed;
    var ms := ResponseTexts(RequestTexts(rs));
    RequestsAreGood(rs);
    forall i | 0 <= i < |rs|
      ensures ms[i] != "" && '\0' !in Encode(ms[i]) && Fits(Encode(ms[i]))
      ensures DeSerializeResponse(ms[i]) == Accepted(Execute(rs[i]).value)
    {
      ExecuteMeetsCodec(rs[i]);
      ReplyNotNul(rs[i]);
      ReplyFitsOneRecv(rs[i]);
    }
    FramesNul(ms);
    BytesSurvive(back);
    QuietNothing();
    assert Frames(ms) + "" == Frames(ms);
    AnyChunkingOfFrames(ms, "", back);
  }

  /** There and back: a client that keeps its buffer recovers exactly the results of its requests, for
      every chunking in both directions. */
  lemma ClientServerComposition(rs: seq<Request>, arrivals: seq<string>, bursts: seq<Burst>, back: seq<string>)
    requires forall r | r in rs :: Execute(r).Some? && r.oper != '\0'
    requires Concat(arrivals) == Frames(RequestTexts(rs))
    requires Texts(bursts) == CStrings(arrivals)
    requires Concat(back) == ServeAll("", bursts).out
    ensures ServeAll("", bursts).end == Waiting("")
    ensures var f := Feed("", CStrings(back));
            && f.end == Waiting("") && |f.packages| == |rs|
            && forall i | 0 <= i < |rs| :: DeSerializeResponse(f.packages[i]) == Accepted(Execute(rs[i]).value)
  {
    hide Execute, DeSerializeResponse, ServeAll, Answers, AllGood, Feed, Frames, RequestTexts;
    RequestsAreAnswered(rs, arrivals, bursts);
    RepliesAreRecovered(rs, back);
  }

  // ------------------------------------------- the repository's own two ends

  function Results(rs: seq<Request>): (r: seq<Response>)
    requires forall q | q in rs :: Execute(q).Some?
    ensures |r| == |rs|
    ensures forall i | 0 <= i < |rs| :: r[i] == Execute(rs[i]).value
  {
    if rs == [] then [] else [Execute(rs[0]).value] + Results(rs[1..])
  }

  function ResponseFrames(vs: seq<Response>): seq<string> {
    if vs == [] then [] else [ResponseFrame(vs[0])] + ResponseFrames(vs[1..])
  }

  function Pow10(k: nat): nat { if k == 0 then 1 else 10 * Pow10(k - 1) }

  lemma {:induction false} DigitsBound(n: nat, k: nat)
    requires k > 0 && n < Pow10(k)
    ensures |Digits(n)| <= k
  {
    if n >= 10 {
      assert Pow10(1) == 10 * Pow10(0) == 10;
      DigitsBound(n / 10, k - 1);
    }
  }

  lemma NumeralBound(n: int32)
    ensures |ToString(n)| <= 11
  {
    assert Pow10(10) == 10_000_000_000 by {
      assert Pow10(5) == 100_000;
      assert Pow10(7) == 10_000_000;
      assert Pow10(9) == 1_000_000_000;
    }
    var v: int := n;
    var size: nat := if v < 0 then 0 - v else v;
    assert InInt32(n) && size <= 0x8000_0000;
    DigitsBound(size, 10);
  }

  /** Every reply is short: it survives the codec, and one recv of the client can hold its whole frame. */
  lemma ReplyFitsOneRecv(r: Request)
    requires Execute(r).Some?
    ensures var v := Execute(r).value; Deliverable(v) && 0 < |ResponseFrame(v)| < 1024
  {
    hide Execute, DeSerializeResponse, ToString;
    var v := Execute(r).value;
    ExecuteMeetsCodec(r);
    ExecuteMeaning(r);
    NumeralBound(r.x);
    NumeralBound(r.y);
    NumeralBound(v.result);
    NumeralBound(v.flag);
    var m := SerializeResponse(v);
    assert |m| < 100;
    NumeralBound(|m|);
    BlankResponse(v);
  }

  lemma TakeFrom(pending: string, f: string, more: string, c: string, t: string)
    requires c <= pending + f && t <= (pending + f)[|c|..] + more
    ensures c + t <= pending + (f + more)
  {
    var there := pending + f;
    assert there == c + there[|c|..];
    assert pending + (f + more) == c + (there[|c|..] + more);
  }

  /** What a channel has delivered is a prefix of the frames put into it. */
  lemma {:induction false} ChannelBytes(pending: string, replies: seq<Response>, chunks: seq<string>)
    requires Channel(pending, replies, chunks)
    ensures Concat(chunks) <= pending + Concat(ResponseFrames(replies))
    decreases |replies|
  {
    hide ResponseFrame;
    if replies != [] {
      var f, c := ResponseFrame(replies[0]), chunks[0];
      var more := Concat(ResponseFrames(replies[1..]));
      ChannelBytes((pending + f)[|c|..], replies[1..], chunks[1..]);
      assert ResponseFrames(replies)[1..] == ResponseFrames(replies[1..]);
      hide Channel;
      TakeFrom(pending, f, more, c, Concat(chunks[1..]));
    }
  }

  lemma {:induction false} RepliesNotNul(rs: seq<Request>)
    requires forall r | r in rs :: Execute(r).Some?
    ensures '\0' !in Concat(ResponseFrames(Results(rs)))
    decreases |rs|
  {
    hide Execute, Encode, SerializeResponse;
    if rs != [] {
      ReplyNotNul(rs[0]);
      RepliesNotNul(rs[1..]);
      assert Results(rs)[1..] == Results(rs[1..]);
      var f, t := ResponseFrame(Results(rs)[0]), Concat(ResponseFrames(Results(rs[1..])));
      assert forall b | b in f + t :: b in f || b in t;
    }
  }

  /** One list of one response for each request. */
  ghost predicate OneEach(shown: seq<seq<Response>>, rs: seq<Request>)
    requires forall r | r in rs :: Execute(r).Some?
  {
    |shown| == |rs| && forall i | 0 <= i < |rs| :: shown[i] == [Execute(rs[i]).value]
  }

  ghost predicate WholeReplies(chunks: seq<string>, rs: seq<Request>)
    requires forall r | r in rs :: Execute(r).Some?
  {
    |chunks| == |rs| && forall i | 0 <= i < |rs| :: chunks[i] == ResponseFrame(Execute(rs[i]).value)
  }

  /** Whatever a run of Process on such chunks showed, it is one result for each request exactly when the
      chunks are whole replies. */
  lemma ShownIffWhole(rs: seq<Request>, chunks: seq<string>, shown: seq<seq<Response>>)
    requires forall r | r in rs :: Execute(r).Some?
    requires Channel("", Results(rs), chunks) && ShownRight(shown, CStrings(chunks))
    requires |shown| < |rs| ==>
               |shown| == |chunks| || (|shown| < |CStrings(chunks)| && !Show(CStrings(chunks)[|shown|]).end.Waiting?)
    requires |shown| <= |rs|
    ensures OneEach(shown, rs) <==> WholeReplies(chunks, rs)
  {
    hide Execute, Show, ResponseFrame, Deliverable, CString;
    var vs := Results(rs);
    RepliesNotNul(rs);
    ChannelBytes("", vs, chunks);
    assert "" + Concat(ResponseFrames(vs)) == Concat(ResponseFrames(vs));
    assert '\0' !in Concat(chunks) by {
      assert forall b | b in Concat(chunks) :: b in Concat(ResponseFrames(vs));
    }
    BytesSurvive(chunks);
    forall i | 0 <= i < |rs|
      ensures Deliverable(vs[i])
    {
      ReplyFitsOneRecv(rs[i]);
    }
    ClientNeedsWholeReplies(vs, chunks);
    if WholeReplies(chunks, rs) {
      if |shown| < |rs| {
        ShowOne(vs[|shown|], chunks[|shown|]);
        WholeReplyWaits(vs[|shown|]);
      }
    }
  }

  lemma WholeReplyWaits(v: Response)
    requires Deliverable(v)
    ensures Show(ResponseFrame(v)).end.Waiting?
  {
    hide DeSerializeResponse, SerializeResponse, Encode, Decode;
    var m := SerializeResponse(v);
    assert Encode(m) + "" == Encode(m);
    DecodeEncode(m, "");
    BlankResponse(v);
    NothingDecodes();
    assert Show("") == Shown([], Waiting(""));
  }

  function Answered(chunks: seq<Chunk>): (r: seq<RecvResult>)
    ensures |r| == |chunks| && forall i | 0 <= i < |r| :: r[i] == Data(chunks[i])
  {
    if chunks == [] then [] else [Data(chunks[0])] + Answered(chunks[1..])
  }

  function Texted(chunks: seq<Chunk>): (r: seq<string>)
    ensures |r| == |chunks| && forall i | 0 <= i < |r| :: r[i] == chunks[i]
  {
    if chunks == [] then [] else [chunks[0]] + Texted(chunks[1..])
  }

  lemma {:induction false} DeliveredChunks(chunks: seq<Chunk>)
    ensures Delivered(Answered(chunks)) == CStrings(Texted(chunks))
    decreases |chunks|
  {
    hide CString;
    if chunks != [] {
      DeliveredChunks(chunks[1..]);
      assert Answered(chunks)[1..] == Answered(chunks[1..]);
      assert Texted(chunks)[1..] == Texted(chunks[1..]);
    }
  }

  /** A client connects and sends its requests, one in each round; the replies wait in the socket, and each
      recv takes some non-empty part of what is there. It shows every result in its round exactly when every
      recv happened to take one whole reply. `sent` is what it put on the wire. */
  method RunClient(requests: seq<Request>, chunks: seq<Chunk>)
    returns (shown: seq<seq<Response>>, ghost sent: string)
    requires forall r | r in requests :: Execute(r).Some?
    requires Channel("", Results(requests), Texted(chunks))
    ensures OneEach(shown, requests) <==> WholeReplies(Texted(chunks), requests)
    ensures |shown| <= |requests| && sent == Asked(requests, |shown| + 1)
  {
    hide Execute, Show, Channel, OneEach, WholeReplies, Asked, Delivered, CStrings;
    var sock := new Socket(Answered(chunks), []);
    var client := new ClientConnection();
    client.Connect(true);
    assert forall i: nat :: !FailsToSend(sock.sends, i);
    DeliveredChunks(chunks);
    shown := client.Process(sock, requests);
    sent := sock.wire;
    assert "" + sock.offered == sock.offered;
    ShownIffWhole(requests, Texted(chunks), shown);
  }

  lemma {:induction false} AnswersAreFrames(rs: seq<Request>)
    requires forall r | r in rs :: Execute(r).Some?
    requires AllGood(RequestTexts(rs))
    ensures Answers(RequestTexts(rs)) == Concat(ResponseFrames(Results(rs)))
    decreases |rs|
  {
    hide Execute, SerializeRequest, SerializeResponse, Encode, Good, ResponseText, DeSerializeRequest;
    if rs == [] {
      NoAnswers();
    } else {
      var ms := RequestTexts(rs);
      assert ms[1..] == RequestTexts(rs[1..]);
      GoodRequest(rs[0]);
      AnswersFirst(ms);
      AnswersAreFrames(rs[1..]);
      assert Results(rs)[1..] == Results(rs[1..]);
      assert ResponseFrames(Results(rs))[1..] == ResponseFrames(Results(rs)[1..]);
    }
  }

  lemma {:induction false} AnswerFramesAre(rs: seq<Request>)
    requires forall r | r in rs :: Execute(r).Some?
    requires AllGood(RequestTexts(rs))
    ensures AnswerFrames(RequestTexts(rs)) == ResponseFrames(Results(rs))
    decreases |rs|
  {
    hide Execute, SerializeRequest, SerializeResponse, Encode, Good, ResponseText, DeSerializeRequest;
    if rs != [] {
      var ms := RequestTexts(rs);
      assert ms[1..] == RequestTexts(rs[1..]);
      GoodRequest(rs[0]);
      AnswersFirst(ms);
      AnswerFramesAre(rs[1..]);
      assert Results(rs)[1..] == Results(rs[1..]);
    }
  }

  /** The replies AddService sends to these requests, one by one, however they arrive. */
  lemma RepliesToRequests(rs: seq<Request>, arrivals: seq<string>, bursts: seq<Burst>)
    requires forall r | r in rs :: Execute(r).Some? && r.oper != '\0'
    requires Concat(arrivals) == Frames(RequestTexts(rs))
    requires Texts(bursts) == CStrings(arrivals)
    ensures RepliesAll("", bursts) == ResponseFrames(Results(rs))
  {
    hide Execute, SerializeRequest, ServeAll, Drain, WellFormed, Good, Encode, RepliesAll, ResponseText;
    var ms := RequestTexts(rs);
    RequestsAreGood(rs);
    RequestsArrive(rs, arrivals);
    QuietNothing();
    assert Frames(ms) + "" == Frames(ms);
    AnyChunkingOfFrames(ms, "", arrivals);
    RepliesAllGood("", bursts);
    AnswerFramesAre(rs);
  }

  /** The service on the requests of such a client, in any chunks, against any answers to its sends: the
      wire carries exactly the results, in order, exactly when those answers take every reply whole. */
  method RunService(rs: seq<Request>, arrivals: seq<Chunk>, sends: seq<SendResult>)
    returns (ghost wire: string, outcome: Outcome)
    requires forall r | r in rs :: Execute(r).Some? && r.oper != '\0'
    requires Concat(Texted(arrivals)) == Asked(rs, |rs|)
    ensures outcome == Quit
    ensures wire == Concat(ResponseFrames(Results(rs))) <==> AllTaken(sends, ResponseFrames(Results(rs)))
  {
    hide Execute, Delivered, CStrings, AllTaken, ServeAll, RepliesAll, WellFormed, Frames, RequestTexts;
    var sock := new Socket(Answered(arrivals), sends);
    DeliveredChunks(arrivals);
    ghost var bursts;
    outcome, bursts := CalculatorService.AddService(sock);
    wire := sock.wire;
    assert rs[..|rs|] == rs;
    RequestsAreAnswered(rs, Texted(arrivals), bursts);
    RepliesToRequests(rs, Texted(arrivals), bursts);
    AnswersAreFrames(rs);
    assert "" + ServeAll("", bursts).out == ServeAll("", bursts).out;
  }

  /** An input on which bytes are lost: two requests, and a first send that takes one byte. */
  lemma ShortSend()
    ensures var r := Request(1, 1, '+');
            Execute(r).Some? && !AllTaken([Took(1)], ResponseFrames(Results([r, r])))
  {
    var r := Request(1, 1, '+');
    var frames := ResponseFrames(Results([r, r]));
    SplitReply();
    ReplyFitsOneRecv(r);
    HeaderOfEncode(SerializeResponse(Execute(r).value), "");
    assert frames[0] == ResponseFrame(Execute(r).value) && |frames[0]| > 1;
    assert BytesAt([Took(1)], 0, |frames[0]|) == 1;
  }

  /** The other end of that channel is AddService: for every chunking of the requests, what it sends are the
      frames the channel holds, in order, so every byte the client receives comes from them; and they are
      all received if every recv takes a whole reply. */
  lemma ServiceFeedsClient(rs: seq<Request>, arrivals: seq<string>, bursts: seq<Burst>, chunks: seq<string>)
    requires forall r | r in rs :: Execute(r).Some? && r.oper != '\0'
    requires Concat(arrivals) == Asked(rs, |rs|)
    requires Texts(bursts) == CStrings(arrivals)
    requires Channel("", Results(rs), chunks)
    ensures ServeAll("", bursts).end == Waiting("")
    ensures Concat(chunks) <= ServeAll("", bursts).out
    ensures WholeReplies(chunks, rs) ==> Concat(chunks) == ServeAll("", bursts).out
  {
    hide Execute, ServeAll, Answers, AllGood, Frames, RequestTexts, ResponseFrame, Channel;
    assert rs[..|rs|] == rs;
    RequestsAreAnswered(rs, arrivals, bursts);
    AnswersAreFrames(rs);
    ChannelBytes("", Results(rs), chunks);
    var frames := ResponseFrames(Results(rs));
    assert "" + Concat(frames) == Concat(frames);
    if WholeReplies(chunks, rs) {
      FramesAt(Results(rs));
      assert chunks == frames;
    }
  }

  lemma {:induction false} FramesAt(vs: seq<Response>)
    ensures |ResponseFrames(vs)| == |vs|
    ensures forall i | 0 <= i < |vs| :: ResponseFrames(vs)[i] == ResponseFrame(vs[i])
    decreases |vs|
  {
    hide ResponseFrame;
    if vs != [] {
      FramesAt(vs[1..]);
    }
  }

  /** The failing case, for every request and every cut: a recv that gets only part of the reply shows
      nothing, and what it got is forgotten with its buffer. */
  lemma SplitReplyIsLost(r: Request, cut: nat)
    requires Execute(r).Some? && 0 < cut < |ResponseFrame(Execute(r).value)|
    ensures var v := Execute(r).value;
            var p := ResponseFrame(v)[..cut];
            && Channel("", [v], [p]) && Show(p) == Shown([], Waiting(p))
            && !WholeReplies([p], [r])
  {
    hide Execute, ResponseFrame, Show;
    var v := Execute(r).value;
    var p := ResponseFrame(v)[..cut];
    ReplyFitsOneRecv(r);
    ShowOne(v, p);
    assert "" + ResponseFrame(v) == ResponseFrame(v);
    assert Channel(ResponseFrame(v)[cut..], [], []);
    assert [v][1..] == [] && [p][1..] == [];
  }

  /** An input on which it happens: the request 1 + 1, and a recv that gets the first byte of the reply. */
  lemma SplitReply()
    ensures var r := Request(1, 1, '+');
            && Execute(r) == Some(Response(2, 0, "1 + 1 = 2"))
            && Channel("", [Execute(r).value], ["1"]) && Show("1").responses == []
  {
    var r := Request(1, 1, '+');
    var v := Execute(r).value;
    assert ToString(1) == "1" && ToString(2) == "2" && ToString(0) == "0";
    assert v == Response(2, 0, "1 + 1 = 2");
    var m := SerializeResponse(v);
    assert m == "2 0 1 + 1 = 2" && |m| == 13;
    assert ToString(13) == "13";
    assert ResponseFrame(v)[..1] == "1";
    SplitReplyIsLost(r, 1);
  }
}
