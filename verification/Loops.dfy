/** The three system-call loops of the reactor as functions of the kernel's answers. */
module Loops {
  import opened Text
  import opened Kernel

  /** The text that appending each delivered chunk as a C string makes. */
  function Received(chunks: seq<string>): string {
    if chunks == [] then "" else CString(chunks[0]) + Received(chunks[1..])
  }

  lemma {:induction false} ReceivedAppend(a: seq<string>, b: seq<string>)
    ensures Received(a + b) == Received(a) + Received(b)
  {
    if a == [] {
      assert a + b == b;
    } else {
      assert (a + b)[1..] == a[1..] + b;
      ReceivedAppend(a[1..], b);
    }
  }

  lemma ReceiveOne(got: seq<string>, bytes: string, more: seq<string>)
    ensures Received(got + [bytes]) == Received(got) + CString(bytes)
    ensures got + ([bytes] + more) == got + [bytes] + more
  {
    ReceivedAppend(got, [bytes]);
    assert Received([bytes]) == CString(bytes) + "" == CString(bytes);
  }

  // ----------------------------------------------------------- the two loops

  datatype RecvExit = UpToDate | RecvBroken | RecvStarved
  datatype RecvRun = RecvRun(chunks: seq<string>, exit: RecvExit, left: seq<RecvResult>)

  /** The receive loop on a script of answers. `errno` is what the last failed call left: a recv that
      returns 0 does not set it, and the loop clears it only once. */
  function RecvLoop(script: seq<RecvResult>, errno: Errno): RecvRun
    decreases |script|, 0
  {
    if script == [] then RecvRun([], RecvStarved, [])
    else
      match script[0]
      case Data(bytes) =>
        var run := RecvLoop(script[1..], errno);
        RecvRun([bytes] + run.chunks, run.exit, run.left)
      case Eof => RecvNothing(script[1..], errno)
      case RecvFailed(e) => RecvNothing(script[1..], e)
  }

  function RecvNothing(script: seq<RecvResult>, errno: Errno): RecvRun
    decreases |script|, 1
  {
    if errno == Again then RecvRun([], UpToDate, script)
    else if errno == Interrupted then RecvLoop(script, errno)
    else RecvRun([], RecvBroken, script)
  }

  /** What a receive loop works on: the buffer, what was received on the connection, the answers to come,
      and errno. */
  datatype Arriving = Arriving(buf: string, rx: seq<string>, script: seq<RecvResult>, errno: Errno)

  /** The loop that began at `start` has received `got` and is at `now`. */
  ghost predicate Receiving(start: Arriving, got: seq<string>, now: Arriving) {
    var run, rest := RecvLoop(start.script, start.errno), RecvLoop(now.script, now.errno);
    && now.rx == start.rx + got && now.buf == start.buf + Received(got)
    && run == RecvRun(got + rest.chunks, rest.exit, rest.left)
  }

  /** It ended with these buffers. */
  ghost predicate Got(start: Arriving, buf: string, rx: seq<string>, left: seq<RecvResult>, exit: RecvExit) {
    var run := RecvLoop(start.script, start.errno);
    buf == start.buf + Received(run.chunks) && rx == start.rx + run.chunks && run.exit == exit && run.left == left
  }

  lemma RecvStart(start: Arriving)
    ensures Receiving(start, [], start)
  {}

  /** One round of the receive loop. */
  lemma RecvStep(start: Arriving, got: seq<string>, now: Arriving)
    requires Receiving(start, got, now)
    ensures now.script == [] ==> Got(start, now.buf, now.rx, [], RecvStarved)
    ensures now.script != [] && now.script[0].Data? ==>
              var bytes := now.script[0].bytes;
              Receiving(start, got + [bytes], Arriving(now.buf + CString(bytes), now.rx + [bytes], now.script[1..], now.errno))
    ensures now.script != [] && !now.script[0].Data? ==>
              var e := if now.script[0].RecvFailed? then now.script[0].errno else now.errno;
              if e == Interrupted then Receiving(start, got, now.(script := now.script[1..], errno := e))
              else Got(start, now.buf, now.rx, now.script[1..], if e == Again then UpToDate else RecvBroken)
  {
    hide Received, CString;
    assert got + [] == got;
    if now.script != [] && now.script[0].Data? {
      var bytes := now.script[0].bytes;
      ReceiveOne(got, bytes, RecvLoop(now.script[1..], now.errno).chunks);
      assert start.buf + (Received(got) + CString(bytes)) == start.buf + Received(got) + CString(bytes);
      assert start.rx + (got + [bytes]) == start.rx + got + [bytes];
    } else if now.script != [] {
      var e := if now.script[0].RecvFailed? then now.script[0].errno else now.errno;
      assert RecvLoop(now.script, now.errno) == RecvNothing(now.script[1..], e);
      assert e == Interrupted ==> RecvNothing(now.script[1..], e) == RecvLoop(now.script[1..], e);
    }
  }

  datatype SendExit = Stopped | SendBroken | SendStarved
  datatype SendRun = SendRun(taken: string, exit: SendExit, left: seq<SendResult>)

  /** The send loop on a script of answers. */
  function SendLoop(script: seq<SendResult>, buf: string): (run: SendRun)
    ensures run.taken <= buf
  {
    if script == [] then SendRun("", SendStarved, [])
    else
      match Clip(script[0], |buf|)
      case Took(n) =>
        if n == 0 then SendRun("", Stopped, script[1..])
        else if n == |buf| then SendRun(buf, Stopped, script[1..])
        else
          var run := SendLoop(script[1..], buf[n..]);
          SendRun(buf[..n] + run.taken, run.exit, run.left)
      case SendFailed(e) =>
        if e == Again then SendRun("", Stopped, script[1..])
        else if e == Interrupted then SendLoop(script[1..], buf)
        else SendRun("", SendBroken, script[1..])
  }

  /** What a send loop works on: the buffer, what was sent on the connection, and the answers to come. */
  datatype Outgoing = Outgoing(buf: string, tx: string, script: seq<SendResult>)

  /** The loop that began at `start` has sent `taken` and is at `now`. */
  ghost predicate Sending(start: Outgoing, taken: string, now: Outgoing) {
    var run, rest := SendLoop(start.script, start.buf), SendLoop(now.script, now.buf);
    && start.buf == taken + now.buf && now.tx == start.tx + taken
    && run == SendRun(taken + rest.taken, rest.exit, rest.left)
  }

  /** It ended at `now`. */
  ghost predicate Sent(start: Outgoing, now: Outgoing, exit: SendExit) {
    var run := SendLoop(start.script, start.buf);
    start.buf == run.taken + now.buf && now.tx == start.tx + run.taken && run.exit == exit && run.left == now.script
  }

  lemma SendStart(start: Outgoing)
    ensures Sending(start, "", start)
  {}

  function Passed(now: Outgoing, n: nat): Outgoing
    requires n <= |now.buf| && now.script != []
  {
    Outgoing(now.buf[n..], now.tx + now.buf[..n], now.script[1..])
  }

  /** One round of the send loop. */
  lemma SendStep(start: Outgoing, taken: string, now: Outgoing)
    requires Sending(start, taken, now)
    ensures now.script == [] ==> Sent(start, now, SendStarved)
    ensures now.script != [] ==>
              var c, next := Clip(now.script[0], |now.buf|), now.(script := now.script[1..]);
              if c == SendFailed(Interrupted) then Sending(start, taken, next)
              else if c.SendFailed? then Sent(start, next, if c.errno == Again then Stopped else SendBroken)
              else if c.n == 0 then Sent(start, next, Stopped)
              else if c.n == |now.buf| then Sent(start, Passed(now, c.n), Stopped)
              else Sending(start, taken + now.buf[..c.n], Passed(now, c.n))
  {
    assert taken + "" == taken;
    if now.script != [] {
      var c := Clip(now.script[0], |now.buf|);
      if c.Took? {
        SendTake(start, now, taken, c.n);
      }
    }
  }

  lemma SendTake(start: Outgoing, now: Outgoing, taken: string, n: nat)
    requires now.script != [] && n <= |now.buf|
    ensures var more := SendLoop(now.script[1..], now.buf[n..]).taken;
            taken + (now.buf[..n] + more) == taken + now.buf[..n] + more
    ensures taken + now.buf == taken + now.buf[..n] + now.buf[n..]
    ensures start.tx + taken + now.buf[..n] == start.tx + (taken + now.buf[..n])
    ensures n == |now.buf| ==> now.buf[..n] == now.buf && now.buf[n..] == ""
  {}

  datatype AcceptRun = AcceptRun(accepted: nat, back: bool, left: seq<AcceptResult>)

  /** The accept loop on a script of answers: interruptions are retried, any other failure ends it. */
  function AcceptLoop(script: seq<AcceptResult>): AcceptRun {
    if script == [] then AcceptRun(0, false, [])
    else if script[0] == Incoming then
      var run := AcceptLoop(script[1..]);
      AcceptRun(run.accepted + 1, run.back, run.left)
    else if script[0].errno == Interrupted then AcceptLoop(script[1..])
    else AcceptRun(0, true, script[1..])
  }

  // -------------------------------------------------------- when they return

  /** Answer `k` ends the receive loop: a failure other than an interruption, or the peer's close, but
      the latter only while no interruption has left its errno behind. */
  predicate EndsRecv(script: seq<RecvResult>, k: nat, errno: Errno)
    requires k < |script|
  {
    match script[k]
    case Data(_) => false
    case Eof => errno != Interrupted && RecvFailed(Interrupted) !in script[..k]
    case RecvFailed(e) => e != Interrupted
  }

  lemma EndsLater(script: seq<RecvResult>, k: nat, errno: Errno, next: Errno)
    requires k + 1 < |script|
    requires next == if script[0].RecvFailed? then script[0].errno else errno
    requires script[0].RecvFailed? ==> script[0].errno == Interrupted
    ensures EndsRecv(script, k + 1, errno) == EndsRecv(script[1..], k, next)
  {
    assert script[..k + 1] == [script[0]] + script[1..][..k];
    assert script[1..][k] == script[k + 1];
  }

  /** The receive loop comes back exactly when some answer ends it. */
  lemma {:induction false} RecvReturns(script: seq<RecvResult>, errno: Errno)
    requires errno == NoError || errno == Interrupted
    ensures RecvLoop(script, errno).exit != RecvStarved <==> exists k: nat | k < |script| :: EndsRecv(script, k, errno)
    decreases |script|
  {
    if script != [] {
      if EndsRecv(script, 0, errno) {
      } else {
        var next := if script[0].RecvFailed? then script[0].errno else errno;
        RecvReturns(script[1..], next);
        forall k: nat | k + 1 < |script|
          ensures EndsRecv(script, k + 1, errno) == EndsRecv(script[1..], k, next)
        {
          EndsLater(script, k, errno, next);
        }
        if k: nat :| k < |script| && EndsRecv(script, k, errno) {
          assert EndsRecv(script[1..], k - 1, next);
        }
        if k: nat :| k < |script[1..]| && EndsRecv(script[1..], k, next) {
          assert EndsRecv(script, k + 1, errno);
        }
      }
    }
  }

  function DataOf(script: seq<RecvResult>): seq<string> {
    if script == [] then []
    else (if script[0].Data? then [script[0].bytes] else []) + DataOf(script[1..])
  }

  /** It ends at the first answer that does so: all data before that one is read and nothing after it,
      and only EAGAIN counts as being up to date. */
  lemma {:induction false} RecvEndsAt(script: seq<RecvResult>, k: nat, errno: Errno)
    requires errno == NoError || errno == Interrupted
    requires k < |script| && EndsRecv(script, k, errno)
    requires forall j: nat | j < k :: !EndsRecv(script, j, errno)
    ensures RecvLoop(script, errno)
            == RecvRun(DataOf(script[..k]), if script[k] == RecvFailed(Again) then UpToDate else RecvBroken, script[k + 1..])
    decreases |script|
  {
    if k == 0 {
      assert script[..0] == [] && DataOf([]) == [];
      var e := if script[0].RecvFailed? then script[0].errno else errno;
      assert RecvLoop(script, errno) == RecvNothing(script[1..], e);
    } else {
      assert !EndsRecv(script, 0, errno);
      var next := if script[0].RecvFailed? then script[0].errno else errno;
      forall j: nat | j < k
        ensures EndsRecv(script[1..], j, next) == EndsRecv(script, j + 1, errno)
      {
        EndsLater(script, j, errno, next);
      }
      RecvEndsAt(script[1..], k - 1, next);
      assert script[1..][k..] == script[k + 1..];
      assert script[..k] == [script[0]] + script[1..][..k - 1];
      assert script[..k][1..] == script[1..][..k - 1];
    }
  }

  function Closed(n: nat): seq<RecvResult> {
    seq(n, _ => Eof)
  }

  /** When the peer closes after data and interruptions, recv returns 0 from then on, as often as it is
      called. The close is noticed if and only if there was no interruption in the same handler call;
      otherwise the loop goes round and round. */
  lemma CloseNoticed(before: seq<RecvResult>, n: nat)
    requires forall r | r in before :: r.Data? || r == RecvFailed(Interrupted)
    requires n > 0
    ensures RecvLoop(before + Closed(n), NoError).exit != RecvStarved <==> RecvFailed(Interrupted) !in before
  {
    var script := before + Closed(n);
    RecvReturns(script, NoError);
    if RecvFailed(Interrupted) !in before {
      assert script[|before|] == Eof && script[..|before|] == before;
      assert EndsRecv(script, |before|, NoError);
    } else {
      forall k: nat | k < |script|
        ensures !EndsRecv(script, k, NoError)
      {
        if k < |before| {
          assert script[k] in before;
          assert script[k] == before[k];
        } else {
          assert script[..k] == before + Closed(n)[..k - |before|];
        }
      }
    }
  }

  function Interruptions(script: seq<SendResult>): nat {
    if script == [] then 0
    else (if script[0] == SendFailed(Interrupted) then 1 else 0) + Interruptions(script[1..])
  }

  /** The send loop comes back after at most one answer for each byte, one for each interruption, and one more. */
  lemma {:induction false} SendReturns(script: seq<SendResult>, buf: string)
    requires |script| > |buf| + Interruptions(script)
    ensures SendLoop(script, buf).exit != SendStarved
    decreases |script|
  {
    match Clip(script[0], |buf|)
    case Took(n) =>
      if 0 < n < |buf| {
        SendReturns(script[1..], buf[n..]);
      }
    case SendFailed(e) =>
      if e == Interrupted {
        SendReturns(script[1..], buf);
      }
  }

  predicate GoesOn(r: SendResult) {
    r == SendFailed(Interrupted) || (r.Took? && r.n > 0)
  }

  /** `run` used the answers up to and including `script[k]`, and that one ended it as it did. */
  predicate EndedAt(run: SendRun, script: seq<SendResult>, buf: string, k: int) {
    && 0 <= k < |script| && run.left == script[k + 1..]
    && (forall j | 0 <= j < k :: GoesOn(script[j]))
    && script[k] != SendFailed(Interrupted)
    && (run.exit == SendBroken <==> script[k] == SendFailed(NoError) || script[k] == SendFailed(OtherError))
    && (script[k] == SendFailed(Again) ==> run.exit == Stopped)
    && (run.exit == Stopped && run.taken != buf ==> script[k] == SendFailed(Again) || script[k] == Took(0))
  }

  lemma EndedLater(run: SendRun, script: seq<SendResult>, buf: string, k: int, more: SendRun, n: nat)
    requires script != [] && GoesOn(script[0]) && n <= |buf| && EndedAt(more, script[1..], buf[n..], k)
    requires run == SendRun(buf[..n] + more.taken, more.exit, more.left)
    ensures EndedAt(run, script, buf, k + 1)
  {
    assert forall j | 1 <= j < k + 1 :: script[j] == script[1..][j - 1];
    assert script[1..][k + 1..] == script[k + 2..] && script[1..][k] == script[k + 1];
    assert buf == buf[..n] + buf[n..];
  }

  lemma EndedFirst(script: seq<SendResult>, buf: string)
    requires script != []
    requires var c := Clip(script[0], |buf|);
             if c.Took? then c.n == 0 || c.n == |buf| else c.errno != Interrupted
    ensures SendLoop(script, buf).left == script[1..] && EndedAt(SendLoop(script, buf), script, buf, 0)
  {}

  /** Where the send loop ends: with the answer just before those it leaves. It gives the connection up
      exactly when that is an error other than EAGAIN and EINTR, and when it stops with bytes left, that is
      EAGAIN or a send that took nothing. */
  lemma {:induction false} SendEndsAt(script: seq<SendResult>, buf: string)
    requires SendLoop(script, buf).exit != SendStarved
    ensures var run := SendLoop(script, buf); EndedAt(run, script, buf, |script| - |run.left| - 1)
    decreases |script|
  {
    hide EndedAt;
    var run, c := SendLoop(script, buf), Clip(script[0], |buf|);
    if c.Took? && 0 < c.n < |buf| {
      var more := SendLoop(script[1..], buf[c.n..]);
      SendEndsAt(script[1..], buf[c.n..]);
      EndedLater(run, script, buf, |script| - |more.left| - 2, more, c.n);
    } else if c == SendFailed(Interrupted) {
      SendEndsAt(script[1..], buf);
      assert buf[0..] == buf && buf[..0] + run.taken == run.taken;
      EndedLater(run, script, buf, |script| - |run.left| - 2, run, 0);
    } else {
      EndedFirst(script, buf);
    }
  }

  function Arrivals(script: seq<AcceptResult>): nat {
    if script == [] then 0 else (if script[0] == Incoming then 1 else 0) + Arrivals(script[1..])
  }

  /** The accept loop takes everybody who came before the first failure that is not an interruption. */
  lemma {:induction false} AcceptEndsAt(script: seq<AcceptResult>, k: nat)
    requires k < |script| && script[k] != Incoming && script[k] != AcceptFailed(Interrupted)
    requires forall j | 0 <= j < k :: script[j] == Incoming || script[j] == AcceptFailed(Interrupted)
    ensures AcceptLoop(script) == AcceptRun(Arrivals(script[..k]), true, script[k + 1..])
    decreases |script|
  {
    if k == 0 {
      assert script[..0] == [];
    } else {
      AcceptEndsAt(script[1..], k - 1);
      assert script[..k][1..] == script[1..][..k - 1];
    }
  }
}
