/** From received bytes to reply bytes: what one connection of either calculator server answers. */
module Service {
  import opened Text
  import opened Decimal
  import opened Protocol
  import opened Calculate
  import opened Draining

  /** One round of the drain loop: the process dies (an exception nobody catches, or arithmetic
      without defined behaviour), or one encoded reply is appended and `req` keeps its value. */
  datatype Reaction = Crash | Answer(req: Request, reply: string)

  function Respond(r: Request): Reaction {
    match Execute(r)
    case None => Crash
    case Some(v) => Answer(r, Encode(SerializeResponse(v)))
  }

  /** The result of DeSerialize is ignored: a rejected package is answered with the request left over. */
  function React(current: Request, package: string): Reaction {
    match DeSerializeRequest(package)
    case NumberThrew => Crash
    case Rejected => Respond(current)
    case Accepted(r) => Respond(r)
  }

  datatype Served = Served(out: string, end: End)

  /** PackageParse::Parse on a buffer, starting with the value `req` happens to have. */
  function Serve(buf: string, req: Request): Served
    decreases |buf|
  {
    match Decode(buf)
    case Threw => Served("", Died)
    case Returned(package, rest) =>
      if package == "" then Served("", Waiting(rest))
      else
        match React(req, package)
        case Crash => Served("", Died)
        case Answer(r, reply) =>
          if |rest| == |buf| then Served(reply, Spinning)
          else var s := Serve(rest, r); Served(reply + s.out, s.end)
  }

  /** What arrives before one run of the drain loop, and the indeterminate value `req` starts with. */
  datatype Burst = Burst(text: string, stale: Request)

  function ServeAll(buf: string, bursts: seq<Burst>): Served
    decreases |bursts|
  {
    if bursts == [] then Served("", Waiting(buf))
    else
      var s := Serve(buf + bursts[0].text, bursts[0].stale);
      if s.end.Waiting? then
        var r := ServeAll(s.end.rest, bursts[1..]);
        Served(s.out + r.out, r.end)
      else s
  }

  function Texts(bursts: seq<Burst>): seq<string> {
    if bursts == [] then [] else [bursts[0].text] + Texts(bursts[1..])
  }

  /** One more burst continues from the buffer the earlier ones left. */
  lemma {:induction false} ServeOneMore(buf: string, bursts: seq<Burst>, last: Burst)
    requires ServeAll(buf, bursts).end.Waiting?
    ensures var s := ServeAll(buf, bursts);
            var n := Serve(s.end.rest + last.text, last.stale);
            ServeAll(buf, bursts + [last]) == Served(s.out + n.out, n.end)
    decreases |bursts|
  {
    hide Serve;
    if bursts == [] {
      assert bursts + [last] == [last];
      assert [last][1..] == [];
      var n := Serve(buf + last.text, last.stale);
      assert n.out + "" == n.out && "" + n.out == n.out;
      assert n.end.Waiting? ==> ServeAll(n.end.rest, []) == Served("", n.end);
    } else {
      assert (bursts + [last])[1..] == bursts[1..] + [last];
      var s := Serve(buf + bursts[0].text, bursts[0].stale);
      ServeOneMore(s.end.rest, bursts[1..], last);
      var m := ServeAll(s.end.rest, bursts[1..]);
      var n := Serve(m.end.rest + last.text, last.stale);
      assert s.out + (m.out + n.out) == s.out + m.out + n.out;
    }
  }

  lemma {:induction false} TextsAppend(a: seq<Burst>, b: seq<Burst>)
    ensures Texts(a + b) == Texts(a) + Texts(b)
  {
    if a == [] {
      assert a + b == b;
    } else {
      assert (a + b)[1..] == a[1..] + b;
      TextsAppend(a[1..], b);
    }
  }

  // --------------------------------------------------------- reply by reply

  /** The texts Serve sends, one by one. */
  function Replies(buf: string, req: Request): seq<string>
    decreases |buf|
  {
    match Decode(buf)
    case Threw => []
    case Returned(package, rest) =>
      if package == "" then []
      else
        match React(req, package)
        case Crash => []
        case Answer(r, reply) => [reply] + if |rest| == |buf| then [] else Replies(rest, r)
  }

  function RepliesAll(buf: string, bursts: seq<Burst>): seq<string>
    decreases |bursts|
  {
    if bursts == [] then []
    else
      var s := Serve(buf + bursts[0].text, bursts[0].stale);
      Replies(buf + bursts[0].text, bursts[0].stale)
      + if s.end.Waiting? then RepliesAll(s.end.rest, bursts[1..]) else []
  }

  lemma {:induction false} RepliesOneMore(buf: string, bursts: seq<Burst>, last: Burst)
    requires ServeAll(buf, bursts).end.Waiting?
    ensures var s := ServeAll(buf, bursts);
            RepliesAll(buf, bursts + [last]) == RepliesAll(buf, bursts) + Replies(s.end.rest + last.text, last.stale)
    decreases |bursts|
  {
    hide Serve, Replies;
    if bursts == [] {
      assert bursts + [last] == [last] && [last][1..] == [];
    } else {
      assert (bursts + [last])[1..] == bursts[1..] + [last];
      RepliesOneMore(Serve(buf + bursts[0].text, bursts[0].stale).end.rest, bursts[1..], last);
    }
  }

  lemma {:induction false} RepliesAllStop(buf: string, a: seq<Burst>, b: seq<Burst>)
    requires !ServeAll(buf, a).end.Waiting?
    ensures RepliesAll(buf, a + b) == RepliesAll(buf, a)
    decreases |a|
  {
    hide Serve, Replies;
    assert (a + b)[1..] == a[1..] + b;
    var s := Serve(buf + a[0].text, a[0].stale);
    if s.end.Waiting? {
      RepliesAllStop(s.end.rest, a[1..], b);
    }
  }

  // ------------------------------------------------------ well-formed requests

  /** A package that parses to a request whose result is defined. */
  predicate Good(package: string) {
    var p := DeSerializeRequest(package);
    p.Accepted? && Execute(p.value).Some?
  }

  ghost predicate AllGood(packages: seq<string>) {
    forall p | p in packages :: Good(p)
  }

  function ResponseTo(package: string): Response
    requires Good(package)
  {
    Execute(DeSerializeRequest(package).value).value
  }

  function ResponseText(package: string): string
    requires Good(package)
  {
    SerializeResponse(ResponseTo(package))
  }

  /** The texts of the right responses, in order. */
  function ResponseTexts(packages: seq<string>): (r: seq<string>)
    requires AllGood(packages)
    ensures |r| == |packages|
    ensures forall i | 0 <= i < |r| :: r[i] == ResponseText(packages[i])
  {
    if packages == [] then [] else [ResponseText(packages[0])] + ResponseTexts(packages[1..])
  }

  /** The right answer stream: one frame for each package, in order. */
  function Answers(packages: seq<string>): string
    requires AllGood(packages)
  {
    Frames(ResponseTexts(packages))
  }

  lemma NoAnswers()
    ensures Answers([]) == ""
  {}

  lemma AnswersFirst(packages: seq<string>)
    requires packages != [] && AllGood(packages)
    ensures AllGood(packages[1..])
    ensures Answers(packages) == Encode(ResponseText(packages[0])) + Answers(packages[1..])
  {
    var t := ResponseTexts(packages);
    assert t[1..] == ResponseTexts(packages[1..]);
  }

  lemma ReactGood(current: Request, package: string)
    requires Good(package)
    ensures DeSerializeRequest(package).Accepted?
    ensures React(current, package) == Answer(DeSerializeRequest(package).value, Encode(ResponseText(package)))
  {}

  lemma {:induction false} ServeGood(buf: string, req: Request)
    requires AllGood(Drain(buf).packages)
    ensures Serve(buf, req) == Served(Answers(Drain(buf).packages), Drain(buf).end)
    decreases |buf|
  {
    hide Decode, React, Good, ResponseText, DeSerializeRequest, Frames, Encode;
    NoAnswers();
    match Decode(buf)
    case Threw =>
    case Returned(package, rest) =>
      if package != "" {
        var ps := Drain(buf).packages;
        assert ps[0] == package;
        ReactGood(req, package);
        AnswersFirst(ps);
        if |rest| != |buf| {
          assert ps[1..] == Drain(rest).packages;
          ServeGood(rest, DeSerializeRequest(package).value);
        } else {
          assert ps[1..] == [];
        }
      }
  }

  lemma {:induction false} AnswersAppend(a: seq<string>, b: seq<string>)
    requires AllGood(a) && AllGood(b)
    ensures AllGood(a + b) && Answers(a + b) == Answers(a) + Answers(b)
  {
    hide Frames, ResponseText, Good;
    NoAnswers();
    if a == [] {
      assert a + b == b;
    } else {
      assert (a + b)[1..] == a[1..] + b;
      AnswersFirst(a);
      AnswersFirst(a + b);
      AnswersAppend(a[1..], b);
    }
  }

  lemma {:induction false} ServeAllGood(buf: string, bursts: seq<Burst>)
    requires AllGood(Feed(buf, Texts(bursts)).packages)
    ensures var f := Feed(buf, Texts(bursts));
            ServeAll(buf, bursts) == Served(Answers(f.packages), f.end)
    decreases |bursts|
  {
    hide Serve, Drain, Frames, ResponseText, Good;
    NoAnswers();
    if bursts != [] {
      var b := buf + bursts[0].text;
      var d := Drain(b);
      assert Texts(bursts)[1..] == Texts(bursts[1..]);
      if d.end.Waiting? {
        var f := Feed(d.end.rest, Texts(bursts[1..]));
        assert AllGood(d.packages) && AllGood(f.packages) by {
          assert forall p | p in d.packages :: p in d.packages + f.packages;
          assert forall p | p in f.packages :: p in d.packages + f.packages;
        }
        ServeGood(b, bursts[0].stale);
        ServeAllGood(d.end.rest, bursts[1..]);
        AnswersAppend(d.packages, f.packages);
      } else {
        ServeGood(b, bursts[0].stale);
      }
    }
  }

  lemma {:induction false} RepliesGood(buf: string, req: Request)
    requires AllGood(Drain(buf).packages)
    ensures Replies(buf, req) == AnswerFrames(Drain(buf).packages)
    decreases |buf|
  {
    hide Decode, React, Good, ResponseText, DeSerializeRequest, Encode;
    match Decode(buf)
    case Threw =>
    case Returned(package, rest) =>
      if package != "" {
        var ps := Drain(buf).packages;
        assert ps[0] == package && package in ps;
        ReactGood(req, package);
        if |rest| != |buf| {
          assert ps[1..] == Drain(rest).packages;
          RepliesGood(rest, DeSerializeRequest(package).value);
        } else {
          assert ps[1..] == [];
        }
      }
  }

  /** The frames of the right answers, one by one. */
  function AnswerFrames(packages: seq<string>): (r: seq<string>)
    requires AllGood(packages)
    ensures |r| == |packages|
    ensures forall i | 0 <= i < |r| :: r[i] == Encode(ResponseText(packages[i]))
  {
    if packages == [] then [] else [Encode(ResponseText(packages[0]))] + AnswerFrames(packages[1..])
  }

  lemma {:induction false} RepliesAllGood(buf: string, bursts: seq<Burst>)
    requires AllGood(Feed(buf, Texts(bursts)).packages)
    ensures RepliesAll(buf, bursts) == AnswerFrames(Feed(buf, Texts(bursts)).packages)
    decreases |bursts|
  {
    hide Serve, Drain, Replies, ResponseText, Good, Encode;
    if bursts != [] {
      var b := buf + bursts[0].text;
      var d := Drain(b);
      assert Texts(bursts)[1..] == Texts(bursts[1..]);
      if d.end.Waiting? {
        var f := Feed(d.end.rest, Texts(bursts[1..]));
        assert AllGood(d.packages) && AllGood(f.packages) by {
          assert forall p | p in d.packages :: p in d.packages + f.packages;
          assert forall p | p in f.packages :: p in d.packages + f.packages;
        }
        ServeGood(b, bursts[0].stale);
        RepliesGood(b, bursts[0].stale);
        RepliesAllGood(d.end.rest, bursts[1..]);
      } else {
        ServeGood(b, bursts[0].stale);
        RepliesGood(b, bursts[0].stale);
      }
    }
  }

  /** `s` is what has arrived from a client that sends these packages, in frames. */
  ghost predicate FromClient(s: string, packages: seq<string>) {
    Sendable(packages) && AllGood(packages) && s <= Frames(packages)
  }

  /** Streams whose right answers are known: any that come from such a client, however long; and shorter
      ones that merely do not depend on chunking and hold good packages. */
  ghost predicate WellFormed(s: string) {
    || (exists packages :: FromClient(s, packages))
    || (Fits(s) && Robust(s) && AllGood(Drain(s).packages))
  }

  lemma ClientIsWellFormed(s: string, requests: seq<string>)
    requires FromClient(s, requests)
    ensures WellFormed(s)
  {}

  lemma AnyDelivery(s: string, chunks: seq<string>)
    requires WellFormed(s) && Concat(chunks) == s
    ensures Feed("", chunks) == Drain(s) && AllGood(Drain(s).packages)
  {
    hide Drain, Robust, Good, Frames;
    if packages :| FromClient(s, packages) {
      DrainNothing();
      assert Frames(packages) + "" == Frames(packages) && "" + s == s;
      FeedIsDrainOfFrames(packages, "", "", chunks);
      PartOfFrames(packages, s);
      assert forall p | p in Drain(s).packages :: p in packages;
    } else {
      ChunkingInvariance(s);
    }
  }

  /** The answer stream depends only on the received bytes: not on how they were delivered and not on
      the indeterminate requests the drain loop starts with. */
  lemma AnswersIndependentOfDelivery(s: string, bursts: seq<Burst>)
    requires WellFormed(s)
    requires Concat(Texts(bursts)) == s
    ensures AllGood(Drain(s).packages)
    ensures ServeAll("", bursts) == Served(Answers(Drain(s).packages), Drain(s).end)
  {
    hide Drain, Robust, WellFormed;
    AnyDelivery(s, Texts(bursts));
    ServeAllGood("", bursts);
  }

  lemma {:induction false} FeedPrefix(buf: string, a: seq<string>, b: seq<string>)
    ensures Feed(buf, a).packages <= Feed(buf, a + b).packages
    decreases |a|
  {
    hide Drain;
    if a == [] {
      assert a + b == b;
    } else {
      assert (a + b)[1..] == a[1..] + b;
      var d := Drain(buf + a[0]);
      if d.end.Waiting? {
        FeedPrefix(d.end.rest, a[1..], b);
      }
    }
  }

  lemma AnswersPrefix(a: seq<string>, b: seq<string>)
    requires a <= b && AllGood(b)
    ensures AllGood(a) && Answers(a) <= Answers(b)
  {
    hide Good, Frames, ResponseText;
    var c := b[|a|..];
    assert b == a + c;
    assert forall p | p in a :: p in b;
    assert forall p | p in c :: p in b;
    AnswersAppend(a, c);
  }

  /** While only part of a stream has been served, what was answered is a prefix of the right answers
      to the whole stream. */
  lemma AnswersSoFar(stream: string, bursts: seq<Burst>)
    requires WellFormed(stream)
    requires Concat(Texts(bursts)) <= stream
    ensures AllGood(Drain(stream).packages)
    ensures ServeAll("", bursts).out <= Answers(Drain(stream).packages)
  {
    hide Drain, Robust, Serve, ServeAll, Answers, AllGood, WellFormed;
    var texts := Texts(bursts);
    var missing := stream[|Concat(texts)|..];
    ConcatAppend(texts, [missing]);
    assert Concat([missing]) == missing + "" == missing;
    assert Concat(texts + [missing]) == stream;
    AnyDelivery(stream, texts + [missing]);
    FeedPrefix("", texts, [missing]);
    AnswersPrefix(Feed("", texts).packages, Drain(stream).packages);
    ServeAllGood("", bursts);
  }

  // --------------------------------------------------- when the server goes on

  /** No reaction to the packages, in turn, kills the process. */
  predicate Survives(packages: seq<string>, req: Request)
    decreases |packages|
  {
    packages == [] ||
    var a := React(req, packages[0]);
    a.Answer? && Survives(packages[1..], a.req)
  }

  /** The server's drain loop ends as the bytes say, unless a package kills the process first; so it fails
      to terminate exactly on buffers that spin and whose packages it survives. */
  lemma {:induction false} ServeEnds(buf: string, req: Request)
    requires Fits(buf)
    ensures Serve(buf, req).end == if Survives(Drain(buf).packages, req) then Drain(buf).end else Died
    ensures Serve(buf, req).end.Spinning? <==> Spins(buf) && Survives(Drain(buf).packages, req)
    decreases |buf|
  {
    hide Decode, React;
    DrainEnds(buf);
    hide Spins, Dies;
    match Decode(buf)
    case Threw =>
    case Returned(package, rest) =>
      if package != "" && React(req, package).Answer? {
        var ps := Drain(buf).packages;
        assert ps[0] == package;
        if |rest| != |buf| {
          assert ps[1..] == Drain(rest).packages;
          ServeEnds(rest, React(req, package).req);
        } else {
          assert ps[1..] == [];
        }
      }
  }

  // ------------------------------------------------------- the leftover request

  /** The uninitialized request the drain loop starts with shows in the replies exactly when the very
      first package is rejected: it is then answered with whatever was in memory. */
  lemma StaleRequestShows(buf: string)
    ensures (forall r1, r2 :: Serve(buf, r1) == Serve(buf, r2))
            <==> var ps := Drain(buf).packages; ps == [] || !DeSerializeRequest(ps[0]).Rejected?
  {
    var ps := Drain(buf).packages;
    FirstIsDecoded(buf);
    if ps != [] && DeSerializeRequest(ps[0]).Rejected? {
      StaleRequestDecides(buf, ps[0]);
    } else {
      forall r1, r2
        ensures Serve(buf, r1) == Serve(buf, r2)
      {
        StaleRequestUnused(buf, r1, r2);
      }
    }
  }

  /** What `req` holds after the packages: the last request that was parsed, or what it held before. */
  function Latest(req: Request, packages: seq<string>): Request {
    if packages == [] then req
    else
      match DeSerializeRequest(packages[|packages| - 1])
      case Accepted(r) => r
      case _ => Latest(req, packages[..|packages| - 1])
  }

  lemma {:induction false} LatestFrom(req: Request, package: string, more: seq<string>)
    ensures Latest(req, [package] + more) == Latest(Latest(req, [package]), more)
    decreases |more|
  {
    hide DeSerializeRequest;
    var all := [package] + more;
    if more == [] {
      assert all == [package];
    } else {
      assert all[..|all| - 1] == [package] + more[..|more| - 1];
      LatestFrom(req, package, more[..|more| - 1]);
    }
  }

  lemma ReactLatest(req: Request, package: string)
    requires React(req, package).Answer?
    ensures var a := React(req, package);
            a.req == Latest(req, [package]) && Respond(a.req) == a
  {
    assert [package][..0] == [];
  }

  /** Every reply, one after the other: the answer to the last request that was parsed so far. */
  lemma {:induction false} RepliesAreLatest(buf: string, req: Request, i: nat)
    ensures i < |Replies(buf, req)| ==>
              && i < |Drain(buf).packages|
              && var r := Latest(req, Drain(buf).packages[..i + 1]);
                 Respond(r) == Answer(r, Replies(buf, req)[i])
    decreases |buf|
  {
    hide Decode, Respond, DeSerializeRequest, Latest, React;
    if i < |Replies(buf, req)| {
      var ps, first, rest := Drain(buf).packages, Decode(buf).message, Decode(buf).rest;
      ReactLatest(req, first);
      if i == 0 {
        assert ps[..1] == [first];
      } else {
        var r := React(req, first).req;
        assert Replies(buf, req) == [React(req, first).reply] + Replies(rest, r);
        RepliesAreLatest(rest, r, i - 1);
        assert ps == [first] + Drain(rest).packages;
        assert ps[..i + 1] == [first] + Drain(rest).packages[..i];
        LatestFrom(req, first, Drain(rest).packages[..i]);
      }
    }
  }

  /** So a package that is rejected gets the reply of the last one before it that was not, again and again. */
  lemma RejectedRepeats(buf: string, req: Request, i: nat, j: nat)
    ensures var ps := Drain(buf).packages;
            i <= j < |Replies(buf, req)| ==>
              && j < |ps|
              && ((forall k | i < k <= j :: DeSerializeRequest(ps[k]).Rejected?) ==>
                    Replies(buf, req)[j] == Replies(buf, req)[i])
  {
    hide Decode, Respond, DeSerializeRequest, Latest, React, Drain, Replies;
    var ps := Drain(buf).packages;
    if i <= j < |Replies(buf, req)| {
      RepliesAreLatest(buf, req, i);
      RepliesAreLatest(buf, req, j);
      if forall k | i < k <= j :: DeSerializeRequest(ps[k]).Rejected? {
        LatestKept(req, ps, i, j);
      }
    }
  }

  lemma {:induction false} LatestKept(req: Request, packages: seq<string>, i: nat, j: nat)
    requires i <= j < |packages| && forall k | i < k <= j :: DeSerializeRequest(packages[k]).Rejected?
    ensures Latest(req, packages[..j + 1]) == Latest(req, packages[..i + 1])
    decreases j
  {
    hide DeSerializeRequest;
    if i < j {
      assert packages[..j + 1][..j] == packages[..j];
      LatestKept(req, packages, i, j - 1);
    }
  }

  /** A buffer on which it shows: the one-byte package "x". */
  lemma StaleRequestExample()
    ensures Drain(Encode("x")).packages == ["x"] && DeSerializeRequest("x").Rejected?
    ensures exists r1, r2 :: Serve(Encode("x"), r1) != Serve(Encode("x"), r2)
  {
    var buf := Encode("x");
    BlankAt("x", 0);
    HeaderOfEncode("x", "");
    NumeralBytes(1);
    assert Encode("x") + "" == buf;
    EncodedFirst("x", "");
    DrainNothing();
    DecodeEncode("x", "");
    StaleRequestDecides(buf, "x");
  }

  lemma StaleRequestDecides(buf: string, package: string)
    requires Decode(buf).Returned? && Decode(buf).message == package != ""
    requires DeSerializeRequest(package).Rejected?
    ensures exists r1, r2 :: Serve(buf, r1) != Serve(buf, r2)
  {
    var good, bad := Request(0, 0, '+'), Request(INT_MAX, 1, '+');
    OneAnswerOneCrash(good, bad);
    assert React(good, package) == Respond(good) && React(bad, package) == Respond(bad);
    hide React, Respond, Decode;
    assert Serve(buf, bad) == Served("", Died);
    assert Serve(buf, good).out != "";
  }

  lemma StaleRequestUnused(buf: string, r1: Request, r2: Request)
    requires var d := Decode(buf); d.Returned? && d.message != "" ==> !DeSerializeRequest(d.message).Rejected?
    ensures Serve(buf, r1) == Serve(buf, r2)
  {
    var d := Decode(buf);
    if d.Returned? && d.message != "" {
      assert React(r1, d.message) == React(r2, d.message);
    }
    hide React, Decode;
  }

  lemma FirstIsDecoded(buf: string)
    ensures var ps, d := Drain(buf).packages, Decode(buf);
            if d.Returned? && d.message != "" then ps != [] && ps[0] == d.message else ps == []
  {}

  lemma OneAnswerOneCrash(good: Request, bad: Request)
    requires good == Request(0, 0, '+') && bad == Request(INT_MAX, 1, '+')
    ensures Respond(good).Answer? && Respond(good).reply != "" && Respond(bad) == Crash
  {
    hide Encode;
    var m := SerializeResponse(Execute(good).value);
    EncodeNotEmpty(m);
  }

  lemma EncodeNotEmpty(m: string)
    ensures Encode(m) != ""
  {}
}
