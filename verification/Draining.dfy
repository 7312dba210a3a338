/** Draining a byte buffer with Decode, and when the result does not depend on how the bytes arrived. */
module Draining {
  import opened Text
  import opened Decimal
  import opened Protocol

  /** How a drain loop stops: it waits for more bytes with `rest` buffered, std::stoi threw,
      or it never stops, because Decode keeps returning a message without erasing anything. */
  datatype End = Waiting(rest: string) | Died | Spinning

  datatype Drained = Drained(packages: seq<string>, end: End)

  function Then(first: seq<string>, next: Drained): Drained {
    Drained(first + next.packages, next.end)
  }

  /** The drain loop on a buffer. */
  function Drain(buf: string): Drained
    decreases |buf|
  {
    match Decode(buf)
    case Threw => Drained([], Died)
    case Returned(message, rest) =>
      if message == "" then Drained([], Waiting(rest))
      else if |rest| == |buf| then Drained([message], Spinning)
      else Then([message], Drain(rest))
  }

  /** Append each chunk to the buffer and drain after it. */
  function Feed(buf: string, chunks: seq<string>): Drained
    decreases |chunks|
  {
    if chunks == [] then Drained([], Waiting(buf))
    else
      var d := Drain(buf + chunks[0]);
      if d.end.Waiting? then Then(d.packages, Feed(d.end.rest, chunks[1..])) else d
  }

  /** However the bytes of `s` are cut into chunks, the receiver ends up in the same place. */
  ghost predicate ChunkingInvariant(s: string) {
    forall chunks: seq<string> | Concat(chunks) == s :: Feed("", chunks) == Drain(s)
  }

  predicate Quiet(s: string) {
    Drain(s) == Drained([], Waiting(s))
  }

  /** The headers met on the way announce positive lengths. A frame with an empty payload may come
      last, before bytes that hold no complete frame; of the negative lengths only those that
      cannot be cut differently are left. */
  predicate Robust(s: string)
    decreases |s|
  {
    var h := ReadHeader(s);
    if !h.Length? || Total(h) < 0 || |s| < Total(h) then true
    else
      var d := Decode(s);
      if d.message == "" then Quiet(d.rest)
      else if h.len > 0 && |d.rest| < |s| then Robust(d.rest)
      else |s| == h.pos + |CRLF| + 1 && (h.len == -1 || Total(h) == 0)
  }

  // -------------------------------------------------------------- one frame

  /** Within the bound the 32-bit total never wraps into the buffer. */
  lemma TotalExact(s: string)
    requires Fits(s) && ReadHeader(s).Length?
    ensures var h := ReadHeader(s);
            var sum := h.pos + 4 + h.len;
            (Total(h) < 0 || |s| < Total(h)) <==> (sum < 0 || |s| < sum)
    ensures var h := ReadHeader(s);
            0 <= Total(h) <= |s| ==> Total(h) == h.pos + 4 + h.len
  {}

  predicate Complete(s: string) {
    var h := ReadHeader(s);
    h.Length? && 0 <= h.pos + 4 + h.len <= |s|
  }

  /** Decode without the 32-bit detour. */
  lemma DecodeCases(s: string)
    requires Fits(s)
    ensures ReadHeader(s).BadHeader? ==> Decode(s) == Threw
    ensures !ReadHeader(s).BadHeader? && !Complete(s) ==> Decode(s) == Returned("", s)
    ensures Complete(s) ==>
              var h := ReadHeader(s);
              && Total(h) == h.pos + 4 + h.len
              && Decode(s) == Returned(if h.len < 0 then s[h.pos + 2..] else s[h.pos + 2..h.pos + 2 + h.len],
                                       s[h.pos + 4 + h.len..])
  {
    hide ReadHeader;
    if ReadHeader(s).Length? {
      TotalExact(s);
    }
  }

  lemma HeaderGrows(s: string, p: string)
    requires p <= s && !ReadHeader(p).NoHeader?
    ensures ReadHeader(p) == ReadHeader(s)
  {
    HeaderOfPrefix(s, p);
  }

  function After(s: string): (rest: string)
    requires Complete(s)
  {
    var h := ReadHeader(s);
    s[h.pos + 4 + h.len..]
  }

  /** A frame with a positive length: one package, and draining goes on after it. */
  lemma PositiveFrame(s: string)
    requires Fits(s) && Complete(s) && ReadHeader(s).len > 0
    ensures var h := ReadHeader(s);
            && Drain(s) == Then([s[h.pos + 2..h.pos + 2 + h.len]], Drain(After(s)))
            && Robust(s) == Robust(After(s))
  {
    DecodeCases(s);
  }

  /** A frame with length zero is erased and stops the loop. */
  lemma EmptyFrame(s: string)
    requires Fits(s) && Complete(s) && ReadHeader(s).len == 0
    ensures Drain(s) == Drained([], Waiting(After(s))) && Robust(s) == Quiet(After(s))
  {
    DecodeCases(s);
  }

  /** A negative length: everything after the header is one package, or nothing is there yet. */
  lemma NegativeFrame(s: string)
    requires Fits(s) && Complete(s) && ReadHeader(s).len < 0
    ensures var h := ReadHeader(s);
            var m := s[h.pos + 2..];
            var total := h.pos + 4 + h.len;
            && Drain(s) == (if m == "" then Drained([], Waiting(After(s)))
                            else if total == 0 then Drained([m], Spinning)
                            else Then([m], Drain(After(s))))
            && Robust(s) == (if m == "" then Quiet(After(s)) else |m| == 1 && (h.len == -1 || total == 0))
  {
    DecodeCases(s);
  }

  /** No complete frame: nothing is returned, nothing erased, unless the header kills the loop. */
  lemma NoFrame(s: string)
    requires Fits(s) && !Complete(s)
    ensures Robust(s)
    ensures Drain(s) == if ReadHeader(s).BadHeader? then Drained([], Died) else Drained([], Waiting(s))
  {
    DecodeCases(s);
  }

  lemma DrainNothing()
    ensures Drain("") == Drained([], Waiting("")) && Robust("")
  {}

  /** The first frame of `b` is also the first frame of `b + c`. */
  lemma SameFrame(b: string, c: string)
    requires Complete(b)
    ensures Complete(b + c) && ReadHeader(b + c) == ReadHeader(b) && After(b + c) == After(b) + c
    ensures var h := ReadHeader(b);
            h.len >= 0 ==> (b + c)[h.pos + 2..h.pos + 2 + h.len] == b[h.pos + 2..h.pos + 2 + h.len]
  {
    hide ReadHeader;
    HeaderGrows(b + c, b);
    var h := ReadHeader(b);
    assert (b + c)[h.pos + 4 + h.len..] == b[h.pos + 4 + h.len..] + c;
    if h.len >= 0 {
      assert (b + c)[h.pos + 2..h.pos + 2 + h.len] == b[h.pos + 2..h.pos + 2 + h.len];
    }
  }

  lemma QuietCases(s: string)
    requires Fits(s)
    ensures Quiet(s) ==> !ReadHeader(s).BadHeader? && (Complete(s) ==> |s| == ReadHeader(s).pos + 2)
    ensures !ReadHeader(s).BadHeader? && !Complete(s) ==> Quiet(s)
  {
    hide ReadHeader, Decode;
    DecodeCases(s);
  }

  lemma QuietPrefix(s: string, p: string)
    requires Fits(s) && p <= s && Quiet(s)
    ensures Quiet(p)
  {
    hide ReadHeader, Decode, Drain, Quiet;
    QuietCases(s);
    QuietCases(p);
    if !ReadHeader(p).NoHeader? {
      HeaderGrows(s, p);
      if Complete(p) {
        LengthHeaderFits(p);
        assert p == s;
      }
    }
  }

  lemma LengthHeaderFits(s: string)
    requires ReadHeader(s).Length?
    ensures ReadHeader(s).pos + 2 <= |s|
  {}

  lemma QuietIsRobust(s: string)
    requires Fits(s) && Quiet(s)
    ensures Robust(s)
  {
    DecodeCases(s);
  }

  // ---------------------------------------------- sufficient: robust streams

  /** Draining a first part `b` of a stream, then going on with what it left and the rest `c`,
      is draining the stream. */
  ghost predicate InTwo(b: string, c: string) {
    var d := Drain(b);
    if d.end.Waiting? then
      var r := d.end.rest;
      Quiet(r) && Robust(r + c) && Fits(r + c) && Drain(b + c) == Then(d.packages, Drain(r + c))
    else Drain(b + c) == d
  }

  lemma NoFrameInTwo(b: string, c: string)
    requires Fits(b + c) && Robust(b + c)
    requires !Complete(b)
    ensures InTwo(b, c)
  {
    hide ReadHeader, Decode, Drain, Robust;
    NoFrame(b);
    if ReadHeader(b).BadHeader? {
      HeaderGrows(b + c, b);
      NoFrame(b + c);
    }
  }

  lemma PositiveInTwo(b: string, c: string)
    requires Fits(b + c)
    requires Complete(b) && ReadHeader(b).len > 0
    requires InTwo(After(b), c)
    ensures InTwo(b, c)
  {
    hide ReadHeader, Decode, Drain, Robust;
    SameFrame(b, c);
    PositiveFrame(b);
    PositiveFrame(b + c);
    var h := ReadHeader(b);
    var m := [b[h.pos + 2..h.pos + 2 + h.len]];
    var d := Drain(After(b));
    if d.end.Waiting? {
      var next := Drain(d.end.rest + c);
      assert m + (d.packages + next.packages) == m + d.packages + next.packages;
    }
  }

  lemma EmptyInTwo(b: string, c: string)
    requires Fits(b + c) && Robust(b + c)
    requires Complete(b) && ReadHeader(b).len == 0
    ensures InTwo(b, c)
  {
    hide ReadHeader, Decode, Drain, Robust;
    SameFrame(b, c);
    EmptyFrame(b);
    EmptyFrame(b + c);
    QuietPrefix(After(b) + c, After(b));
    QuietIsRobust(After(b) + c);
  }

  lemma {:induction false} DrainInTwo(b: string, c: string)
    requires Fits(b + c) && Robust(b + c)
    ensures InTwo(b, c)
    decreases |b|
  {
    if !Complete(b) {
      NoFrameInTwo(b, c);
    } else if ReadHeader(b).len == 0 {
      EmptyInTwo(b, c);
    } else if ReadHeader(b).len < 0 {
      NegativeInTwo(b, c);
    } else {
      assert Fits(After(b) + c) && Robust(After(b) + c) by {
        SameFrame(b, c);
        PositiveFrame(b + c);
      }
      DrainInTwo(After(b), c);
      PositiveInTwo(b, c);
    }
  }

  lemma NegativeInTwo(b: string, c: string)
    requires Fits(b + c) && Robust(b + c)
    requires Complete(b) && ReadHeader(b).len < 0
    ensures InTwo(b, c)
  {
    hide ReadHeader, Decode, Drain, Robust;
    SameFrame(b, c);
    NegativeFrame(b);
    NegativeFrame(b + c);
    if c == "" {
      assert b + c == b;
      assert After(b) + c == After(b);
      if |b| == ReadHeader(b).pos + 2 {
        QuietIsRobust(After(b));
      } else {
        NoFrame("");
      }
    } else {
      assert |b| == ReadHeader(b).pos + 2;
      assert After(b) == b;
    }
  }

  lemma {:induction false} FeedIsDrain(buf: string, chunks: seq<string>)
    requires Fits(buf + Concat(chunks)) && Robust(buf + Concat(chunks)) && Quiet(buf)
    ensures Feed(buf, chunks) == Drain(buf + Concat(chunks))
    decreases |chunks|
  {
    hide Decode;
    if chunks == [] {
      assert buf + Concat(chunks) == buf;
    } else {
      var b, c := buf + chunks[0], Concat(chunks[1..]);
      assert buf + Concat(chunks) == b + c;
      DrainInTwo(b, c);
      if Drain(b).end.Waiting? {
        FeedIsDrain(Drain(b).end.rest, chunks[1..]);
      }
    }
  }

  // ------------------------------------------------ necessary: the other ones

  lemma FeedTwo(a: string, b: string)
    requires Drain(a).end.Waiting?
    ensures Feed("", [a, b]) == Then(Drain(a).packages, Drain(Drain(a).end.rest + b))
  {
    hide Decode;
    assert "" + a == a;
    var r := Drain(a).end.rest;
    assert [a, b][1..] == [b];
    assert [b][1..] == [];
    assert Feed(r, [b]) == Drain(r + b);
  }

  /** A stream that is not robust can be cut so that the receiver ends up elsewhere. */
  lemma {:induction false} Recut(s: string) returns (chunks: seq<string>)
    requires Fits(s) && !Robust(s)
    ensures Concat(chunks) == s && Feed("", chunks) != Drain(s)
    decreases |s|
  {
    if !Complete(s) {
      NoFrame(s);
      assert false;
    } else if ReadHeader(s).len > 0 {
      PositiveFrame(s);
      var tail := Recut(After(s));
      chunks := RecutAfter(s, tail);
    } else if ReadHeader(s).len == 0 || |s| == ReadHeader(s).pos + 2 {
      chunks := [s, ""];
      RecutEmpty(s);
    } else {
      chunks := RecutNegative(s);
    }
  }

  lemma RecutEmpty(s: string)
    requires Fits(s) && Complete(s) && !Robust(s)
    requires ReadHeader(s).len == 0 || (ReadHeader(s).len < 0 && |s| == ReadHeader(s).pos + 2)
    ensures Concat([s, ""]) == s && Feed("", [s, ""]) != Drain(s)
  {
    hide ReadHeader, Decode, Drain, Robust;
    if ReadHeader(s).len == 0 {
      EmptyFrame(s);
    } else {
      NegativeFrame(s);
    }
    FeedTwo(s, "");
    assert After(s) + "" == After(s);
    assert Concat([s, ""]) == s + Concat([""]) == s;
  }

  lemma CutAt(s: string, cut: nat)
    requires Complete(s) && ReadHeader(s).pos + 2 <= cut <= |s|
    ensures s[..cut] + s[cut..] == s && ReadHeader(s[..cut]) == ReadHeader(s)
  {
    var a, h := s[..cut], ReadHeader(s);
    assert a[h.pos..h.pos + 2] == s[h.pos..h.pos + 2];
    assert At(a, CRLF, h.pos);
    HeaderOfPrefix(s, a);
  }

  lemma FrontFrame(s: string) returns (a: string, m: string)
    requires Fits(s) && Complete(s) && ReadHeader(s).len > 0
    ensures a + After(s) == s
    ensures Drain(a) == Drained([m], Waiting("")) && Drain(s) == Then([m], Drain(After(s)))
  {
    hide ReadHeader, Decode, Drain, Robust;
    var h := ReadHeader(s);
    a, m := s[..h.pos + 4 + h.len], s[h.pos + 2..h.pos + 2 + h.len];
    CutAt(s, |a|);
    SameFrame(a, After(s));
    PositiveFrame(s);
    PositiveFrame(a);
    DrainNothing();
    assert After(a) == "" && a[h.pos + 2..h.pos + 2 + h.len] == m;
  }

  lemma ThenInjective(m: string, x: Drained, y: Drained)
    requires Then([m], x) == Then([m], y)
    ensures x == y
  {
    assert x.packages == ([m] + x.packages)[1..] == ([m] + y.packages)[1..] == y.packages;
  }

  lemma RecutAfter(s: string, tail: seq<string>) returns (chunks: seq<string>)
    requires Fits(s) && Complete(s) && ReadHeader(s).len > 0
    requires Concat(tail) == After(s) && Feed("", tail) != Drain(After(s))
    ensures Concat(chunks) == s && Feed("", chunks) != Drain(s)
  {
    hide Drain, ReadHeader, Robust;
    var a, m := FrontFrame(s);
    chunks := [a] + tail;
    assert chunks[1..] == tail && "" + chunks[0] == a;
    assert Feed("", chunks) == Then([m], Feed("", tail));
    if Feed("", chunks) == Drain(s) {
      ThenInjective(m, Feed("", tail), Drain(After(s)));
    }
  }

  lemma RecutNegative(s: string) returns (chunks: seq<string>)
    requires Fits(s) && Complete(s) && !Robust(s)
    requires ReadHeader(s).len < 0 && |s| > ReadHeader(s).pos + 2
    ensures Concat(chunks) == s && Feed("", chunks) != Drain(s)
  {
    hide ReadHeader, Decode, Drain, Robust;
    var h := ReadHeader(s);
    var total := h.pos + 4 + h.len;
    NegativeFrame(s);
    var cut := if total == 0 || h.len == -1 then h.pos + 3 else h.pos + 2;
    var a, b := s[..cut], s[cut..];
    CutAt(s, cut);
    NegativeFrame(a);
    chunks := [a, b];
    assert Concat(chunks) == a + Concat([b]) == a + b;
    if cut == h.pos + 3 {
      FirstPackage(a, [b]);
      assert |Drain(s).packages[0]| > 1;
    } else {
      FeedTwo(a, b);
      SameFrame(a, b);
    }
  }

  lemma FirstPackage(a: string, chunks: seq<string>)
    requires Drain(a).packages != []
    ensures Feed("", [a] + chunks).packages != []
    ensures Feed("", [a] + chunks).packages[0] == Drain(a).packages[0]
  {
    hide Decode;
    assert "" + ([a] + chunks)[0] == a;
  }

  // ------------------------------------------------------------- the theorem

  /** The exact condition under which the chunking of a stream does not matter. */
  lemma ChunkingInvariance(s: string)
    requires Fits(s)
    ensures ChunkingInvariant(s) <==> Robust(s)
  {
    if Robust(s) {
      forall chunks: seq<string> | Concat(chunks) == s
        ensures Feed("", chunks) == Drain(s)
      {
        assert "" + s == s;
        FeedIsDrain("", chunks);
      }
    } else {
      var chunks := Recut(s);
    }
  }

  // ------------------------------------------------------------ real frames

  function Frames(ms: seq<string>): string {
    if ms == [] then "" else Encode(ms[0]) + Frames(ms[1..])
  }

  ghost predicate Sendable(ms: seq<string>) {
    forall m | m in ms :: m != "" && Fits(Encode(m))
  }

  /** One frame comes off, however much follows it. */
  lemma EncodedFirst(m: string, t: string)
    requires m != "" && Fits(Encode(m))
    ensures Drain(Encode(m) + t) == Then([m], Drain(t)) && Robust(Encode(m) + t) == Robust(t)
  {
    assert |m| < |Encode(m)|;
    hide ReadHeader, Decode, Encode;
    HeaderOfEncode(m, t);
    DecodeEncode(m, t);
  }

  lemma SendableRest(ms: seq<string>)
    requires Sendable(ms) && ms != []
    ensures ms[0] != "" && Fits(Encode(ms[0])) && Sendable(ms[1..])
  {
    assert ms[0] in ms;
    assert forall m | m in ms[1..] :: m in ms;
  }

  /** A stream of frames with non-empty payloads, cut off anywhere before a further complete frame,
      drains to exactly its payloads and keeps the cut-off part; and it is robust. */
  lemma FramesDrain(ms: seq<string>, tail: string)
    requires Sendable(ms) && Fits(tail) && Quiet(tail)
    ensures Drain(Frames(ms) + tail) == Drained(ms, Waiting(tail)) && Robust(Frames(ms) + tail)
  {
    FramesThen(ms, tail);
    QuietIsRobust(tail);
  }

  lemma {:induction false} FramesThen(ms: seq<string>, t: string)
    requires Sendable(ms)
    ensures Drain(Frames(ms) + t) == Then(ms, Drain(t)) && Robust(Frames(ms) + t) == Robust(t)
    decreases |ms|
  {
    hide Decode, ReadHeader, Encode, Robust, Drain;
    if ms == [] {
      assert Frames(ms) + t == t;
    } else {
      assert Frames(ms) + t == Encode(ms[0]) + (Frames(ms[1..]) + t);
      assert ms == [ms[0]] + ms[1..];
      SendableRest(ms);
      FramesThen(ms[1..], t);
      EncodedFirst(ms[0], Frames(ms[1..]) + t);
      assert [ms[0]] + (ms[1..] + Drain(t).packages) == ms + Drain(t).packages;
    }
  }

  lemma CutFrameIsQuiet(m: string, p: string)
    requires Fits(Encode(m)) && p <= Encode(m) && p != Encode(m)
    ensures Quiet(p)
  {
    DecodePrefix(m, p);
  }

  /** A stream of frames cut anywhere: the first payloads, with every byte either in their frames or still
      in the buffer, and nothing that depends on chunking. */
  lemma PartOfFrames(ms: seq<string>, p: string)
    requires Sendable(ms) && p <= Frames(ms)
    ensures Drain(p).packages <= ms && Drain(p).end.Waiting? && Robust(p)
    ensures p == Frames(Drain(p).packages) + Drain(p).end.rest
  {
    DrainNothing();
    assert Frames(ms) + "" == Frames(ms);
    PartOfStream(ms, "", p);
  }

  lemma {:induction false} PartOfStream(ms: seq<string>, tail: string, p: string)
    requires Sendable(ms) && Fits(tail) && Quiet(tail) && p <= Frames(ms) + tail
    ensures var d := Drain(p);
            && d.packages <= ms && d.end.Waiting? && Robust(p) && p == Frames(d.packages) + d.end.rest
            && Quiet(d.end.rest)
    decreases |ms|
  {
    hide Decode, ReadHeader, Encode, Robust, Drain, Quiet;
    if ms == [] || |p| < |Encode(ms[0])| {
      if ms == [] {
        assert Frames(ms) + tail == tail;
        QuietPrefix(tail, p);
      } else {
        assert Frames(ms) + tail == Encode(ms[0]) + (Frames(ms[1..]) + tail);
        assert p <= Encode(ms[0]);
        CutFrameIsQuiet(ms[0], p);
      }
      QuietIsRobust(p);
      QuietMeans(p);
      assert Frames([]) + p == p;
    } else {
      var e, t := Encode(ms[0]), p[|Encode(ms[0])|..];
      assert Frames(ms) + tail == e + (Frames(ms[1..]) + tail);
      assert p == e + t && t <= Frames(ms[1..]) + tail;
      SendableRest(ms);
      PartOfStream(ms[1..], tail, t);
      EncodedFirst(ms[0], t);
      var ps := Drain(p).packages;
      assert ps == [ms[0]] + Drain(t).packages && ps[1..] == Drain(t).packages;
      assert ms == [ms[0]] + ms[1..];
      assert e + (Frames(ps[1..]) + Drain(p).end.rest) == Frames(ps) + Drain(p).end.rest;
    }
  }

  lemma QuietMeans(s: string)
    requires Quiet(s)
    ensures Drain(s) == Drained([], Waiting(s))
  {}

  /** Feeding part of a stream of frames in any chunks is draining it at once, however long it is. */
  lemma {:induction false} FeedIsDrainOfFrames(ms: seq<string>, tail: string, buf: string, chunks: seq<string>)
    requires Sendable(ms) && Fits(tail) && Quiet(tail) && Quiet(buf)
    requires buf + Concat(chunks) <= Frames(ms) + tail
    ensures Feed(buf, chunks) == Drain(buf + Concat(chunks))
    decreases |chunks|
  {
    hide Decode, ReadHeader, Encode, Robust, Drain, Quiet, Frames;
    if chunks == [] {
      assert buf + "" == buf;
      QuietMeans(buf);
    } else {
      var b, c := buf + chunks[0], Concat(chunks[1..]);
      assert buf + Concat(chunks) == b + c;
      PartOfStream(ms, tail, b);
      var d := Drain(b);
      FramesAppend(d.packages, ms[|d.packages|..]);
      assert ms == d.packages + ms[|d.packages|..];
      var later := ms[|d.packages|..];
      assert Sendable(later) && Sendable(d.packages) by {
        assert forall m | m in later :: m in ms;
        assert forall m | m in d.packages :: m in ms;
      }
      assert b + c == Frames(d.packages) + (d.end.rest + c);
      assert Frames(ms) + tail == Frames(d.packages) + (Frames(later) + tail);
      BehindPrefix(Frames(d.packages), d.end.rest + c, Frames(later) + tail);
      FeedIsDrainOfFrames(later, tail, d.end.rest, chunks[1..]);
      FramesThen(d.packages, d.end.rest + c);
    }
  }

  lemma BehindPrefix(a: string, b: string, c: string)
    requires a + b <= a + c
    ensures b <= c
  {
    assert (a + b)[|a|..] == b && (a + c)[|a|..] == c;
    assert forall i | 0 <= i < |b| :: b[i] == (a + b)[|a| + i] == (a + c)[|a| + i] == c[i];
  }

  /** So every way of delivering such a stream gives the receiver the same payloads in order. */
  lemma AnyChunkingOfFrames(ms: seq<string>, tail: string, chunks: seq<string>)
    requires Sendable(ms) && Fits(tail) && Quiet(tail)
    requires Concat(chunks) == Frames(ms) + tail
    ensures Feed("", chunks) == Drained(ms, Waiting(tail))
  {
    DrainNothing();
    assert "" + Concat(chunks) == Concat(chunks);
    FeedIsDrainOfFrames(ms, tail, "", chunks);
    FramesDrain(ms, tail);
  }

  lemma {:induction false} FramesAppend(a: seq<string>, b: seq<string>)
    ensures Frames(a + b) == Frames(a) + Frames(b)
  {
    if a == [] {
      assert a + b == b;
    } else {
      assert (a + b)[1..] == a[1..] + b;
      FramesAppend(a[1..], b);
    }
  }

  // ------------------------------------------------- streams that go wrong

  /** An empty payload is taken for "not complete": the frame is erased, and the next request waits
      until more bytes arrive, or is served at once, depending on the chunking. */
  lemma EmptyPayloadStalls(m: string)
    requires m != "" && Fits(Encode("") + Encode(m))
    ensures var a, b := Encode(""), Encode(m);
            Drain(a + b) == Drained([], Waiting(b)) && Feed("", [a, b]) == Drained([m], Waiting(""))
    ensures !ChunkingInvariant(Encode("") + Encode(m))
  {
    var a, b := Encode(""), Encode(m);
    hide Encode, Decode, ReadHeader, Robust;
    DecodeEncode("", b);
    DecodeEncode("", "");
    DecodeEncode(m, "");
    assert a + "" == a && b + "" == b && "" + b == b;
    DrainNothing();
    assert Drain(b) == Drained([m], Waiting(""));
    hide Drain;
    FeedTwo(a, b);
    assert Concat([a, b]) == a + Concat([b]) == a + b;
  }

  /** A negative length can make the frame zero bytes long: the loop then never ends. */
  lemma NegativeLengthSpins(m: string)
    requires m != "" && Fits("-6" + CRLF + m)
    ensures Drain("-6" + CRLF + m) == Drained([m], Spinning)
  {
    var s := "-6" + CRLF + m;
    assert ToString(-6) == "-6";
    StoiToString(-6);
    NoBreakNoCRLF("-6");
    FindLine("-6", m);
    assert s[..2] == "-6" && s[4..] == m && s[0..] == s;
  }

  /** The headers met on the way lead to one that makes its frame zero bytes long: a negative length with
      something behind the header, while positive lengths and other negative ones are passed over. */
  predicate Spins(s: string)
    decreases |s|
  {
    Complete(s) &&
    var h := ReadHeader(s);
    if h.len > 0 then Spins(After(s))
    else h.len < 0 && |s| > h.pos + |CRLF| && (h.pos + 4 + h.len == 0 || Spins(After(s)))
  }

  /** They lead to a header std::stoi cannot read. */
  predicate Dies(s: string)
    decreases |s|
  {
    if !Complete(s) then ReadHeader(s).BadHeader?
    else
      var h := ReadHeader(s);
      if h.len > 0 then Dies(After(s))
      else h.len < 0 && |s| > h.pos + |CRLF| && h.pos + 4 + h.len > 0 && Dies(After(s))
  }

  /** How the drain loop ends, for every buffer: it terminates exactly when the buffer does not spin, and
      then normally exactly when no unreadable header is met. */
  lemma {:induction false} DrainEnds(s: string)
    requires Fits(s)
    ensures Drain(s).end.Spinning? <==> Spins(s)
    ensures Drain(s).end.Died? <==> Dies(s)
    decreases |s|
  {
    hide ReadHeader, Decode, Drain;
    if !Complete(s) {
      NoFrame(s);
    } else {
      var h := ReadHeader(s);
      LengthHeaderFits(s);
      if h.len > 0 {
        PositiveFrame(s);
        DrainEnds(After(s));
      } else if h.len == 0 {
        EmptyFrame(s);
      } else {
        NegativeFrame(s);
        if h.pos + 4 + h.len > 0 {
          DrainEnds(After(s));
        }
      }
    }
  }
}
