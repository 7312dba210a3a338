/** The length-prefixed frames `len CRLF payload CRLF` and the SELF text codec. */
module Protocol {
  import opened Text
  import opened Decimal

  /** Byte counts below this bound survive the code's `int` lengths unchanged. */
  ghost predicate Fits(s: string) { |s| < INT_MAX }

  function Encode(m: string): string {
    ToString(Wrap32(|m|)) + CRLF + m + CRLF
  }

  /** What Decode does: it lets the exception of std::stoi out, or returns a message
      (empty for "not complete yet") and leaves `rest` in the caller's buffer. */
  datatype Decoded = Threw | Returned(message: string, rest: string)

  /** std::string::substr with an int count: a negative count converts to "to the end". */
  function Substr(s: string, from: nat, count: int): string
    requires from <= |s|
  {
    if count < 0 || from + count > |s| then s[from..] else s[from..from + count]
  }

  /** What Decode reads before the first CRLF. */
  datatype Header = NoHeader | BadHeader | Length(pos: nat, len: int32)

  function ReadHeader(buf: string): (h: Header)
    ensures h.Length? ==> 0 < h.pos && h.pos + |CRLF| <= |buf|
  {
    match Find(buf, CRLF, 0)
    case None => NoHeader
    case Some(pos) =>
      if pos == 0 then NoHeader
      else
        match Stoi(buf[..pos])
        case None => BadHeader
        case Some(len) => Length(pos, len)
  }

  /** The `int` in which Decode computes the length of the whole frame. */
  function Total(h: Header): int32
    requires h.Length?
  {
    Wrap32(h.pos + 2 * |CRLF| + h.len)
  }

  function Decode(buf: string): (d: Decoded)
    ensures d.Returned? ==> |d.rest| <= |buf|
  {
    var h := ReadHeader(buf);
    if h.NoHeader? then Returned("", buf)
    else if h.BadHeader? then Threw
    // the comparison is unsigned: a negative total is larger than any buffer
    else if Total(h) < 0 || |buf| < Total(h) then Returned("", buf)
    else Returned(Substr(buf, h.pos + |CRLF|, h.len), buf[Total(h)..])
  }

  /** Bytes that arrive later do not change a header that is already there. */
  lemma HeaderAppend(s: string, t: string)
    requires Find(s, CRLF, 0).Some?
    ensures ReadHeader(s + t) == ReadHeader(s)
  {
    FindAppend(s, t, CRLF);
    var pos := Find(s, CRLF, 0).value;
    assert (s + t)[..pos] == s[..pos];
  }

  lemma HeaderOfPrefix(s: string, p: string)
    requires p <= s && Find(p, CRLF, 0).Some?
    ensures ReadHeader(p) == ReadHeader(s)
  {
    assert p + s[|p|..] == s;
    HeaderAppend(p, s[|p|..]);
  }

  lemma HeaderOfFrame(m: string, t: string)
    requires |m| <= INT_MAX
    ensures ReadHeader(ToString(|m|) + CRLF + t) == Length(|ToString(|m|)|, |m|)
  {
    var h := ToString(|m|);
    NumeralBytes(|m|);
    NoBreakNoCRLF(h);
    FindLine(h, t);
    assert (h + CRLF + t)[..|h|] == h;
    StoiToString(|m|);
  }

  lemma HeaderOfEncode(m: string, t: string)
    requires |m| <= INT_MAX
    ensures ReadHeader(Encode(m) + t) == Length(|ToString(|m|)|, |m|)
    ensures |Encode(m)| == |ToString(|m|)| + 4 + |m|
  {
    HeaderOfFrame(m, m + CRLF + t);
    assert Encode(m) + t == ToString(|m|) + CRLF + (m + CRLF + t);
  }

  lemma PayloadOf(h: string, m: string, t: string)
    ensures var buf := h + CRLF + m + CRLF + t;
            buf[|h| + 2..|h| + 2 + |m|] == m && buf[|h| + 4 + |m|..] == t
  {}

  /** A frame is cut off exactly, whatever its payload holds and whatever follows it. */
  lemma DecodeEncode(m: string, t: string)
    requires Fits(Encode(m))
    ensures Decode(Encode(m) + t) == Returned(m, t)
  {
    HeaderOfEncode(m, t);
    PayloadOf(ToString(|m|), m, t);
  }

  /** Decode waits while the announced length is not there. */
  lemma DecodeWaits(p: string, h: Header)
    requires h.Length? && ReadHeader(p) == h
    requires |p| < h.pos + 4 + h.len <= INT_MAX
    ensures Decode(p) == Returned("", p)
  {}

  /** Nothing is returned and nothing is erased before the last byte of a frame is there. */
  lemma DecodePrefix(m: string, p: string)
    requires Fits(Encode(m))
    requires p <= Encode(m) && p != Encode(m)
    ensures Decode(p) == Returned("", p)
  {
    if Find(p, CRLF, 0).Some? {
      HeaderOfEncode(m, "");
      HeaderOfPrefix(Encode(m) + "", p);
      DecodeWaits(p, ReadHeader(p));
    }
  }

  /** `s` is `m` in a frame: the decimal digits of its length, CR, LF, its bytes, CR, LF. */
  ghost predicate IsFrame(s: string, m: string) {
    exists k | 0 < k && |s| == k + |m| + 4 :: FramedAt(s, m, k)
  }

  predicate FramedAt(s: string, m: string, k: nat)
    requires |s| == k + |m| + 4
  {
    && IsDecimal(s[..k]) && DecimalValue(s[..k]) == |m|
    && s[k] == '\r' && s[k + 1] == '\n'
    && s[k + 2..k + 2 + |m|] == m
    && s[k + 2 + |m|] == '\r' && s[k + 3 + |m|] == '\n'
  }

  lemma FramedExactly(s: string, m: string, k: nat)
    requires |m| <= INT_MAX && |s| == k + |m| + 4 && FramedAt(s, m, k)
    ensures s == Encode(m)
  {
    hide IsDecimal, DecimalValue, ToString;
    ToStringExactly(|m|, s[..k]);
    assert s[k..k + 2] == CRLF && s[k + 2 + |m|..] == CRLF;
    assert s == s[..k] + s[k..k + 2] + s[k + 2..k + 2 + |m|] + s[k + 2 + |m|..];
  }

  /** Encode makes the one string that is a frame of the payload. */
  lemma EncodeIsFrame(s: string, m: string)
    requires |m| <= INT_MAX
    ensures s == Encode(m) <==> IsFrame(s, m)
  {
    hide IsDecimal, DecimalValue, ToString;
    var h := ToString(|m|);
    NumeralBytes(|m|);
    ToStringExactly(|m|, h);
    if s == Encode(m) {
      assert s[..|h|] == h && s[|h| + 2..|h| + 2 + |m|] == m;
      assert FramedAt(s, m, |h|);
    }
    if IsFrame(s, m) {
      var k :| 0 < k && |s| == k + |m| + 4 && FramedAt(s, m, k);
      FramedExactly(s, m, k);
    }
  }

  lemma FrameExample()
    ensures Encode("1 + 1") == "5\r\n1 + 1\r\n"
  {}

  // ---------------------------------------------------------------- requests

  datatype Request = Request(x: int32, y: int32, oper: char)

  datatype Parsed<T> = NumberThrew | Rejected | Accepted(value: T)

  function SerializeRequest(r: Request): string {
    ToString(r.x) + SPACE + [r.oper] + SPACE + ToString(r.y)
  }

  function DeSerializeRequest(s: string): Parsed<Request> {
    match Find(s, SPACE, 0)
    case None => Rejected
    case Some(left) =>
      match RFind(s, SPACE, |s|)
      case None => Rejected
      case Some(right) =>
        if left == 0 || right + 1 == |s| || left + 1 + |SPACE| != right then Rejected
        else
          match (Stoi(s[..left]), Stoi(s[right + 1..]))
          case (Some(x), Some(y)) => Accepted(Request(x, y, s[right - 1]))
          case _ => NumberThrew
  }

  lemma BlankAt(s: string, i: nat)
    requires i < |s|
    ensures At(s, SPACE, i) <==> s[i] == ' '
  {
    assert s[i..i + 1] == [s[i]];
  }

  lemma FindBlank(s: string, from: nat, k: nat)
    requires from <= k < |s| && s[k] == ' '
    requires forall i | from <= i < k :: s[i] != ' '
    ensures Find(s, SPACE, from) == Some(k)
  {
    BlankAt(s, k);
    var r := Find(s, SPACE, from);
    assert r.Some? && r.value <= k;
    if r.value < k {
      BlankAt(s, r.value);
    }
  }

  lemma RFindBlank(s: string, k: nat)
    requires k < |s| && s[k] == ' '
    requires forall i | k < i < |s| :: s[i] != ' '
    ensures RFind(s, SPACE, |s|) == Some(k)
  {
    BlankAt(s, k);
    var r := RFind(s, SPACE, |s|);
    assert r.Some? && k <= r.value;
    if k < r.value {
      BlankAt(s, r.value);
    }
  }

  lemma RequestBlanks(x: string, oper: char, y: string)
    requires ' ' !in x && ' ' !in y
    ensures var s := x + SPACE + [oper] + SPACE + y;
            && Find(s, SPACE, 0) == Some(|x|) && RFind(s, SPACE, |s|) == Some(|x| + 2)
            && s[..|x|] == x && s[|x| + 1] == oper && s[|x| + 3..] == y
  {
    var s := x + SPACE + [oper] + SPACE + y;
    FindBlank(s, 0, |x|);
    RFindBlank(s, |x| + 2);
  }

  /** Parsing undoes printing for every request, also when the operator byte is itself a blank. */
  lemma RequestRoundTrip(r: Request)
    ensures DeSerializeRequest(SerializeRequest(r)) == Accepted(r)
  {
    NumeralBytes(r.x);
    NumeralBytes(r.y);
    StoiToString(r.x);
    StoiToString(r.y);
    RequestBlanks(ToString(r.x), r.oper, ToString(r.y));
  }

  // --------------------------------------------------------------- responses

  datatype Response = Response(result: int32, flag: int32, equation: string)

  /** The value of a (signed) char in arithmetic. */
  function SignedByte(c: char): int {
    if c < 128 as char then c as int else c as int - 256
  }

  function SerializeResponse(r: Response): string {
    ToString(r.result) + SPACE + ToString(r.flag) + SPACE + r.equation
  }

  function DeSerializeResponse(s: string): Parsed<Response> {
    match Find(s, SPACE, 0)
    case None => Rejected
    case Some(left) =>
      if left == 0 then Rejected
      else
        match Find(s, SPACE, left + 1)
        case None => Rejected
        case Some(second) =>
          if second + 1 == |s| || left + 1 + |SPACE| != second then Rejected
          else
            match Stoi(s[..left])
            case None => NumberThrew
            case Some(result) =>
              Accepted(Response(result, SignedByte(s[second - 1]) - SignedByte('0'), s[second + 1..]))
  }

  lemma ResponseParts(s: string, res: string, flag: string, equation: string)
    requires ' ' !in res && ' ' !in flag
    requires s == res + SPACE + flag + SPACE + equation
    ensures s[|res|] == ' ' && s[|res| + 1 + |flag|] == ' '
    ensures forall i | 0 <= i < |res| :: s[i] != ' '
    ensures forall i | |res| < i < |res| + 1 + |flag| :: s[i] != ' '
    ensures s[..|res|] == res && s[|res| + 1..|res| + 1 + |flag|] == flag && s[|res| + |flag| + 2..] == equation
  {
    assert forall i | 0 <= i < |res| :: s[i] == res[i];
    assert forall i | |res| < i < |res| + 1 + |flag| :: s[i] == flag[i - |res| - 1];
  }

  lemma TwoBlanks(s: string, first: nat, second: nat)
    requires first < second < |s| && s[first] == ' ' && s[second] == ' '
    requires forall i | 0 <= i < first :: s[i] != ' '
    requires forall i | first < i < second :: s[i] != ' '
    ensures Find(s, SPACE, 0) == Some(first) && Find(s, SPACE, first + 1) == Some(second)
  {
    FindBlank(s, 0, first);
    FindBlank(s, first + 1, second);
  }

  /** A response survives the codec exactly when its flag is one digit and its equation is not empty. */
  lemma ResponseRoundTrip(r: Response)
    ensures DeSerializeResponse(SerializeResponse(r)) == Accepted(r) <==> 0 <= r.flag <= 9 && r.equation != ""
  {
    var s, res, flag := SerializeResponse(r), ToString(r.result), ToString(r.flag);
    NumeralBytes(r.result);
    NumeralBytes(r.flag);
    StoiToString(r.result);
    ResponseParts(s, res, flag, r.equation);
    TwoBlanks(s, |res|, |res| + 1 + |flag|);
    if 0 <= r.flag <= 9 {
      assert s[|res| + 1..|res| + 2][0] == flag[0] == (48 + r.flag) as char;
    }
  }

  // ----------------------------------------------------- the texts themselves

  /** `s` is x, blank, operator, blank, y, the numbers in decimal. */
  ghost predicate IsRequestText(s: string, r: Request) {
    exists i: nat | i < |s| - 3 :: RequestCut(s, r, i)
  }

  predicate RequestCut(s: string, r: Request, i: nat)
    requires i < |s| - 3
  {
    && IsDecimal(s[..i]) && DecimalValue(s[..i]) == r.x
    && s[i] == ' ' && s[i + 1] == r.oper && s[i + 2] == ' '
    && IsDecimal(s[i + 3..]) && DecimalValue(s[i + 3..]) == r.y
  }

  lemma RequestTextExactly(s: string, r: Request)
    ensures s == SerializeRequest(r) <==> IsRequestText(s, r)
  {
    hide IsDecimal, DecimalValue, ToString;
    var x, y := ToString(r.x), ToString(r.y);
    NumeralBytes(r.y);
    ToStringExactly(r.x, x);
    ToStringExactly(r.y, y);
    if s == SerializeRequest(r) {
      assert s[..|x|] == x && s[|x| + 3..] == y;
      assert RequestCut(s, r, |x|);
    }
    if IsRequestText(s, r) {
      var i: nat :| i < |s| - 3 && RequestCut(s, r, i);
      ToStringExactly(r.x, s[..i]);
      ToStringExactly(r.y, s[i + 3..]);
      assert s == s[..i] + SPACE + [s[i + 1]] + SPACE + s[i + 3..];
    }
  }

  /** `s` is result, blank, flag, blank, equation, the numbers in decimal. */
  ghost predicate IsResponseText(s: string, r: Response) {
    exists i, j | 0 <= i < j < |s| :: ResponseCut(s, r, i, j)
  }

  predicate ResponseCut(s: string, r: Response, i: nat, j: nat)
    requires i < j < |s|
  {
    && IsDecimal(s[..i]) && DecimalValue(s[..i]) == r.result && s[i] == ' '
    && IsDecimal(s[i + 1..j]) && DecimalValue(s[i + 1..j]) == r.flag && s[j] == ' '
    && s[j + 1..] == r.equation
  }

  lemma ResponseTextExactly(s: string, r: Response)
    ensures s == SerializeResponse(r) <==> IsResponseText(s, r)
  {
    hide IsDecimal, DecimalValue, ToString;
    var result, flag := ToString(r.result), ToString(r.flag);
    ToStringExactly(r.result, result);
    ToStringExactly(r.flag, flag);
    if s == SerializeResponse(r) {
      var i, j := |result|, |result| + 1 + |flag|;
      assert s[..i] == result && s[i + 1..j] == flag && s[j + 1..] == r.equation;
      assert ResponseCut(s, r, i, j);
    }
    if IsResponseText(s, r) {
      var i, j :| 0 <= i < j < |s| && ResponseCut(s, r, i, j);
      ToStringExactly(r.result, s[..i]);
      ToStringExactly(r.flag, s[i + 1..j]);
      assert s == s[..i] + SPACE + s[i + 1..j] + SPACE + s[j + 1..];
    }
  }

  lemma TextExamples()
    ensures SerializeRequest(Request(1, 1, '+')) == "1 + 1"
    ensures SerializeResponse(Response(2, 0, "1 + 1 = 2")) == "2 0 1 + 1 = 2"
  {}
}
