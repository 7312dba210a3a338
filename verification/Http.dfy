/** The HTTP/1.0 message reader and writer (message format: sections 4 to 6 of RFC 1945). */
module Http {
  import opened Text
  import opened Decimal

  const HEADER_SEP: string := ": "
  const WWWROOT: string := "wwwroot"
  const HOMEPAGE: string := "index.html"
  const VERSION: string := "HTTP/1.0"

  // ------------------------------------------------------------------ lines

  /** What GetOneLine returns and leaves: the empty string when there is no complete line, CRLF for an
      empty line, otherwise the line. */
  function GetLine(s: string): (r: (string, string))
    ensures r.0 == "" ==> r.1 == s
    ensures r.0 != "" ==> |r.1| < |s|
  {
    match Find(s, CRLF, 0)
    case None => ("", s)
    case Some(pos) => (if pos == 0 then CRLF else s[..pos], s[pos + |CRLF|..])
  }

  /** The header lines up to the empty line; `text` is None when the input ends before it. */
  datatype Head = Head(lines: seq<string>, text: Option<string>, rest: string)

  function ReadHead(s: string): Head
    decreases |s|
  {
    var (line, rest) := GetLine(s);
    if line == "" then Head([], None, s)
    else if line == CRLF then Head([], Some(rest), rest)
    else var h := ReadHead(rest); Head([line] + h.lines, h.text, h.rest)
  }

  function Lines(lines: seq<string>): string {
    if lines == [] then "" else lines[0] + CRLF + Lines(lines[1..])
  }

  /** A message on the wire. */
  function Print(first: string, headers: seq<string>, body: string): string {
    first + CRLF + Lines(headers) + CRLF + body
  }

  ghost predicate IsLine(s: string) { s != "" && Absent(s, CRLF) }

  lemma GetPrinted(line: string, t: string)
    requires IsLine(line)
    ensures GetLine(line + CRLF + t) == (line, t)
  {
    FindLine(line, t);
    var s := line + CRLF + t;
    assert s[..|line|] == line && s[|line| + 2..] == t;
  }

  lemma GetBlank(t: string)
    ensures GetLine(CRLF + t) == (CRLF, t)
  {
    var s := CRLF + t;
    assert s[0..2] == CRLF && s[2..] == t;
    assert At(s, CRLF, 0);
  }

  /** Something that is not a line is not read back as one. */
  lemma NotALine(line: string, t: string)
    requires !IsLine(line)
    ensures GetLine(line + CRLF + t).0 == CRLF || |GetLine(line + CRLF + t).0| < |line|
  {
    var s := line + CRLF + t;
    if line == "" {
      assert s == CRLF + t;
      GetBlank(t);
    } else {
      var i :| At(line, CRLF, i);
      assert s == line + (CRLF + t);
      AtAppend(line, CRLF + t, CRLF, i);
      assert At(s, CRLF, i);
    }
  }

  lemma HeadOfBlank(body: string)
    ensures ReadHead(CRLF + body) == Head([], Some(body), body)
  {
    GetBlank(body);
  }

  lemma HeadOfLine(line: string, t: string)
    requires IsLine(line)
    ensures ReadHead(line + CRLF + t) == Head([line] + ReadHead(t).lines, ReadHead(t).text, ReadHead(t).rest)
  {
    hide GetLine, IsLine;
    GetPrinted(line, t);
    NotCRLF(line);
  }

  lemma FirstOfLines(headers: seq<string>, t: string)
    requires headers != []
    ensures Lines(headers) + t == headers[0] + CRLF + (Lines(headers[1..]) + t)
  {}

  lemma {:induction false} ReadHeadPrinted(headers: seq<string>, body: string)
    requires forall h | h in headers :: IsLine(h)
    ensures ReadHead(Lines(headers) + CRLF + body) == Head(headers, Some(body), body)
    decreases |headers|
  {
    hide ReadHead, IsLine;
    assert Lines(headers) + CRLF + body == Lines(headers) + (CRLF + body);
    if headers == [] {
      assert Lines(headers) + CRLF + body == CRLF + body;
      HeadOfBlank(body);
    } else {
      var t := Lines(headers[1..]) + CRLF + body;
      assert t == Lines(headers[1..]) + (CRLF + body);
      FirstOfLines(headers, CRLF + body);
      HeadOfLine(headers[0], t);
      ReadHeadPrinted(headers[1..], body);
      assert headers == [headers[0]] + headers[1..];
    }
  }

  lemma NotCRLF(line: string)
    requires IsLine(line)
    ensures line != CRLF
  {
    assert CRLF[0..2] == CRLF;
    assert line == CRLF ==> At(line, CRLF, 0);
  }

  lemma {:induction false} BadHeadersGetLost(headers: seq<string>, body: string)
    requires exists h :: h in headers && !IsLine(h)
    ensures ReadHead(Lines(headers) + CRLF + body).lines != headers
  {
    hide GetLine;
    var t := Lines(headers[1..]) + CRLF + body;
    assert Lines(headers) + CRLF + body == headers[0] + CRLF + t;
    if IsLine(headers[0]) {
      GetPrinted(headers[0], t);
      NotCRLF(headers[0]);
      assert headers == [headers[0]] + headers[1..];
      BadHeadersGetLost(headers[1..], body);
      var rest := ReadHead(t).lines;
      assert ([headers[0]] + rest)[1..] == rest;
    } else {
      NotALine(headers[0], t);
    }
  }

  /** Reading a message: the request line, then the head. */
  function ReadMessage(s: string): (string, Head) {
    var (line, rest) := GetLine(s);
    (line, ReadHead(rest))
  }

  /** Reading inverts printing exactly when the first line and all header lines are lines: not empty and
      without CRLF inside. The body may hold anything. */
  lemma ReadInvertsPrint(first: string, headers: seq<string>, body: string)
    ensures ReadMessage(Print(first, headers, body)) == (first, Head(headers, Some(body), body))
            <==> IsLine(first) && forall h | h in headers :: IsLine(h)
  {
    hide GetLine, ReadHead, Lines;
    var t := Lines(headers) + CRLF + body;
    assert Print(first, headers, body) == first + CRLF + t;
    if IsLine(first) {
      GetPrinted(first, t);
      if forall h | h in headers :: IsLine(h) {
        ReadHeadPrinted(headers, body);
      } else {
        BadHeadersGetLost(headers, body);
      }
    } else {
      NotALine(first, t);
      if first == CRLF {
        FirstIsBlank(headers, body);
      }
    }
  }

  /** A first line CRLF comes back as CRLF, but then the next line is blank too and ends the head early. */
  lemma FirstIsBlank(headers: seq<string>, body: string)
    ensures ReadMessage(Print(CRLF, headers, body)) != (CRLF, Head(headers, Some(body), body))
  {
    hide GetLine;
    var t := CRLF + (Lines(headers) + CRLF + body);
    assert Print(CRLF, headers, body) == CRLF + t;
    GetBlank(t);
    GetBlank(Lines(headers) + CRLF + body);
    assert ReadHead(t) == Head([], Some(Lines(headers) + CRLF + body), Lines(headers) + CRLF + body);
    assert |Lines(headers) + CRLF + body| > |body|;
  }

  /** Whatever arrives, the lines read have no CRLF inside and are not empty. */
  lemma {:induction false} HeadLinesAreLines(s: string)
    ensures forall h | h in ReadHead(s).lines :: IsLine(h)
    decreases |s|
  {
    hide ReadHead;
    var (line, rest) := GetLine(s);
    if line != "" && line != CRLF {
      LineRead(s);
      HeadLinesAreLines(rest);
      HeadStep(s);
    } else {
      HeadStep(s);
    }
  }

  lemma HeadStep(s: string)
    ensures var (line, rest) := GetLine(s);
            ReadHead(s).lines == if line == "" || line == CRLF then [] else [line] + ReadHead(rest).lines
  {}

  lemma LineRead(s: string)
    requires GetLine(s).0 != CRLF
    ensures Absent(GetLine(s).0, CRLF)
  {
    var line := GetLine(s).0;
    if Find(s, CRLF, 0).Some? {
      assert s == line + s[|line|..];
      forall i
        ensures !At(line, CRLF, i)
      {
        if 0 <= i && i + 2 <= |line| {
          AtAppend(line, s[|line|..], CRLF, i);
        }
      }
    }
  }

  // ----------------------------------------------------------- header fields

  type Fields = map<string, string>

  /** The name and value of one header line, cut at the first ": ". */
  function Field(h: string): Option<(string, string)> {
    match Find(h, HEADER_SEP, 0)
    case None => None
    case Some(pos) => Some((h[..pos], h[pos + |HEADER_SEP|..]))
  }

  /** ParseReqHeader: later lines overwrite earlier ones; the first line without ": " ends the scan. */
  function ReadFields(headers: seq<string>, kv: Fields): (Fields, bool) {
    if headers == [] then (kv, true)
    else
      match Field(headers[0])
      case None => (kv, false)
      case Some((name, value)) => ReadFields(headers[1..], kv[name := value])
  }

  function Header(name: string, value: string): string { name + HEADER_SEP + value }

  /** Splitting undoes joining exactly when the name has no ": " in it. The value may have one. */
  lemma FieldRoundTrip(name: string, value: string)
    ensures Field(Header(name, value)) == Some((name, value)) <==> Absent(name, HEADER_SEP)
  {
    var h := Header(name, value);
    assert h == name + (HEADER_SEP + value);
    assert h[|name|..|name| + 2] == HEADER_SEP;
    assert At(h, HEADER_SEP, |name|);
    forall i | 0 <= i < |name|
      ensures At(h, HEADER_SEP, i) == At(name, HEADER_SEP, i)
    {
      if i + 2 <= |name| {
        AtAppend(name, HEADER_SEP + value, HEADER_SEP, i);
      } else {
        assert h[i..i + 2][1] == ':';
      }
    }
    if Absent(name, HEADER_SEP) {
      assert Find(h, HEADER_SEP, 0) == Some(|name|);
      assert h[..|name|] == name && h[|name| + 2..] == value;
    } else {
      var i :| At(name, HEADER_SEP, i);
      assert At(h, HEADER_SEP, i);
    }
  }

  lemma FieldNameIsClean(h: string)
    requires Field(h).Some?
    ensures Absent(Field(h).value.0, HEADER_SEP)
  {
    var pos := Find(h, HEADER_SEP, 0).value;
    assert h == h[..pos] + h[pos..];
    forall i
      ensures !At(h[..pos], HEADER_SEP, i)
    {
      if 0 <= i && i + 2 <= pos {
        AtAppend(h[..pos], h[pos..], HEADER_SEP, i);
      }
    }
  }

  /** The last header line with this name, if any. */
  function LastValue(headers: seq<string>, name: string): Option<string>
    decreases |headers|
  {
    if headers == [] then None
    else
      var f := Field(headers[|headers| - 1]);
      if f.Some? && f.value.0 == name then Some(f.value.1) else LastValue(headers[..|headers| - 1], name)
  }

  lemma {:induction false} ReadFieldsAppend(a: seq<string>, b: seq<string>, kv: Fields)
    ensures ReadFields(a + b, kv)
            == if ReadFields(a, kv).1 then ReadFields(b, ReadFields(a, kv).0) else ReadFields(a, kv)
    decreases |a|
  {
    if a == [] {
      assert a + b == b;
    } else {
      assert (a + b)[1..] == a[1..] + b;
      match Field(a[0])
      case None =>
      case Some((name, value)) => ReadFieldsAppend(a[1..], b, kv[name := value]);
    }
  }

  lemma {:induction false} ReadFieldsSucceeds(headers: seq<string>, kv: Fields)
    ensures ReadFields(headers, kv).1 <==> forall h | h in headers :: Field(h).Some?
    decreases |headers|
  {
    hide Field;
    if headers != [] {
      assert headers == [headers[0]] + headers[1..];
      match Field(headers[0])
      case None =>
      case Some((name, value)) => ReadFieldsSucceeds(headers[1..], kv[name := value]);
    }
  }

  /** The lines before the first one without ": ". */
  function Usable(headers: seq<string>): (r: seq<string>)
    ensures r <= headers && forall h | h in r :: Field(h).Some?
    ensures |r| < |headers| ==> Field(headers[|r|]).None?
  {
    if headers == [] || Field(headers[0]).None? then [] else [headers[0]] + Usable(headers[1..])
  }

  lemma {:induction false} OnlyUsableLinesRead(headers: seq<string>, kv: Fields)
    ensures ReadFields(headers, kv).0 == ReadFields(Usable(headers), kv).0 && ReadFields(Usable(headers), kv).1
    decreases |headers|
  {
    hide Field;
    if headers != [] {
      match Field(headers[0])
      case None =>
      case Some((name, value)) =>
        OnlyUsableLinesRead(headers[1..], kv[name := value]);
        assert Usable(headers)[1..] == Usable(headers[1..]);
    }
  }

  /** The map read from any header lines: exactly the names that occur before the first line without ": ",
      each with the value of its last line there. */
  lemma ReadFieldsExact(headers: seq<string>, name: string)
    ensures var kv := ReadFields(headers, map[]).0;
            LastValue(Usable(headers), name) == if name in kv then Some(kv[name]) else None
  {
    OnlyUsableLinesRead(headers, map[]);
    UsableFieldsExact(Usable(headers), name);
  }

  lemma {:induction false} UsableFieldsExact(headers: seq<string>, name: string)
    requires ReadFields(headers, map[]).1
    ensures var kv := ReadFields(headers, map[]).0;
            LastValue(headers, name) == if name in kv then Some(kv[name]) else None
    decreases |headers|
  {
    hide Field;
    if headers != [] {
      var front, last := headers[..|headers| - 1], headers[|headers| - 1];
      assert headers == front + [last];
      ReadFieldsAppend(front, [last], map[]);
      ReadFieldsSucceeds(headers, map[]);
      ReadFieldsSucceeds(front, map[]);
      UsableFieldsExact(front, name);
      assert [last][1..] == [];
    }
  }

  /** Header lines for the entries of a map, in the order in which its keys are visited. */
  function Headers(order: seq<string>, kv: Fields): seq<string>
    requires forall k | k in order :: k in kv
  {
    if order == [] then [] else [Header(order[0], kv[order[0]])] + Headers(order[1..], kv)
  }

  ghost predicate CleanNames(kv: Fields) { forall k | k in kv :: Absent(k, HEADER_SEP) }

  /** The part of the map that `order` visits. */
  function Entries(order: seq<string>, kv: Fields): Fields
    requires forall k | k in order :: k in kv
  {
    map k | k in order :: kv[k]
  }

  lemma EntriesSplit(order: seq<string>, kv: Fields, start: Fields)
    requires order != [] && forall k | k in order :: k in kv
    ensures var k := order[0];
            start + Entries(order, kv) == start[k := kv[k]] + Entries(order[1..], kv)
  {
    assert order == [order[0]] + order[1..];
  }

  lemma {:induction false} ReadFieldsOfHeaders(order: seq<string>, kv: Fields, start: Fields)
    requires forall k | k in order :: k in kv
    requires CleanNames(kv)
    ensures ReadFields(Headers(order, kv), start) == (start + Entries(order, kv), true)
    decreases |order|
  {
    hide Field, Header, Absent;
    if order == [] {
      assert start + Entries(order, kv) == start;
    } else {
      var k := order[0];
      FieldRoundTrip(k, kv[k]);
      ReadFieldsOfHeaders(order[1..], kv, start[k := kv[k]]);
      assert Headers(order, kv)[1..] == Headers(order[1..], kv);
      EntriesSplit(order, kv, start);
    }
  }

  /** `h` is a header line for a name in `kv`, with any value. */
  ghost predicate Carries(h: string, kv: Fields) {
    exists k, v :: k in kv && h == Header(k, v)
  }

  lemma CarriesStill(h: string, kv: Fields, k: string, v: string)
    requires Carries(h, kv)
    ensures Carries(h, kv[k := v])
  {}

  lemma CarriesField(h: string, kv: Fields)
    requires Carries(h, kv) && CleanNames(kv)
    ensures Field(h).Some? && Field(h).value.0 in kv
  {
    var k, v :| k in kv && h == Header(k, v);
    FieldRoundTrip(k, v);
  }

  /** Lines printed by an earlier Serialize, with values since replaced, do no harm: the fresh lines come
      later and win. */
  lemma StaleHeadersAreOverwritten(stale: seq<string>, order: seq<string>, kv: Fields)
    requires forall k :: k in order <==> k in kv
    requires CleanNames(kv)
    requires forall h | h in stale :: Carries(h, kv)
    ensures ReadFields(stale + Headers(order, kv), map[]) == (kv, true)
  {
    hide Field, Header, Absent;
    forall h | h in stale
      ensures Field(h).Some? && Field(h).value.0 in kv
    {
      CarriesField(h, kv);
    }
    StaleNames(stale, kv, map[]);
    ReadFieldsAppend(stale, Headers(order, kv), map[]);
    var start := ReadFields(stale, map[]).0;
    ReadFieldsOfHeaders(order, kv, start);
    assert start + Entries(order, kv) == kv;
  }

  lemma {:induction false} StaleNames(stale: seq<string>, kv: Fields, start: Fields)
    requires start.Keys <= kv.Keys
    requires forall h | h in stale :: Field(h).Some? && Field(h).value.0 in kv
    ensures ReadFields(stale, start).1 && ReadFields(stale, start).0.Keys <= kv.Keys
    decreases |stale|
  {
    hide Field;
    if stale != [] {
      var (k, v) := Field(stale[0]).value;
      assert stale == [stale[0]] + stale[1..];
      StaleNames(stale[1..], kv, start[k := v]);
    }
  }

  // ---------------------------------------------------------- the response

  function StatusLine(code: int, desc: string): string {
    VERSION + SPACE + ToString(code) + SPACE + desc
  }

  /** A separator without line-break bytes cannot create a CRLF between its neighbours. */
  lemma NoCRLFAcross(a: string, sep: string, b: string)
    requires sep != "" && '\r' !in sep && '\n' !in sep
    ensures Absent(a + sep + b, CRLF) <==> Absent(a, CRLF) && Absent(b, CRLF)
  {
    var s := a + sep + b;
    assert s == a + (sep + b);
    var n := |a + sep|;
    forall i | 0 <= i && i + 2 <= |a|
      ensures At(s, CRLF, i) == At(a, CRLF, i)
    {
      AtAppend(a, sep + b, CRLF, i);
    }
    forall i | 0 <= i && i + 2 <= |b|
      ensures At(s, CRLF, n + i) == At(b, CRLF, i)
    {
      assert s[n + i..n + i + 2] == b[i..i + 2];
    }
    forall i | |a| - 2 < i < n
      ensures !At(s, CRLF, i)
    {
      if 0 <= i && i + 2 <= |s| {
        assert s[i..i + 2][0] == s[i] && s[i..i + 2][1] == s[i + 1];
        assert if i < |a| then s[i + 1] in sep else s[i] in sep;
      }
    }
    assert Absent(a, CRLF) && Absent(b, CRLF) ==> Absent(s, CRLF) by {
      forall i | At(s, CRLF, i)
        ensures At(a, CRLF, i) || At(b, CRLF, i - n)
      {
        if i >= n {
          assert At(s, CRLF, n + (i - n));
        }
      }
    }
    assert Absent(s, CRLF) ==> Absent(a, CRLF) && Absent(b, CRLF) by {
      forall i | At(b, CRLF, i)
        ensures At(s, CRLF, n + i)
      {}
    }
  }

  lemma StatusLineIsLine(code: int, desc: string)
    ensures StatusLine(code, desc) != "" && StatusLine(code, desc) != CRLF
    ensures Absent(StatusLine(code, desc), CRLF) <==> Absent(desc, CRLF)
  {
    NumeralBytes(code);
    var sep := VERSION + SPACE + ToString(code) + SPACE;
    NoCRLFAcross("", sep, desc);
    assert "" + sep + desc == StatusLine(code, desc);
  }

  /** `s` is the version, blank, the code in decimal, blank, the description. */
  ghost predicate IsStatusLine(s: string, code: int, desc: string) {
    exists j | 9 <= j < |s| :: StatusCut(s, code, desc, j)
  }

  predicate StatusCut(s: string, code: int, desc: string, j: nat)
    requires 9 <= j < |s|
  {
    s[..9] == "HTTP/1.0 " && IsDecimal(s[9..j]) && DecimalValue(s[9..j]) == code && s[j] == ' ' && s[j + 1..] == desc
  }

  lemma StatusLineText(s: string, code: int, desc: string)
    ensures s == StatusLine(code, desc) <==> IsStatusLine(s, code, desc)
  {
    hide IsDecimal, DecimalValue, ToString;
    var number := ToString(code);
    ToStringExactly(code, number);
    if s == StatusLine(code, desc) {
      var j := 9 + |number|;
      assert s[..9] == "HTTP/1.0 " && s[9..j] == number && s[j + 1..] == desc;
      assert StatusCut(s, code, desc, j);
    }
    if IsStatusLine(s, code, desc) {
      var j :| 9 <= j < |s| && StatusCut(s, code, desc, j);
      ToStringExactly(code, s[9..j]);
      assert s == s[..9] + s[9..j] + SPACE + s[j + 1..];
    }
  }

  /** The lines of a message, each with its own CR and LF, an empty one, and the body. */
  lemma PrintedMessage(first: string, a: string, b: string, body: string)
    ensures Print(first, [], body) == first + "\r\n\r\n" + body
    ensures Print(first, [a, b], body) == first + "\r\n" + a + "\r\n" + b + "\r\n\r\n" + body
    ensures Header(a, b) == a + ": " + b
  {
    assert [a, b][1..] == [b] && [b][1..] == [];
    assert Lines([]) == "" && Lines([b]) == b + CRLF + "";
    assert Lines([a, b]) == a + CRLF + (b + CRLF);
  }

  /** A map that may be sent: no CRLF anywhere and no ": " in a name. */
  ghost predicate Printable(kv: Fields) {
    forall k | k in kv :: Absent(k, CRLF) && Absent(k, HEADER_SEP) && Absent(kv[k], CRLF)
  }

  lemma {:induction false} HeadersAreLines(order: seq<string>, kv: Fields)
    requires forall k | k in order :: k in kv
    requires Printable(kv)
    ensures forall h | h in Headers(order, kv) :: IsLine(h)
    decreases |order|
  {
    if order != [] {
      NoCRLFAcross(order[0], HEADER_SEP, kv[order[0]]);
      HeadersAreLines(order[1..], kv);
    }
  }

  lemma FieldOfLineHasNoCRLF(h: string)
    requires Absent(h, CRLF) && Field(h).Some?
    ensures Absent(Field(h).value.0, CRLF) && Absent(Field(h).value.1, CRLF)
  {
    var (name, value) := Field(h).value;
    NoCRLFAcross(name, HEADER_SEP, value);
    assert h == name + HEADER_SEP + value;
  }

  lemma {:induction false} FieldsReadArePrintable(headers: seq<string>, start: Fields)
    requires forall h | h in headers :: Absent(h, CRLF)
    requires Printable(start)
    ensures Printable(ReadFields(headers, start).0)
    decreases |headers|
  {
    hide Field, Absent;
    if headers != [] {
      match Field(headers[0])
      case None =>
      case Some((name, value)) =>
        FieldNameIsClean(headers[0]);
        FieldOfLineHasNoCRLF(headers[0]);
        FieldsReadArePrintable(headers[1..], start[name := value]);
    }
  }

  /** Reading a printed response back gives the status line, the header map and the body, in whatever
      order the hash map was walked, exactly when no part but the body has a CRLF and no name has ": ". */
  lemma ResponseReadsBack(code: int, desc: string, order: seq<string>, kv: Fields, text: string)
    requires forall k :: k in order <==> k in kv
    ensures var (first, head) := ReadMessage(Print(StatusLine(code, desc), Headers(order, kv), text));
            first == StatusLine(code, desc) && ReadFields(head.lines, map[]) == (kv, true) && head.text == Some(text)
            <==> Absent(desc, CRLF) && Printable(kv)
  {
    hide Absent, GetLine, ReadHead, Field, Header, Print, StatusLine;
    var status, headers := StatusLine(code, desc), Headers(order, kv);
    StatusLineIsLine(code, desc);
    if Absent(desc, CRLF) && Printable(kv) {
      HeadersAreLines(order, kv);
      ReadInvertsPrint(status, headers, text);
      ReadFieldsOfHeaders(order, kv, map[]);
      assert map[] + Entries(order, kv) == kv;
    } else {
      var wire := Print(status, headers, text);
      var (first, head) := ReadMessage(wire);
      HeadLinesAreLines(GetLine(wire).1);
      FieldsReadArePrintable(head.lines, map[]);
      if first == status {
        LineRead(wire);
      }
    }
  }

  // ------------------------------------------------------- the request line

  /** The fields ParseReqLine fills. */
  datatype RequestLine = RequestLine(name: string, uri: string, args: string, path: string, suffix: string, version: string)

  const FRESH: RequestLine := RequestLine("", "", "", WWWROOT, "", "")

  function LeadingWord(s: string): (r: string)
    ensures r <= s && forall c | c in r :: !IsSpace(c)
    ensures |r| < |s| ==> IsSpace(s[|r|])
  {
    if s == "" || IsSpace(s[0]) then "" else [s[0]] + LeadingWord(s[1..])
  }

  /** One `stream >> word`: at the end of the stream the variable keeps its value. */
  function Extract(s: string, word: string): (string, string) {
    var t := SkipSpace(s);
    var w := LeadingWord(t);
    (if w == "" then word else w, t[|w|..])
  }

  function Lower(c: char): char { if 'A' <= c <= 'Z' then (c as int + 32) as char else c }

  /** strcasecmp(s, "get") == 0, on C strings. */
  predicate IsGet(s: string) {
    var c := CString(s);
    |c| == 3 && Lower(c[0]) == 'g' && Lower(c[1]) == 'e' && Lower(c[2]) == 't'
  }

  /** The spellings of the method that are taken for GET, and the bytes that end a word. */
  lemma GetAndSpace(s: string, c: char)
    ensures IsGet(s) <==> CString(s) in {"get", "geT", "gEt", "gET", "Get", "GeT", "GEt", "GET"}
    ensures IsSpace(c) <==> c as int in {9, 10, 11, 12, 13, 32}
  {
    hide CString;
    var t := CString(s);
    if IsGet(s) {
      assert t == [t[0], t[1], t[2]];
      assert t[0] in "gG" && t[1] in "eE" && t[2] in "tT";
    }
  }

  /** `uri` and `args` after a GET line: cut at the first '?', which is in neither. */
  function SplitUri(uri: string): (string, string) {
    match Find(uri, "?", 0)
    case None => (uri, "")
    case Some(pos) => (uri[..pos], uri[pos + 1..])
  }

  /** The file name for a request path. */
  function Resource(path: string): string
    requires path != ""
  {
    if path[|path| - 1] == '/' then path + HOMEPAGE else path
  }

  /** The three extractions from the stream over the request line. */
  function Words(line: string, r: RequestLine): (string, string, string) {
    var (name, s1) := Extract(line, r.name);
    var (word, s2) := Extract(s1, r.uri);
    (name, word, Extract(s2, r.version).0)
  }

  function Locate(name: string, word: string, version: string, r: RequestLine): (RequestLine, bool)
    requires r.path != ""
  {
    var (uri, args) := if IsGet(name) then SplitUri(word) else (word, r.args);
    var path := Resource(r.path + uri);
    match RFind(path, ".", |path|)
    case None => (RequestLine(name, uri, args, path, r.suffix, version), false)
    case Some(pos) => (RequestLine(name, uri, args, path, path[pos..], version), true)
  }

  function ParseLine(line: string, r: RequestLine): (RequestLine, bool)
    requires r.path != ""
  {
    if line == "" then (r, false)
    else
      var (name, word, version) := Words(line, r);
      Locate(name, word, version, r)
  }

  predicate IsWord(s: string) { s != "" && forall c | c in s :: !IsSpace(c) }

  lemma {:induction false} LeadingWordOf(w: string, t: string)
    requires forall c | c in w :: !IsSpace(c)
    requires t != "" ==> IsSpace(t[0])
    ensures LeadingWord(w + t) == w
  {
    if w == "" {
      assert w + t == t;
    } else {
      assert (w + t)[1..] == w[1..] + t;
      LeadingWordOf(w[1..], t);
    }
  }

  lemma SplitUriExact(target: string, args: string)
    ensures SplitUri(target + "?" + args) == (target, args) <==> '?' !in target
    ensures SplitUri(target) == (target, "") <==> '?' !in target
  {
    var s := target + "?" + args;
    assert s[|target|..|target| + 1] == "?";
    assert At(s, "?", |target|);
    forall i | 0 <= i < |target|
      ensures At(s, "?", i) <==> target[i] == '?'
      ensures At(target, "?", i) <==> target[i] == '?'
    {
      assert s[i..i + 1] == [s[i]] && target[i..i + 1] == [target[i]];
    }
    if '?' !in target {
      assert Find(s, "?", 0) == Some(|target|);
      assert s[..|target|] == target && s[|target| + 1..] == args;
    }
  }

  lemma ResourceOf(uri: string)
    ensures Resource(WWWROOT + uri)
            == WWWROOT + uri + (if uri != "" && uri[|uri| - 1] == '/' then HOMEPAGE else "")
  {
    assert uri != "" ==> (WWWROOT + uri)[|WWWROOT + uri| - 1] == uri[|uri| - 1];
    assert WWWROOT + uri + "" == WWWROOT + uri;
  }

  /** The suffix is everything from the last dot. */
  lemma LastDot(path: string)
    ensures var r := RFind(path, ".", |path|);
            && (r.Some? <==> '.' in path)
            && (r.Some? ==> path[r.value] == '.' && '.' !in path[r.value + 1..])
  {
    hide RFind, At;
    var r := RFind(path, ".", |path|);
    forall i: nat | i < |path|
      ensures At(path, ".", i) <==> path[i] == '.'
    {
      DotAt(path, i);
    }
    if r.Some? {
      assert At(path, ".", r.value);
    }
  }

  lemma DotAt(path: string, i: nat)
    requires i < |path|
    ensures At(path, ".", i) <==> path[i] == '.'
  {
    assert path[i..i + 1] == [path[i]];
  }

  /** The words of a line: the longest stretches without white space, in order. */
  function WordsIn(line: string): seq<string>
    decreases |line|
  {
    var t := SkipSpace(line);
    var w := LeadingWord(t);
    if w == "" then [] else
      SkipSpaceShrinks(line);
      [w] + WordsIn(t[|w|..])
  }

  lemma {:induction false} SkipSpaceShrinks(s: string)
    ensures |SkipSpace(s)| <= |s|
  {
    if s != "" {
      SkipSpaceShrinks(s[1..]);
    }
  }

  function Joined(words: seq<string>): string {
    if words == [] then "" else if |words| == 1 then words[0] else words[0] + SPACE + Joined(words[1..])
  }

  function Nth(words: seq<string>, n: nat): string {
    if n < |words| then words[n] else ""
  }

  lemma BlankInFront(line: string)
    ensures WordsIn(SPACE + line) == WordsIn(line)
  {
    assert (SPACE + line)[1..] == line;
    assert SkipSpace(SPACE + line) == SkipSpace(line);
  }

  lemma NoWords()
    ensures WordsIn("") == []
  {}

  /** Cutting a line into words undoes joining words with blanks. */
  lemma {:induction false} WordsInJoined(words: seq<string>)
    requires forall w | w in words :: IsWord(w)
    ensures WordsIn(Joined(words)) == words
    decreases |words|
  {
    hide WordsIn, IsWord;
    NoWords();
    if words != [] {
      var w := words[0];
      var rest := if |words| == 1 then "" else SPACE + Joined(words[1..]);
      assert Joined(words) == w + rest;
      WordsInJoined(words[1..]);
      BlankInFront(Joined(words[1..]));
      FirstWord(w, rest);
      assert words == [w] + words[1..];
    }
  }

  lemma FirstWord(w: string, rest: string)
    requires IsWord(w)
    requires rest != "" ==> IsSpace(rest[0])
    ensures WordsIn(w + rest) == [w] + WordsIn(rest)
  {
    LeadingWordOf(w, rest);
    assert (w + rest)[0] in w;
    assert (w + rest)[|w|..] == rest;
  }

  lemma ExtractIsNext(line: string)
    ensures Extract(line, "").0 == Nth(WordsIn(line), 0)
    ensures WordsIn(line) == [] ==> WordsIn(Extract(line, "").1) == []
    ensures WordsIn(line) != [] ==> WordsIn(Extract(line, "").1) == WordsIn(line)[1..]
  {
    var t := SkipSpace(line);
    SkipIsDone(line);
    if LeadingWord(t) == "" {
      assert t[0..] == t;
    }
  }

  lemma {:induction false} SkipIsDone(s: string)
    ensures SkipSpace(SkipSpace(s)) == SkipSpace(s)
  {
    if s != "" && IsSpace(s[0]) {
      SkipIsDone(s[1..]);
    }
  }

  lemma WordsOfLine(line: string)
    ensures Words(line, FRESH) == (Nth(WordsIn(line), 0), Nth(WordsIn(line), 1), Nth(WordsIn(line), 2))
  {
    hide Extract, WordsIn;
    var (name, s1) := Extract(line, "");
    var (word, s2) := Extract(s1, "");
    ExtractIsNext(line);
    ExtractIsNext(s1);
    ExtractIsNext(s2);
  }

  lemma Located(name: string, word: string, version: string)
    ensures var (r, ok) := Locate(name, word, version, FRESH);
            && r.name == name && r.version == version
            && (IsGet(name) ==> (r.uri, r.args) == SplitUri(word))
            && (!IsGet(name) ==> (r.uri, r.args) == (word, ""))
            && r.path == WWWROOT + r.uri + (if r.uri != "" && r.uri[|r.uri| - 1] == '/' then HOMEPAGE else "")
            && (ok <==> '.' in r.path)
            && (ok ==> r.suffix != "" && r.suffix[0] == '.' && '.' !in r.suffix[1..])
            && (ok ==> |r.suffix| <= |r.path| && r.suffix == r.path[|r.path| - |r.suffix|..])
  {
    hide IsGet, SplitUri, Resource, At;
    var r := Locate(name, word, version, FRESH).0;
    ResourceOf(r.uri);
    LastDot(r.path);
    var dot := RFind(r.path, ".", |r.path|);
    if dot.Some? {
      assert r.path[dot.value..][1..] == r.path[dot.value + 1..];
    }
  }

  /** What a fresh object holds after a request line with these words: the first three count, missing ones
      are empty; a GET splits the second at its first '?', which ends up in neither part. */
  ghost predicate ReadAs(r: RequestLine, ok: bool, words: seq<string>) {
    var name, word := Nth(words, 0), Nth(words, 1);
    && r.name == name && r.version == Nth(words, 2)
    && (if IsGet(name) && '?' in word then r.uri + "?" + r.args == word && '?' !in r.uri
        else r.uri == word && r.args == "")
    && r.path == WWWROOT + r.uri + (if r.uri != "" && r.uri[|r.uri| - 1] == '/' then HOMEPAGE else "")
    && (ok <==> '.' in r.path)
    && (ok ==> r.suffix != "" && r.suffix[0] == '.' && '.' !in r.suffix[1..])
    && (ok ==> |r.suffix| <= |r.path| && r.suffix == r.path[|r.path| - |r.suffix|..])
  }

  lemma SplitUriParts(word: string)
    ensures var (uri, args) := SplitUri(word);
            if '?' in word then uri + "?" + args == word && '?' !in uri else uri == word && args == ""
  {
    SplitUriExact(word, "");
    if pos: nat :| pos < |word| && word[pos] == '?' {
      assert word[pos..pos + 1] == "?" && At(word, "?", pos);
      var cut := Find(word, "?", 0).value;
      assert word == word[..cut] + "?" + word[cut + 1..];
      SplitUriExact(word[..cut], word[cut + 1..]);
    }
  }

  lemma FreshWithoutWords()
    ensures ReadAs(FRESH, false, [])
  {}

  lemma LocateReadsAs(words: seq<string>, name: string, word: string, version: string)
    requires name == Nth(words, 0) && word == Nth(words, 1) && version == Nth(words, 2)
    ensures ReadAs(Locate(name, word, version, FRESH).0, Locate(name, word, version, FRESH).1, words)
  {
    hide Locate, SplitUri, IsGet, Nth;
    Located(name, word, version);
    SplitUriParts(word);
  }

  /** Every request line, however many words it has and however they are spaced. */
  lemma RequestLineRead(line: string)
    ensures ReadAs(ParseLine(line, FRESH).0, ParseLine(line, FRESH).1, WordsIn(line))
  {
    if line == "" {
      FreshWithoutWords();
    } else {
      hide Words, Locate, ReadAs, WordsIn, Nth;
      var words := WordsIn(line);
      WordsOfLine(line);
      LocateReadsAs(words, Nth(words, 0), Nth(words, 1), Nth(words, 2));
    }
  }

  /** Reading inverts printing for request lines: the printed words come back. */
  lemma RequestLineReadsBack(words: seq<string>)
    requires forall w | w in words :: IsWord(w)
    ensures ReadAs(ParseLine(Joined(words), FRESH).0, ParseLine(Joined(words), FRESH).1, words)
  {
    hide ParseLine, ReadAs;
    WordsInJoined(words);
    RequestLineRead(Joined(words));
  }

  lemma CutOnce(a: string, b: string, c: string, d: string)
    requires a + "?" + b == c + "?" + d && '?' !in a && '?' !in c
    ensures a == c && b == d
  {
    SplitUriExact(a, b);
    SplitUriExact(c, d);
  }

  lemma ThreeWords(a: string, b: string, c: string)
    ensures Joined([a, b, c]) == a + SPACE + b + SPACE + c
  {
    assert [a, b, c][1..] == [b, c] && [b, c][1..] == [c];
    assert Joined([b, c]) == b + SPACE + c;
  }

  /** In particular a GET of `target?args` gives the two parts back exactly when the target has no '?', and
      a GET of `target` gives it back, with no arguments, under the same condition. */
  lemma TargetReadsBack(name: string, target: string, args: string, version: string)
    requires IsWord(name) && IsWord(target + "?" + args) && IsWord(version) && IsGet(name)
    ensures var r := ParseLine(name + SPACE + (target + "?" + args) + SPACE + version, FRESH).0;
            r.uri == target && r.args == args <==> '?' !in target
    ensures target != "" ==>
              var r := ParseLine(name + SPACE + target + SPACE + version, FRESH).0;
              r.uri == target && r.args == "" <==> '?' !in target
  {
    hide IsGet, IsWord, ParseLine;
    var word := target + "?" + args;
    assert word[|target|] == '?' && word[|target|] in word;
    ThreeWords(name, word, version);
    RequestLineReadsBack([name, word, version]);
    var r := ParseLine(Joined([name, word, version]), FRESH).0;
    if '?' !in target {
      CutOnce(r.uri, r.args, target, args);
    }
    if target != "" {
      assert IsWord(target) by {
        assert target + ("?" + args) == word;
        PartIsWord(target, "?" + args);
      }
      ThreeWords(name, target, version);
      RequestLineReadsBack([name, target, version]);
    }
  }

  lemma PartIsWord(a: string, b: string)
    requires a != "" && IsWord(a + b)
    ensures IsWord(a)
  {
    assert forall c | c in a :: c in a + b;
  }

  // ---------------------------------------------------------------- objects

  class HttpRequest {
    var reqLine: string
    var reqHeader: seq<string>
    var reqText: string
    var reqMethod: string
    var uri: string
    var args: string
    var path: string
    var suffix: string
    var version: string
    var headerskv: Fields

    ghost predicate Valid()
      reads this
    {
      path != ""
    }

    ghost function Line(): RequestLine
      reads this
    {
      RequestLine(reqMethod, uri, args, path, suffix, version)
    }

    constructor ()
      ensures Valid() && Line() == FRESH && reqHeader == [] && reqText == "" && headerskv == map[]
    {
      reqLine, reqHeader, reqText, headerskv := "", [], "", map[];
      reqMethod, uri, args, path, suffix, version := "", "", "", WWWROOT, "", "";
    }

    /** The line, and what is left in the caller's string. */
    static method GetOneLine(reqstr: string) returns (line: string, rest: string)
      ensures (line, rest) == GetLine(reqstr)
    {
      if reqstr == "" {
        return "", reqstr;
      }
      var pos := Find(reqstr, CRLF, 0);
      if pos.None? {
        return "", reqstr;
      }
      line := reqstr[..pos.value];
      rest := reqstr[pos.value + |CRLF|..];
      line := if line == "" then CRLF else line;
    }

    method ParseReqLine() returns (ok: bool)
      requires Valid()
      modifies this`reqMethod, this`uri, this`args, this`path, this`suffix, this`version
      ensures Valid()
      ensures (Line(), ok) == ParseLine(reqLine, old(Line()))
    {
      hide Extract, IsGet, At;
      if reqLine == "" {
        return false;
      }
      var stream := reqLine;
      var (name, s1) := Extract(stream, reqMethod);
      reqMethod, stream := name, s1;
      var (word, s2) := Extract(stream, uri);
      uri, stream := word, s2;
      var (ver, s3) := Extract(stream, version);
      version, stream := ver, s3;
      assert Words(reqLine, old(Line())) == (reqMethod, uri, version);
      FindFits(uri, "?");
      if IsGet(reqMethod) {
        var pos := Find(uri, "?", 0);
        if pos.Some? {
          args := uri[pos.value + 1..];
          uri := uri[..pos.value];
        } else {
          args := "";
        }
      }
      assert (uri, args) == if IsGet(reqMethod) then SplitUri(word) else (word, old(args));
      path := path + uri;
      if path[|path| - 1] == '/' {
        path := path + HOMEPAGE;
      }
      assert path == Resource(old(path) + uri);
      var dot := RFind(path, ".", |path|);
      if dot.None? {
        return false;
      }
      suffix := path[dot.value..];
      return true;
    }

    method ParseReqHeader() returns (ok: bool)
      modifies this`headerskv
      ensures (headerskv, ok) == ReadFields(reqHeader, old(headerskv))
    {
      for i := 0 to |reqHeader|
        invariant ReadFields(reqHeader, old(headerskv)) == ReadFields(reqHeader[i..], headerskv)
      {
        var header := reqHeader[i];
        var pos := Find(header, HEADER_SEP, 0);
        if pos.None? {
          return false;
        }
        headerskv := headerskv[header[..pos.value] := header[pos.value + |HEADER_SEP|..]];
      }
      return true;
    }

    /** Reads one message from the caller's string, which keeps what is left. */
    method DeSerialize(reqstr: string) returns (ok: bool, rest: string)
      requires Valid()
      modifies this
      ensures Valid() && ok
      ensures var (first, head) := ReadMessage(reqstr);
              && reqLine == first && reqHeader == old(reqHeader) + head.lines && rest == head.rest
              && reqText == (if head.text.Some? then head.text.value else old(reqText))
              && Line() == ParseLine(first, old(Line())).0
              && headerskv == ReadFields(reqHeader, old(headerskv)).0
    {
      hide GetLine, ParseLine, ReadFields;
      reqLine, rest := GetOneLine(reqstr);
      ghost var after := rest;
      while true
        invariant Valid() && Line() == old(Line()) && headerskv == old(headerskv)
        invariant reqLine == GetLine(reqstr).0 && reqText == old(reqText)
        invariant reqHeader + ReadHead(rest).lines == old(reqHeader) + ReadHead(after).lines
        invariant ReadHead(rest).text == ReadHead(after).text && ReadHead(rest).rest == ReadHead(after).rest
        decreases |rest|
      {
        var line, left := GetOneLine(rest);
        rest := left;
        if line == "" {
          break;
        } else if line == CRLF {
          reqText := rest;
          break;
        } else {
          reqHeader := reqHeader + [line];
        }
      }
      var parsed := ParseReqLine();
      parsed := ParseReqHeader();
      return true, rest;
    }
  }

  class HttpResponse {
    var statusCode: int
    var desc: string
    var respHeader: seq<string>
    var respText: string
    var headerskv: Fields

    /** Header lines of an earlier Serialize only carry names that are still in the map. */
    ghost predicate Valid()
      reads this
    {
      forall h | h in respHeader :: Carries(h, headerskv)
    }

    constructor ()
      ensures Valid() && respHeader == [] && headerskv == map[] && respText == ""
    {
      statusCode, desc, respHeader, respText, headerskv := 0, "", [], "", map[];
    }

    method ADDHeader(k: string, v: string)
      requires Valid()
      modifies this`headerskv
      ensures Valid() && headerskv == old(headerskv)[k := v]
    {
      forall h | h in respHeader
        ensures Carries(h, headerskv[k := v])
      {
        CarriesStill(h, headerskv, k, v);
      }
      headerskv := headerskv[k := v];
    }

    /** The hash map is walked in some order, which `order` records; each name is visited once. A second
        call appends every header again, but what a reader makes of all the lines is still the map as it is
        now. */
    method Serialize() returns (out: string, ghost order: seq<string>)
      requires Valid()
      modifies this`respHeader
      ensures Valid()
      ensures |order| == |headerskv| && forall k :: k in order <==> k in headerskv
      ensures respHeader == old(respHeader) + Headers(order, headerskv)
      ensures out == Print(StatusLine(statusCode, desc), respHeader, respText)
      ensures CleanNames(headerskv) ==> ReadFields(respHeader, map[]) == (headerskv, true)
    {
      hide Field, ReadFields, CleanNames, ToString, Digits;
      order := [];
      assert Headers(order, headerskv) == [];
      var todo := headerskv.Keys;
      while todo != {}
        invariant todo <= headerskv.Keys && |order| + |todo| == |headerskv|
        invariant forall k :: k in order <==> k in headerskv && k !in todo
        invariant respHeader == old(respHeader) + Headers(order, headerskv)
        invariant Valid()
      {
        var k :| k in todo;
        todo := todo - {k};
        HeadersSnoc(order, headerskv, k);
        assert Carries(Header(k, headerskv[k]), headerskv);
        order := order + [k];
        respHeader := respHeader + [k + HEADER_SEP + headerskv[k]];
      }
      if CleanNames(headerskv) {
        StaleHeadersAreOverwritten(old(respHeader), order, headerskv);
      }
      out := VERSION + SPACE + ToString(statusCode) + SPACE + desc + CRLF;
      for i := 0 to |respHeader|
        modifies {}
        invariant out + Lines(respHeader[i..]) == StatusLine(statusCode, desc) + CRLF + Lines(respHeader)
      {
        LinesFrom(out, respHeader, i);
        out := out + (respHeader[i] + CRLF);
      }
      out := out + CRLF;
      out := out + respText;
    }
  }

  lemma LinesFrom(out: string, lines: seq<string>, i: nat)
    requires i < |lines|
    ensures out + Lines(lines[i..]) == out + (lines[i] + CRLF) + Lines(lines[i + 1..])
  {
    assert lines[i..][1..] == lines[i + 1..];
  }

  lemma {:induction false} HeadersSnoc(order: seq<string>, kv: Fields, k: string)
    requires k in kv && forall j | j in order :: j in kv
    ensures Headers(order + [k], kv) == Headers(order, kv) + [Header(k, kv[k])]
    decreases |order|
  {
    if order == [] {
      assert [k][1..] == [];
    } else {
      assert (order + [k])[1..] == order[1..] + [k];
      HeadersSnoc(order[1..], kv, k);
    }
  }
}
