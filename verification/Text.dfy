/** The part of std::string the servers use. One `char` of a `string` stands for one byte. */
module Text {
  datatype Option<+T> = None | Some(value: T)

  const CRLF: string := "\r\n"
  const SPACE: string := " "

  /** `pat` occurs in `s` at index `i`. */
  predicate At(s: string, pat: string, i: int) {
    0 <= i && i + |pat| <= |s| && s[i..i + |pat|] == pat
  }

  ghost predicate Absent(s: string, pat: string) {
    forall i :: !At(s, pat, i)
  }

  /** std::string::find: the lowest occurrence at or after `from`. */
  function Find(s: string, pat: string, from: nat): (r: Option<nat>)
    ensures r.Some? ==> from <= r.value && At(s, pat, r.value)
    ensures forall i | from <= i && (r.Some? ==> i < r.value) :: !At(s, pat, i)
    decreases |s| - from
  {
    if from + |pat| > |s| then None
    else if s[from..from + |pat|] == pat then Some(from)
    else Find(s, pat, from + 1)
  }

  lemma FindFits(s: string, pat: string)
    ensures var r := Find(s, pat, 0); r.Some? ==> r.value + |pat| <= |s|
  {}

  /** std::string::rfind: the highest occurrence strictly below `below`. */
  function RFind(s: string, pat: string, below: nat): (r: Option<nat>)
    ensures r.Some? ==> r.value < below && At(s, pat, r.value)
    ensures forall i | i < below && (r.Some? ==> r.value < i) :: !At(s, pat, i)
  {
    if below == 0 then None
    else if At(s, pat, below - 1) then Some(below - 1)
    else RFind(s, pat, below - 1)
  }

  lemma AtAppend(s: string, t: string, pat: string, i: int)
    requires i + |pat| <= |s|
    ensures At(s + t, pat, i) == At(s, pat, i)
  {
    if 0 <= i {
      assert (s + t)[i..i + |pat|] == s[i..i + |pat|];
    }
  }

  /** Bytes that arrive later do not move an occurrence that is already there. */
  lemma FindAppend(s: string, t: string, pat: string)
    requires Find(s, pat, 0).Some?
    ensures Find(s + t, pat, 0) == Find(s, pat, 0)
  {
    var k := Find(s, pat, 0).value;
    AtAppend(s, t, pat, k);
    forall i | 0 <= i < k
      ensures !At(s + t, pat, i)
    {
      AtAppend(s, t, pat, i);
    }
  }

  /** A line without CRLF ends exactly at the first CRLF written after it. */
  lemma FindLine(line: string, t: string)
    requires Absent(line, CRLF)
    ensures Find(line + CRLF + t, CRLF, 0) == Some(|line|)
  {
    var s := line + CRLF + t;
    assert s[|line|..|line| + 2] == CRLF;
    assert At(s, CRLF, |line|);
    forall i | 0 <= i < |line|
      ensures !At(s, CRLF, i)
    {
      if i + 2 <= |line| {
        assert s == line + (CRLF + t);
        AtAppend(line, CRLF + t, CRLF, i);
        assert !At(line, CRLF, i);
      } else {
        assert s[i..i + 2][1] == '\r' && CRLF[1] == '\n';
      }
    }
  }

  lemma NoBreakNoCRLF(s: string)
    requires '\n' !in s
    ensures Absent(s, CRLF)
  {
    forall i
      ensures !At(s, CRLF, i)
    {
      if 0 <= i && i + 2 <= |s| {
        assert s[i..i + 2][1] == s[i + 1] && s[i + 1] in s;
      }
    }
  }

  function Concat(parts: seq<string>): string {
    if parts == [] then "" else parts[0] + Concat(parts[1..])
  }

  lemma {:induction false} ConcatAppend(a: seq<string>, b: seq<string>)
    ensures Concat(a + b) == Concat(a) + Concat(b)
  {
    if a == [] {
      assert a + b == b;
    } else {
      assert (a + b)[1..] == a[1..] + b;
      ConcatAppend(a[1..], b);
    }
  }

  /** The text a C string holds: everything before the first NUL. */
  function CString(s: string): (r: string)
    ensures r <= s && '\0' !in r
    ensures |r| < |s| ==> s[|r|] == '\0'
  {
    if s == "" || s[0] == '\0' then "" else [s[0]] + CString(s[1..])
  }
}
