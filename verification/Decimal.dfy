/** std::to_string on int, and std::stoi. */
module Decimal {
  import opened Text

  const INT_MAX: int := 0x7fff_ffff
  const INT_MIN: int := -0x8000_0000

  predicate InInt32(n: int) { INT_MIN <= n <= INT_MAX }

  type int32 = n: int | InInt32(n)

  /** Conversion of an integer to `int`: modulo 2^32 into the signed range. */
  function Wrap32(n: int): (r: int32)
    ensures InInt32(n) ==> r == n
    ensures (r - n) % 0x1_0000_0000 == 0
  {
    var m := n % 0x1_0000_0000;
    if m <= INT_MAX then m else m - 0x1_0000_0000
  }

  predicate IsDigit(c: char) { '0' <= c <= '9' }

  predicate AllDigits(s: string) { forall i | 0 <= i < |s| :: IsDigit(s[i]) }

  predicate IsSpace(c: char) { c == ' ' || '\t' <= c <= '\r' }

  function Digits(n: nat): (s: string)
    ensures s != "" && AllDigits(s)
    ensures |s| == 1 <==> n < 10
  {
    if n < 10 then [(48 + n) as char] else Digits(n / 10) + [(48 + n % 10) as char]
  }

  function ToString(n: int): string {
    if n < 0 then "-" + Digits(-n) else Digits(n)
  }

  function Value(s: string): nat
    requires AllDigits(s)
  {
    if s == "" then 0 else 10 * Value(s[..|s| - 1]) + (s[|s| - 1] as int - 48)
  }

  function SkipSpace(s: string): string {
    if s != "" && IsSpace(s[0]) then SkipSpace(s[1..]) else s
  }

  function LeadingDigits(s: string): (r: string)
    ensures AllDigits(r) && r <= s
  {
    if s != "" && IsDigit(s[0]) then [s[0]] + LeadingDigits(s[1..]) else ""
  }

  /** The sign and the digits std::stoi reads: leading white space, an optional sign, digits, anything after them. */
  function Scan(s: string): (r: (bool, string))
    ensures AllDigits(r.1)
  {
    var t := SkipSpace(s);
    if t != "" && (t[0] == '-' || t[0] == '+') then (t[0] == '-', LeadingDigits(t[1..]))
    else (false, LeadingDigits(t))
  }

  function Signed(negative: bool, size: nat): int {
    if negative then 0 - size else size
  }

  /** std::stoi in base 10. `None` stands for its two exceptions, invalid_argument and out_of_range. */
  function Stoi(s: string): Option<int32> {
    var (negative, digits) := Scan(s);
    var v := Signed(negative, Value(digits));
    if digits == "" || !InInt32(v) then None else Some(v)
  }

  lemma {:induction false} ValueOfDigits(n: nat)
    ensures Value(Digits(n)) == n
  {
    if n >= 10 {
      ValueOfDigits(n / 10);
      assert Digits(n)[..|Digits(n)| - 1] == Digits(n / 10);
    }
  }

  lemma {:induction false} AllLeading(s: string)
    requires AllDigits(s)
    ensures LeadingDigits(s) == s
  {
    if s != "" {
      AllLeading(s[1..]);
      assert s == [s[0]] + s[1..];
    }
  }

  lemma ScanNumeral(d: string)
    requires d != "" && AllDigits(d)
    ensures Scan(d) == (false, d) && Scan("-" + d) == (true, d)
  {
    AllLeading(d);
    assert IsDigit(d[0]);
    assert ("-" + d)[1..] == d;
  }

  /** Parsing undoes printing, for every int. */
  lemma StoiToString(n: int32)
    ensures Stoi(ToString(n)) == Some(n)
  {
    var v: int := n;
    var size: nat := if v < 0 then 0 - v else v;
    ValueOfDigits(size);
    ScanNumeral(Digits(size));
    assert Signed(v < 0, size) == v;
  }

  /** A printed number holds neither a blank nor a line break. */
  lemma NumeralBytes(n: int)
    ensures ToString(n) != ""
    ensures ' ' !in ToString(n) && '\n' !in ToString(n) && '\r' !in ToString(n)
    ensures |ToString(n)| == 1 <==> 0 <= n < 10
  {
    var d := Digits(if n < 0 then -n else n);
    assert forall c | c in d :: IsDigit(c);
  }

  // -------------------------------------------------------- decimal numerals

  /** Decimal digits, and no zero in front of others. */
  predicate IsNumeral(d: string) {
    d == "0" || (d != "" && d[0] != '0' && forall i | 0 <= i < |d| :: '0' <= d[i] <= '9')
  }

  /** A numeral, or that of a positive number after a minus sign. */
  predicate IsDecimal(s: string) {
    if s != "" && s[0] == '-' then IsNumeral(s[1..]) && s[1..] != "0" else IsNumeral(s)
  }

  /** The number it is read as. */
  function DecimalValue(s: string): int
    requires IsDecimal(s)
  {
    if s[0] == '-' then 0 - Value(s[1..]) else Value(s)
  }

  lemma {:induction false} FirstDigit(n: nat)
    ensures Digits(n)[0] == '0' <==> n == 0
  {
    if n >= 10 {
      FirstDigit(n / 10);
    }
  }

  lemma {:induction false} DigitsOfValue(d: string)
    requires d != "" && AllDigits(d) && (d[0] == '0' ==> |d| == 1)
    ensures Digits(Value(d)) == d && (Value(d) == 0 <==> d == "0")
  {
    var front, last := d[..|d| - 1], d[|d| - 1];
    assert d == front + [last] && last == (48 + (last as int - 48)) as char;
    if front == "" {
      assert Value(front) == 0;
    } else {
      assert front[0] == d[0];
      DigitsOfValue(front);
      assert Value(d) / 10 == Value(front) && Value(d) % 10 == last as int - 48;
    }
  }

  lemma NumeralStart(d: string)
    requires IsNumeral(d)
    ensures d != "" && d[0] != '-' && AllDigits(d) && (Value(d) == 0 <==> d == "0")
  {
    DigitsOfValue(d);
  }

  lemma DigitsExactly(n: nat, d: string)
    ensures d == Digits(n) <==> IsNumeral(d) && Value(d) == n
  {
    FirstDigit(n);
    ValueOfDigits(n);
    assert forall c | c in Digits(n) :: IsDigit(c);
    if IsNumeral(d) {
      DigitsOfValue(d);
    }
  }

  /** std::to_string prints a number as the one numeral that has its value. */
  lemma ToStringExactly(n: int, s: string)
    ensures s == ToString(n) <==> IsDecimal(s) && DecimalValue(s) == n
  {
    hide Digits, Value, IsNumeral;
    var size := if n < 0 then -n else n;
    DigitsExactly(size, Digits(size));
    NumeralStart(Digits(size));
    assert ("-" + Digits(size))[1..] == Digits(size);
    if IsDecimal(s) && DecimalValue(s) == n {
      var d := if s != "" && s[0] == '-' then s[1..] else s;
      NumeralStart(d);
      DigitsExactly(size, d);
      assert s != d ==> s == "-" + d;
    }
  }

  lemma PrintedNumbers()
    ensures ToString(0) == "0" && ToString(-7) == "-7" && ToString(10) == "10" && ToString(-120) == "-120"
  {
    assert Digits(12) == "12";
  }
}
