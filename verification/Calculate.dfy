/** The calculator behind both servers. */
module Calculate {
  import opened Text
  import opened Decimal
  import opened Protocol

  /** C++ integer division: rounds toward zero. */
  function TruncDiv(x: int, y: int): int
    requires y != 0
  {
    var size := Abs(x) / Abs(y);
    if (x < 0) == (y < 0) then size else -size
  }

  /** C++ remainder: takes the sign of the dividend. */
  function TruncMod(x: int, y: int): int
    requires y != 0
  {
    if x < 0 then -(Abs(x) % Abs(y)) else x % Abs(y)
  }

  function Abs(x: int): nat { if x < 0 then -x else x }

  /** The two operators are the C++ ones: they fit together, and the remainder has the dividend's sign. */
  lemma TruncatingDivision(x: int, y: int)
    requires y != 0
    ensures x == y * TruncDiv(x, y) + TruncMod(x, y)
    ensures Abs(TruncMod(x, y)) < Abs(y)
    ensures TruncMod(x, y) == 0 || (TruncMod(x, y) < 0 <==> x < 0)
  {
    var a: int, b: int := Abs(x), Abs(y);
    assert a == b * (a / b) + a % b;
    assert y * (-(a / b)) == -(y * (a / b));
  }

  // the three texts in Chinese, byte for byte (UTF-8)
  const BAD_OPERATOR: string :=
    "\U{e6}\U{93}\U{8d}\U{e4}\U{bd}\U{9c}\U{e7}\U{ac}\U{a6}\U{e4}\U{b8}\U{8d}\U{e7}\U{ac}\U{a6}\U{e5}\U{90}\U{88}\U{e8}\U{a6}\U{81}\U{e6}\U{b1}\U{82}"
  const DIVISION_BY_ZERO: string := "\U{e9}\U{99}\U{a4}0\U{e9}\U{94}\U{99}\U{e8}\U{af}\U{af}"
  const MODULO_BY_ZERO: string := "\U{e6}\U{a8}\U{a1}0\U{e9}\U{94}\U{99}\U{e8}\U{af}\U{af}"

  /** Arithmetic on `int`: a result outside its range has no defined behaviour, here `None`. */
  function Computed(r: Request, result: int): Option<Response> {
    if InInt32(result) then
      Some(Response(result, 0, ToString(r.x) + " " + [r.oper] + " " + ToString(r.y) + " = " + ToString(result)))
    else None
  }

  function Execute(r: Request): Option<Response> {
    match r.oper
    case '+' => Computed(r, r.x + r.y)
    case '-' => Computed(r, r.x - r.y)
    case '*' => Computed(r, r.x * r.y)
    case '/' =>
      if r.y == 0 then Some(Response(0, 1, DIVISION_BY_ZERO))
      else Computed(r, TruncDiv(r.x, r.y))
    case '%' =>
      if r.y == 0 then Some(Response(0, 2, MODULO_BY_ZERO))
      // the quotient overflows exactly for INT_MIN and -1, and then % is undefined as well
      else if InInt32(TruncDiv(r.x, r.y)) then Computed(r, TruncMod(r.x, r.y))
      else None
    case _ => Some(Response(0, 3, BAD_OPERATOR))
  }

  /** Execute is defined exactly when the mathematical result fits in an int; the flag says which case it was. */
  lemma ExecuteCases(r: Request)
    ensures Execute(r).None? <==>
            || (r.oper == '+' && !InInt32(r.x + r.y))
            || (r.oper == '-' && !InInt32(r.x - r.y))
            || (r.oper == '*' && !InInt32(r.x * r.y))
            || (r.oper in "/%" && r.x == INT_MIN && r.y == -1)
    ensures Execute(r).Some? ==>
            var v := Execute(r).value;
            && (v.flag == 3 <==> r.oper !in "+-*/%")
            && (v.flag == 1 <==> r.oper == '/' && r.y == 0)
            && (v.flag == 2 <==> r.oper == '%' && r.y == 0)
            && (v.flag == 0 <==> r.oper in "+-*/%" && !(r.oper in "/%" && r.y == 0))
  {
    if r.oper in "/%" && r.y != 0 {
      QuotientRange(r.x, r.y);
    }
  }

  lemma SmallerQuotient(a: nat, b: nat)
    requires b >= 2
    ensures 2 * (a / b) <= a
  {
    assert a == b * (a / b) + a % b;
    assert (b - 2) * (a / b) >= 0;
  }

  lemma QuotientRange(x: int32, y: int32)
    requires y != 0
    ensures InInt32(TruncDiv(x, y)) <==> !(x == INT_MIN && y == -1)
    ensures InInt32(TruncMod(x, y))
  {
    assert InInt32(x) && InInt32(y);
    assert Abs(x) % Abs(y) < Abs(y) <= -INT_MIN;
    if Abs(y) >= 2 {
      SmallerQuotient(Abs(x), Abs(y));
    } else {
      assert Abs(y) == 1;
      assert Abs(x) / Abs(y) == Abs(x);
    }
  }

  /** What a result means, without naming the operators that computed it: the equation repeats the
      request as it was serialized, followed by the result. */
  lemma ExecuteMeaning(r: Request)
    requires Execute(r).Some?
    ensures var v := Execute(r).value;
            && (v.flag != 0 ==> v.result == 0)
            && (v.flag == 1 ==> v.equation == DIVISION_BY_ZERO)
            && (v.flag == 2 ==> v.equation == MODULO_BY_ZERO)
            && (v.flag == 3 ==> v.equation == BAD_OPERATOR)
            && 0 <= v.flag <= 3
            && (v.flag == 0 ==> v.equation == SerializeRequest(r) + " = " + ToString(v.result))
            && (v.flag == 0 && r.oper == '+' ==> v.result - r.y == r.x)
            && (v.flag == 0 && r.oper == '-' ==> v.result + r.y == r.x)
            && (v.flag == 0 && r.oper == '*' ==> v.result == r.x * r.y)
            && (v.flag == 0 && r.oper == '/' ==> Remainder(r.x, r.y, r.x - r.y * v.result))
            && (v.flag == 0 && r.oper == '%' ==>
                  Remainder(r.x, r.y, v.result) && exists q: int :: r.x == r.y * q + v.result)
  {
    if r.oper in "/%" && r.y != 0 {
      TruncatingDivision(r.x, r.y);
    }
    if Execute(r).value.flag == 0 {
      EquationRepeats(r, Execute(r).value.result);
    }
  }

  /** Smaller than the divisor, and on the dividend's side of zero. */
  predicate Remainder(x: int, y: int, m: int) {
    Abs(m) < Abs(y) && (m == 0 || (m < 0 <==> x < 0))
  }

  lemma EquationRepeats(r: Request, result: int)
    requires InInt32(result)
    ensures Computed(r, result).value.equation == SerializeRequest(r) + " = " + ToString(result)
  {}

  /** Everything Execute answers survives the response codec. */
  lemma ExecuteMeetsCodec(r: Request)
    requires Execute(r).Some?
    ensures DeSerializeResponse(SerializeResponse(Execute(r).value)) == Accepted(Execute(r).value)
    ensures SerializeResponse(Execute(r).value) != ""
  {
    var v := Execute(r).value;
    ExecuteCases(r);
    ResponseRoundTrip(v);
    NumeralBytes(v.result);
  }
}
