/** The calculator's expression tree, number texts and canonical printer (sample_projects/project_02/src/parser/ast.ts). */
module Expressions {
  import opened Decimals

  /** A number value, rounding left out. */
  datatype JsNumber = NaN | Infinite(negative: bool) | Finite(value: real)

  datatype Operator = Add | Sub | Mul | Div

  datatype Expression =
    | NumberLiteral(value: JsNumber)
    | BinaryExpression(operator: Operator, left: Expression, right: Expression)
    | UnaryExpression(operand: Expression)

  // ---------- number texts ----------

  /** Position of the first dot, or the length. */
  function FirstDot(s: string): (i: nat)
    ensures i <= |s| && (i < |s| ==> s[i] == '.')
    ensures forall j :: 0 <= j < i ==> s[j] != '.'
  {
    if s == "" || s[0] == '.' then 0 else 1 + FirstDot(s[1..])
  }

  function Pow10(k: nat): real {
    if k == 0 then 1.0 else 10.0 * Pow10(k - 1)
  }

  lemma {:induction false} Pow10Positive(k: nat)
    ensures Pow10(k) > 0.0
  {
    if k > 0 {
      Pow10Positive(k - 1);
    }
  }

  /** Value of a digits-and-dots text: digits, optionally one dot and more digits; else, and for a lone dot, NaN. */
  function NumberOf(s: string): JsNumber {
    var dot := FirstDot(s);
    var whole, fraction := s[..dot], if dot < |s| then s[dot + 1..] else "";
    if s != "." && AllDigits(whole) && AllDigits(fraction) then
      Pow10Positive(|fraction|);
      Finite(DigitsValue(whole) as real + DigitsValue(fraction) as real / Pow10(|fraction|))
    else NaN
  }

  lemma NumberOfDigits(s: string)
    requires s != "" && AllDigits(s)
    ensures NumberOf(s) == Finite(DigitsValue(s) as real)
  {
    assert DigitsValue("") == 0 && Pow10(0) == 1.0;
    hide DigitsValue, Pow10, FirstDot;
    assert IsDigit(s[0]);
    assert FirstDot(s) == |s|;
    assert s[..|s|] == s;
  }

  lemma NumberOfDecimal(n: nat)
    ensures NumberOf(Decimal(n)) == Finite(n as real)
  {
    hide NumberOf;
    DecimalReadsBack(n);
    NumberOfDigits(Decimal(n));
  }

  lemma DigitsAppend(s: string, c: char)
    requires AllDigits(s) && IsDigit(c)
    ensures AllDigits(s + [c]) && DigitsValue(s + [c]) == 10 * DigitsValue(s) + (c - '0') as nat
  {
    assert (s + [c])[..|s|] == s;
  }

  lemma NextDigit(x: real, y: real, d: real, p: real)
    ensures 10.0 * (x * p + y) + d == x * (10.0 * p) + (10.0 * y + d)
  {
  }

  /** `n` is `a` shifted left by `k` digits, plus `b`. */
  ghost predicate Shifted(n: nat, a: nat, k: nat, b: nat) {
    n as real == a as real * Pow10(k) + b as real
  }

  lemma ShiftMore(n: nat, a: nat, k: nat, b: nat, d: nat)
    requires Shifted(n, a, k, b)
    ensures Shifted(10 * n + d, a, k + 1, 10 * b + d)
  {
    var p, q := Pow10(k), Pow10(k + 1);
    assert q == 10.0 * p;
    hide Pow10;
    NextDigit(a as real, b as real, d as real, p);
  }

  lemma {:induction false} DigitsConcat(a: string, b: string)
    requires AllDigits(a) && AllDigits(b)
    ensures AllDigits(a + b) && Shifted(DigitsValue(a + b), DigitsValue(a), |b|, DigitsValue(b))
  {
    if b == "" {
      assert a + b == a;
    } else {
      var rest, c := b[..|b| - 1], b[|b| - 1];
      hide DigitsValue, Shifted;
      DigitsConcat(a, rest);
      DigitsAppend(rest, c);
      DigitsAppend(a + rest, c);
      assert b == rest + [c] && a + b == (a + rest) + [c];
      ShiftMore(DigitsValue(a + rest), DigitsValue(a), |rest|, DigitsValue(rest), (c - '0') as nat);
    }
  }

  lemma NumberOfParts(whole: string, fraction: string)
    requires AllDigits(whole) && AllDigits(fraction) && whole + fraction != "" && Pow10(|fraction|) > 0.0
    ensures NumberOf(whole + "." + fraction) == Finite(DigitsValue(whole) as real + DigitsValue(fraction) as real / Pow10(|fraction|))
  {
    hide DigitsValue, Pow10, FirstDot;
    var s := whole + "." + fraction;
    FirstDotIs(whole, fraction);
    assert s[..|whole|] == whole && s[|whole| + 1..] == fraction;
    assert |s| == |whole| + |fraction| + 1;
  }

  /** Moving the point past the fraction gives the number that all the digits spell. */
  lemma NumberOfFraction(whole: string, fraction: string)
    requires AllDigits(whole) && AllDigits(fraction) && whole + fraction != ""
    ensures AllDigits(whole + fraction)
    ensures var n := NumberOf(whole + "." + fraction);
            n.Finite? && n.value * Pow10(|fraction|) == DigitsValue(whole + fraction) as real
  {
    hide NumberOf, DigitsValue, Pow10;
    Pow10Positive(|fraction|);
    NumberOfParts(whole, fraction);
    DigitsConcat(whole, fraction);
    PointMoved(DigitsValue(whole) as real, DigitsValue(fraction) as real, Pow10(|fraction|));
  }

  lemma PointMoved(w: real, f: real, p: real)
    requires p > 0.0
    ensures (w + f / p) * p == w * p + f
  {
    assert (f / p) * p == f;
  }

  lemma FirstDotIs(whole: string, fraction: string)
    requires AllDigits(whole)
    ensures FirstDot(whole + "." + fraction) == |whole|
  {
    var s := whole + "." + fraction;
    assert s[|whole|] == '.';
    assert forall i :: 0 <= i < |whole| ==> s[i] == whole[i];
  }

  /** A text is a number when it is digits, or digits with one point and at least one digit beside it. */
  lemma NumberOfFiniteIff(s: string)
    ensures NumberOf(s).Finite? <==>
            AllDigits(s) || exists whole, fraction :: PointIn(s, whole, fraction)
  {
    var dot := FirstDot(s);
    if dot < |s| {
      if AllDigits(s[..dot]) && AllDigits(s[dot + 1..]) && s != "." {
        assert s == s[..dot] + "." + s[dot + 1..];
        assert PointIn(s, s[..dot], s[dot + 1..]);
      }
      assert !IsDigit(s[dot]);
    } else {
      assert s[..dot] == s;
      assert s != ".";
    }
    if whole, fraction :| PointIn(s, whole, fraction) {
      FirstDotIs(whole, fraction);
      assert s[..dot] == whole && s[dot + 1..] == fraction;
      assert |s| == |whole| + |fraction| + 1;
    }
    hide DigitsValue, Pow10;
  }

  ghost predicate PointIn(s: string, whole: string, fraction: string) {
    s == whole + "." + fraction && AllDigits(whole) && AllDigits(fraction) && whole + fraction != ""
  }

  // ---------- the printer ----------

  /** Every literal is a non-negative integer. */
  predicate Printable(e: Expression) {
    match e
    case NumberLiteral(v) => v.Finite? && v.value >= 0.0 && v.value.Floor as real == v.value
    case BinaryExpression(_, l, r) => Printable(l) && Printable(r)
    case UnaryExpression(o) => Printable(o)
  }

  function OperatorChar(op: Operator): char {
    match op
    case Add => '+'
    case Sub => '-'
    case Mul => '*'
    case Div => '/'
  }

  function Parenthesised(left: string, c: char, right: string): string {
    "(" + left + " " + [c] + " " + right + ")"
  }

  /** The canonical, fully parenthesised text. */
  function Describe(e: Expression): string
    requires Printable(e)
  {
    match e
    case NumberLiteral(Finite(v)) => Decimal(v.Floor)
    case BinaryExpression(op, l, r) => Parenthesised(Describe(l), OperatorChar(op), Describe(r))
    case UnaryExpression(o) => "-" + Describe(o)
  }
}
