/** Printing helpers of utils/print_.py: a fraction as an integer, a
    terminating decimal or "n/d"; a coefficient in front of a term; and one
    side of a range given by an inequality. */
module Printing {
  import opened Outcome
  import opened Arith
  import opened Exact
  import opened Digits
  import ComplexNumber
  import Comparisons
  import Intervals

  /** d with every factor p divided out. */
  function Strip(d: int, p: int): (r: int)
    requires d >= 1 && p >= 2
    ensures r >= 1 && r % p != 0
    decreases d
  {
    if d % p == 0 then Strip(d / p, p) else d
  }

  /** What `print_frac` returns for numerator n and denominator d, with
      `decimal` the text Python gives the float n / d. */
  function FracText(n: int, d: int, decimal: string): string
    requires d >= 1
  {
    if d == 1 then IntToString(n)
    else if Strip(Strip(d, 2), 5) == 1 && 'e' !in decimal then decimal
    else IntToString(n) + "/" + IntToString(d)
  }

  /** `print_frac`: the denominator is divided by 2, then by 5, as long as
      it goes; a denominator left at 1 means the fraction is a terminating
      decimal, printed as such unless Python writes it with an exponent. */
  method PrintFrac(numerator: int, denominator: int, decimal: string) returns (s: string)
    requires denominator >= 1
    ensures s == FracText(numerator, denominator, decimal)
  {
    if denominator == 1 {
      return IntToString(numerator);
    }
    var d := denominator;
    while d % 2 == 0
      invariant d >= 1 && Strip(d, 2) == Strip(denominator, 2)
      decreases d
    {
      d := d / 2;
    }
    while d % 5 == 0
      invariant d >= 1 && Strip(d, 5) == Strip(Strip(denominator, 2), 5)
      decreases d
    {
      d := d / 5;
    }
    if d == 1 && 'e' !in decimal {
      return decimal;
    }
    return IntToString(numerator) + "/" + IntToString(denominator);
  }

  /** Stripping p leaves d divided by a power of p. */
  lemma {:induction false} StripFactor(d: int, p: int) returns (a: nat)
    requires d >= 1 && p >= 2
    ensures d == Pow(p, a) * Strip(d, p)
    decreases d
  {
    if d % p == 0 {
      var q := ExactQuotient(d, p);
      var b := StripFactor(q, p);
      a := b + 1;
      var w, s := Pow(p, b), Strip(q, p);
      assert Pow(p, a) == p * w && Strip(d, p) == s;
      Assoc(p, w, s);
    } else {
      a := 0;
    }
  }

  /** A multiple of p is p times a positive quotient. */
  lemma ExactQuotient(d: int, p: int) returns (q: int)
    requires d >= 1 && p >= 2 && d % p == 0
    ensures q == d / p && d == p * q && 1 <= q < d
  {
    q := d / p;
    assert d == p * q;
    MulAtLeast(q, p);
    assert q * p == q + (p - 1) * q;
  }

  lemma Assoc(x: int, y: int, z: int)
    ensures (x * y) * z == x * (y * z)
  {
  }

  /** Stripping p from a power of p times k, where p does not divide k,
      leaves k. */
  lemma {:induction false} StripPower(p: int, a: nat, k: int)
    requires p >= 2 && k >= 1 && k % p != 0
    ensures Pow(p, a) * k >= 1 && Strip(Pow(p, a) * k, p) == k
  {
    if a > 0 {
      StripPower(p, a - 1, k);
      var w := Pow(p, a - 1);
      var m := w * k;
      assert Pow(p, a) == p * w;
      Assoc(p, w, k);
      StripMultiple(p, m);
    }
  }

  /** Stripping p from p * m is stripping it from m. */
  lemma StripMultiple(p: int, m: int)
    requires p >= 2 && m >= 1
    ensures p * m >= 1 && Strip(p * m, p) == Strip(m, p)
  {
    MulAtLeast(m, p);
    MultipleMod(p, m);
    DivModUnique(p * m, p, m, 0);
  }

  /** Multiplying by 5 keeps a number odd. */
  lemma {:induction false} OddPower5(b: nat, m: int)
    requires m % 2 != 0
    ensures (Pow(5, b) * m) % 2 != 0
  {
    if b > 0 {
      OddPower5(b - 1, m);
      var w := Pow(5, b - 1);
      var x := w * m;
      assert Pow(5, b) == 5 * w;
      Assoc(5, w, m);
      DivModUnique(5 * x, 2, 2 * x + x / 2, x % 2);
    }
  }

  /** The loops leave 1 exactly when the denominator is 2^a * 5^b. */
  lemma StripsToOne(d: int)
    requires d >= 1
    ensures Strip(Strip(d, 2), 5) == 1 ==> exists a: nat, b: nat :: d == Pow(2, a) * Pow(5, b)
    ensures (exists a: nat, b: nat :: d == Pow(2, a) * Pow(5, b)) ==> Strip(Strip(d, 2), 5) == 1
  {
    if Strip(Strip(d, 2), 5) == 1 {
      var a := StripFactor(d, 2);
      var b := StripFactor(Strip(d, 2), 5);
      assert d == Pow(2, a) * Pow(5, b);
    }
    if exists a: nat, b: nat :: d == Pow(2, a) * Pow(5, b) {
      var a: nat, b: nat :| d == Pow(2, a) * Pow(5, b);
      OtherFactorRemains(a, b, 1);
    }
  }

  /** Whatever of the denominator is prime to 10 is what the loops leave. */
  lemma OtherFactorRemains(a: nat, b: nat, m: int)
    requires m >= 1 && m % 2 != 0 && m % 5 != 0
    ensures Pow(2, a) * Pow(5, b) * m >= 1
    ensures Strip(Strip(Pow(2, a) * Pow(5, b) * m, 2), 5) == m
  {
    hide Strip, Pow;
    OddPower5(b, m);
    StripPower(5, b, m);
    var x, y := Pow(5, b) * m, Pow(2, a);
    StripPower(2, a, x);
    Assoc(y, Pow(5, b), m);
  }

  /** A denominator with a factor other than 2 and 5 prints as "n/d". */
  lemma NonTerminating(n: int, a: nat, b: nat, m: int, decimal: string)
    requires m > 1 && m % 2 != 0 && m % 5 != 0
    ensures Pow(2, a) * Pow(5, b) * m >= 1
    ensures var d := Pow(2, a) * Pow(5, b) * m;
      FracText(n, d, decimal) == IntToString(n) + "/" + IntToString(d)
  {
    OtherFactorRemains(a, b, m);
  }

  /** A denominator of 1 prints as the numerator alone; 2^a * 5^b other
      than 1 prints as the decimal, unless that has an exponent. */
  lemma Terminating(n: int, a: nat, b: nat, decimal: string)
    ensures Pow(2, a) * Pow(5, b) >= 1
    ensures var d := Pow(2, a) * Pow(5, b);
      FracText(n, d, decimal) == if d == 1 then IntToString(n) else if 'e' in decimal then IntToString(n) + "/" + IntToString(d) else decimal
  {
    OtherFactorRemains(a, b, 1);
  }

  /** The number 1 and the number -1, as `coef == 1` and `coef == -1` see them. */
  predicate IsOne(coef: ComplexNumber.Number)
    requires ComplexNumber.Valid(coef)
  {
    Value(coef.realPart) == 1.0 && Value(coef.imagPart) == 0.0
  }

  predicate IsMinusOne(coef: ComplexNumber.Number)
    requires ComplexNumber.Valid(coef)
  {
    Value(coef.realPart) == -1.0 && Value(coef.imagPart) == 0.0
  }

  /** `print_coef`, with `shown` the text `str(coef)` gives: nothing for 1,
      "-" for -1, otherwise the number, in parentheses when its real part
      is 0. */
  function PrintCoef(coef: ComplexNumber.Number, shown: string): (r: string)
    requires ComplexNumber.Valid(coef) && shown != ""
    ensures r == "" <==> IsOne(coef)
    ensures IsMinusOne(coef) ==> r == "-"
    ensures !IsOne(coef) && !IsMinusOne(coef) && Value(coef.realPart) == 0.0 ==> r == "(" + shown + ")"
    ensures !IsOne(coef) && !IsMinusOne(coef) && Value(coef.realPart) != 0.0 ==> r == shown
  {
    var one := ComplexNumber.Number(One, Zero);
    var minusOne := ComplexNumber.Number(FromInt(-1), Zero);
    ComplexNumber.EqMeansSameParts(coef, one);
    ComplexNumber.EqMeansSameParts(coef, minusOne);
    var res :=
      if !ComplexNumber.Eq(coef, ComplexNumber.AsOperand(one)) then
        (if !Exact.Truthy(coef.realPart) then "(" + shown + ")" else shown)
      else "";
    if ComplexNumber.Eq(coef, ComplexNumber.AsOperand(minusOne)) then "-" else res
  }

  /** `ineq_to_range`: a relation whose name starts with G opens the range at
      the right side, otherwise the range closes there; a name ending in E
      makes that bracket closed. */
  function IneqToRange(rel: Comparisons.CompRel, right: string): (r: string)
    ensures rel.GT? || rel.GE? ==> r == (if rel.GE? then "[" else "(") + right
    ensures !(rel.GT? || rel.GE?) ==> r == right + (if rel.LE? || rel.NE? then "]" else ")")
  {
    var name := Comparisons.Name(rel);
    if name[0] == 'G' then
      (if name[1] == 'E' then "[" else "(") + right
    else
      right + (if name[1] == 'E' then "]" else ")")
  }

  /** The solutions of x `rel` c for an order relation, as an interval. */
  function RayOf(rel: Comparisons.CompRel, c: Const): Intervals.Interval {
    if rel.GT? || rel.GE? then Intervals.Interval(Some(c), None, rel.GT?, true)
    else Intervals.Interval(None, Some(c), true, rel.LT?)
  }

  /** The text of an inequality x `rel` c is the finite side of the interval
      of its solutions, as that interval prints it, and a point is in that
      interval exactly when it satisfies the inequality. */
  lemma RangeOfInequality(rel: Comparisons.CompRel, c: Const, x: real)
    requires Exact.Valid(c) && (rel.LT? || rel.GT? || rel.LE? || rel.GE?)
    ensures Intervals.ValidInterval(RayOf(rel, c))
    ensures rel.GT? || rel.GE? ==> IneqToRange(rel, Exact.Repr(c)) == Intervals.StartText(RayOf(rel, c))
    ensures rel.LT? || rel.LE? ==> IneqToRange(rel, Exact.Repr(c)) == Intervals.EndText(RayOf(rel, c))
    ensures Intervals.Contains(RayOf(rel, c), x) <==> Comparisons.Holds(rel, x, Value(c))
  {
  }
}
