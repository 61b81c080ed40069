/** The coefficient-list algorithms of utils/polynomial.py. A polynomial is a
    list of Const coefficients from the highest power down; its meaning is
    the list of their values, a PolyAlgebra polynomial. */
module Polynomials {
  import opened Outcome
  import opened Exact
  import opened PolyAlgebra
  import opened Arith

  type Poly = seq<Const>

  predicate ValidPoly(p: Poly) {
    forall i :: 0 <= i < |p| ==> Valid(p[i])
  }

  /** The real coefficients a list of Consts stands for. */
  function Values(p: Poly): (v: seq<real>)
    requires ValidPoly(p)
    ensures |v| == |p| && forall i :: 0 <= i < |p| ==> v[i] == Value(p[i])
  {
    seq(|p|, i requires 0 <= i < |p| => Value(p[i]))
  }

  lemma ValuesPrefix(p: Poly, n: nat)
    requires ValidPoly(p) && n <= |p|
    ensures ValidPoly(p[..n]) && Values(p[..n]) == Values(p)[..n]
  {
  }

  lemma ValuesUpdate(p: Poly, i: nat, c: Const)
    requires ValidPoly(p) && i < |p| && Valid(c)
    ensures ValidPoly(p[i := c]) && Values(p[i := c]) == Values(p)[i := Value(c)]
  {
  }

  // -------------------------------------------------------- synthetic_divide

  /** `accumulate(coeffs, lambda acc, x: acc * r + x)`: the first coefficient,
      then each running value times r plus the next coefficient. */
  function Accumulate(coeffs: Poly, r: Const): (acc: Poly)
    requires ValidPoly(coeffs) && Valid(r)
    ensures |acc| == |coeffs| && ValidPoly(acc)
    decreases |coeffs|
  {
    if |coeffs| <= 1 then coeffs
    else
      var p := Accumulate(coeffs[..|coeffs| - 1], r);
      p + [Add(Mul(p[|p| - 1], r), coeffs[|coeffs| - 1])]
  }

  /** `synthetic_divide`: division by (x - r). The last running value is the
      remainder; an empty list has none and raises IndexError. */
  function SyntheticDivide(coeffs: Poly, r: Const): (res: Result<(Poly, Const)>)
    requires ValidPoly(coeffs) && Valid(r)
    ensures res.Ok? <==> |coeffs| > 0
    ensures res.Err? ==> res.error == IndexError
    ensures res.Ok? ==> |res.value.0| == |coeffs| - 1 && ValidPoly(res.value.0) && Valid(res.value.1)
  {
    if |coeffs| == 0 then Err(IndexError)
    else
      var acc := Accumulate(coeffs, r);
      Ok((acc[..|acc| - 1], acc[|acc| - 1]))
  }

  lemma FactorStep(e': real, q: real, l: real, x: real, r: real, v: real, ea: real)
    requires e' == (x - r) * q + l && ea == q * x + l
    ensures e' * x + v == (x - r) * ea + (l * r + v)
  {
    assert (x - r) * ea == (x - r) * q * x + (x - r) * l;
  }

  /** How the result for coeffs extends the result for coeffs without its
      constant term. */
  lemma SyntheticStep(coeffs: Poly, r: Const)
    requires ValidPoly(coeffs) && Valid(r) && |coeffs| >= 2
    ensures ValidPoly(coeffs[..|coeffs| - 1])
    ensures var n := |coeffs|;
      var (q, rem) := SyntheticDivide(coeffs, r).value;
      var (q', rem') := SyntheticDivide(coeffs[..n - 1], r).value;
      q' == q[..n - 2] && rem' == q[n - 2] && rem == Add(Mul(rem', r), coeffs[n - 1])
  {
    var n := |coeffs|;
    var p := Accumulate(coeffs[..n - 1], r);
    assert Accumulate(coeffs, r)[..n - 1] == p;
  }

  lemma SyntheticOne(coeffs: Poly, r: Const)
    requires ValidPoly(coeffs) && Valid(r) && |coeffs| == 1
    ensures SyntheticDivide(coeffs, r).value == ([], coeffs[0])
  {
  }

  lemma EvalValues(p: Poly, x: real)
    requires ValidPoly(p) && |p| > 0
    ensures ValidPoly(p[..|p| - 1])
    ensures Eval(Values(p), x) == Eval(Values(p[..|p| - 1]), x) * x + Value(p[|p| - 1])
  {
    assert Values(p)[..|p| - 1] == Values(p[..|p| - 1]);
  }

  lemma EvalEmpty(p: Poly, x: real)
    requires |p| == 0
    ensures ValidPoly(p) && Eval(Values(p), x) == 0.0
  {
  }

  lemma HornerValue(l: Const, r: Const, c: Const)
    requires Valid(l) && Valid(r) && Valid(c)
    ensures Value(Add(Mul(l, r), c)) == Value(l) * Value(r) + Value(c)
  {
    MulValue(l, r);
    AddValue(Mul(l, r), c);
  }

  lemma PolyEntry(p: Poly, i: int)
    requires ValidPoly(p) && 0 <= i < |p|
    ensures Valid(p[i]) && p[i].denominator > 0
  {
  }

  lemma PolyDenominators(p: Poly)
    requires ValidPoly(p)
    ensures forall i :: 0 <= i < |p| ==> p[i].denominator > 0
  {
  }

  lemma PositiveDenominator(c: Const)
    requires Valid(c)
    ensures c.denominator > 0
  {
  }

  /** The division identity behind synthetic division: at every x,
      coeffs(x) == (x - r) · quotient(x) + remainder. */
  lemma {:induction false} FactorTheorem(coeffs: Poly, r: Const, x: real)
    requires ValidPoly(coeffs) && Valid(r) && |coeffs| > 0
    ensures var (q, rem) := SyntheticDivide(coeffs, r).value;
      Eval(Values(coeffs), x) == (x - Value(r)) * Eval(Values(q), x) + Value(rem)
    decreases |coeffs|
  {
    hide *;
    var n := |coeffs|;
    var (q, rem) := SyntheticDivide(coeffs, r).value;
    if n == 1 {
      SyntheticOne(coeffs, r);
      EvalValues(coeffs, x);
      EvalEmpty(coeffs[..0], x);
      EvalEmpty(q, x);
    } else {
      var c' := coeffs[..n - 1];
      SyntheticStep(coeffs, r);
      var (q', rem') := SyntheticDivide(c', r).value;
      FactorTheorem(c', r, x);
      EvalValues(coeffs, x);
      assert |q| == n - 1 by { SyntheticShape(coeffs, r); }
      EvalValues(q, x);
      PolyEntry(coeffs, n - 1);
      assert ValidPoly(q') && Valid(rem') by { SyntheticShape(c', r); }
      HornerValue(rem', r, coeffs[n - 1]);
      PositiveDenominator(r);
      PositiveDenominator(rem');
      FactorStep(Eval(Values(c'), x), Eval(Values(q'), x), Value(rem'), x, Value(r),
                 Value(coeffs[n - 1]), Eval(Values(q), x));
    }
  }

  lemma SyntheticShape(coeffs: Poly, r: Const)
    requires ValidPoly(coeffs) && Valid(r) && |coeffs| > 0
    ensures var (q, rem) := SyntheticDivide(coeffs, r).value;
      |q| == |coeffs| - 1 && ValidPoly(q) && Valid(rem)
  {
  }

  /** The remainder is the Horner value p(r), so it is zero exactly at a root. */
  lemma SyntheticRemainder(coeffs: Poly, r: Const)
    requires ValidPoly(coeffs) && Valid(r) && |coeffs| > 0
    ensures Value(SyntheticDivide(coeffs, r).value.1) == Eval(Values(coeffs), Value(r))
  {
    hide *;
    PositiveDenominator(r);
    FactorTheorem(coeffs, r, Value(r));
    SyntheticShape(coeffs, r);
    PositiveDenominator(SyntheticDivide(coeffs, r).value.1);
  }

  // -------------------------------------------------------------- derivative

  /** `derivative`: entry n, of power m - n, is multiplied by m - n and the
      constant term dropped. */
  function Derivative(p: Poly): (r: Poly)
    requires ValidPoly(p)
    ensures ValidPoly(r) && |r| == (if |p| == 0 then 0 else |p| - 1)
  {
    var m := |p| - 1;
    if m <= 0 then [] else seq(m, n requires 0 <= n < m => Mul(FromInt(m - n), p[n]))
  }

  /** The power rule, coefficient by coefficient: the coefficient of x^k in
      the derivative is (k + 1) times that of x^(k + 1). */
  lemma DerivativeCoefficient(p: Poly, k: int)
    requires ValidPoly(p) && k >= 0
    ensures Coefficient(Values(Derivative(p)), k) == (k + 1) as real * Coefficient(Values(p), k + 1)
  {
    var m := |p| - 1;
    ValuesAt(p);
    ValuesAt(Derivative(p));
    if m > 0 && k < m {
      DerivativeEntry(p, m - 1 - k);
    }
  }

  lemma DerivativeEntry(p: Poly, n: int)
    requires ValidPoly(p) && 0 <= n < |p| - 1
    ensures Value(Derivative(p)[n]) == (|p| - 1 - n) as real * Value(p[n])
  {
    var m := |p| - 1;
    assert Derivative(p)[n] == Mul(FromInt(m - n), p[n]);
    MulValue(FromInt(m - n), p[n]);
  }

  // ------------------------------------------------------------- poly_divide

  /** What `poly_divide` promises: coefficientwise a == q · d + r; when a is
      shorter than d the quotient is (0,) and a is returned as it is;
      otherwise q has |a| - |d| + 1 entries and r, stripped of leading zeros,
      is shorter than d. */
  ghost predicate DivisionResult(a: Poly, d: Poly, q: Poly, r: Poly)
    requires ValidPoly(a) && ValidPoly(d)
  {
    ValidPoly(q) && ValidPoly(r)
    && (forall k :: 0 <= k ==> Coefficient(Values(a), k) == Conv(Values(q), Values(d), k) + Coefficient(Values(r), k))
    && (|a| < |d| ==> q == [Zero] && r == a)
    && (|a| >= |d| ==> |q| == |a| - |d| + 1 && |r| < |d| && (r == [] || Value(r[0]) != 0.0))
  }

  /** The invariant of the outer loop: the coefficients of the dividend are
      those of quotient · divisor plus the working remainder. */
  ghost predicate Balanced(a: Poly, d: Poly, q: Poly, rem: Poly)
    requires ValidPoly(a) && ValidPoly(d) && ValidPoly(q) && ValidPoly(rem)
  {
    forall k :: 0 <= k ==> Coefficient(Values(a), k) == Conv(Values(q), Values(d), k) + Coefficient(Values(rem), k)
  }

  /** `poly_divide`: long division on coefficient lists. A dividend shorter
      than the divisor is returned with quotient (0,); an empty divisor
      raises IndexError, a zero leading coefficient ZeroDivisionError. */
  method PolyDivide(dividend: Poly, divisor: Poly) returns (res: Result<(Poly, Poly)>)
    requires ValidPoly(dividend) && ValidPoly(divisor)
    ensures res.Err? <==> |dividend| >= |divisor| && (|divisor| == 0 || divisor[0].numerator == 0)
    ensures res.Err? ==> res.error == (if |divisor| == 0 then IndexError else ZeroDivisionError)
    ensures res.Ok? ==> DivisionResult(dividend, divisor, res.value.0, res.value.1)
  {
    var n, m := |dividend|, |divisor|;
    if n < m {
      ShortDivision(dividend, divisor);
      return Ok(([Zero], dividend));
    }
    if m == 0 {
      return Err(IndexError);
    }
    var divided := LongDivision(dividend, divisor);
    if divided.Err? {
      return Err(divided.error);
    }
    var (quotient, remainder) := divided.value;
    var trimmed := TrimLeadingZeros(remainder);
    TrimmedResult(dividend, divisor, quotient, remainder, trimmed);
    return Ok((quotient, trimmed));
  }

  lemma ShortDivision(a: Poly, d: Poly)
    requires ValidPoly(a) && ValidPoly(d) && |a| < |d|
    ensures DivisionResult(a, d, [Zero], a)
  {
    ZeroQuotient(Values([Zero]), Values(d));
  }

  /** The state after the outer loop of `poly_divide`: a quotient of
      |a| - |d| + 1 entries, a remainder as long as a whose first |q| entries
      are cleared, and a balanced identity. */
  ghost predicate Divided(a: Poly, d: Poly, q: Poly, rem: Poly)
    requires ValidPoly(a) && ValidPoly(d)
  {
    ValidPoly(q) && ValidPoly(rem) && |q| == |a| - |d| + 1 && |rem| == |a|
    && (forall t :: 0 <= t < |q| && t < |rem| ==> Value(rem[t]) == 0.0)
    && Balanced(a, d, q, rem)
  }

  /** The two loops of `poly_divide`: for each quotient entry, divide the
      leading remaining coefficient by the divisor's and subtract that
      multiple of the divisor, shifted to the entry. */
  method LongDivision(dividend: Poly, divisor: Poly) returns (res: Result<(Poly, Poly)>)
    requires ValidPoly(dividend) && ValidPoly(divisor) && 0 < |divisor| <= |dividend|
    ensures res.Err? <==> divisor[0].numerator == 0
    ensures res.Err? ==> res.error == ZeroDivisionError
    ensures res.Ok? ==> Divided(dividend, divisor, res.value.0, res.value.1)
  {
    var n, m := |dividend|, |divisor|;
    var quotient := seq(n - m + 1, _ => Zero);
    var remainder := dividend;
    StartBalanced(dividend, divisor, quotient);
    for i := 0 to n - m + 1
      invariant ValidPoly(quotient) && ValidPoly(remainder)
      invariant |quotient| == n - m + 1 && |remainder| == n
      invariant forall j :: i <= j < |quotient| ==> quotient[j] == Zero
      invariant forall t :: 0 <= t < i ==> Value(remainder[t]) == 0.0
      invariant Balanced(dividend, divisor, quotient, remainder)
      invariant i > 0 ==> divisor[0].numerator != 0
    {
      var lead := Div(remainder[i], divisor[0]);
      if lead.Err? {
        return Err(lead.error);
      }
      var c := lead.value;
      DivValue(remainder[i], divisor[0]);
      ZeroValue(divisor[0]);
      ghost var q0, before := quotient, remainder;
      quotient := quotient[i := c];
      remainder := SubtractMultiple(remainder, c, divisor, i);
      DivisionStep(dividend, divisor, q0, before, remainder, i, c);
    }
    return Ok((quotient, remainder));
  }

  lemma StartBalanced(a: Poly, d: Poly, q: Poly)
    requires ValidPoly(a) && ValidPoly(d) && forall j :: 0 <= j < |q| ==> q[j] == Zero
    ensures ValidPoly(q) && Balanced(a, d, q, a)
  {
    ZeroQuotient(Values(q), Values(d));
  }

  /** What entry t of the remainder holds once c times the divisor's
      entries 0 .. j - 1 are taken from entries i .. i + j - 1 of rem. */
  ghost function Subtracted(rem: Poly, c: Const, divisor: Poly, i: int, j: int, t: int): real
    requires ValidPoly(rem) && ValidPoly(divisor) && Valid(c) && 0 <= t < |rem|
  {
    if i <= t < i + j && t - i < |divisor| then Value(rem[t]) - Value(c) * Value(divisor[t - i]) else Value(rem[t])
  }

  ghost predicate SubtractedUpTo(r: Poly, rem: Poly, c: Const, divisor: Poly, i: int, j: int)
    requires ValidPoly(rem) && ValidPoly(divisor) && Valid(c)
  {
    ValidPoly(r) && |r| == |rem| && forall t :: 0 <= t < |r| ==> Value(r[t]) == Subtracted(rem, c, divisor, i, j, t)
  }

  /** The inner loop of `poly_divide`: entry i + j of the remainder loses
      c times entry j of the divisor. */
  method SubtractMultiple(remainder: Poly, c: Const, divisor: Poly, i: nat) returns (r: Poly)
    requires ValidPoly(remainder) && ValidPoly(divisor) && Valid(c) && i + |divisor| <= |remainder|
    ensures ValidPoly(r) && |r| == |remainder|
    ensures forall t :: 0 <= t < |r| ==>
      Value(r[t]) == (if i <= t < i + |divisor| then Value(remainder[t]) - Value(c) * Value(divisor[t - i]) else Value(remainder[t]))
  {
    r := remainder;
    SubtractedNone(remainder, c, divisor, i);
    for j := 0 to |divisor|
      invariant SubtractedUpTo(r, remainder, c, divisor, i, j)
    {
      SubtractStepped(r, remainder, c, divisor, i, j);
      r := r[i + j := Subtract(r[i + j], Mul(c, divisor[j]))];
    }
    SubtractedAll(r, remainder, c, divisor, i);
  }

  lemma SubtractedNone(rem: Poly, c: Const, divisor: Poly, i: int)
    requires ValidPoly(rem) && ValidPoly(divisor) && Valid(c)
    ensures SubtractedUpTo(rem, rem, c, divisor, i, 0)
  {
  }

  lemma SubtractedAll(r: Poly, rem: Poly, c: Const, divisor: Poly, i: int)
    requires ValidPoly(rem) && ValidPoly(divisor) && Valid(c) && SubtractedUpTo(r, rem, c, divisor, i, |divisor|)
    ensures ValidPoly(r) && |r| == |rem|
    ensures forall t :: 0 <= t < |r| ==>
      Value(r[t]) == (if i <= t < i + |divisor| then Value(rem[t]) - Value(c) * Value(divisor[t - i]) else Value(rem[t]))
  {
  }

  lemma SubtractedNext(rem: Poly, c: Const, divisor: Poly, i: int, j: int, t: int)
    requires ValidPoly(rem) && ValidPoly(divisor) && Valid(c) && 0 <= t < |rem| && 0 <= i && 0 <= j < |divisor|
    ensures t != i + j ==> Subtracted(rem, c, divisor, i, j + 1, t) == Subtracted(rem, c, divisor, i, j, t)
    ensures t == i + j ==> Subtracted(rem, c, divisor, i, j, t) == Value(rem[t])
    ensures t == i + j ==> Subtracted(rem, c, divisor, i, j + 1, t) == Value(rem[t]) - Value(c) * Value(divisor[j])
  {
  }

  lemma SubtractedMeans(r: Poly, rem: Poly, c: Const, divisor: Poly, i: int, j: int)
    requires ValidPoly(rem) && ValidPoly(divisor) && Valid(c)
    ensures SubtractedUpTo(r, rem, c, divisor, i, j) <==>
      ValidPoly(r) && |r| == |rem| && forall t :: 0 <= t < |r| ==> Value(r[t]) == Subtracted(rem, c, divisor, i, j, t)
  {
  }

  lemma SubtractStepped(r: Poly, rem: Poly, c: Const, divisor: Poly, i: int, j: int)
    requires ValidPoly(rem) && ValidPoly(divisor) && Valid(c) && 0 <= i && 0 <= j < |divisor| && i + |divisor| <= |rem|
    requires SubtractedUpTo(r, rem, c, divisor, i, j)
    ensures SubtractedUpTo(r[i + j := Subtract(r[i + j], Mul(c, divisor[j]))], rem, c, divisor, i, j + 1)
  {
    hide *;
    SubtractedMeans(r, rem, c, divisor, i, j);
    PolyEntry(divisor, j);
    SubtractEntry(r, i + j, c, divisor[j]);
    var r' := r[i + j := Subtract(r[i + j], Mul(c, divisor[j]))];
    forall t | 0 <= t < |r'|
      ensures r'[t].denominator > 0
    {
      PolyEntry(r', t);
    }
    forall t | 0 <= t < |r'| && r'[t].denominator > 0
      ensures Value(r'[t]) == Subtracted(rem, c, divisor, i, j + 1, t)
    {
      SubtractedNext(rem, c, divisor, i, j, t);
      if t != i + j {
        assert r'[t] == r[t];
      }
    }
    SubtractedMeans(r', rem, c, divisor, i, j + 1);
  }

  lemma SubtractEntry(r: Poly, k: int, c: Const, e: Const)
    requires ValidPoly(r) && 0 <= k < |r| && Valid(c) && Valid(e)
    ensures r[k].denominator > 0 && c.denominator > 0 && e.denominator > 0 && Mul(c, e).denominator > 0
    ensures ValidPoly(r[k := Subtract(r[k], Mul(c, e))])
    ensures Value(Subtract(r[k], Mul(c, e))) == Value(r[k]) - Value(c) * Value(e)
  {
    MulValue(c, e);
    SubtractValue(r[k], Mul(c, e));
  }

  /** `while remainder and remainder[0] == 0: remainder.pop(0)`. */
  method TrimLeadingZeros(rem: Poly) returns (r: Poly)
    requires ValidPoly(rem)
    ensures ValidPoly(r) && |r| <= |rem| && r == rem[|rem| - |r|..]
    ensures forall t :: 0 <= t < |rem| - |r| ==> Value(rem[t]) == 0.0
    ensures r == [] || Value(r[0]) != 0.0
    ensures forall k :: 0 <= k ==> Coefficient(Values(r), k) == Coefficient(Values(rem), k)
  {
    r := rem;
    while |r| > 0 && Equals(r[0], IntOperand(0))
      invariant ValidPoly(r) && |r| <= |rem| && r == rem[|rem| - |r|..]
      invariant forall t :: 0 <= t < |rem| - |r| ==> Value(rem[t]) == 0.0
      invariant forall k :: 0 <= k ==> Coefficient(Values(r), k) == Coefficient(Values(rem), k)
    {
      EqualsMeansSameValue(r[0], IntOperand(0));
      DropLeadingZero(Values(r));
      assert Values(r)[1..] == Values(r[1..]);
      r := r[1..];
    }
    if |r| > 0 {
      EqualsMeansSameValue(r[0], IntOperand(0));
    }
  }

  lemma TrimmedResult(a: Poly, d: Poly, q: Poly, rem: Poly, r: Poly)
    requires ValidPoly(a) && ValidPoly(d) && 0 < |d| <= |a| && Divided(a, d, q, rem)
    requires ValidPoly(r) && |r| <= |rem| && r == rem[|rem| - |r|..]
    requires forall t :: 0 <= t < |rem| - |r| ==> Value(rem[t]) == 0.0
    requires r == [] || Value(r[0]) != 0.0
    requires forall k :: 0 <= k ==> Coefficient(Values(r), k) == Coefficient(Values(rem), k)
    ensures DivisionResult(a, d, q, r)
  {
  }

  lemma ValuesAt(p: Poly)
    requires ValidPoly(p)
    ensures |Values(p)| == |p| && forall i :: 0 <= i < |p| ==> Values(p)[i] == Value(p[i])
  {
  }

  lemma BalancedMeans(a: Poly, d: Poly, q: Poly, rem: Poly)
    requires ValidPoly(a) && ValidPoly(d) && ValidPoly(q) && ValidPoly(rem)
    ensures Balanced(a, d, q, rem) <==>
      forall k :: 0 <= k ==> Coefficient(Values(a), k) == Conv(Values(q), Values(d), k) + Coefficient(Values(rem), k)
  {
  }

  lemma CancelQuotient(b: real, c: real, d: real)
    requires d != 0.0 && c == b / d
    ensures b - c * d == 0.0
  {
  }

  /** One pass of the outer loop keeps the dividend balanced and clears
      entry i of the remainder. */
  lemma DivisionStep(a: Poly, d: Poly, q0: Poly, before: Poly, after: Poly, i: int, c: Const)
    requires ValidPoly(a) && ValidPoly(d) && ValidPoly(q0) && ValidPoly(before) && ValidPoly(after) && Valid(c)
    requires |d| > 0 && Value(d[0]) != 0.0 && |q0| == |a| - |d| + 1 && |before| == |after| == |a|
    requires 0 <= i < |q0| && q0[i] == Zero
    requires Value(c) == Value(before[i]) / Value(d[0])
    requires forall t :: 0 <= t < |a| ==>
      Value(after[t]) == (if i <= t < i + |d| then Value(before[t]) - Value(c) * Value(d[t - i]) else Value(before[t]))
    requires Balanced(a, d, q0, before)
    ensures ValidPoly(q0[i := c]) && Balanced(a, d, q0[i := c], after)
    ensures Value(after[i]) == 0.0
  {
    hide *;
    PositiveDenominator(c);
    var vq, vd, vb, va, v := Values(q0), Values(d), Values(before), Values(after), Value(c);
    ValuesAt(q0);
    ValuesAt(d);
    ValuesAt(before);
    ValuesAt(after);
    ValuesUpdate(q0, i, c);
    PositiveDenominator(c);
    PolyEntry(before, i);
    PolyEntry(d, 0);
    assert vq[i] == 0.0 by { ZeroIsZero(); }
    assert forall t :: 0 <= t < |vb| ==>
      va[t] == (if i <= t < i + |vd| then vb[t] - v * vd[t - i] else vb[t]);
    SubtractShifted(vb, va, v, vd, i);
    BalancedMeans(a, d, q0, before);
    forall k | 0 <= k
      ensures Coefficient(Values(a), k) == Conv(vq[i := v], vd, k) + Coefficient(va, k)
    {
      ConvUpdate(vq, i, v, vd, k);
    }
    BalancedMeans(a, d, q0[i := c], after);
    CancelQuotient(Value(before[i]), v, Value(d[0]));
  }

  lemma ZeroIsZero()
    ensures Value(Zero) == 0.0
  {
  }

  // --------------------------------------------------------------- normalize

  /** The entries a generator `... for i in a if i` visits: the nonzero
      ones, in order. */
  function Nonzero(a: Poly): (r: Poly)
    ensures forall c :: c in r <==> c in a && c.numerator != 0
  {
    if |a| == 0 then []
    else
      assert a == [a[0]] + a[1..];
      (if a[0].numerator != 0 then [a[0]] else []) + Nonzero(a[1..])
  }

  function Denominators(a: Poly): seq<int> {
    seq(|a|, k requires 0 <= k < |a| => a[k].denominator)
  }

  function Numerators(a: Poly): seq<int> {
    seq(|a|, k requires 0 <= k < |a| => a[k].numerator)
  }

  /** `math.lcm(*s)` on positive integers: folded left to right, and 1 for
      no arguments. */
  function LcmOf(s: seq<int>): (r: int)
    requires forall k :: 0 <= k < |s| ==> s[k] > 0
    ensures r > 0
  {
    if |s| == 0 then 1 else Lcm(LcmOf(s[..|s| - 1]), s[|s| - 1])
  }

  /** `math.gcd(*s)`: folded left to right over absolute values, and 0 for
      no arguments. */
  function GcdOf(s: seq<int>): nat {
    if |s| == 0 then 0 else Gcd(GcdOf(s[..|s| - 1]), Abs(s[|s| - 1]))
  }

  lemma DividesTransitive(a: int, b: int, c: int)
    requires a > 0 && b > 0 && b % a == 0 && c % b == 0
    ensures c % a == 0
  {
    var j, k := b / a, c / b;
    assert c == b * k && b == a * j;
    assert c == a * (j * k) by {
      assert b * k == (a * j) * k == a * (j * k);
    }
    MultipleMod(a, j * k);
  }

  lemma LcmStep(l: int, x: int)
    requires l > 0 && x > 0
    ensures Lcm(l, x) % l == 0 && Lcm(l, x) % x == 0 && Lcm(l, x) > 0
  {
  }

  /** Every argument divides the lcm. */
  lemma {:induction false} LcmOfMultiple(s: seq<int>, k: int)
    requires forall j :: 0 <= j < |s| ==> s[j] > 0
    requires 0 <= k < |s|
    ensures LcmOf(s) % s[k] == 0
  {
    var init, last := s[..|s| - 1], s[|s| - 1];
    var l := LcmOf(init);
    LcmStep(l, last);
    if k < |s| - 1 {
      assert init[k] == s[k];
      LcmOfMultiple(init, k);
      DividesTransitive(s[k], l, LcmOf(s));
    }
  }

  lemma AbsMod(x: int, g: int)
    requires g > 0 && Abs(x) % g == 0
    ensures x % g == 0
  {
    if x < 0 {
      var k := Abs(x) / g;
      assert x == g * (-k);
      MultipleMod(g, -k);
    }
  }

  /** The gcd is 0 exactly when every argument is, and otherwise divides
      every argument. */
  lemma {:induction false} GcdOfDivides(s: seq<int>)
    ensures GcdOf(s) == 0 <==> forall k :: 0 <= k < |s| ==> s[k] == 0
    ensures GcdOf(s) > 0 ==> forall k :: 0 <= k < |s| ==> s[k] % GcdOf(s) == 0
  {
    if |s| > 0 {
      var init, last := s[..|s| - 1], s[|s| - 1];
      GcdOfDivides(init);
      var g0 := GcdOf(init);
      GcdDivides(g0, Abs(last));
      var g := GcdOf(s);
      assert g == Gcd(g0, Abs(last));
      if g > 0 {
        AbsMod(last, g);
        forall k | 0 <= k < |s|
          ensures s[k] % g == 0
        {
          if k < |s| - 1 {
            assert init[k] == s[k];
            if g0 > 0 {
              DividesTransitive(g, g0, s[k]);
            }
          }
        }
      } else {
        forall k | 0 <= k < |s|
          ensures s[k] == 0
        {
          if k < |s| - 1 {
            assert init[k] == s[k];
          }
        }
      }
    }
  }

  /** `[i * d for i in a]`. */
  function Scaled(a: Poly, d: int): (r: Poly)
    requires ValidPoly(a)
    ensures ValidPoly(r) && |r| == |a|
  {
    seq(|a|, k requires 0 <= k < |a| => Mul(a[k], FromInt(d)))
  }

  /** `[i / g for i in a]`, for a nonzero integer g. */
  function Quotients(a: Poly, g: int): (r: Poly)
    requires ValidPoly(a) && g != 0
    ensures ValidPoly(r) && |r| == |a|
  {
    seq(|a|, k requires 0 <= k < |a| => Div(a[k], FromInt(g)).value)
  }

  /** `normalize`: clear the denominators with their lcm d, divide out the
      gcd of the numerators, signed so that the leading entry is not
      negative, and return the factor g / d that was taken out unless it is
      1. An empty list raises IndexError at `a[0]`; a list of zeros divides
      by gcd() == 0. */
  function NormalizeCoefficients(a: Poly): (r: Result<(Poly, Option<Const>)>)
    requires ValidPoly(a)
  {
    var d := LcmOf(Denominators(Nonzero(a)));
    var a1 := if d != 1 then Scaled(a, d) else a;
    if |a1| == 0 then Err(IndexError)
    else
      var g := (if IsNeg(a1[0]) then -1 else 1) * GcdOf(Numerators(Nonzero(a1)));
      if g == 0 then Err(ZeroDivisionError)
      else
        var a2 := if g != 1 then Quotients(a1, g) else a1;
        var c := Make(g, d).value;
        if Equals(c, IntOperand(1)) then Ok((a2, None)) else Ok((a2, Some(c)))
  }

  /** The factor taken out, 1 when `normalize` returns none. */
  function Factor(c: Option<Const>): real
    requires c.Some? ==> c.value.denominator > 0
  {
    if c.Some? then Value(c.value) else 1.0
  }

  /** What `normalize` promises: it fails exactly on an empty or all-zero
      list; otherwise it returns integer coefficients, the first of them not
      negative and zero only when a's is, together with a nonzero factor,
      never 1, that multiplies them back into a. */
  lemma NormalizeMeaning(a: Poly)
    requires ValidPoly(a)
    ensures NormalizeCoefficients(a).Err? <==> |a| == 0 || forall i :: 0 <= i < |a| ==> a[i].numerator == 0
    ensures NormalizeCoefficients(a).Err? ==>
      NormalizeCoefficients(a).error == (if |a| == 0 then IndexError else ZeroDivisionError)
    ensures NormalizeCoefficients(a).Ok? ==>
      var (p, c) := NormalizeCoefficients(a).value;
      ValidPoly(p) && |p| == |a| && (c.Some? ==> Valid(c.value) && Value(c.value) != 1.0)
      && Factor(c) != 0.0
      && (forall i :: 0 <= i < |p| ==> p[i].denominator == 1 && Value(a[i]) == Factor(c) * Value(p[i]))
      && Value(p[0]) >= 0.0 && (Value(p[0]) == 0.0 <==> Value(a[0]) == 0.0)
  {
    hide *;
    DenominatorsPositive(a);
    var d := LcmOf(Denominators(Nonzero(a)));
    var a1 := if d != 1 then Scaled(a, d) else a;
    forall i | 0 <= i < |a| && a[i].numerator != 0
      ensures a[i].denominator > 0 && d % a[i].denominator == 0
    {
      PolyEntry(a, i);
      DenominatorDividesLcm(a, i);
    }
    ClearDenominators(a, d, a1);
    if |a1| == 0 {
      NormalizeSteps(a, d, a1, 0);
    } else {
      var G: int := GcdOf(Numerators(Nonzero(a1)));
      var g: int := (if IsNeg(a1[0]) then -1 else 1) * G;
      NormalizeSteps(a, d, a1, g);
      GcdOfDivides(Numerators(Nonzero(a1)));
      NonzeroNumerators(a1);
      SameZeros(a, a1, d);
      if g != 0 {
        NumeratorsDivisible(a1, G);
        NormalizeResult(a, d, a1, G, g);
      }
    }
  }

  /** The successful path of `normalize`, from the cleared list a1 and the
      signed gcd g of its numerators. */
  lemma NormalizeResult(a: Poly, d: int, a1: Poly, G: int, g: int)
    requires ValidPoly(a) && ValidPoly(a1) && |a1| == |a| && |a| > 0 && d > 0 && G > 0
    requires forall i :: 0 <= i < |a| ==> a1[i].denominator == 1 && Value(a1[i]) == Value(a[i]) * d as real
    requires forall i :: 0 <= i < |a1| ==> a1[i].numerator % G == 0
    requires g == (if IsNeg(a1[0]) then -1 else 1) * G
    requires NormalizeCoefficients(a) ==
      Ok((if g != 1 then Quotients(a1, g) else a1, if Equals(Make(g, d).value, IntOperand(1)) then None else Some(Make(g, d).value)))
    ensures
      var (p, c) := NormalizeCoefficients(a).value;
      ValidPoly(p) && |p| == |a| && (c.Some? ==> Valid(c.value) && Value(c.value) != 1.0)
      && Factor(c) != 0.0
      && (forall i :: 0 <= i < |p| ==> p[i].denominator == 1 && Value(a[i]) == Factor(c) * Value(p[i]))
      && Value(p[0]) >= 0.0 && (Value(p[0]) == 0.0 <==> Value(a[0]) == 0.0)
  {
    hide *;
    var a2 := if g != 1 then Quotients(a1, g) else a1;
    DivideContent(a1, G, g, a2);
    var c := Make(g, d).value;
    MakeValue(g, d);
    EqualsMeansSameValue(c, IntOperand(1));
    var opt := if Equals(c, IntOperand(1)) then None else Some(c);
    Recombine(a, a1, a2, d, g, opt);
    assert NormalizeCoefficients(a).value == (a2, opt);
  }

  lemma SameZeros(a: Poly, a1: Poly, d: int)
    requires ValidPoly(a) && ValidPoly(a1) && |a1| == |a| && d > 0
    requires forall i :: 0 <= i < |a| ==> a1[i].denominator == 1 && Value(a1[i]) == Value(a[i]) * d as real
    ensures forall i :: 0 <= i < |a| ==> (a1[i].numerator == 0 <==> a[i].numerator == 0)
  {
    forall i | 0 <= i < |a|
      ensures a1[i].numerator == 0 <==> a[i].numerator == 0
    {
      ZeroValue(a1[i]);
      ZeroValue(a[i]);
      ZeroScaled(Value(a[i]), d as real);
    }
  }

  lemma NumeratorsDivisible(a1: Poly, G: int)
    requires G > 0 && forall k :: 0 <= k < |Numerators(Nonzero(a1))| ==> Numerators(Nonzero(a1))[k] % G == 0
    requires forall i :: 0 <= i < |a1| && a1[i].numerator != 0 ==> a1[i].numerator in Numerators(Nonzero(a1))
    ensures forall i :: 0 <= i < |a1| ==> a1[i].numerator % G == 0
  {
    forall i | 0 <= i < |a1|
      ensures a1[i].numerator % G == 0
    {
      if a1[i].numerator != 0 {
        var j :| 0 <= j < |Numerators(Nonzero(a1))| && Numerators(Nonzero(a1))[j] == a1[i].numerator;
      }
    }
  }

  /** The last step: the factor g / d multiplies the result back into a. */
  lemma Recombine(a: Poly, a1: Poly, a2: Poly, d: int, g: int, c: Option<Const>)
    requires ValidPoly(a) && ValidPoly(a1) && ValidPoly(a2) && |a1| == |a| && |a2| == |a| && |a| > 0 && d > 0 && g != 0
    requires forall i :: 0 <= i < |a| ==> a1[i].denominator == 1 && Value(a1[i]) == Value(a[i]) * d as real
    requires forall i :: 0 <= i < |a| ==> a2[i].denominator == 1 && Value(a2[i]) * g as real == Value(a1[i])
    requires c.Some? ==> Valid(c.value) && Value(c.value) != 1.0 && Value(c.value) == g as real / d as real
    requires c.None? ==> g as real / d as real == 1.0
    requires g < 0 <==> Value(a1[0]) < 0.0
    ensures c.Some? ==> Valid(c.value) && Value(c.value) != 1.0
    ensures Factor(c) != 0.0
    ensures forall i :: 0 <= i < |a2| ==> a2[i].denominator == 1 && Value(a[i]) == Factor(c) * Value(a2[i])
    ensures Value(a2[0]) >= 0.0 && (Value(a2[0]) == 0.0 <==> Value(a[0]) == 0.0)
  {
    hide *;
    PolyDenominators(a);
    if c.Some? {
      PositiveDenominator(c.value);
    }
    FactorOf(c);
    assert Factor(c) == g as real / d as real;
    forall i | 0 <= i < |a|
      ensures Value(a[i]) == Factor(c) * Value(a2[i])
    {
      FactorOut(Value(a[i]), Value(a1[i]), Value(a2[i]), g as real, d as real);
    }
    SignOfQuotient(Value(a1[0]), Value(a2[0]), g as real);
    ZeroScaled(Value(a[0]), d as real);
  }

  /** The steps of `normalize`, one name per intermediate value. */
  lemma NormalizeSteps(a: Poly, d: int, a1: Poly, g: int)
    requires ValidPoly(a) && (forall k :: 0 <= k < |Denominators(Nonzero(a))| ==> Denominators(Nonzero(a))[k] > 0)
    requires d == LcmOf(Denominators(Nonzero(a))) && a1 == (if d != 1 then Scaled(a, d) else a)
    requires |a1| > 0 ==> a1[0].denominator > 0 && g == (if IsNeg(a1[0]) then -1 else 1) * GcdOf(Numerators(Nonzero(a1)))
    ensures |a1| == 0 ==> NormalizeCoefficients(a) == Err(IndexError)
    ensures |a1| > 0 && g == 0 ==> NormalizeCoefficients(a) == Err(ZeroDivisionError)
    ensures |a1| > 0 && g != 0 ==>
      (d != 0 && NormalizeCoefficients(a) ==
       Ok((if g != 1 then Quotients(a1, g) else a1, if Equals(Make(g, d).value, IntOperand(1)) then None else Some(Make(g, d).value))))
  {
  }

  lemma FactorOf(c: Option<Const>)
    requires c.Some? ==> c.value.denominator > 0
    ensures Factor(c) == if c.Some? then Value(c.value) else 1.0
  {
  }

  lemma ZeroScaled(x: real, d: real)
    requires d > 0.0
    ensures x * d == 0.0 <==> x == 0.0
  {
  }

  lemma FactorOut(x: real, x1: real, y: real, g: real, d: real)
    requires d > 0.0 && g != 0.0 && x1 == x * d && y * g == x1
    ensures x == (g / d) * y
  {
    assert x == x1 / d;
  }

  lemma SignOfQuotient(x: real, y: real, g: real)
    requires g != 0.0 && y * g == x && (g < 0.0 <==> x < 0.0)
    ensures y >= 0.0 && (y == 0.0 <==> x == 0.0)
  {
  }

  /** A nonzero numerator is among those the generator visits, and the
      visited ones are all zero only when every entry is. */
  lemma NonzeroNumerators(a: Poly)
    ensures forall i :: 0 <= i < |a| && a[i].numerator != 0 ==> a[i].numerator in Numerators(Nonzero(a))
    ensures (forall k :: 0 <= k < |Numerators(Nonzero(a))| ==> Numerators(Nonzero(a))[k] == 0) <==>
      forall i :: 0 <= i < |a| ==> a[i].numerator == 0
  {
    var nz := Nonzero(a);
    forall i | 0 <= i < |a| && a[i].numerator != 0
      ensures a[i].numerator in Numerators(nz)
    {
      assert a[i] in nz;
      var k :| 0 <= k < |nz| && nz[k] == a[i];
      assert Numerators(nz)[k] == a[i].numerator;
    }
    forall k | 0 <= k < |nz|
      ensures Numerators(nz)[k] != 0
    {
      assert nz[k] in nz;
    }
  }

  /** A nonzero denominator divides the lcm `normalize` computes. */
  lemma DenominatorDividesLcm(a: Poly, i: int)
    requires ValidPoly(a) && 0 <= i < |a| && a[i].numerator != 0
    ensures LcmOf(Denominators(Nonzero(a))) % a[i].denominator == 0
  {
    var nz := Nonzero(a);
    assert a[i] in nz;
    var k :| 0 <= k < |nz| && nz[k] == a[i];
    assert Denominators(nz)[k] == a[i].denominator;
    LcmOfMultiple(Denominators(nz), k);
  }

  lemma FromIntFacts(i: int)
    ensures FromInt(i) == Const(i, 1)
  {
  }

  lemma IntegerValue(c: Const)
    requires c.denominator == 1
    ensures Value(c) == c.numerator as real
  {
  }

  lemma ValueDefinition(c: Const)
    requires c.denominator != 0
    ensures Value(c) == c.numerator as real / c.denominator as real
  {
  }

  lemma ScaledAt(a: Poly, d: int, i: int)
    requires ValidPoly(a) && 0 <= i < |a|
    ensures Scaled(a, d)[i] == Mul(a[i], FromInt(d))
  {
    PolyEntry(a, i);
  }

  lemma QuotientsAt(a: Poly, g: int, i: int)
    requires ValidPoly(a) && g != 0 && 0 <= i < |a|
    ensures Quotients(a, g)[i] == Div(a[i], FromInt(g)).value
  {
  }

  lemma DenominatorsPositive(a: Poly)
    requires ValidPoly(a)
    ensures forall k :: 0 <= k < |Denominators(Nonzero(a))| ==> Denominators(Nonzero(a))[k] > 0
  {
    var nz := Nonzero(a);
    forall k | 0 <= k < |nz|
      ensures nz[k].denominator > 0
    {
      assert nz[k] in nz;
    }
  }

  /** The first step of `normalize` leaves integers d times the entries,
      for any positive d that all nonzero denominators divide. */
  lemma ClearDenominators(a: Poly, d: int, a1: Poly)
    requires ValidPoly(a) && d > 0 && forall i :: 0 <= i < |a| && a[i].numerator != 0 ==> d % a[i].denominator == 0
    requires a1 == if d != 1 then Scaled(a, d) else a
    ensures ValidPoly(a1) && |a1| == |a|
    ensures forall i :: 0 <= i < |a| ==> a1[i].denominator == 1 && Value(a1[i]) == Value(a[i]) * d as real
  {
    hide *;
    forall i | 0 <= i < |a|
      ensures a[i].denominator > 0
    {
      PolyEntry(a, i);
    }
    forall i | 0 <= i < |a| && a[i].denominator > 0
      ensures a1[i].denominator == 1 && Value(a1[i]) == Value(a[i]) * d as real
    {
      PolyEntry(a, i);
      ClearEntry(a[i], d);
      if d != 1 {
        ScaledAt(a, d, i);
      }
    }
  }

  /** One entry of the first step: an integer d times the entry. */
  lemma ClearEntry(c: Const, d: int)
    requires Valid(c) && d > 0 && (c.numerator != 0 ==> d % c.denominator == 0)
    ensures var c1 := if d != 1 then Mul(c, FromInt(d)) else c;
      c1.denominator == 1 && Value(c1) == Value(c) * d as real
  {
    PositiveDenominator(c);
    ScaleEntry(c, d);
    if d == 1 {
      hide *;
      Canonical(Mul(c, FromInt(d)), c);
    }
  }

  /** Scaling an entry by a multiple of its denominator gives an integer. */
  lemma ScaleEntry(c: Const, d: int)
    requires Valid(c) && d > 0 && (c.numerator != 0 ==> d % c.denominator == 0)
    ensures Mul(c, FromInt(d)).denominator == 1 && Value(Mul(c, FromInt(d))) == Value(c) * d as real
  {
    hide *;
    PositiveDenominator(c);
    FromIntFacts(d);
    MulValue(c, FromInt(d));
    if c.numerator != 0 {
      var q := d / c.denominator;
      assert d == c.denominator * q;
      ValueDefinition(c);
      IntegerQuotient(c.numerator, c.denominator, q);
      Canonical(Mul(c, FromInt(d)), FromInt(c.numerator * q));
      FromIntFacts(c.numerator * q);
    } else {
      ZeroValue(c);
      Canonical(Mul(c, FromInt(d)), FromInt(0));
      FromIntFacts(0);
    }
  }

  lemma IntegerQuotient(n: int, den: int, q: int)
    requires den > 0
    ensures (n as real / den as real) * (den * q) as real == (n * q) as real
  {
    assert (den * q) as real == den as real * q as real;
    assert (n * q) as real == n as real * q as real;
  }

  /** The second step: when G divides every numerator, dividing by g = ±G
      gives integers whose g-multiples the entries are. */
  lemma DivideContent(a1: Poly, G: int, g: int, a2: Poly)
    requires G > 0 && (g == G || g == -G)
    requires ValidPoly(a1) && forall i :: 0 <= i < |a1| ==> a1[i].denominator == 1 && a1[i].numerator % G == 0
    requires a2 == if g != 1 then Quotients(a1, g) else a1
    ensures ValidPoly(a2) && |a2| == |a1|
    ensures forall i :: 0 <= i < |a1| ==> a2[i].denominator == 1 && Value(a2[i]) * g as real == Value(a1[i])
  {
    hide *;
    forall i | 0 <= i < |a1|
      ensures a2[i].denominator == 1 && Value(a2[i]) * g as real == Value(a1[i])
    {
      var n := a1[i].numerator;
      var k := if g == G then n / G else -(n / G);
      assert n == g * k by {
        assert n == G * (n / G);
      }
      PolyEntry(a1, i);
      QuotientEntry(a1[i], g, k);
      if g != 1 {
        QuotientsAt(a1, g, i);
      } else {
        IntegerValue(a1[i]);
      }
    }
  }

  lemma QuotientEntry(c: Const, g: int, k: int)
    requires Valid(c) && c.denominator == 1 && g != 0 && c.numerator == g * k
    ensures Div(c, FromInt(g)) == Ok(FromInt(k))
    ensures FromInt(k).denominator == 1 && Value(FromInt(k)) * g as real == Value(c)
  {
    hide *;
    FromIntFacts(g);
    FromIntFacts(k);
    DivValue(c, FromInt(g));
    IntegerValue(c);
    assert (g * k) as real == g as real * k as real;
    Canonical(Div(c, FromInt(g)).value, FromInt(k));
  }

  // ---------------------------------------------------------------- poly_gcd

  predicate CommonRoot(a: Poly, b: Poly, x: real)
    requires ValidPoly(a) && ValidPoly(b)
  {
    Eval(Values(a), x) == 0.0 && Eval(Values(b), x) == 0.0
  }

  /** A division step keeps the common roots: a == q · b + r. */
  lemma RootsOfRemainder(a: Poly, b: Poly, q: Poly, r: Poly, x: real)
    requires ValidPoly(a) && ValidPoly(b) && DivisionResult(a, b, q, r)
    ensures CommonRoot(a, b, x) <==> CommonRoot(b, r, x)
  {
    DivisionEval(Values(a), Values(q), Values(b), Values(r), x);
  }

  /** What `poly_gcd` can return: (1,), the shorter input, the longer one
      when the shorter is empty, or a remainder of degree one or more. */
  predicate GcdShape(g: Poly, a0: Poly, b0: Poly) {
    var short, long := if |b0| > |a0| then a0 else b0, if |b0| > |a0| then b0 else a0;
    g == [One] || g == short || (short == [] && g == long) || (|g| >= 2 && g[0].numerator != 0)
  }

  /** `poly_gcd`: the Euclidean algorithm on coefficient lists. It stops with
      (1,) as soon as a remainder is a nonzero constant. The only failure is
      a zero leading coefficient of the shorter input. The result is a
      greatest common divisor: it divides both inputs and every common
      divisor divides it. */
  method PolyGcd(a0: Poly, b0: Poly) returns (res: Result<Poly>)
    requires ValidPoly(a0) && ValidPoly(b0)
    ensures var b := if |b0| > |a0| then a0 else b0;
      res.Err? <==> |b| > 0 && b[0].numerator == 0
    ensures res.Ok? ==> ValidPoly(res.value)
    ensures res.Ok? ==> forall x :: Eval(Values(res.value), x) == 0.0 <==> CommonRoot(a0, b0, x)
    ensures res.Ok? ==> CommonDivisor(Values(res.value), Values(a0), Values(b0))
    ensures res.Ok? ==> forall g :: CommonDivisor(g, Values(a0), Values(b0)) ==> DividesPoly(g, Values(res.value))
    ensures res.Ok? ==> GcdShape(res.value, a0, b0)
  {
    var a, b := a0, b0;
    if |b| > |a| {
      a, b := b, a;
    }
    ghost var first := true;
    while |b| > 0
      invariant ValidPoly(a) && ValidPoly(b) && |b| <= |a|
      invariant first ==> b == (if |b0| > |a0| then a0 else b0) && a == (if |b0| > |a0| then b0 else a0)
      invariant !first ==> (|b| > 0 ==> b[0].numerator != 0) && (|b0| > |a0| ==> a0 != [] && a0[0].numerator != 0) && (|b0| <= |a0| ==> b0 != [] && b0[0].numerator != 0)
      invariant !first ==> b == [] || |b| >= 2
      invariant !first ==> a == (if |b0| > |a0| then a0 else b0) || (|a| >= 2 && a[0].numerator != 0)
      invariant forall x :: CommonRoot(a, b, x) <==> CommonRoot(a0, b0, x)
      invariant forall g :: CommonDivisor(g, Values(a), Values(b)) <==> CommonDivisor(g, Values(a0), Values(b0))
      decreases |b|
    {
      var qr := PolyDivide(a, b);
      if qr.Err? {
        return Err(qr.error);
      }
      var (q, r) := qr.value;
      GcdStep(a, b, q, r, a0, b0);
      if |q| == 0 || (|r| > 0 && |r| == 1) {
        UnitGcd(b, r, a0, b0);
        return Ok([One]);
      }
      ZeroDenominator(b[0]);
      if |r| > 0 {
        ZeroDenominator(r[0]);
      }
      a, b := b, r;
      first := false;
    }
    EmptyGcd(a, b, a0, b0);
    return Ok(a);
  }

  lemma GcdStep(a: Poly, b: Poly, q: Poly, r: Poly, a0: Poly, b0: Poly)
    requires ValidPoly(a) && ValidPoly(b) && ValidPoly(a0) && ValidPoly(b0) && DivisionResult(a, b, q, r)
    requires forall x :: CommonRoot(a, b, x) <==> CommonRoot(a0, b0, x)
    requires forall g :: CommonDivisor(g, Values(a), Values(b)) <==> CommonDivisor(g, Values(a0), Values(b0))
    ensures forall x :: CommonRoot(b, r, x) <==> CommonRoot(a0, b0, x)
    ensures forall g :: CommonDivisor(g, Values(b), Values(r)) <==> CommonDivisor(g, Values(a0), Values(b0))
  {
    forall x
      ensures CommonRoot(a, b, x) <==> CommonRoot(b, r, x)
    {
      RootsOfRemainder(a, b, q, r, x);
    }
    hide Eval, CommonRoot;
    DivisorsOfRemainder(a, b, q, r);
  }

  /** A division step keeps the common divisors. */
  lemma DivisorsOfRemainder(a: Poly, b: Poly, q: Poly, r: Poly)
    requires ValidPoly(a) && ValidPoly(b) && DivisionResult(a, b, q, r)
    ensures forall g :: CommonDivisor(g, Values(a), Values(b)) <==> CommonDivisor(g, Values(b), Values(r))
  {
    hide *;
    DivisionIdentity(a, b, q, r);
    var va, vq, vb, vr := Values(a), Values(q), Values(b), Values(r);
    forall g
      ensures CommonDivisor(g, va, vb) <==> CommonDivisor(g, vb, vr)
    {
      DividesRemainder(va, vq, vb, vr, g);
    }
  }

  /** A division result read as values: a(x) == q(x) · b(x) + r(x). */
  lemma DivisionIdentity(a: Poly, b: Poly, q: Poly, r: Poly)
    requires ValidPoly(a) && ValidPoly(b) && DivisionResult(a, b, q, r)
    ensures ValidPoly(q) && ValidPoly(r)
    ensures forall x :: Eval(Values(a), x) == Eval(Values(q), x) * Eval(Values(b), x) + Eval(Values(r), x)
  {
    hide Eval, Values, Coefficient, Conv, ValidPoly;
    forall x
      ensures Eval(Values(a), x) == Eval(Values(q), x) * Eval(Values(b), x) + Eval(Values(r), x)
    {
      DivisionEval(Values(a), Values(q), Values(b), Values(r), x);
    }
  }
  lemma UnitGcd(b: Poly, r: Poly, a0: Poly, b0: Poly)
    requires ValidPoly(b) && ValidPoly(r) && ValidPoly(a0) && ValidPoly(b0) && |r| == 1 && Value(r[0]) != 0.0
    requires forall x :: CommonRoot(b, r, x) <==> CommonRoot(a0, b0, x)
    requires forall g :: CommonDivisor(g, Values(b), Values(r)) <==> CommonDivisor(g, Values(a0), Values(b0))
    ensures ValidPoly([One]) && forall x :: Eval(Values([One]), x) == 0.0 <==> CommonRoot(a0, b0, x)
    ensures CommonDivisor(Values([One]), Values(a0), Values(b0))
    ensures forall g :: CommonDivisor(g, Values(a0), Values(b0)) ==> DividesPoly(g, Values([One]))
  {
    forall x
      ensures Eval(Values([One]), x) == 0.0 <==> CommonRoot(a0, b0, x)
    {
      ConstantEval(r, x);
      ConstantEval([One], x);
    }
    assert Values([One]) == [1.0];
    UnitDivides(Values(a0));
    UnitDivides(Values(b0));
    assert Values(r) == [Value(r[0])];
    forall g | CommonDivisor(g, Values(a0), Values(b0))
      ensures DividesPoly(g, [1.0])
    {
      ConstantDivisor(g, Value(r[0]));
    }
  }
  lemma EmptyGcd(a: Poly, b: Poly, a0: Poly, b0: Poly)
    requires ValidPoly(a) && ValidPoly(a0) && ValidPoly(b0) && b == []
    requires forall x :: CommonRoot(a, b, x) <==> CommonRoot(a0, b0, x)
    requires forall g :: CommonDivisor(g, Values(a), Values(b)) <==> CommonDivisor(g, Values(a0), Values(b0))
    ensures forall x :: Eval(Values(a), x) == 0.0 <==> CommonRoot(a0, b0, x)
    ensures CommonDivisor(Values(a), Values(a0), Values(b0))
    ensures forall g :: CommonDivisor(g, Values(a0), Values(b0)) ==> DividesPoly(g, Values(a))
  {
    forall x
      ensures Eval(Values(a), x) == 0.0 <==> CommonRoot(a0, b0, x)
    {
      EmptyEval(x);
    }
    assert Values(b) == [];
    DividesSelf(Values(a));
    forall g | CommonDivisor(g, Values(a0), Values(b0))
      ensures DividesPoly(g, Values(a))
    {
      assert CommonDivisor(g, Values(a), Values(b));
    }
  }
  lemma ConstantEval(p: Poly, x: real)
    requires ValidPoly(p) && |p| == 1
    ensures Eval(Values(p), x) == Value(p[0])
  {
    assert Values(p)[..0] == [];
  }

  lemma ZeroDenominator(c: Const)
    requires Valid(c)
    ensures c.numerator == 0 <==> Value(c) == 0.0
  {
    ZeroValue(c);
  }
}
