/** Polynomials with real coefficients, held as the coefficient lists of
    utils/polynomial.py: the first entry belongs to the highest power. This
    module fixes their meaning: the coefficient of each power, Horner
    evaluation, and the product of two lists. */
module PolyAlgebra {

  /** The coefficient of x^k; zero beyond either end of the list. */
  function Coefficient(s: seq<real>, k: int): real {
    if 0 <= k < |s| then s[|s| - 1 - k] else 0.0
  }

  /** The list without its constant term, and that term. */
  function Init(s: seq<real>): seq<real> {
    if |s| == 0 then [] else s[..|s| - 1]
  }

  function Last(s: seq<real>): real {
    if |s| == 0 then 0.0 else s[|s| - 1]
  }

  /** The value of the polynomial at x, by Horner's rule. */
  function Eval(s: seq<real>, x: real): real
    decreases |s|
  {
    if |s| == 0 then 0.0 else Eval(s[..|s| - 1], x) * x + s[|s| - 1]
  }

  lemma EvalInit(s: seq<real>, x: real)
    ensures Eval(s, x) == Eval(Init(s), x) * x + Last(s)
  {
  }

  lemma CoefficientShift(s: seq<real>, k: int)
    requires k >= 0
    ensures Coefficient(s, k + 1) == Coefficient(Init(s), k)
    ensures Coefficient(s, 0) == Last(s)
  {
  }

  lemma EmptyEval(x: real)
    ensures Eval([], x) == 0.0
  {
  }

  lemma InitShorter(s: seq<real>)
    ensures |s| > 0 ==> |Init(s)| == |s| - 1
    ensures |s| == 0 ==> |Init(s)| == 0
  {
  }

  /** The hypothesis of EvalSum, one power down, and for the constant term. */
  lemma {:induction false} InitCoefficients(a: seq<real>, b: seq<real>, c: seq<real>)
    requires forall k :: 0 <= k ==> Coefficient(a, k) == Coefficient(b, k) + Coefficient(c, k)
    ensures forall k :: 0 <= k ==> Coefficient(Init(a), k) == Coefficient(Init(b), k) + Coefficient(Init(c), k)
    ensures Last(a) == Last(b) + Last(c)
  {
    forall k | 0 <= k
      ensures Coefficient(Init(a), k) == Coefficient(Init(b), k) + Coefficient(Init(c), k)
    {
      CoefficientShift(a, k);
      CoefficientShift(b, k);
      CoefficientShift(c, k);
      assert Coefficient(a, k + 1) == Coefficient(b, k + 1) + Coefficient(c, k + 1);
    }
    CoefficientShift(a, 0);
    CoefficientShift(b, 0);
    CoefficientShift(c, 0);
    assert Coefficient(a, 0) == Coefficient(b, 0) + Coefficient(c, 0);
  }

  lemma SumStep(ea: real, eb: real, ec: real, la: real, lb: real, lc: real, x: real, va: real, vb: real, vc: real)
    requires ea == eb + ec && la == lb + lc
    requires va == ea * x + la && vb == eb * x + lb && vc == ec * x + lc
    ensures va == vb + vc
  {
    assert (eb + ec) * x == eb * x + ec * x;
  }

  /** Evaluation is additive: a list whose every coefficient is the sum of
      two others evaluates to the sum of their values. Leading zeros, and so
      the lengths, do not matter. */
  lemma {:induction false} EvalSum(a: seq<real>, b: seq<real>, c: seq<real>, x: real)
    requires forall k :: 0 <= k ==> Coefficient(a, k) == Coefficient(b, k) + Coefficient(c, k)
    ensures Eval(a, x) == Eval(b, x) + Eval(c, x)
    decreases |a| + |b| + |c|
  {
    hide *;
    if |a| + |b| + |c| == 0 {
      assert a == b == c == [];
      EmptyEval(x);
    } else {
      InitShorter(a);
      InitShorter(b);
      InitShorter(c);
      InitCoefficients(a, b, c);
      EvalSum(Init(a), Init(b), Init(c), x);
      EvalInit(a, x);
      EvalInit(b, x);
      EvalInit(c, x);
      SumStep(Eval(Init(a), x), Eval(Init(b), x), Eval(Init(c), x), Last(a), Last(b), Last(c), x,
              Eval(a, x), Eval(b, x), Eval(c, x));
    }
  }

  /** The coefficient of x^k in the product of q and d: the sum of
      q_i · d_j over i + j == k. */
  function Conv(q: seq<real>, d: seq<real>, k: int): real
    decreases |q|
  {
    if |q| == 0 || k < 0 then 0.0 else Last(q) * Coefficient(d, k) + Conv(Init(q), d, k - 1)
  }

  /** No product coefficient beyond the sum of the degrees. */
  lemma {:induction false} ConvBeyond(q: seq<real>, d: seq<real>, k: int)
    requires k >= |q| + |d|
    ensures Conv(q, d, k) == 0.0
    decreases |q|
  {
    if |q| > 0 {
      ConvBeyond(Init(q), d, k - 1);
    }
  }

  /** The product of two coefficient lists. */
  function Product(q: seq<real>, d: seq<real>): (p: seq<real>)
    ensures |p| == |q| + |d|
  {
    seq(|q| + |d|, t requires 0 <= t < |q| + |d| => Conv(q, d, |q| + |d| - 1 - t))
  }

  lemma ProductCoefficient(q: seq<real>, d: seq<real>, k: int)
    requires k >= 0
    ensures Coefficient(Product(q, d), k) == Conv(q, d, k)
  {
    if k >= |q| + |d| {
      ConvBeyond(q, d, k);
    }
  }

  /** Every coefficient multiplied by c. */
  function Scale(c: real, d: seq<real>): (r: seq<real>)
    ensures |r| == |d|
  {
    seq(|d|, i requires 0 <= i < |d| => c * d[i])
  }

  lemma ScaleStep(c: real, e: real, x: real, l: real)
    ensures (c * e) * x + c * l == c * (e * x + l)
  {
  }

  lemma ScaleInit(c: real, d: seq<real>)
    requires |d| > 0
    ensures Init(Scale(c, d)) == Scale(c, Init(d))
    ensures Last(Scale(c, d)) == c * Last(d)
  {
    var s, t := Init(Scale(c, d)), Scale(c, Init(d));
    assert |s| == |t|;
    forall i | 0 <= i < |s|
      ensures s[i] == t[i]
    {
      assert s[i] == Scale(c, d)[i] == c * d[i];
    }
  }

  lemma {:induction false} ScaleEval(c: real, d: seq<real>, x: real)
    ensures Eval(Scale(c, d), x) == c * Eval(d, x)
    decreases |d|
  {
    hide *;
    if |d| == 0 {
      EmptyEval(x);
      EmptyScale(c, d);
    } else {
      InitShorter(d);
      ScaleInit(c, d);
      ScaleEval(c, Init(d), x);
      EvalInit(d, x);
      EvalInit(Scale(c, d), x);
      ScaleStep(c, Eval(Init(d), x), x, Last(d));
    }
  }

  lemma EmptyScale(c: real, d: seq<real>)
    requires |d| == 0
    ensures Scale(c, d) == []
  {
  }

  lemma ProductStep(c: real, ed: real, eq: real, x: real, p: real)
    requires p == eq * ed
    ensures c * ed + p * x == (eq * x + c) * ed
  {
  }

  /** Peeling the constant term c off q: q · d is c · d plus (Init(q) · d) · x. */
  lemma ProductSplit(q: seq<real>, d: seq<real>)
    requires |q| > 0
    ensures forall k :: 0 <= k ==>
      Coefficient(Product(q, d), k) == Coefficient(Scale(Last(q), d), k) + Coefficient(Product(Init(q), d) + [0.0], k)
  {
    forall k | 0 <= k
      ensures Coefficient(Product(q, d), k) == Coefficient(Scale(Last(q), d), k) + Coefficient(Product(Init(q), d) + [0.0], k)
    {
      ProductCoefficient(q, d, k);
      if k > 0 {
        ProductCoefficient(Init(q), d, k - 1);
      }
    }
  }

  lemma ShiftEval(p: seq<real>, x: real)
    ensures Eval(p + [0.0], x) == Eval(p, x) * x
  {
    assert (p + [0.0])[..|p|] == p;
  }

  lemma ZeroProduct(q: seq<real>, d: seq<real>)
    requires |q| == 0
    ensures forall k :: 0 <= k ==> Coefficient(Product(q, d), k) == Coefficient([], k) + Coefficient([], k)
  {
    forall k | 0 <= k
      ensures Coefficient(Product(q, d), k) == Coefficient([], k) + Coefficient([], k)
    {
      ProductCoefficient(q, d, k);
    }
  }

  /** Evaluation turns the product of lists into the product of values. */
  lemma {:induction false} ProductEval(q: seq<real>, d: seq<real>, x: real)
    ensures Eval(Product(q, d), x) == Eval(q, x) * Eval(d, x)
    decreases |q|
  {
    hide *;
    if |q| == 0 {
      ZeroProduct(q, d);
      EvalSum(Product(q, d), [], [], x);
      EmptyEval(x);
      assert q == [];
    } else {
      InitShorter(q);
      var c := Last(q);
      var p := Product(Init(q), d);
      ProductSplit(q, d);
      EvalSum(Product(q, d), Scale(c, d), p + [0.0], x);
      ScaleEval(c, d, x);
      ShiftEval(p, x);
      ProductEval(Init(q), d, x);
      EvalInit(q, x);
      ProductStep(c, Eval(d, x), Eval(Init(q), x), x, Eval(p, x));
    }
  }

  /** Coefficientwise a == q · d + r, read as values: at every x,
      a(x) == q(x) · d(x) + r(x). */
  lemma DivisionEval(a: seq<real>, q: seq<real>, d: seq<real>, r: seq<real>, x: real)
    requires forall k :: 0 <= k ==> Coefficient(a, k) == Conv(q, d, k) + Coefficient(r, k)
    ensures Eval(a, x) == Eval(q, x) * Eval(d, x) + Eval(r, x)
  {
    forall k | 0 <= k
      ensures Coefficient(a, k) == Coefficient(Product(q, d), k) + Coefficient(r, k)
    {
      ProductCoefficient(q, d, k);
    }
    EvalSum(a, Product(q, d), r, x);
    ProductEval(q, d, x);
  }

  /** Changing entry i of q, which stands for x^(|q| - 1 - i), changes each
      product coefficient by the change times the matching coefficient of d. */
  lemma {:induction false} ConvUpdate(q: seq<real>, i: int, c: real, d: seq<real>, k: int)
    requires 0 <= i < |q|
    ensures Conv(q[i := c], d, k) == Conv(q, d, k) + (c - q[i]) * Coefficient(d, k - (|q| - 1 - i))
    decreases |q|
  {
    hide *;
    if k < 0 {
      ConvUpdateNegative(q, i, c, d, k);
    } else if i == |q| - 1 {
      ConvUpdateLast(q, c, d, k);
    } else {
      InitAt(q, i);
      ConvUpdate(Init(q), i, c, d, k - 1);
      ConvUpdateInner(q, i, c, d, k);
    }
  }

  lemma ConvUpdateNegative(q: seq<real>, i: int, c: real, d: seq<real>, k: int)
    requires 0 <= i < |q| && k < 0
    ensures Conv(q[i := c], d, k) == Conv(q, d, k) + (c - q[i]) * Coefficient(d, k - (|q| - 1 - i))
  {
    assert Coefficient(d, k - (|q| - 1 - i)) == 0.0;
  }

  lemma InitAt(q: seq<real>, i: int)
    requires 0 <= i < |q| - 1
    ensures |Init(q)| == |q| - 1 && Init(q)[i] == q[i]
  {
  }

  lemma ConvUpdateLast(q: seq<real>, c: real, d: seq<real>, k: int)
    requires |q| > 0 && k >= 0
    ensures Conv(q[|q| - 1 := c], d, k) == Conv(q, d, k) + (c - q[|q| - 1]) * Coefficient(d, k)
  {
    assert Init(q[|q| - 1 := c]) == Init(q);
    var C := Coefficient(d, k);
    assert c * C - q[|q| - 1] * C == (c - q[|q| - 1]) * C;
  }

  lemma ConvUpdateInner(q: seq<real>, i: int, c: real, d: seq<real>, k: int)
    requires 0 <= i < |q| - 1 && k >= 0
    requires Conv(Init(q)[i := c], d, k - 1) == Conv(Init(q), d, k - 1) + (c - q[i]) * Coefficient(d, k - (|q| - 1 - i))
    ensures Conv(q[i := c], d, k) == Conv(q, d, k) + (c - q[i]) * Coefficient(d, k - (|q| - 1 - i))
  {
    assert Init(q[i := c]) == Init(q)[i := c];
    assert Last(q[i := c]) == Last(q);
  }

  /** An all-zero quotient contributes nothing. */
  lemma {:induction false} ConvZeros(q: seq<real>, d: seq<real>, k: int)
    requires forall i :: 0 <= i < |q| ==> q[i] == 0.0
    ensures Conv(q, d, k) == 0.0
    decreases |q|
  {
    if |q| > 0 && k >= 0 {
      ConvZeros(Init(q), d, k - 1);
    }
  }

  lemma ZeroQuotient(q: seq<real>, d: seq<real>)
    requires forall i :: 0 <= i < |q| ==> q[i] == 0.0
    ensures forall k :: Conv(q, d, k) == 0.0
  {
    forall k
      ensures Conv(q, d, k) == 0.0
    {
      ConvZeros(q, d, k);
    }
  }

  /** The inner loop of long division: subtracting c times d, lined up at
      index i of a length-n list, lowers the coefficient of x^k by c times
      the coefficient of d at k - (n - |d| - i). */
  lemma SubtractShifted(rem: seq<real>, rem': seq<real>, c: real, d: seq<real>, i: int)
    requires 0 <= i && i + |d| <= |rem| == |rem'|
    requires forall t :: 0 <= t < |rem| ==>
      rem'[t] == (if i <= t < i + |d| then rem[t] - c * d[t - i] else rem[t])
    ensures forall k :: 0 <= k ==>
      Coefficient(rem', k) == Coefficient(rem, k) - c * Coefficient(d, k - (|rem| - |d| - i))
  {
    var n := |rem|;
    forall k | 0 <= k
      ensures Coefficient(rem', k) == Coefficient(rem, k) - c * Coefficient(d, k - (n - |d| - i))
    {
      if k < n {
        var t := n - 1 - k;
        if i <= t < i + |d| {
          assert Coefficient(d, k - (n - |d| - i)) == d[t - i];
        }
      }
    }
  }

  /** Dropping a leading zero keeps every coefficient. */
  lemma DropLeadingZero(s: seq<real>)
    requires |s| > 0 && s[0] == 0.0
    ensures forall k :: 0 <= k ==> Coefficient(s[1..], k) == Coefficient(s, k)
  {
  }

  /** The coefficientwise sum of two lists, as long as the longer one. */
  function Plus(u: seq<real>, v: seq<real>): (r: seq<real>)
    ensures |r| == if |u| >= |v| then |u| else |v|
    ensures forall k :: 0 <= k ==> Coefficient(r, k) == Coefficient(u, k) + Coefficient(v, k)
  {
    var n := if |u| >= |v| then |u| else |v|;
    seq(n, t requires 0 <= t < n => Coefficient(u, n - 1 - t) + Coefficient(v, n - 1 - t))
  }

  lemma PlusEval(u: seq<real>, v: seq<real>, x: real)
    ensures Eval(Plus(u, v), x) == Eval(u, x) + Eval(v, x)
  {
    EvalSum(Plus(u, v), u, v, x);
  }

  // ------------------------------------------------------------- divisibility

  /** p is s times g at every x. */
  ghost predicate Quotient(p: seq<real>, g: seq<real>, s: seq<real>) {
    forall x :: Eval(p, x) == Eval(s, x) * Eval(g, x)
  }

  /** g divides p: p is some polynomial times g. */
  ghost predicate DividesPoly(g: seq<real>, p: seq<real>) {
    exists s :: Quotient(p, g, s)
  }

  ghost predicate CommonDivisor(g: seq<real>, a: seq<real>, b: seq<real>) {
    DividesPoly(g, a) && DividesPoly(g, b)
  }

  lemma OneEval(x: real)
    ensures Eval([1.0], x) == 1.0
  {
    assert [1.0][..0] == [];
  }

  /** Every polynomial divides itself and the zero list. */
  lemma DividesSelf(g: seq<real>)
    ensures DividesPoly(g, g) && DividesPoly(g, [])
  {
    forall x
      ensures Eval(g, x) == Eval([1.0], x) * Eval(g, x)
    {
      OneEval(x);
    }
    assert Quotient(g, g, [1.0]);
    assert Quotient([], g, []);
  }

  /** The constant 1 divides every polynomial. */
  lemma UnitDivides(p: seq<real>)
    ensures DividesPoly([1.0], p)
  {
    forall x
      ensures Eval(p, x) == Eval(p, x) * Eval([1.0], x)
    {
      OneEval(x);
    }
    assert Quotient(p, [1.0], p);
  }

  /** A divisor of a nonzero constant divides 1. */
  lemma ConstantDivisor(g: seq<real>, c: real)
    requires c != 0.0 && DividesPoly(g, [c])
    ensures DividesPoly(g, [1.0])
  {
    var s :| Quotient([c], g, s);
    var t := Scale(1.0 / c, s);
    forall x
      ensures Eval([1.0], x) == Eval(t, x) * Eval(g, x)
    {
      OneEval(x);
      assert [c][..0] == [];
      assert Eval([c], x) == c;
      ScaleEval(1.0 / c, s, x);
      Rescale(c, Eval(s, x), Eval(g, x));
    }
    assert Quotient([1.0], g, t);
  }

  lemma Rescale(c: real, s: real, g: real)
    requires c != 0.0 && c == s * g
    ensures 1.0 == (1.0 / c * s) * g
  {
    assert (1.0 / c * s) * g == (1.0 / c) * (s * g);
  }

  /** When a == q · b + r at every x, the common divisors of a and b are
      those of b and r. */
  lemma DividesRemainder(a: seq<real>, q: seq<real>, b: seq<real>, r: seq<real>, g: seq<real>)
    requires forall x :: Eval(a, x) == Eval(q, x) * Eval(b, x) + Eval(r, x)
    ensures CommonDivisor(g, a, b) <==> CommonDivisor(g, b, r)
  {
    hide Eval, Quotient;
    if CommonDivisor(g, a, b) {
      var sa :| Quotient(a, g, sa);
      var sb :| Quotient(b, g, sb);
      RemainderQuotient(a, q, b, r, g, sa, sb);
    }
    if CommonDivisor(g, b, r) {
      var sb :| Quotient(b, g, sb);
      var sr :| Quotient(r, g, sr);
      DividendQuotient(a, q, b, r, g, sb, sr);
    }
  }

  lemma RemainderQuotient(a: seq<real>, q: seq<real>, b: seq<real>, r: seq<real>, g: seq<real>, sa: seq<real>, sb: seq<real>)
    requires forall x :: Eval(a, x) == Eval(q, x) * Eval(b, x) + Eval(r, x)
    requires Quotient(a, g, sa) && Quotient(b, g, sb)
    ensures Quotient(r, g, Plus(sa, Scale(-1.0, Product(q, sb))))
  {
    hide Eval, Plus, Scale, Product;
    var s := Plus(sa, Scale(-1.0, Product(q, sb)));
    forall x
      ensures Eval(r, x) == Eval(s, x) * Eval(g, x)
    {
      PlusEval(sa, Scale(-1.0, Product(q, sb)), x);
      ScaleEval(-1.0, Product(q, sb), x);
      ProductEval(q, sb, x);
      RemainderShare(Eval(a, x), Eval(q, x), Eval(b, x), Eval(r, x), Eval(sa, x), Eval(sb, x), Eval(g, x));
    }
  }

  lemma DividendQuotient(a: seq<real>, q: seq<real>, b: seq<real>, r: seq<real>, g: seq<real>, sb: seq<real>, sr: seq<real>)
    requires forall x :: Eval(a, x) == Eval(q, x) * Eval(b, x) + Eval(r, x)
    requires Quotient(b, g, sb) && Quotient(r, g, sr)
    ensures Quotient(a, g, Plus(Product(q, sb), sr))
  {
    hide Eval, Plus, Product;
    var s := Plus(Product(q, sb), sr);
    forall x
      ensures Eval(a, x) == Eval(s, x) * Eval(g, x)
    {
      PlusEval(Product(q, sb), sr, x);
      ProductEval(q, sb, x);
      DividendShare(Eval(a, x), Eval(q, x), Eval(b, x), Eval(r, x), Eval(sb, x), Eval(sr, x), Eval(g, x));
    }
  }

  lemma RemainderShare(a: real, q: real, b: real, r: real, sa: real, sb: real, g: real)
    requires a == q * b + r && a == sa * g && b == sb * g
    ensures r == (sa + -1.0 * (q * sb)) * g
  {
    assert q * b == (q * sb) * g;
  }

  lemma DividendShare(a: real, q: real, b: real, r: real, sb: real, sr: real, g: real)
    requires a == q * b + r && b == sb * g && r == sr * g
    ensures a == (q * sb + sr) * g
  {
    assert q * b == (q * sb) * g;
  }
}
