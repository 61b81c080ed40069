/** Divisor enumeration and rational-root extraction (utils/factoring.py),
    for Const coefficients. */
module Factoring {
  import opened Outcome
  import opened Arith
  import opened Exact
  import opened Numeric
  import opened PolyAlgebra
  import opened Polynomials
  import opened Terms

  // ---------------------------------------------------------------- divisors

  /** How many exponents `range(e + 1)` holds. */
  function Count(f: Factor): nat {
    if f.exponent < 0 then 0 else f.exponent + 1
  }

  /** d times base^k for k in range(e + 1). */
  function Powers(d: int, f: Factor): (r: seq<int>)
    ensures |r| == Count(f)
  {
    seq(Count(f), k requires 0 <= k < Count(f) => d * Pow(f.base, k))
  }

  /** Every entry of ds extended by every power of f, ds in order and the
      power varying fastest. */
  function Expand(ds: seq<int>, f: Factor): seq<int> {
    if ds == [] then [] else Powers(ds[0], f) + Expand(ds[1..], f)
  }

  /** The products `divisors` builds: over `product(*exponents)`, the
      product of base^power for each exponent vector, the last factor's
      exponent varying fastest. One empty vector gives the single product 1;
      a negative exponent gives an empty range and so no products at all. */
  function DivisorList(fs: seq<Factor>): seq<int>
    decreases |fs|
  {
    if fs == [] then [1]
    else Expand(DivisorList(fs[..|fs| - 1]), fs[|fs| - 1])
  }

  /** An exponent vector of `product(*exponents)`: one exponent per factor,
      from 0 to that factor's exponent. */
  predicate IsExponentVector(fs: seq<Factor>, ks: seq<int>) {
    |ks| == |fs| && forall i :: 0 <= i < |fs| ==> 0 <= ks[i] <= fs[i].exponent
  }

  /** The product of base^k over one exponent vector. */
  function VectorProduct(fs: seq<Factor>, ks: seq<int>): int
    requires |ks| == |fs| && forall i :: 0 <= i < |ks| ==> ks[i] >= 0
    decreases |fs|
  {
    if fs == [] then 1
    else VectorProduct(fs[..|fs| - 1], ks[..|ks| - 1]) * Pow(fs[|fs| - 1].base, ks[|ks| - 1])
  }

  lemma ExpandMembers(ds: seq<int>, f: Factor, x: int)
    ensures x in Expand(ds, f) <==>
      exists i, k :: 0 <= i < |ds| && 0 <= k < Count(f) && x == Powers(ds[i], f)[k]
    decreases |ds|
  {
    if ds != [] {
      ExpandMembers(ds[1..], f, x);
      assert Expand(ds, f) == Powers(ds[0], f) + Expand(ds[1..], f);
      if x in Expand(ds[1..], f) {
        var i, k :| 0 <= i < |ds[1..]| && 0 <= k < Count(f) && x == Powers(ds[1..][i], f)[k];
        assert ds[1..][i] == ds[i + 1];
      }
      if exists i, k :: 0 <= i < |ds| && 0 <= k < Count(f) && x == Powers(ds[i], f)[k] {
        var i, k :| 0 <= i < |ds| && 0 <= k < Count(f) && x == Powers(ds[i], f)[k];
        if i > 0 {
          assert ds[1..][i - 1] == ds[i];
        }
      }
    }
  }

  /** The vector without its last exponent, and how the product splits. */
  lemma VectorSnoc(fs: seq<Factor>, ks: seq<int>)
    requires IsExponentVector(fs, ks) && |fs| > 0
    ensures IsExponentVector(fs[..|fs| - 1], ks[..|ks| - 1])
    ensures VectorProduct(fs, ks)
      == VectorProduct(fs[..|fs| - 1], ks[..|ks| - 1]) * Pow(fs[|fs| - 1].base, ks[|ks| - 1])
  {
  }

  lemma VectorExtend(fs: seq<Factor>, ks: seq<int>, k: int)
    requires |fs| > 0 && IsExponentVector(fs[..|fs| - 1], ks) && 0 <= k <= fs[|fs| - 1].exponent
    ensures IsExponentVector(fs, ks + [k])
    ensures VectorProduct(fs, ks + [k]) == VectorProduct(fs[..|fs| - 1], ks) * Pow(fs[|fs| - 1].base, k)
  {
    assert (ks + [k])[..|ks|] == ks;
  }

  /** Every listed divisor is the product over some exponent vector. */
  lemma {:induction false} DivisorHasVector(fs: seq<Factor>, x: int)
    requires x in DivisorList(fs)
    ensures exists ks :: IsExponentVector(fs, ks) && VectorProduct(fs, ks) == x
    decreases |fs|
  {
    if fs == [] {
      assert IsExponentVector(fs, []) && VectorProduct(fs, []) == x;
    } else {
      var n := |fs| - 1;
      var ds := DivisorList(fs[..n]);
      assert DivisorList(fs) == Expand(ds, fs[n]);
      ExpandMembers(ds, fs[n], x);
      var i, k :| 0 <= i < |ds| && 0 <= k < Count(fs[n]) && x == Powers(ds[i], fs[n])[k];
      DivisorHasVector(fs[..n], ds[i]);
      var ks :| IsExponentVector(fs[..n], ks) && VectorProduct(fs[..n], ks) == ds[i];
      VectorExtend(fs, ks, k);
    }
  }

  /** The product over every exponent vector is listed. */
  lemma {:induction false} VectorIsDivisor(fs: seq<Factor>, ks: seq<int>)
    requires IsExponentVector(fs, ks)
    ensures VectorProduct(fs, ks) in DivisorList(fs)
    decreases |fs|
  {
    if fs != [] {
      var n := |fs| - 1;
      var ds := DivisorList(fs[..n]);
      var x := VectorProduct(fs, ks);
      assert DivisorList(fs) == Expand(ds, fs[n]);
      VectorSnoc(fs, ks);
      var d := VectorProduct(fs[..n], ks[..n]);
      VectorIsDivisor(fs[..n], ks[..n]);
      var i :| 0 <= i < |ds| && ds[i] == d;
      var k: nat := ks[n];
      assert x == Powers(ds[i], fs[n])[k];
      ExpandMembers(ds, fs[n], x);
    }
  }

  /** The source's promise: the divisors are exactly the products over the
      exponent vectors. */
  lemma DivisorsAreVectorProducts(fs: seq<Factor>, x: int)
    ensures x in DivisorList(fs) <==>
      exists ks :: IsExponentVector(fs, ks) && VectorProduct(fs, ks) == x
  {
    if x in DivisorList(fs) {
      DivisorHasVector(fs, x);
    }
    if exists ks :: IsExponentVector(fs, ks) && VectorProduct(fs, ks) == x {
      var ks: seq<int> :| IsExponentVector(fs, ks) && VectorProduct(fs, ks) == x;
      VectorIsDivisor(fs, ks);
    }
  }

  /** The exponents left over by an exponent vector. */
  function Complement(fs: seq<Factor>, ks: seq<int>): (r: seq<int>)
    requires |ks| == |fs|
    ensures |r| == |fs|
  {
    seq(|fs|, i requires 0 <= i < |fs| => fs[i].exponent - ks[i])
  }

  lemma ComplementPrefix(fs: seq<Factor>, ks: seq<int>)
    requires |ks| == |fs| && |fs| > 0
    ensures Complement(fs[..|fs| - 1], ks[..|ks| - 1]) == Complement(fs, ks)[..|fs| - 1]
  {
  }

  lemma PowSplit(b: int, k: nat, e: nat)
    requires k <= e
    ensures Pow(b, e) == Pow(b, k) * Pow(b, e - k)
  {
    PowAdd(b, k, e - k);
  }

  lemma Regroup(a: int, b: int, c: int, d: int)
    ensures (a * b) * (c * d) == (a * c) * (b * d)
  {
  }

  /** Each divisor's cofactor is the product over the complementary vector,
      so every divisor divides the product of all the factors. */
  lemma {:induction false} VectorDivides(fs: seq<Factor>, ks: seq<int>)
    requires IsExponentVector(fs, ks)
    ensures NaturalExponents(fs) && IsExponentVector(fs, Complement(fs, ks))
    ensures IntProduct(fs) == VectorProduct(fs, ks) * VectorProduct(fs, Complement(fs, ks))
    decreases |fs|
  {
    var cs := Complement(fs, ks);
    if fs != [] {
      var n := |fs| - 1;
      var p := fs[..n];
      VectorSnoc(fs, ks);
      VectorDivides(p, ks[..n]);
      ComplementPrefix(fs, ks);
      VectorSnoc(fs, cs);
      AppendProduct(p, fs[n]);
      assert p + [fs[n]] == fs;
      PowSplit(fs[n].base, ks[n], fs[n].exponent);
      Regroup(VectorProduct(p, ks[..n]), VectorProduct(p, cs[..n]),
              Pow(fs[n].base, ks[n]), Pow(fs[n].base, cs[n]));
    }
  }

  /** DivisorList is empty once some factor has a negative exponent. */
  lemma {:induction false} NegativeExponentEmpty(fs: seq<Factor>, j: int)
    requires 0 <= j < |fs| && fs[j].exponent < 0
    ensures DivisorList(fs) == []
    decreases |fs|
  {
    var n := |fs| - 1;
    if j == n {
      ExpandNone(DivisorList(fs[..n]), fs[n]);
    } else {
      NegativeExponentEmpty(fs[..n], j);
    }
  }

  lemma {:induction false} ExpandNone(ds: seq<int>, f: Factor)
    requires Count(f) == 0 || ds == []
    ensures Expand(ds, f) == []
    decreases |ds|
  {
    if ds != [] {
      ExpandNone(ds[1..], f);
    }
  }

  /** Some exponent of `primes` of a Fraction in lowest terms is negative. */
  lemma FractionHasNegative(c: Const, fs: seq<Factor>)
    requires Valid(c) && c.denominator != 1 && NonzeroBases(fs) && RProduct(fs) == Value(c)
    ensures exists j :: 0 <= j < |fs| && fs[j].exponent < 0
  {
    if forall j :: 0 <= j < |fs| ==> fs[j].exponent >= 0 {
      RProductOfNatural(fs);
      NotAnInteger(c, IntProduct(fs));
    }
  }

  /** A Fraction in lowest terms with denominator above 1 is no integer. */
  lemma NotAnInteger(c: Const, m: int)
    requires Valid(c) && c.denominator != 1
    ensures Value(c) != m as real
  {
    if Value(c) == m as real {
      Canonical(c, FromInt(m));
    }
  }

  /** The list [One, c] = `divisors` of a value beyond the factoring limit. */
  lemma SingleFactor(x: int)
    ensures DivisorList([Factor(x, 1)]) == [1, x]
  {
    var f := Factor(x, 1);
    assert [Factor(x, 1)][..0] == [];
    assert DivisorList([f]) == Expand([1], f);
    assert Expand([1], f) == Powers(1, f) + Expand([], f);
    assert Pow(x, 1) == x * Pow(x, 0);
  }

  /** The Consts with the given integer values. */
  function Constants(xs: seq<int>): (r: seq<Const>)
    ensures |r| == |xs| && forall i :: 0 <= i < |xs| ==> Valid(r[i]) && r[i] == Const(xs[i], 1)
  {
    seq(|xs|, i requires 0 <= i < |xs| => FromInt(xs[i]))
  }

  /** `divisors` of a Const, over the factor list `primes` returns (fs).
      A Fraction has none; zero has only 1; an integer beyond the factoring
      limit has 1 and itself; for any other integer every entry divides it
      (and, by DivisorsAreVectorProducts, the entries are the products over
      the exponent vectors of fs). */
  method Divisors(c: Const) returns (ds: seq<Const>, ghost fs: seq<Factor>)
    requires Valid(c)
    ensures ds == Constants(DivisorList(fs))
    ensures c.denominator == 1 ==> PrimesOf(c.numerator, fs)
    ensures c.denominator != 1 ==> ds == []
    ensures c.numerator == 0 ==> ds == [One]
    ensures c.denominator == 1 && Abs(c.numerator) > Limit ==> ds == [One, c]
    ensures forall j :: 0 <= j < |ds| ==> Valid(ds[j]) && ds[j].denominator == 1 && ds[j].numerator != 0
    ensures c.denominator == 1 ==> forall j :: 0 <= j < |ds| ==> c.numerator % ds[j].numerator == 0
  {
    var primes := Primes(c);
    fs := primes;
    ds := Constants(DivisorList(primes));
    if c.denominator != 1 {
      NumeratorNonzero(c);
      FractionHasNegative(c, fs);
      ghost var j :| 0 <= j < |fs| && fs[j].exponent < 0;
      NegativeExponentEmpty(fs, j);
    } else if c.numerator == 0 {
      assert fs == [];
    } else {
      if Abs(c.numerator) > Limit {
        SingleFactor(c.numerator);
      }
      PrimesKeys(c.numerator, fs);
      forall j | 0 <= j < |ds|
        ensures ds[j].numerator != 0 && c.numerator % ds[j].numerator == 0
      {
        DivisorEntry(c.numerator, fs, j);
      }
    }
  }

  /** One entry of DivisorList of an integer's factors divides it. */
  lemma DivisorEntry(n: int, fs: seq<Factor>, j: int)
    requires n != 0 && KeysOf(n, fs) && 0 <= j < |DivisorList(fs)|
    ensures DivisorList(fs)[j] != 0 && n % DivisorList(fs)[j] == 0
  {
    var x := DivisorList(fs)[j];
    DivisorsAreVectorProducts(fs, x);
    var ks :| IsExponentVector(fs, ks) && VectorProduct(fs, ks) == x;
    VectorDivides(fs, ks);
    NonzeroMultipleMod(x, VectorProduct(fs, Complement(fs, ks)));
  }

  lemma NonzeroMultipleMod(d: int, m: int)
    requires d != 0
    ensures (d * m) % d == 0
  {
    if d > 0 {
      MultipleMod(d, m);
    } else {
      assert d * m == (-m) * (-d) + 0;
      DivModUnique(d * m, -d, -m, 0);
      ModNegative(d * m, d);
    }
  }

  /** Dafny's remainder depends only on the divisor's magnitude. */
  lemma ModNegative(x: int, d: int)
    requires d < 0
    ensures x % d == x % (-d)
  {
    var q, r := x / d, x % d;
    assert x == q * d + r && 0 <= r < -d;
    assert x == (-q) * (-d) + r;
    DivModUnique(x, -d, -q, r);
  }

  // ----------------------------------------------------------------- rebuild

  /** The term `c * base**n`. */
  function Term(base: string, c: Const, n: nat): Expr {
    MulNode([ConstNode(c), PowNode(VarNode(base), ConstNode(FromInt(n)))])
  }

  /** `rebuild(base, coeffs)`: the sum of c·base^n, n counting up from the
      last coefficient, as the generator yields it to `Add.from_terms`. */
  function Rebuild(base: string, coeffs: Poly): (r: Expr)
    ensures IsPolynomial(r)
  {
    var args := seq(|coeffs|, n requires 0 <= n < |coeffs| => Term(base, coeffs[|coeffs| - 1 - n], n));
    assert forall k :: 0 <= k < |args| ==> IsPolynomial(args[k]) by {
      forall k | 0 <= k < |args|
        ensures IsPolynomial(args[k])
      {
        assert FromInt(k) == Const(k, 1);
        assert NaturalExponent(ConstNode(FromInt(k)));
      }
    }
    AddNode(args)
  }

  /** Σ Coefficient(s, n)·x^n over the powers n below k. */
  function PowerSum(s: seq<real>, k: nat, x: real): real {
    if k == 0 then 0.0 else PowerSum(s, k - 1, x) + Times(Coefficient(s, k - 1), RPowNat(x, k - 1))
  }

  lemma {:induction false} PowerSumShift(s: seq<real>, k: nat, x: real)
    ensures PowerSum(s, k + 1, x) == Last(s) + Times(x, PowerSum(Init(s), k, x))
  {
    hide *;
    PowerSumNext(s, k, x);
    if k == 0 {
      CoefficientShift(s, 0);
      PowerSumStart(s, x);
      PowerSumStart(Init(s), x);
      TimesZero(x);
    } else {
      PowerSumShift(s, k - 1, x);
      CoefficientShift(s, k - 1);
      PowerSumNext(Init(s), k - 1, x);
      RPowNatNext(x, k - 1);
      ShiftAlgebra(Last(s), x, PowerSum(Init(s), k - 1, x), Coefficient(Init(s), k - 1), RPowNat(x, k - 1));
    }
  }

  lemma PowerSumStart(s: seq<real>, x: real)
    ensures PowerSum(s, 0, x) == 0.0
    ensures PowerSum(s, 1, x) == Coefficient(s, 0)
  {
  }

  lemma RPowNatNext(x: real, k: nat)
    ensures RPowNat(x, k + 1) == Times(x, RPowNat(x, k))
  {
  }

  lemma TimesZero(x: real)
    ensures Times(x, 0.0) == 0.0
  {
  }

  lemma ShiftAlgebra(l: real, x: real, p: real, c: real, y: real)
    ensures (l + Times(x, p)) + Times(c, Times(x, y)) == l + Times(x, p + Times(c, y))
  {
    assert c * (x * y) == x * (c * y);
  }

  /** Horner's rule and the power sum agree. */
  lemma {:induction false} HornerIsPowerSum(s: seq<real>, x: real)
    ensures Eval(s, x) == PowerSum(s, |s|, x)
    decreases |s|
  {
    if |s| > 0 {
      EvalInit(s, x);
      InitShorter(s);
      HornerIsPowerSum(Init(s), x);
      PowerSumShift(s, |s| - 1, x);
      assert Times(x, Eval(Init(s), x)) == Eval(Init(s), x) * x;
    }
  }

  lemma TermValue(base: string, c: Const, n: nat, x: real)
    requires Valid(c)
    ensures EvalAt(Term(base, c, n), base, x) == Some(Times(Value(c), RPowNat(x, n)))
  {
    var pow := PowNode(VarNode(base), ConstNode(FromInt(n)));
    var e := MulNode([ConstNode(c), pow]);
    assert NaturalExponent(ConstNode(FromInt(n)));
    assert Term(base, c, n) == e;
    assert EvalAt(e.args[1], base, x) == Some(RPowNat(x, n));
    assert EvalAt(e.args[0], base, x) == Some(Value(c));
    hide *;
    ProductArguments(e, base, x, Value(c), RPowNat(x, n));
    TimesOne(Value(c), RPowNat(x, n));
    assert EvalAt(Term(base, c, n), base, x) == EvalAt(e, base, x);
  }

  lemma TimesOne(a: real, b: real)
    ensures Times(Times(1.0, a), b) == Times(a, b)
  {
  }

  lemma ProductArguments(e: Expr, v: string, x: real, a: real, b: real)
    requires e.MulNode? && |e.args| == 2
    requires EvalAt(e.args[0], v, x) == Some(a) && EvalAt(e.args[1], v, x) == Some(b)
    ensures EvalAt(e, v, x) == Some(Times(Times(1.0, a), b))
  {
    assert EvalAt(e, v, x) == FoldProduct(e, v, x, 0, 1.0);
    FoldProductStep(e, v, x, 0, 1.0, a);
    FoldProductStep(e, v, x, 1, Times(1.0, a), b);
    FoldProductEnd(e, v, x, Times(Times(1.0, a), b));
  }

  lemma {:induction false} RebuildSum(base: string, coeffs: Poly, x: real, i: nat)
    requires ValidPoly(coeffs) && i <= |coeffs|
    ensures FoldSum(Rebuild(base, coeffs), base, x, i, PowerSum(Values(coeffs), i, x))
      == Some(PowerSum(Values(coeffs), |coeffs|, x))
    decreases |coeffs| - i
  {
    hide *;
    var e := Rebuild(base, coeffs);
    RebuildArgument(base, coeffs, i);
    if i == |coeffs| {
      FoldSumEnd(e, base, x, PowerSum(Values(coeffs), i, x));
    } else {
      var c := coeffs[|coeffs| - 1 - i];
      TermValue(base, c, i, x);
      PowerSumNext(Values(coeffs), i, x);
      FoldSumStep(e, base, x, i, PowerSum(Values(coeffs), i, x), Times(Value(c), RPowNat(x, i)));
      RebuildSum(base, coeffs, x, i + 1);
    }
  }

  /** The shape of the rebuilt tree, one argument at a time. */
  lemma RebuildArgument(base: string, coeffs: Poly, i: nat)
    requires ValidPoly(coeffs) && i <= |coeffs|
    ensures Rebuild(base, coeffs).AddNode? && |Rebuild(base, coeffs).args| == |coeffs|
    ensures i < |coeffs| ==> (Valid(coeffs[|coeffs| - 1 - i])
      && Rebuild(base, coeffs).args[i] == Term(base, coeffs[|coeffs| - 1 - i], i)
      && Coefficient(Values(coeffs), i) == Value(coeffs[|coeffs| - 1 - i]))
  {
  }

  lemma PowerSumNext(s: seq<real>, i: nat, x: real)
    ensures PowerSum(s, i + 1, x) == PowerSum(s, i, x) + Times(Coefficient(s, i), RPowNat(x, i))
  {
  }

  /** The rebuilt tree stands for the polynomial the coefficients list. */
  lemma RebuildValue(base: string, coeffs: Poly, x: real)
    requires ValidPoly(coeffs)
    ensures EvalAt(Rebuild(base, coeffs), base, x) == Some(Eval(Values(coeffs), x))
  {
    RebuildSum(base, coeffs, x, 0);
    HornerIsPowerSum(Values(coeffs), x);
  }

  lemma TermDegree(base: string, c: Const, n: nat, v: Option<string>)
    requires v == None || v == Some(base)
    ensures Degree(Term(base, c, n), v) == Ok(Some(n))
  {
    var pow := PowNode(VarNode(base), ConstNode(FromInt(n)));
    assert Degree(VarNode(base), v) == Ok(Some(1));
    PowDegree(VarNode(base), ConstNode(FromInt(n)), v, 1);
    assert AllDegrees([ConstNode(c), pow], v, [0, n]);
    MulDegree([ConstNode(c), pow], v, [0, n]);
    assert [0, n][..1] == [0] && [0][..0] == [];
  }

  /** The rebuilt tree of a nonempty list is a polynomial whose degree, in
      total and in the base variable, is one less than the list's length. */
  lemma RebuildDegree(base: string, coeffs: Poly, v: Option<string>)
    requires |coeffs| > 0 && (v == None || v == Some(base))
    ensures IsPolynomial(Rebuild(base, coeffs))
    ensures Degree(Rebuild(base, coeffs), v) == Ok(Some(|coeffs| - 1))
  {
    var args := Rebuild(base, coeffs).args;
    var ds: seq<nat> := seq(|coeffs|, n requires 0 <= n < |coeffs| => n);
    forall k | 0 <= k < |args|
      ensures Degree(args[k], v) == Ok(Some(ds[k])) && IsPolynomial(args[k])
    {
      TermDegree(base, coeffs[|coeffs| - 1 - k], k, v);
      assert NaturalExponent(ConstNode(FromInt(k)));
    }
    AddDegree(args, v, ds);
    assert ds[|ds| - 1] == |coeffs| - 1;
  }

  // ---------------------------------------------------------- rational_roots

  /** `next(i for i in reversed(coeffs) if i)`: the last nonzero coefficient.
      When every coefficient is zero the generator is exhausted and
      StopIteration escapes. */
  function LastNonzero(coeffs: Poly): (r: Result<Const>)
    requires ValidPoly(coeffs)
    ensures r.Err? <==> forall i :: 0 <= i < |coeffs| ==> !Truthy(coeffs[i])
    ensures r.Err? ==> r.error == StopIteration
    ensures r.Ok? ==> Valid(r.value) && Truthy(r.value)
    ensures r.Ok? ==> exists k :: (0 <= k < |coeffs| && coeffs[k] == r.value
      && forall j :: k < j < |coeffs| ==> !Truthy(coeffs[j]))
    decreases |coeffs|
  {
    if |coeffs| == 0 then Err(StopIteration)
    else
      var n := |coeffs| - 1;
      if Truthy(coeffs[n]) then Ok(coeffs[n])
      else
        var r := LastNonzero(coeffs[..n]);
        assert forall i :: 0 <= i < n ==> coeffs[..n][i] == coeffs[i];
        r
  }

  /** `product(a, b)`: every pair, the entry of a varying slowest. */
  function Pairs(a: seq<Const>, b: seq<Const>): (r: seq<(Const, Const)>)
    ensures forall k :: 0 <= k < |r| ==> r[k].0 in a && r[k].1 in b
    ensures forall x, y :: x in a && y in b ==> (x, y) in r
  {
    if a == [] then []
    else
      var rest := Pairs(a[1..], b);
      var row := seq(|b|, j requires 0 <= j < |b| => (a[0], b[j]));
      assert forall x, y :: x in a && y in b ==> x == a[0] || x in a[1..];
      assert forall j :: 0 <= j < |b| ==> row[j] == (a[0], b[j]);
      row + rest
  }

  /** The linear factors (1, -root) `rational_roots` records. */
  predicate LinearFactors(roots: seq<Poly>) {
    forall i :: 0 <= i < |roots| ==> |roots[i]| == 2 && roots[i][0] == One && Valid(roots[i][1])
  }

  /** The root a linear factor (1, -root) stands for. */
  function RootOf(factor: Poly): real
    requires |factor| == 2 && Valid(factor[1])
  {
    -Value(factor[1])
  }

  predicate AllValid(ps: seq<Poly>) {
    forall i :: 0 <= i < |ps| ==> ValidPoly(ps[i])
  }

  /** The product of the values of the listed polynomials at x. */
  function ProductAt(ps: seq<Poly>, x: real): real
    requires AllValid(ps)
    decreases |ps|
  {
    if ps == [] then 1.0 else ProductAt(ps[..|ps| - 1], x) * Eval(Values(ps[|ps| - 1]), x)
  }

  predicate Divides(d: int, n: int) {
    d != 0 && n % d == 0
  }

  /** The rational-root candidates: ±d/e with d dividing the last nonzero
      coefficient and e the leading one, both of them integers. */
  ghost predicate Candidate(x: real, q: Const, p: Const) {
    q.denominator == 1 && p.denominator == 1
    && exists d, e :: (Divides(d, q.numerator) && Divides(e, p.numerator)
      && (x == d as real / e as real || x == -(d as real / e as real)))
  }

  /** What the output of `rational_roots` is: linear factors followed by the
      residual coefficients, their product equal to the input at every x. */
  ghost predicate Factored(coeffs: Poly, out: seq<Poly>) {
    |out| >= 1 && AllValid(out) && LinearFactors(out[..|out| - 1])
    && |out[|out| - 1]| + |out| - 1 == |coeffs|
    && ValidPoly(coeffs)
    && forall x :: Eval(Values(coeffs), x) == ProductAt(out, x)
  }

  /** Every recorded factor is at a root of the input that is a candidate,
      and the root was divided out as often as it goes: the residual does
      not vanish there unless it is a constant. */
  ghost predicate RootsFound(coeffs: Poly, out: seq<Poly>, q: Const, p: Const)
    requires Factored(coeffs, out)
  {
    forall i :: 0 <= i < |out| - 1 ==>
      Eval(Values(coeffs), RootOf(out[i])) == 0.0
      && Candidate(RootOf(out[i]), q, p)
      && (|out[|out| - 1]| == 1 || Eval(Values(out[|out| - 1]), RootOf(out[i])) != 0.0)
  }

  /** The loop state of `rational_roots`: the recorded factors times the
      current coefficients give the input, and every recorded root is a
      candidate. */
  ghost predicate Progress(orig: Poly, coeffs: Poly, roots: seq<Poly>, q: Const, p: Const) {
    ValidPoly(orig) && ValidPoly(coeffs) && |coeffs| >= 1 && |coeffs| + |roots| == |orig|
    && AllValid(roots) && LinearFactors(roots)
    && (forall i :: 0 <= i < |roots| ==> Candidate(RootOf(roots[i]), q, p))
    && SameProduct(orig, roots, coeffs)
  }

  /** At every x the input equals the recorded factors times the current
      coefficients. */
  ghost predicate SameProduct(orig: Poly, roots: seq<Poly>, coeffs: Poly)
    requires ValidPoly(orig) && AllValid(roots) && ValidPoly(coeffs)
  {
    forall x :: Eval(Values(orig), x) == ProductAt(roots, x) * Eval(Values(coeffs), x)
  }

  /** No root tried so far is left in the current coefficients. */
  ghost predicate Exhausted(coeffs: Poly, seen: set<Const>)
    requires ValidPoly(coeffs)
  {
    forall r :: r in seen ==> Valid(r) && (|coeffs| == 1 || Eval(Values(coeffs), Value(r)) != 0.0)
  }

  /** Every recorded root was tried. */
  ghost predicate Recorded(roots: seq<Poly>, seen: set<Const>)
    requires LinearFactors(roots)
  {
    forall i :: 0 <= i < |roots| ==> Negate(roots[i][1]) in seen
  }

  /** `rational_roots(coeffs)`. Up to two coefficients come back as they
      are. Otherwise q is the last nonzero coefficient and p the leading
      one; for each pair of their divisors both q/p and -q/p are tried once,
      and each is divided out for as long as the synthetic remainder is
      zero. The output lists the factors (1, -root) and ends with the
      residual coefficients. */
  method RationalRoots(coeffs: Poly) returns (res: Result<seq<Poly>>, ghost fq: seq<Factor>, ghost fp: seq<Factor>)
    requires ValidPoly(coeffs)
    ensures |coeffs| <= 2 ==> res == Ok([coeffs])
    ensures |coeffs| > 2 ==> (res.Err? <==> forall i :: 0 <= i < |coeffs| ==> !Truthy(coeffs[i]))
    ensures res.Err? ==> res.error == StopIteration
    ensures res.Ok? ==> Factored(coeffs, res.value)
    ensures res.Ok? && |coeffs| > 2 ==>
      RootsFound(coeffs, res.value, LastNonzero(coeffs).value, coeffs[0])
    // fq and fp are the factor lists of q and p the divisors come from ...
    ensures res.Ok? && |coeffs| > 2 && LastNonzero(coeffs).value.denominator == 1 ==>
      PrimesOf(LastNonzero(coeffs).value.numerator, fq)
    ensures res.Ok? && |coeffs| > 2 && coeffs[0].denominator == 1 ==> PrimesOf(coeffs[0].numerator, fp)
    // ... and no candidate they give is left a root of the residual
    ensures res.Ok? && |coeffs| > 2 ==>
      NoListedRoot(res.value[|res.value| - 1], Constants(DivisorList(fq)), Constants(DivisorList(fp)))
  {
    hide Eval, Values, ProductAt, Candidate, SameProduct, Factored, RootsFound, Pairs, Tried, NoListedRoot, DivisorList, Constants, PrimesOf;
    if |coeffs| <= 2 {
      SingleFactored(coeffs);
      res, fq, fp := Ok([coeffs]), [], [];
      return;
    }
    var last := LastNonzero(coeffs);
    if last.Err? {
      res, fq, fp := Err(last.error), [], [];
      return;
    }
    var q, p := last.value, coeffs[0];
    var dq, dp;
    dq, fq := Divisors(q);
    dp, fp := Divisors(p);
    var pairs := Pairs(dq, dp);
    var rest, roots, seen := TryPairs(coeffs, q, p, dq, dp, pairs);
    res := Ok(roots + [rest]);
    Finish(coeffs, rest, roots, seen, q, p);
    ProgressMeans(coeffs, rest, roots, q, p);
    NoRootLeft(rest, seen, dq, dp);
    assert res.value[|res.value| - 1] == rest;
  }

  /** The loop over the divisor pairs: it stops once the residual is a
      constant, and otherwise tries both candidates of every pair. */
  method TryPairs(coeffs: Poly, q: Const, p: Const, dq: seq<Const>, dp: seq<Const>, pairs: seq<(Const, Const)>)
    returns (rest: Poly, roots: seq<Poly>, seen: set<Const>)
    requires ValidPoly(coeffs) && |coeffs| >= 1 && Valid(q) && Valid(p)
    requires forall j :: 0 <= j < |dq| ==> Valid(dq[j]) && dq[j].denominator == 1 && dq[j].numerator != 0
    requires forall j :: 0 <= j < |dp| ==> Valid(dp[j]) && dp[j].denominator == 1 && dp[j].numerator != 0
    requires q.denominator != 1 ==> dq == []
    requires p.denominator != 1 ==> dp == []
    requires q.denominator == 1 ==> forall j :: 0 <= j < |dq| ==> q.numerator % dq[j].numerator == 0
    requires p.denominator == 1 ==> forall j :: 0 <= j < |dp| ==> p.numerator % dp[j].numerator == 0
    requires forall k :: 0 <= k < |pairs| ==> pairs[k].0 in dq && pairs[k].1 in dp
    ensures Progress(coeffs, rest, roots, q, p)
    ensures Exhausted(rest, seen) && Recorded(roots, seen)
    ensures |rest| == 1 || forall j :: 0 <= j < |pairs| ==> Tried(pairs[j], seen)
  {
    hide Eval, Values, ProductAt, Candidate, SameProduct, Tried;
    rest, roots, seen := coeffs, [], {};
    StartProgress(coeffs, q, p);
    for k := 0 to |pairs|
      invariant Progress(coeffs, rest, roots, q, p)
      invariant Exhausted(rest, seen) && Recorded(roots, seen)
      invariant forall j :: 0 <= j < k ==> Tried(pairs[j], seen)
    {
      if |rest| == 1 {
        break;
      }
      var (d, e) := pairs[k];
      var r1, r2 := CandidatePair(q, p, d, e, dq, dp);
      ghost var before := seen;
      rest, roots, seen := TryPair(coeffs, rest, roots, seen, q, p, r1, r2);
      TriedGrows(pairs, k, before, seen);
      DivisorFacts(q, d, dq);
      DivisorFacts(p, e, dp);
      TriedIntro(pairs[k], seen, r1, r2);
    }
  }

  /** `for root in (q / p, -q / p)`: each candidate not yet seen is
      marked seen and divided out. */
  method TryPair(ghost orig: Poly, coeffs: Poly, roots: seq<Poly>, seen: set<Const>,
                 ghost q: Const, ghost p: Const, r1: Const, r2: Const)
    returns (rest: Poly, found: seq<Poly>, seen': set<Const>)
    requires Progress(orig, coeffs, roots, q, p) && Exhausted(coeffs, seen) && Recorded(roots, seen)
    requires Valid(r1) && Candidate(Value(r1), q, p) && Valid(r2) && Candidate(Value(r2), q, p)
    ensures Progress(orig, rest, found, q, p)
    ensures Exhausted(rest, seen') && Recorded(found, seen')
    ensures seen' == seen + {r1, r2}
  {
    hide Eval, Values, ProductAt, Candidate, SameProduct;
    var candidates := [r1, r2];
    rest, found, seen' := coeffs, roots, seen;
    for t := 0 to 2
      invariant Progress(orig, rest, found, q, p)
      invariant Exhausted(rest, seen') && Recorded(found, seen')
      invariant t == 0 ==> seen' == seen
      invariant t == 1 ==> seen' == seen + {r1}
      invariant t == 2 ==> seen' == seen + {r1, r2}
    {
      var root := candidates[t];
      if root in seen' {
        continue;
      }
      rest, found := ExtractRoot(orig, rest, found, root, seen', q, p);
      seen' := seen' + {root};
    }
  }

  /** Both candidates of a divisor pair have been tried. */
  ghost predicate Tried(pair: (Const, Const), seen: set<Const>) {
    Valid(pair.0) && Valid(pair.1) && Value(pair.1) != 0.0
    && (exists r :: r in seen && Valid(r) && Value(r) == Value(pair.0) / Value(pair.1))
    && (exists r :: r in seen && Valid(r) && Value(r) == -Value(pair.0) / Value(pair.1))
  }

  /** Neither candidate ±d/e of the listed divisors, d of q and e of p, is a
      root of the residual, unless the residual is a constant. */
  ghost predicate NoListedRoot(residual: Poly, dq: seq<Const>, dp: seq<Const>)
    requires ValidPoly(residual)
  {
    |residual| == 1
    || forall d, e :: d in dq && e in dp && Valid(d) && Valid(e) && Value(e) != 0.0 ==>
      Eval(Values(residual), Value(d) / Value(e)) != 0.0 && Eval(Values(residual), -Value(d) / Value(e)) != 0.0
  }

  lemma TriedGrows(pairs: seq<(Const, Const)>, k: int, before: set<Const>, seen: set<Const>)
    requires 0 <= k <= |pairs| && before <= seen
    requires forall j :: 0 <= j < k ==> Tried(pairs[j], before)
    ensures forall j :: 0 <= j < k ==> Tried(pairs[j], seen)
  {
    hide Value;
  }

  lemma TriedIntro(pair: (Const, Const), seen: set<Const>, r1: Const, r2: Const)
    requires Valid(pair.0) && Valid(pair.1) && pair.1.numerator != 0 && Valid(r1) && Valid(r2)
    requires r1 in seen && Value(r1) == Value(pair.0) / Value(pair.1)
    requires r2 in seen && Value(r2) == -Value(pair.0) / Value(pair.1)
    ensures Tried(pair, seen)
  {
    PositiveDenominator(pair.1);
  }

  /** Once every pair is tried, no listed candidate is a root of a residual
      of more than one coefficient. */
  lemma NoRootLeft(rest: Poly, seen: set<Const>, dq: seq<Const>, dp: seq<Const>)
    requires ValidPoly(rest) && Exhausted(rest, seen)
    requires |rest| == 1 || forall j :: 0 <= j < |Pairs(dq, dp)| ==> Tried(Pairs(dq, dp)[j], seen)
    ensures NoListedRoot(rest, dq, dp)
  {
    hide Eval, Values, Tried, Exhausted;
    var pairs := Pairs(dq, dp);
    if |rest| != 1 {
      forall d, e | d in dq && e in dp && Valid(d) && Valid(e) && Value(e) != 0.0
        ensures Eval(Values(rest), Value(d) / Value(e)) != 0.0 && Eval(Values(rest), -Value(d) / Value(e)) != 0.0
      {
        var j :| 0 <= j < |pairs| && pairs[j] == (d, e);
        assert Tried(Pairs(dq, dp)[j], seen);
        TriedMeans(rest, seen, pairs[j]);
      }
    }
  }
  /** A tried pair leaves neither of its candidates a root. */
  lemma TriedMeans(rest: Poly, seen: set<Const>, pair: (Const, Const))
    requires ValidPoly(rest) && |rest| != 1 && Exhausted(rest, seen) && Tried(pair, seen)
    ensures Eval(Values(rest), Value(pair.0) / Value(pair.1)) != 0.0
    ensures Eval(Values(rest), -Value(pair.0) / Value(pair.1)) != 0.0
  {
    hide Eval, Values;
    var r1 :| r1 in seen && Valid(r1) && Value(r1) == Value(pair.0) / Value(pair.1);
    var r2 :| r2 in seen && Valid(r2) && Value(r2) == -Value(pair.0) / Value(pair.1);
  }

  lemma SingleFactored(coeffs: Poly)
    requires ValidPoly(coeffs)
    ensures Factored(coeffs, [coeffs])
  {
    assert [coeffs][..0] == [];
  }

  lemma StartProgress(coeffs: Poly, q: Const, p: Const)
    requires ValidPoly(coeffs) && |coeffs| >= 1
    ensures Progress(coeffs, coeffs, [], q, p)
  {
  }

  /** q/p and -q/p for one pair of divisors, both candidates. */
  method CandidatePair(q: Const, p: Const, d: Const, e: Const, dq: seq<Const>, dp: seq<Const>)
    returns (r1: Const, r2: Const)
    requires Valid(q) && Valid(p) && d in dq && e in dp
    requires forall j :: 0 <= j < |dq| ==> Valid(dq[j]) && dq[j].denominator == 1 && dq[j].numerator != 0
    requires forall j :: 0 <= j < |dp| ==> Valid(dp[j]) && dp[j].denominator == 1 && dp[j].numerator != 0
    requires q.denominator != 1 ==> dq == []
    requires p.denominator != 1 ==> dp == []
    requires q.denominator == 1 ==> forall j :: 0 <= j < |dq| ==> q.numerator % dq[j].numerator == 0
    requires p.denominator == 1 ==> forall j :: 0 <= j < |dp| ==> p.numerator % dp[j].numerator == 0
    ensures Valid(r1) && Value(r1) == Value(d) / Value(e) && Candidate(Value(r1), q, p)
    ensures Valid(r2) && Value(r2) == -Value(d) / Value(e) && Candidate(Value(r2), q, p)
  {
    hide *;
    PositiveDenominator(d);
    PositiveDenominator(e);
    DivValue(d, e);
    r1 := Div(d, e).value;
    NegateValue(d);
    PositiveDenominator(Negate(d));
    DivValue(Negate(d), e);
    r2 := Div(Negate(d), e).value;
    DivisorFacts(q, d, dq);
    DivisorFacts(p, e, dp);
    IntegerValue(d);
    IntegerValue(e);
    PositiveDenominator(r1);
    PositiveDenominator(r2);
    CandidateIntro(Value(r1), q, p, d.numerator, e.numerator);
    Negation(Value(d), Value(e));
    CandidateIntro(Value(r2), q, p, d.numerator, e.numerator);
  }

  /** An entry of a divisor list, with what Divisors promises of it. */
  lemma DivisorFacts(c: Const, d: Const, ds: seq<Const>)
    requires d in ds
    requires forall j :: 0 <= j < |ds| ==> Valid(ds[j]) && ds[j].denominator == 1 && ds[j].numerator != 0
    requires c.denominator != 1 ==> ds == []
    requires c.denominator == 1 ==> forall j :: 0 <= j < |ds| ==> c.numerator % ds[j].numerator == 0
    ensures Valid(d) && d.denominator == 1 && c.denominator == 1 && Divides(d.numerator, c.numerator)
  {
  }

  lemma CandidateIntro(x: real, q: Const, p: Const, d: int, e: int)
    requires q.denominator == 1 && p.denominator == 1 && Divides(d, q.numerator) && Divides(e, p.numerator)
    requires x == d as real / e as real || x == -(d as real / e as real)
    ensures Candidate(x, q, p)
  {
  }

  lemma Negation(a: real, b: real)
    requires b != 0.0
    ensures -a / b == -(a / b)
  {
  }

  /** The `while True` loop for one root: divide by (x - root) for as long
      as the synthetic remainder is zero, recording (1, -root) each time. */
  method ExtractRoot(ghost orig: Poly, coeffs: Poly, roots: seq<Poly>, root: Const,
                     ghost seen: set<Const>, ghost q: Const, ghost p: Const)
    returns (rest: Poly, found: seq<Poly>)
    requires Progress(orig, coeffs, roots, q, p) && Exhausted(coeffs, seen) && Recorded(roots, seen)
    requires Valid(root) && Candidate(Value(root), q, p)
    ensures Progress(orig, rest, found, q, p)
    ensures Exhausted(rest, seen + {root}) && Recorded(found, seen + {root})
    ensures |found| >= |roots| && found[..|roots|] == roots
    ensures forall i :: |roots| <= i < |found| ==> found[i] == [One, Negate(root)]
  {
    hide Eval, Values, ProductAt, Candidate;
    rest, found := coeffs, roots;
    RecordedGrows(roots, seen, root);
    while true
      invariant Progress(orig, rest, found, q, p)
      invariant Exhausted(rest, seen) && Recorded(found, seen + {root})
      invariant |found| >= |roots| && found[..|roots|] == roots
      invariant forall i :: |roots| <= i < |found| ==> found[i] == [One, Negate(root)]
      decreases |rest|
    {
      if |rest| == 1 {
        ExhaustedConstant(rest, seen, root);
        break;
      }
      var (quot, r) := SyntheticDivide(rest, root).value;
      if Truthy(r) {
        ExhaustedNonzero(rest, seen, root);
        break;
      }
      DivideOut(orig, rest, found, root, q, p);
      ExhaustedQuotient(rest, seen, root);
      RecordedStep(found, seen + {root}, root);
      found := found + [[One, Negate(root)]];
      rest := quot;
    }
  }

  lemma RecordedGrows(roots: seq<Poly>, seen: set<Const>, root: Const)
    requires LinearFactors(roots) && Recorded(roots, seen)
    ensures Recorded(roots, seen + {root})
  {
  }

  lemma RecordedStep(found: seq<Poly>, seen: set<Const>, root: Const)
    requires LinearFactors(found) && Recorded(found, seen) && root in seen && Valid(root)
    ensures LinearFactors(found + [[One, Negate(root)]])
    ensures Recorded(found + [[One, Negate(root)]], seen)
  {
    NegateInvolution(root);
  }

  lemma ExhaustedConstant(rest: Poly, seen: set<Const>, root: Const)
    requires ValidPoly(rest) && |rest| == 1 && Exhausted(rest, seen) && Valid(root)
    ensures Exhausted(rest, seen + {root})
  {
  }

  lemma ExhaustedNonzero(rest: Poly, seen: set<Const>, root: Const)
    requires ValidPoly(rest) && |rest| >= 1 && Exhausted(rest, seen) && Valid(root)
    requires Truthy(SyntheticDivide(rest, root).value.1)
    ensures Exhausted(rest, seen + {root})
  {
    SyntheticRemainder(rest, root);
  }

  /** Dividing out a root keeps every other tried root out. */
  lemma ExhaustedQuotient(rest: Poly, seen: set<Const>, root: Const)
    requires ValidPoly(rest) && |rest| >= 2 && Exhausted(rest, seen) && Valid(root)
    requires !Truthy(SyntheticDivide(rest, root).value.1)
    ensures ValidPoly(SyntheticDivide(rest, root).value.0)
    ensures Exhausted(SyntheticDivide(rest, root).value.0, seen)
  {
    var (quot, rem) := SyntheticDivide(rest, root).value;
    forall r | r in seen && |quot| != 1
      ensures Eval(Values(quot), Value(r)) != 0.0
    {
      FactorTheorem(rest, root, Value(r));
      PositiveDenominator(rem);
    }
  }

  /** The value of a recorded factor (1, -root) at x is x - root. */
  lemma LinearEval(f: Poly, x: real)
    requires |f| == 2 && f[0] == One && Valid(f[1])
    ensures ValidPoly(f) && Eval(Values(f), x) == x - RootOf(f)
  {
    assert Valid(One) by { GcdOne(1); }
    EvalValues(f, x);
    EvalValues(f[..1], x);
    EvalEmpty(f[..0], x);
  }

  lemma ProductSnoc(ps: seq<Poly>, f: Poly, x: real)
    requires AllValid(ps) && ValidPoly(f) && AllValid(ps + [f])
    ensures ProductAt(ps + [f], x) == ProductAt(ps, x) * Eval(Values(f), x)
  {
    hide Eval, Values;
    assert (ps + [f])[..|ps|] == ps;
  }

  lemma {:induction false} ProductVanishes(ps: seq<Poly>, i: int, x: real)
    requires AllValid(ps) && 0 <= i < |ps| && Eval(Values(ps[i]), x) == 0.0
    ensures ProductAt(ps, x) == 0.0
    decreases |ps|
  {
    var n := |ps| - 1;
    if i < n {
      assert ps[..n][i] == ps[i];
      ProductVanishes(ps[..n], i, x);
    }
  }

  /** One division by (x - root) with a zero remainder keeps the loop state. */
  lemma DivideOut(orig: Poly, rest: Poly, found: seq<Poly>, root: Const, q: Const, p: Const)
    requires Progress(orig, rest, found, q, p) && |rest| >= 2
    requires Valid(root) && Candidate(Value(root), q, p)
    requires !Truthy(SyntheticDivide(rest, root).value.1)
    ensures Progress(orig, SyntheticDivide(rest, root).value.0, found + [[One, Negate(root)]], q, p)
  {
    hide *;
    ProgressMeans(orig, rest, found, q, p);
    var (quot, rem) := SyntheticDivide(rest, root).value;
    SyntheticShape(rest, root);
    PositiveDenominator(root);
    PositiveDenominator(rem);
    var f := [One, Negate(root)];
    var found' := found + [f];
    LinearFactor(root);
    FactorsSnoc(found, f, q, p);
    AllValidSnoc(found, f);
    forall x
      ensures Eval(Values(orig), x) == ProductAt(found', x) * Eval(Values(quot), x)
    {
      SameProductAt(orig, found, rest, x);
      FactorTheorem(rest, root, x);
      LinearEval(f, x);
      ProductSnoc(found, f, x);
      Associate(ProductAt(found, x), x - Value(root), Eval(Values(quot), x), Value(rem));
    }
    SameProductIntro(orig, found', quot);
    ProgressIntro(orig, quot, found', q, p);
  }

  lemma SameProductAt(orig: Poly, roots: seq<Poly>, coeffs: Poly, x: real)
    requires ValidPoly(orig) && AllValid(roots) && ValidPoly(coeffs) && SameProduct(orig, roots, coeffs)
    ensures Eval(Values(orig), x) == ProductAt(roots, x) * Eval(Values(coeffs), x)
  {
    hide Eval, Values, ProductAt;
  }

  lemma SameProductIntro(orig: Poly, roots: seq<Poly>, coeffs: Poly)
    requires ValidPoly(orig) && AllValid(roots) && ValidPoly(coeffs)
    requires forall x :: Eval(Values(orig), x) == ProductAt(roots, x) * Eval(Values(coeffs), x)
    ensures SameProduct(orig, roots, coeffs)
  {
  }

  lemma AllValidSnoc(ps: seq<Poly>, f: Poly)
    requires AllValid(ps) && ValidPoly(f)
    ensures AllValid(ps + [f])
  {
    assert forall i :: 0 <= i < |ps| ==> (ps + [f])[i] == ps[i];
  }

  /** The factor (1, -root) recorded for root. */
  lemma LinearFactor(root: Const)
    requires Valid(root)
    ensures |[One, Negate(root)]| == 2 && [One, Negate(root)][0] == One && Valid(Negate(root))
    ensures ValidPoly([One, Negate(root)]) && RootOf([One, Negate(root)]) == Value(root)
  {
    assert Valid(One) by { GcdOne(1); }
    NegateValue(root);
  }

  /** Appending a recorded factor keeps the factors well formed. */
  lemma FactorsSnoc(found: seq<Poly>, f: Poly, q: Const, p: Const)
    requires AllValid(found) && LinearFactors(found) && ValidPoly(f)
    requires |f| == 2 && f[0] == One && Valid(f[1])
    requires forall i :: 0 <= i < |found| ==> Candidate(RootOf(found[i]), q, p)
    requires Candidate(RootOf(f), q, p)
    ensures AllValid(found + [f]) && LinearFactors(found + [f])
    ensures forall i :: 0 <= i < |found + [f]| ==> Candidate(RootOf((found + [f])[i]), q, p)
  {
    assert forall i :: 0 <= i < |found| ==> (found + [f])[i] == found[i];
  }

  lemma ProgressMeans(orig: Poly, coeffs: Poly, roots: seq<Poly>, q: Const, p: Const)
    requires Progress(orig, coeffs, roots, q, p)
    ensures ValidPoly(orig) && ValidPoly(coeffs) && |coeffs| >= 1 && |coeffs| + |roots| == |orig|
    ensures AllValid(roots) && LinearFactors(roots)
    ensures forall i :: 0 <= i < |roots| ==> Candidate(RootOf(roots[i]), q, p)
    ensures SameProduct(orig, roots, coeffs)
  {
  }

  lemma ProgressIntro(orig: Poly, coeffs: Poly, roots: seq<Poly>, q: Const, p: Const)
    requires ValidPoly(orig) && ValidPoly(coeffs) && |coeffs| >= 1 && |coeffs| + |roots| == |orig|
    requires AllValid(roots) && LinearFactors(roots)
    requires forall i :: 0 <= i < |roots| ==> Candidate(RootOf(roots[i]), q, p)
    requires SameProduct(orig, roots, coeffs)
    ensures Progress(orig, coeffs, roots, q, p)
  {
  }

  lemma Associate(a: real, b: real, c: real, z: real)
    requires z == 0.0
    ensures a * (b * c + z) == (a * b) * c
  {
  }

  /** The loop's end state is the promised output. */
  lemma Finish(coeffs: Poly, rest: Poly, roots: seq<Poly>, seen: set<Const>, q: Const, p: Const)
    requires Progress(coeffs, rest, roots, q, p) && Exhausted(rest, seen) && Recorded(roots, seen)
    ensures Factored(coeffs, roots + [rest])
    ensures RootsFound(coeffs, roots + [rest], q, p)
  {
    hide *;
    ProgressMeans(coeffs, rest, roots, q, p);
    var out := roots + [rest];
    assert out[..|out| - 1] == roots && out[|out| - 1] == rest;
    AllValidSnoc(roots, rest);
    forall x
      ensures Eval(Values(coeffs), x) == ProductAt(out, x)
    {
      SameProductAt(coeffs, roots, rest, x);
      ProductSnoc(roots, rest, x);
    }
    FactoredIntro(coeffs, out);
    forall i | 0 <= i < |roots|
      ensures Eval(Values(coeffs), RootOf(roots[i])) == 0.0
      ensures |rest| == 1 || Eval(Values(rest), RootOf(roots[i])) != 0.0
    {
      LinearEntry(roots, i);
      var x := RootOf(roots[i]);
      LinearEval(roots[i], x);
      ProductVanishes(roots, i, x);
      TriedRoot(rest, roots, seen, i);
    }
    RootsFoundIntro(coeffs, roots, rest, q, p);
  }

  lemma LinearEntry(roots: seq<Poly>, i: int)
    requires LinearFactors(roots) && 0 <= i < |roots|
    ensures |roots[i]| == 2 && roots[i][0] == One && Valid(roots[i][1])
  {
  }

  /** A recorded root was tried, so the residual does not vanish there. */
  lemma TriedRoot(rest: Poly, roots: seq<Poly>, seen: set<Const>, i: int)
    requires ValidPoly(rest) && LinearFactors(roots) && Exhausted(rest, seen) && Recorded(roots, seen)
    requires 0 <= i < |roots|
    ensures |rest| == 1 || Eval(Values(rest), RootOf(roots[i])) != 0.0
  {
    NegateValue(roots[i][1]);
  }

  lemma FactoredIntro(coeffs: Poly, out: seq<Poly>)
    requires |out| >= 1 && AllValid(out) && LinearFactors(out[..|out| - 1])
    requires |out[|out| - 1]| + |out| - 1 == |coeffs| && ValidPoly(coeffs)
    requires forall x :: Eval(Values(coeffs), x) == ProductAt(out, x)
    ensures Factored(coeffs, out)
  {
  }

  lemma RootsFoundIntro(coeffs: Poly, roots: seq<Poly>, rest: Poly, q: Const, p: Const)
    requires Factored(coeffs, roots + [rest]) && LinearFactors(roots)
    requires forall i :: 0 <= i < |roots| ==> Candidate(RootOf(roots[i]), q, p)
    requires forall i :: 0 <= i < |roots| ==>
      Eval(Values(coeffs), RootOf(roots[i])) == 0.0
      && (|rest| == 1 || Eval(Values(rest), RootOf(roots[i])) != 0.0)
    ensures RootsFound(coeffs, roots + [rest], q, p)
  {
    var out := roots + [rest];
    assert out[|out| - 1] == rest;
    assert forall i :: 0 <= i < |roots| ==> out[i] == roots[i];
  }
}
