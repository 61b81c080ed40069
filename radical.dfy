/** `simplify_radical` (utils/numeric.py): rewrites scale · n^(1/root) as
    c · v^(1/r), pulling whole powers of the primes of n out of the radical
    and reducing the root by the gcd of the root and the exponents. */
module Radicals {
  import opened Arith
  import opened Exact
  import opened Numeric

  /** The tuple `(c, v, exp)`, read as c · v^exp with exp = 1/r. Python's
      complex coefficient `scale * 1j` (a square root of a negative number)
      is held as the real `coefficient` with `imaginary` set. */
  datatype Radical = Radical(coefficient: Const, imaginary: bool, radicand: Const, index: Const)

  /** The factor i² = -1 contributes when the coefficient is imaginary. */
  function Sign(imaginary: bool): real {
    if imaginary then -1.0 else 1.0
  }

  /** `math.gcd(root, *exponents)`, folded from the left. */
  function ExponentGcd(root: nat, fs: seq<Factor>): nat {
    if fs == [] then root
    else Gcd(ExponentGcd(root, fs[..|fs| - 1]), Abs(fs[|fs| - 1].exponent))
  }

  /** The gcd is positive and divides the root and every exponent. */
  lemma {:induction false} ExponentGcdDivides(root: nat, fs: seq<Factor>)
    requires root > 0
    ensures ExponentGcd(root, fs) > 0 && root % ExponentGcd(root, fs) == 0
    ensures forall j :: 0 <= j < |fs| ==> fs[j].exponent % ExponentGcd(root, fs) == 0
    decreases |fs|
  {
    if fs != [] {
      var p := fs[..|fs| - 1];
      var e := fs[|fs| - 1].exponent;
      var a := ExponentGcd(root, p);
      var g := ExponentGcd(root, fs);
      ExponentGcdDivides(root, p);
      GcdDivides(a, Abs(e));
      assert g == Gcd(a, Abs(e));
      DividesTransitive(g, a, root);
      forall j | 0 <= j < |fs|
        ensures fs[j].exponent % g == 0
      {
        if j < |p| {
          assert p[j] == fs[j];
          DividesTransitive(g, a, fs[j].exponent);
        } else {
          SignedDivides(e, g);
        }
      }
    }
  }

  lemma SignedDivides(e: int, g: int)
    requires g > 0 && Abs(e) % g == 0
    ensures e % g == 0
  {
    if e < 0 {
      var k := Abs(e) / g;
      assert e == g * (-k);
      MultipleMod(g, -k);
    }
  }

  /** Every exponent floor-divided by d: `exp // d`. */
  function Quotients(fs: seq<Factor>, d: int): seq<Factor>
    requires d != 0
  {
    seq(|fs|, i requires 0 <= i < |fs| => Factor(fs[i].base, FloorDiv(fs[i].exponent, d)))
  }

  /** Every exponent reduced modulo d, Python style: `exp % d`. */
  function Remainders(fs: seq<Factor>, d: int): seq<Factor>
    requires d != 0
  {
    seq(|fs|, i requires 0 <= i < |fs| => Factor(fs[i].base, PyMod(fs[i].exponent, d)))
  }

  lemma SplitSnoc(fs: seq<Factor>, d: int, k: nat)
    requires d != 0 && k < |fs|
    ensures Quotients(fs[..k + 1], d) == Quotients(fs[..k], d) + [Factor(fs[k].base, FloorDiv(fs[k].exponent, d))]
    ensures Remainders(fs[..k + 1], d) == Remainders(fs[..k], d) + [Factor(fs[k].base, PyMod(fs[k].exponent, d))]
  {
  }

  lemma SplitKeepsBases(fs: seq<Factor>, d: int)
    requires d != 0 && NonzeroBases(fs)
    ensures NonzeroBases(Quotients(fs, d)) && NonzeroBases(Remainders(fs, d))
  {
  }

  /** A product whose exponents are all zero is 1. */
  lemma {:induction false} UnitProduct(fs: seq<Factor>)
    requires NonzeroBases(fs)
    requires forall j :: 0 <= j < |fs| ==> fs[j].exponent == 0
    ensures RProduct(fs) == 1.0
    decreases |fs|
  {
    if fs != [] {
      UnitProduct(fs[..|fs| - 1]);
    }
  }

  /** An exponent the divisor divides leaves no remainder. */
  lemma ExactRemainders(fs: seq<Factor>, d: int)
    requires d > 0
    requires forall j :: 0 <= j < |fs| ==> fs[j].exponent % d == 0
    ensures forall j :: 0 <= j < |Remainders(fs, d)| ==> Remainders(fs, d)[j].exponent == 0
  {
  }

  /** Real multiplication as a named operation: the product identities below
      are argued by replacing equal factors, a factor at a time. */
  function Times(a: real, b: real): real {
    a * b
  }

  /** The exact real identity behind `divmod`: p^e = (p^(e div r))^r · p^(e mod r),
      taken over all entries. */
  lemma {:induction false} SplitProduct(fs: seq<Factor>, r: nat)
    requires r >= 1 && NonzeroBases(fs)
    ensures NonzeroBases(Quotients(fs, r)) && NonzeroBases(Remainders(fs, r))
    ensures Times(RPowNat(RProduct(Quotients(fs, r)), r), RProduct(Remainders(fs, r))) == RProduct(fs)
    decreases |fs|
  {
    SplitKeepsBases(fs, r);
    if fs == [] {
      assert Quotients(fs, r) == [] && Remainders(fs, r) == [];
      OnePower(r);
    } else {
      var n := |fs| - 1;
      var p := fs[..n];
      var b, e := fs[n].base, fs[n].exponent;
      var q, m := FloorDiv(e, r), PyMod(e, r);
      SplitProduct(p, r);
      SplitSnoc(fs, r, n);
      assert fs[..n + 1] == fs && p + [fs[n]] == fs;
      SnocTimes(Quotients(p, r), Factor(b, q));
      SnocTimes(Remainders(p, r), Factor(b, m));
      SnocTimes(p, fs[n]);
      DivModSum(e, r);
      SplitStep(RProduct(Quotients(fs, r)), RProduct(Quotients(p, r)), RPow(b as real, q),
                RProduct(Remainders(fs, r)), RProduct(Remainders(p, r)), RPow(b as real, m),
                RProduct(p), RPow(b as real, e), b as real, e, q, m, r);
    }
  }

  lemma SnocTimes(fs: seq<Factor>, f: Factor)
    requires NonzeroBases(fs) && f.base != 0
    ensures NonzeroBases(fs + [f])
    ensures Times(RProduct(fs), RPow(f.base as real, f.exponent)) == RProduct(fs + [f])
  {
    RProductSnoc(fs, f);
  }

  /** One entry of `SplitProduct`: with t = w · b^q, s = rest · b^m,
      P = w^r · rest and e = q·r + m, t^r · s = P · b^e. */
  lemma SplitStep(t: real, w: real, x: real, s: real, rest: real, y: real, p: real, z: real,
                  b: real, e: int, q: int, m: int, r: nat)
    requires b != 0.0 && x == RPow(b, q) && y == RPow(b, m) && z == RPow(b, e)
    requires Times(w, x) == t && Times(rest, y) == s && Times(RPowNat(w, r), rest) == p && e == q * r + m
    ensures Times(RPowNat(t, r), s) == Times(p, z)
  {
    hide *;
    MulBaseAt(w, x, t, r);
    RPowMulExp(b, q, r);
    RPowUnfold(x, r);
    RPowSum(b, q * r, m, e);
    Interchange(RPowNat(w, r), RPowNat(x, r), rest, y);
  }

  lemma MulBaseAt(x: real, y: real, t: real, e: nat)
    requires Times(x, y) == t
    ensures Times(RPowNat(x, e), RPowNat(y, e)) == RPowNat(t, e)
  {
    RPowNatMulBase(x, y, e);
  }

  lemma RPowSum(b: real, k: int, m: int, e: int)
    requires b != 0.0 && e == k + m
    ensures Times(RPow(b, k), RPow(b, m)) == RPow(b, e)
  {
    RPowAdd(b, k, m);
  }

  lemma Interchange(a: real, b: real, c: real, d: real)
    ensures Times(Times(a, b), Times(c, d)) == Times(Times(a, c), Times(b, d))
  {
  }

  lemma {:induction false} OnePower(e: nat)
    ensures RPowNat(1.0, e) == 1.0
  {
    if e > 0 {
      OnePower(e - 1);
    }
  }

  lemma PowerOne(x: real)
    ensures RPowNat(x, 1) == x
  {
    assert RPowNat(x, 0) == 1.0;
  }

  /** An odd power keeps the sign: (-x)^e = -(x^e), for y = -x. */
  lemma {:induction false} OddPower(x: real, y: real, e: nat)
    requires e % 2 == 1 && y == -x
    ensures RPowNat(y, e) == -RPowNat(x, e)
    decreases e
  {
    if e == 1 {
      PowerOne(x);
      PowerOne(y);
    } else {
      OddPower(x, y, e - 2);
      var t, u := RPowNat(x, e - 2), RPowNat(y, e - 2);
      assert RPowNat(y, e) == y * (y * u);
      assert RPowNat(x, e) == x * (x * t);
      NegTwice(x, y, t, u);
    }
  }

  lemma NegTwice(x: real, y: real, t: real, u: real)
    requires u == -t && y == -x
    ensures y * (y * u) == -(x * (x * t))
  {
  }

  /** Combines the split and the gcd reduction with the scale:
      t^(r·g) · v^g = s^(r·g) · n, when t = c0·s, c0^r · v = P and P^g = n. */
  lemma RadicalIdentity(t: real, c0: real, v: real, s: real, p: real, n: real, r: nat, g: nat, root: nat)
    requires root == r * g && Times(c0, s) == t && Times(RPowNat(c0, r), v) == p && RPowNat(p, g) == n
    ensures Times(RPowNat(t, root), RPowNat(v, g)) == Times(RPowNat(s, root), n)
  {
    hide *;
    MulBaseAt(RPowNat(c0, r), v, p, g);
    PowerOfPower(c0, r, g, root);
    MulBaseAt(c0, s, t, root);
    Swap(RPowNat(t, root), RPowNat(c0, root), RPowNat(s, root), RPowNat(v, g), n);
  }

  lemma PowerOfPower(x: real, r: nat, g: nat, k: nat)
    requires k == r * g
    ensures RPowNat(RPowNat(x, r), g) == RPowNat(x, k)
  {
    RPowNatMulExp(x, r, g);
  }

  lemma Swap(t: real, a: real, b: real, c: real, n: real)
    requires Times(a, b) == t && Times(a, c) == n
    ensures Times(t, c) == Times(b, n)
  {
  }

  lemma TimesOne(a: real)
    ensures Times(a, 1.0) == a
  {
  }

  lemma MulTimes(a: Const, b: Const)
    requires a.denominator > 0 && b.denominator > 0
    ensures Times(Value(a), Value(b)) == Value(Mul(a, b))
  {
    MulValue(a, b);
  }

  lemma DivModSum(e: int, r: int)
    requires r > 0
    ensures e == FloorDiv(e, r) * r + PyMod(e, r)
  {
  }

  lemma UnitFractionValid(r: int)
    requires r >= 1
    ensures Valid(Const(1, r))
  {
    GcdOne(r);
    GcdCommutes(1, r);
  }

  lemma QuotientOfProduct(root: int, r: int, g: int)
    requires r >= 1 && g >= 1 && root == r * g
    ensures root / r == g
  {
    DivModUnique(root, r, g, 0);
  }

  /** `p ** e` for the integer key p: a nonzero base never raises. */
  function PrimePower(p: int, e: int): (r: Const)
    requires p != 0
    ensures Valid(r) && Value(r) == RPow(p as real, e)
  {
    PowerValue(FromInt(p), e);
    Power(FromInt(p), e).value
  }

  /** The root reduction of `simplify_radical`: when the factorisation is
      nonempty and cd = gcd(root, exponents) exceeds 1, `root //= cd` and every
      exponent is floor-divided by cd in place. The product of the new entries
      raised to cd is the old product. */
  method ReduceRoot(factors: seq<Factor>, root: int) returns (reduced: seq<Factor>, r: int, cd: int)
    requires root >= 1 && NonzeroBases(factors)
    ensures cd == (if factors != [] && ExponentGcd(root, factors) > 1 then ExponentGcd(root, factors) else 1)
    ensures cd >= 1 && r >= 1 && root == r * cd
    ensures reduced == (if cd > 1 then Quotients(factors, cd) else factors)
    ensures NonzeroBases(reduced) && RPowNat(RProduct(reduced), cd) == RProduct(factors)
  {
    reduced, r, cd := factors, root, 1;
    if |reduced| > 0 {
      var g := ExponentGcd(root, reduced);
      ExponentGcdDivides(root, factors);
      if g > 1 {
        cd := g;
        r := root / cd;
        ExactDivision(root, cd);
        for k := 0 to |reduced|
          invariant |reduced| == |factors|
          invariant forall j :: 0 <= j < |factors| ==>
            reduced[j] == (if j < k then Factor(factors[j].base, FloorDiv(factors[j].exponent, cd)) else factors[j])
        {
          reduced := reduced[k := Factor(reduced[k].base, FloorDiv(reduced[k].exponent, cd))];
        }
        assert reduced == Quotients(factors, cd);
        SplitProduct(factors, cd);
        ExactRemainders(factors, cd);
        UnitProduct(Remainders(factors, cd));
        TimesOne(RPowNat(RProduct(reduced), cd));
        return;
      }
    }
    PowerOne(RProduct(factors));
  }

  /** The `divmod` loop: c collects p^(e div r) and v collects p^(e mod r). */
  method SplitExponents(factors: seq<Factor>, r: int) returns (c: Const, v: Const)
    requires r >= 1 && NonzeroBases(factors)
    ensures NonzeroBases(Quotients(factors, r)) && NonzeroBases(Remainders(factors, r))
    ensures Valid(c) && Value(c) == RProduct(Quotients(factors, r))
    ensures Valid(v) && Value(v) == RProduct(Remainders(factors, r))
  {
    c := One;
    v := One;
    SplitKeepsBases(factors, r);
    assert factors[..0] == [];
    for k := 0 to |factors|
      invariant NonzeroBases(Quotients(factors[..k], r)) && NonzeroBases(Remainders(factors[..k], r))
      invariant Valid(c) && Value(c) == RProduct(Quotients(factors[..k], r))
      invariant Valid(v) && Value(v) == RProduct(Remainders(factors[..k], r))
    {
      var whole, remainder := FloorDiv(factors[k].exponent, r), PyMod(factors[k].exponent, r);
      var p := factors[k].base;
      SplitSnoc(factors, r, k);
      SnocTimes(Quotients(factors[..k], r), Factor(p, whole));
      SnocTimes(Remainders(factors[..k], r), Factor(p, remainder));
      var pw, pr := PrimePower(p, whole), PrimePower(p, remainder);
      MulTimes(c, pw);
      MulTimes(v, pr);
      c := Mul(c, pw);
      v := Mul(v, pr);
    }
    assert factors[..|factors|] == factors;
  }

  /** The main path of `simplify_radical` for positive n: factorise, reduce
      the root, split the exponents and multiply the coefficient by the scale.
      `fs` is the factorisation of n and cd the gcd the root was divided by. */
  method PositiveRadical(n: Const, root: int, scale: Const) returns (c: Const, v: Const, r: int, cd: int, ghost fs: seq<Factor>)
    requires Valid(n) && Valid(scale) && n.numerator > 0 && root >= 1
    ensures Valid(c) && Valid(v)
    ensures NonzeroBases(fs) && RProduct(fs) == Value(n)
    ensures cd == (if fs != [] && ExponentGcd(root, fs) > 1 then ExponentGcd(root, fs) else 1)
    ensures r >= 1 && cd >= 1 && root == r * cd
    ensures r == 1 ==> Value(v) == 1.0
    ensures Times(RPowNat(Value(c), root), RPowNat(Value(v), cd)) == Times(RPowNat(Value(scale), root), Value(n))
  {
    var factors := Primes(n);
    fs := factors;
    var reduced;
    reduced, r, cd := ReduceRoot(factors, root);
    var c0;
    c0, v := SplitExponents(reduced, r);
    SplitProduct(reduced, r);
    if r == 1 {
      ExactRemainders(reduced, 1);
      UnitProduct(Remainders(reduced, 1));
    }
    MulTimes(c0, scale);
    c := Mul(c0, scale);
    RadicalIdentity(Value(c), Value(c0), Value(v), Value(scale), RProduct(reduced), Value(n), r, cd, root);
  }

  /** The claim `simplify_radical` makes about its result (c, v, 1/r):
      (±) c^root · v^(root/r) = scale^root · n, where the minus sign is the
      i² of an imaginary coefficient. */
  predicate Represents(res: Radical, n: Const, root: nat, scale: Const) {
    res.coefficient.denominator > 0 && res.radicand.denominator > 0
    && n.denominator > 0 && scale.denominator > 0
    && res.index.numerator == 1 && res.index.denominator >= 1 && root % res.index.denominator == 0
    && Times(Times(Sign(res.imaginary), RPowNat(Value(res.coefficient), root)),
             RPowNat(Value(res.radicand), root / res.index.denominator))
       == Times(RPowNat(Value(scale), root), Value(n))
  }

  lemma RepresentsIntro(res: Radical, n: Const, root: nat, scale: Const, r: int, g: int,
                        c: real, v: real, s: real, x: real)
    requires res.coefficient.denominator > 0 && res.radicand.denominator > 0
    requires n.denominator > 0 && scale.denominator > 0
    requires res.index == Const(1, r) && r >= 1 && g >= 1 && root == r * g
    requires c == Value(res.coefficient) && v == Value(res.radicand) && s == Value(scale) && x == Value(n)
    requires Times(Times(Sign(res.imaginary), RPowNat(c, root)), RPowNat(v, g)) == Times(RPowNat(s, root), x)
    ensures Represents(res, n, root, scale)
  {
    QuotientOfProduct(root, r, g);
    MultipleMod(r, g);
    assert root / res.index.denominator == g;
  }

  lemma PositiveCase(a: real, b: real, rs: real, x: real)
    requires Times(a, b) == Times(rs, x)
    ensures Times(Times(Sign(false), a), b) == Times(rs, x)
  {
  }

  lemma OddCase(a: real, b: real, s: real, s2: real, m: real, x: real, root: nat)
    requires s2 == -s && m == -x && root % 2 == 1 && Times(a, b) == Times(RPowNat(s2, root), m)
    ensures Times(Times(Sign(false), a), b) == Times(RPowNat(s, root), x)
  {
    OddPower(s, s2, root);
    NegNeg(RPowNat(s2, root), RPowNat(s, root), m, x);
  }

  lemma NegNeg(p: real, p2: real, m: real, x: real)
    requires p == -p2 && m == -x
    ensures Times(p, m) == Times(p2, x)
  {
  }

  lemma SquareCase(a: real, b: real, rs: real, m: real, x: real)
    requires m == -x && Times(a, b) == Times(rs, m)
    ensures Times(Times(Sign(true), a), b) == Times(rs, x)
  {
  }

  lemma SameRootCase(a: real, v: real, v2: real, rs: real, m: real, x: real, cd: int)
    requires cd == 1 && v2 == -v && m == -x && Times(a, RPowNat(v, cd)) == Times(rs, m)
    ensures Times(Times(Sign(false), a), RPowNat(v2, 1)) == Times(rs, x)
  {
    PowerOne(v);
    PowerOne(v2);
  }

  lemma UnitRootCase(a: real, v: real, v2: real, rs: real, m: real, x: real, cd: nat)
    requires v == 1.0 && v2 == -v && m == -x && Times(a, RPowNat(v, cd)) == Times(rs, m)
    ensures Times(Times(Sign(false), a), RPowNat(v2, 1)) == Times(rs, x)
  {
    OnePower(cd);
    PowerOne(v2);
  }

  lemma KeepCase(rs: real, x: real, x2: real)
    requires x2 == x
    ensures Times(Times(Sign(false), rs), RPowNat(x2, 1)) == Times(rs, x)
  {
    PowerOne(x2);
  }

  lemma ZeroCase(s: real, one: real, root: nat)
    requires root >= 1 && one == 1.0
    ensures Times(Times(Sign(false), RPowNat(0.0, root)), RPowNat(one, root)) == Times(RPowNat(s, root), 0.0)
  {
    ZeroPower(root);
  }

  lemma RootOneCase(t: real, x: real, s: real, one: real)
    requires Times(x, s) == t && one == 1.0
    ensures Times(Times(Sign(false), RPowNat(t, 1)), RPowNat(one, 1)) == Times(RPowNat(s, 1), x)
  {
    PowerOne(t);
    PowerOne(one);
    PowerOne(s);
  }

  lemma ZeroPower(e: nat)
    requires e >= 1
    ensures RPowNat(0.0, e) == 0.0
  {
    assert RPowNat(0.0, e) == 0.0 * RPowNat(0.0, e - 1);
  }

  /** `simplify_radical(n, root, scale)`, with root 1 returning n · scale.
      For a negative n an odd root negates the scale, a square root makes
      the coefficient imaginary, and any other even root reduces |n| and keeps
      the sign in the radicand. */
  method SimplifyRadical(n: Const, root: int, scale: Const) returns (res: Radical)
    requires Valid(n) && Valid(scale) && root >= 1
    ensures Valid(res.coefficient) && Valid(res.radicand) && Valid(res.index)
    ensures res.imaginary <==> n.numerator < 0 && root == 2
    ensures n.numerator == 0 ==> res == Radical(n, false, One, One)
    ensures Represents(res, n, root, scale)
  {
    UnitFractionValid(1);
    UnitFractionValid(root);
    if n.numerator == 0 {
      ZeroValue(n);
      res := Radical(n, false, One, One);
      ZeroCase(Value(scale), Value(One), root);
      RepresentsIntro(res, n, root, scale, 1, root, Value(n), Value(One), Value(scale), Value(n));
      return;
    }
    if root == 1 {
      MulTimes(n, scale);
      res := Radical(Mul(n, scale), false, One, One);
      RootOneCase(Value(Mul(n, scale)), Value(n), Value(scale), Value(One));
      RepresentsIntro(res, n, root, scale, 1, 1, Value(Mul(n, scale)), Value(One), Value(scale), Value(n));
      return;
    }
    if n.numerator < 0 {
      res := NegativeRadical(n, root, scale);
    } else {
      var c, v, r, cd, _ := PositiveRadical(n, root, scale);
      UnitFractionValid(r);
      res := Radical(c, false, v, Const(1, r));
      PositiveCase(RPowNat(Value(c), root), RPowNat(Value(v), cd), RPowNat(Value(scale), root), Value(n));
      RepresentsIntro(res, n, root, scale, r, cd, Value(c), Value(v), Value(scale), Value(n));
    }
  }

  /** The branch of `simplify_radical` for a negative n: `n *= -1`, then an odd
      root negates the scale and a square root makes it imaginary. */
  method NegativeRadical(n: Const, root: int, scale: Const) returns (res: Radical)
    requires Valid(n) && Valid(scale) && root >= 2 && n.numerator < 0
    ensures Valid(res.coefficient) && Valid(res.radicand) && Valid(res.index)
    ensures res.imaginary <==> root == 2
    ensures Represents(res, n, root, scale)
  {
    var m := Negate(n);
    NegateValue(n);
    if root % 2 == 1 {
      var s := Negate(scale);
      NegateValue(scale);
      var c, v, r, cd, _ := PositiveRadical(m, root, s);
      UnitFractionValid(r);
      res := Radical(c, false, v, Const(1, r));
      OddCase(RPowNat(Value(c), root), RPowNat(Value(v), cd), Value(scale), Value(s), Value(m), Value(n), root);
      RepresentsIntro(res, n, root, scale, r, cd, Value(c), Value(v), Value(scale), Value(n));
    } else if root == 2 {
      var c, v, r, cd, _ := PositiveRadical(m, root, scale);
      UnitFractionValid(r);
      res := Radical(c, true, v, Const(1, r));
      SquareCase(RPowNat(Value(c), root), RPowNat(Value(v), cd), RPowNat(Value(scale), root), Value(m), Value(n));
      RepresentsIntro(res, n, root, scale, r, cd, Value(c), Value(v), Value(scale), Value(n));
    } else {
      res := EvenRadical(n, m, root, scale);
    }
  }

  /** An even root above 2 of a negative n: the radical of |n| is computed
      and the sign goes back into the radicand; when the root was reduced to
      neither 1 nor itself, the result is (scale, n, 1/root) unchanged. */
  method EvenRadical(n: Const, m: Const, root: int, scale: Const) returns (res: Radical)
    requires Valid(n) && Valid(scale) && root >= 2 && n.numerator < 0
    requires m == Negate(n)
    ensures Valid(res.coefficient) && Valid(res.radicand) && Valid(res.index)
    ensures !res.imaginary
    ensures Represents(res, n, root, scale)
  {
    NegateValue(n);
    UnitFractionValid(root);
    var c, v, r, cd, _ := PositiveRadical(m, root, scale);
    NegateValue(v);
    if r == root {
      assert cd == 1 by { UnitFactor(root, cd); }
      res := Radical(c, false, Negate(v), Const(1, r));
      SameRootCase(RPowNat(Value(c), root), Value(v), Value(Negate(v)), RPowNat(Value(scale), root), Value(m), Value(n), cd);
      RepresentsIntro(res, n, root, scale, r, 1, Value(c), Value(Negate(v)), Value(scale), Value(n));
    } else if r == 1 {
      res := Radical(c, false, Negate(v), Const(1, root));
      UnitRootCase(RPowNat(Value(c), root), Value(v), Value(Negate(v)), RPowNat(Value(scale), root), Value(m), Value(n), cd);
      RepresentsIntro(res, n, root, scale, root, 1, Value(c), Value(Negate(v)), Value(scale), Value(n));
    } else {
      NegateValue(m);
      res := Radical(scale, false, Negate(m), Const(1, root));
      KeepCase(RPowNat(Value(scale), root), Value(n), Value(Negate(m)));
      RepresentsIntro(res, n, root, scale, root, 1, Value(scale), Value(Negate(m)), Value(scale), Value(n));
    }
  }

  lemma UnitFactor(root: int, cd: int)
    requires root >= 1 && cd >= 1 && root == root * cd
    ensures cd == 1
  {
    if cd > 1 {
      MulSign(cd - 1, root);
    }
  }

  /** `simplify_radical` as written: `root == 1` returns `(n, 1, 1)` and drops
      the scale; every other case agrees with `SimplifyRadical`. */
  method SimplifyRadicalAsWritten(n: Const, root: int, scale: Const) returns (res: Radical)
    requires Valid(n) && Valid(scale) && root >= 1
    ensures root == 1 ==> res == Radical(n, false, One, One)
    ensures root != 1 ==> Represents(res, n, root, scale)
  {
    if n.numerator == 0 || root == 1 {
      res := Radical(n, false, One, One);
      if root != 1 {
        res := SimplifyRadical(n, root, scale);
      }
    } else {
      res := SimplifyRadical(n, root, scale);
    }
  }

  /** The as-written result for n = 2, root 1 and scale 15 is (2, 1, 1),
      which does not represent 15 · 2. */
  lemma RootOneDropsScale()
    ensures !Represents(Radical(FromInt(2), false, One, One), FromInt(2), 1, FromInt(15))
  {
    PowerOne(2.0);
    PowerOne(1.0);
    PowerOne(15.0);
  }
}
