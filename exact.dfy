/** `Const` of datatypes/const.py: an exact rational number kept in lowest
    terms with a positive denominator. Every operation builds a new value
    through the constructor, which normalises; the meaning of a Const is the
    real number numerator / denominator. */
module Exact {
  import opened Outcome
  import opened Arith
  import opened Digits

  datatype Const = Const(numerator: int, denominator: int)

  /** What `Const.__new__` guarantees of every value it returns. */
  predicate Valid(c: Const) {
    c.denominator > 0 && IntGcd(c.numerator, c.denominator) == 1
  }

  function Value(c: Const): real
    requires c.denominator != 0
  {
    c.numerator as real / c.denominator as real
  }

  const Zero := Const(0, 1)
  const One := Const(1, 1)

  function FromInt(i: int): (r: Const)
    ensures Valid(r) && Value(r) == i as real
  {
    assert IntGcd(i, 1) == 1 by { GcdOne(Abs(i)); }
    Const(i, 1)
  }

  lemma GcdOne(a: nat)
    ensures Gcd(a, 1) == 1
  {
    assert a % 1 == 0;
    assert Gcd(1, a % 1) == 1;
  }

  // ---------------------------------------------------------------- helpers

  /** Exact division of an integer by a positive divisor of its magnitude. */
  lemma ExactDivision(n: int, g: int)
    requires g > 0 && Abs(n) % g == 0
    ensures n == (n / g) * g
    ensures Abs(n / g) == Abs(n) / g
  {
    var k := Abs(n) / g;
    assert Abs(n) == k * g;
    if n >= 0 {
      DivModUnique(n, g, k, 0);
    } else {
      DivModUnique(n, g, -k, 0);
    }
  }

  /** A common nonzero factor cancels from a quotient of reals. */
  lemma CancelFactor(a: int, b: int, g: int)
    requires b != 0 && g != 0
    ensures (a * g) as real / (b * g) as real == a as real / b as real
  {
    var x, y, z := a as real, b as real, g as real;
    assert (a * g) as real == x * z;
    assert (b * g) as real == y * z;
    assert (x * z) / (y * z) == x / y;
  }

  lemma NegateBoth(a: int, b: int)
    requires b != 0
    ensures (-a) as real / (-b) as real == a as real / b as real
  {
    CancelFactor(a, b, -1);
  }

  // ---------------------------------------------------------------- __new__

  /** `Const.__new__` for an integer numerator and a nonzero denominator:
      divide out gcd(denominator, numerator), then move the sign to the
      numerator. */
  function Normalize(n: int, d: int): (r: Const)
    requires d != 0
    ensures Valid(r)
  {
    var g := IntGcd(d, n);
    GcdDivides(Abs(d), Abs(n));
    var n1 := if g != 1 then n / g else n;
    var d1 := if g != 1 then d / g else d;
    LowestTerms(n, d, g);
    assert IntGcd(n1, d1) == 1 by {
      if g != 1 {
        ExactDivision(n, g);
        ExactDivision(d, g);
      } else {
        GcdCommutes(Abs(d), Abs(n));
      }
    }
    if d1 < 0 then Const(-n1, -d1) else Const(n1, d1)
  }

  /** Normalising keeps the value of the quotient. */
  lemma NormalizeValue(n: int, d: int)
    requires d != 0
    ensures Value(Normalize(n, d)) == n as real / d as real
  {
    var g := IntGcd(d, n);
    GcdDivides(Abs(d), Abs(n));
    var n1 := if g != 1 then n / g else n;
    var d1 := if g != 1 then d / g else d;
    LowestTerms(n, d, g);
    if g != 1 {
      ExactDivision(n, g);
      ExactDivision(d, g);
      CancelFactor(n1, d1, g);
    }
    if d1 < 0 {
      NegateBoth(n1, d1);
    }
  }

  /** The quotients by the gcd are coprime. */
  lemma LowestTerms(n: int, d: int, g: nat)
    requires d != 0 && g == IntGcd(d, n)
    ensures g > 0
    ensures g != 1 ==> IntGcd(n / g, d / g) == 1
  {
    var a, b := Abs(n), Abs(d);
    GcdDivides(b, a);
    if g != 1 {
      GcdCommutes(b, a);
      var xy := ExtGcd(a, b);
      CoprimeQuotients(a, b, g, xy.0, xy.1);
      ExactDivision(n, g);
      ExactDivision(d, g);
    }
  }

  /** `Const(n, d)`: a zero denominator raises ZeroDivisionError. */
  function Make(n: int, d: int): (r: Result<Const>)
    ensures d == 0 <==> r.Err?
    ensures r.Err? ==> r.error == ZeroDivisionError
    ensures r.Ok? ==> Valid(r.value)
  {
    if d == 0 then Err(ZeroDivisionError) else Ok(Normalize(n, d))
  }

  lemma MakeValue(n: int, d: int)
    requires d != 0
    ensures Make(n, d).Ok? && Value(Make(n, d).value) == n as real / d as real
  {
    NormalizeValue(n, d);
  }

  /** Normalising a value that is already in lowest terms changes nothing. */
  lemma NormalizeIdempotent(c: Const)
    requires Valid(c)
    ensures Normalize(c.numerator, c.denominator) == c
  {
    GcdCommutes(Abs(c.denominator), Abs(c.numerator));
  }

  /** Equal rationals in lowest terms have the same numerator and denominator. */
  lemma Canonical(a: Const, b: Const)
    requires Valid(a) && Valid(b) && Value(a) == Value(b)
    ensures a == b
  {
    CrossEqual(a, b);
    var n1, d1, n2, d2 := a.numerator, a.denominator, b.numerator, b.denominator;
    assert n1 * d2 == n2 * d1;
    DenominatorDivides(n1, d1, n2, d2);
    DenominatorDivides(n2, d2, n1, d1);
    MutualDivides(d1, d2);
    assert n1 * d1 == n2 * d1;
    MulCancel(n1, n2, d1);
  }

  lemma MulCancel(x: int, y: int, d: int)
    requires d > 0 && x * d == y * d
    ensures x == y
  {
    MulSign(x - y, d);
    MulSign(y - x, d);
  }

  /** If n1/d1 == n2/d2 with n1/d1 in lowest terms, d1 divides d2. */
  lemma DenominatorDivides(n1: int, d1: int, n2: int, d2: int)
    requires d1 > 0 && d2 > 0 && IntGcd(n1, d1) == 1 && n1 * d2 == n2 * d1
    ensures d2 % d1 == 0
  {
    GcdCommutes(Abs(n1), d1);
    MultipleMod(d1, n2);
    assert (n1 * d2) % d1 == 0 by { assert n1 * d2 == d1 * n2; }
    assert (Abs(n1) * d2) % d1 == 0 by {
      if n1 < 0 {
        assert Abs(n1) * d2 == d1 * (-n2);
        MultipleMod(d1, -n2);
      }
    }
    EuclidLemma(d1, Abs(n1), d2);
  }

  /** Equality of values is equality of cross products. */
  lemma CrossEqual(a: Const, b: Const)
    requires a.denominator > 0 && b.denominator > 0
    ensures Value(a) == Value(b) <==> a.numerator * b.denominator == b.numerator * a.denominator
  {
    CrossProducts(a, b);
  }

  /** The value of a, scaled by both denominators, is a's cross product. */
  lemma CrossProducts(a: Const, b: Const)
    requires a.denominator > 0 && b.denominator > 0
    ensures Value(a) * (a.denominator * b.denominator) as real == (a.numerator * b.denominator) as real
    ensures Value(b) * (a.denominator * b.denominator) as real == (b.numerator * a.denominator) as real
  {
    var x, y := a.denominator as real, b.denominator as real;
    var p, q := a.numerator as real, b.numerator as real;
    assert (a.denominator * b.denominator) as real == x * y;
    assert (p / x) * (x * y) == p * y;
    assert (q / y) * (x * y) == q * x;
  }

  /** Scaling by a positive number keeps the order of two reals. */
  lemma ScaleOrder(u: real, v: real, k: real)
    requires k > 0.0
    ensures u < v <==> u * k < v * k
    ensures u <= v <==> u * k <= v * k
  {
    if u < v {
      assert (v - u) * k > 0.0;
    } else {
      assert (u - v) * k >= 0.0;
    }
  }

  // ------------------------------------------------------------- arithmetic

  /** `Const.add`: both numerators brought over lcm(d1, d2). */
  function Add(a: Const, b: Const): (r: Const)
    requires a.denominator > 0 && b.denominator > 0
    ensures Valid(r)
  {
    var den := Lcm(a.denominator, b.denominator);
    Normalize((den / a.denominator) * a.numerator + (den / b.denominator) * b.numerator, den)
  }

  /** The sum over the common denominator is the rational sum. */
  lemma AddValue(a: Const, b: Const)
    requires a.denominator > 0 && b.denominator > 0
    ensures Value(Add(a, b)) == Value(a) + Value(b)
  {
    var den := Lcm(a.denominator, b.denominator);
    NormalizeValue((den / a.denominator) * a.numerator + (den / b.denominator) * b.numerator, den);
    SumOverCommon(a, b, den, den / a.denominator, den / b.denominator);
  }

  lemma SumOverCommon(a: Const, b: Const, den: int, k1: int, k2: int)
    requires a.denominator > 0 && b.denominator > 0 && den > 0
    requires den % a.denominator == 0 && den % b.denominator == 0
    requires k1 == den / a.denominator && k2 == den / b.denominator
    ensures (k1 * a.numerator + k2 * b.numerator) as real / den as real == Value(a) + Value(b)
  {
    var d1, d2 := a.denominator, b.denominator;
    assert den == k1 * d1 && den == k2 * d2;
    var D := den as real;
    assert k1 as real * d1 as real == D;
    assert k2 as real * d2 as real == D;
    assert (k1 * a.numerator) as real / D == Value(a) by {
      CancelFactor(a.numerator, d1, k1);
      assert a.numerator * k1 == k1 * a.numerator && d1 * k1 == den;
    }
    assert (k2 * b.numerator) as real / D == Value(b) by {
      CancelFactor(b.numerator, d2, k2);
      assert b.numerator * k2 == k2 * b.numerator && d2 * k2 == den;
    }
  }

  /** `Const.mul`. */
  function Mul(a: Const, b: Const): (r: Const)
    requires a.denominator > 0 && b.denominator > 0
    ensures Valid(r)
  {
    ProductValue(a.numerator, a.denominator, b.numerator, b.denominator);
    Normalize(a.numerator * b.numerator, a.denominator * b.denominator)
  }

  lemma MulValue(a: Const, b: Const)
    requires a.denominator > 0 && b.denominator > 0
    ensures Value(Mul(a, b)) == Value(a) * Value(b)
  {
    ProductValue(a.numerator, a.denominator, b.numerator, b.denominator);
    NormalizeValue(a.numerator * b.numerator, a.denominator * b.denominator);
  }

  /** Subtraction of two rationals, as `Fraction.__sub__` computes it: the
      difference in lowest terms. */
  function Subtract(a: Const, b: Const): (r: Const)
    requires a.denominator > 0 && b.denominator > 0
    ensures Valid(r)
  {
    Add(a, Negate(b))
  }

  lemma SubtractValue(a: Const, b: Const)
    requires a.denominator > 0 && b.denominator > 0
    ensures Value(Subtract(a, b)) == Value(a) - Value(b)
  {
    NegateValue(b);
    AddValue(a, Negate(b));
  }

  lemma ProductValue(n1: int, d1: int, n2: int, d2: int)
    requires d1 != 0 && d2 != 0
    ensures d1 * d2 != 0
    ensures (n1 * n2) as real / (d1 * d2) as real == (n1 as real / d1 as real) * (n2 as real / d2 as real)
  {
    var p, q, x, y := n1 as real, n2 as real, d1 as real, d2 as real;
    assert (n1 * n2) as real == p * q;
    assert (d1 * d2) as real == x * y;
    assert x * y != 0.0;
  }

  /** `Const.div` for real operands: dividing by zero raises ZeroDivisionError. */
  function Div(a: Const, b: Const): (r: Result<Const>)
    requires a.denominator > 0 && b.denominator > 0
    ensures b.numerator == 0 <==> r.Err?
    ensures r.Err? ==> r.error == ZeroDivisionError
    ensures r.Ok? ==> Valid(r.value)
  {
    QuotientValue(a, b);
    Make(a.numerator * b.denominator, a.denominator * b.numerator)
  }

  lemma DivValue(a: Const, b: Const)
    requires a.denominator > 0 && b.denominator > 0 && b.numerator != 0
    ensures Div(a, b).Ok?
    ensures Value(Div(a, b).value) == Value(a) / Value(b)
  {
    QuotientValue(a, b);
    MakeValue(a.numerator * b.denominator, a.denominator * b.numerator);
  }

  lemma QuotientValue(a: Const, b: Const)
    requires a.denominator > 0 && b.denominator > 0
    ensures a.denominator * b.numerator != 0 <==> b.numerator != 0
    ensures b.numerator != 0 ==>
      (a.numerator * b.denominator) as real / (a.denominator * b.numerator) as real == Value(a) / Value(b)
  {
    MulSign(b.numerator, a.denominator);
    MulSign(-b.numerator, a.denominator);
    if b.numerator != 0 {
      QuotientValueNonzero(a, b);
    }
  }

  lemma QuotientValueNonzero(a: Const, b: Const)
    requires a.denominator > 0 && b.denominator > 0 && b.numerator != 0
    ensures (a.numerator * b.denominator) as real / (a.denominator * b.numerator) as real
            == Value(a) / Value(b)
  {
    ZeroValue(b);
    MulSign(b.numerator, a.denominator);
    MulSign(-b.numerator, a.denominator);
    var p, q, x, y := a.numerator as real, b.numerator as real, a.denominator as real, b.denominator as real;
    assert (a.numerator * b.denominator) as real == p * y;
    assert (a.denominator * b.numerator) as real == x * q;
    assert q != 0.0;
    assert (p / x) / (q / y) == (p * y) / (x * q);
  }

  /** `Const.pow` with a natural exponent: numerator and denominator raised
      separately. */
  function PowNat(c: Const, e: nat): (r: Const)
    requires c.denominator > 0
    ensures Valid(r)
  {
    PowPositive(c.denominator, e);
    Normalize(Pow(c.numerator, e), Pow(c.denominator, e))
  }

  lemma PowNatValue(c: Const, e: nat)
    requires c.denominator > 0
    ensures Value(PowNat(c, e)) == RPowNat(Value(c), e)
  {
    PowPositive(c.denominator, e);
    NormalizeValue(Pow(c.numerator, e), Pow(c.denominator, e));
    PowQuotient(c.numerator, c.denominator, e);
  }

  lemma PowQuotient(n: int, d: int, e: nat)
    requires d > 0
    ensures Pow(d, e) > 0
    ensures Pow(n, e) as real / Pow(d, e) as real == RPowNat(n as real / d as real, e)
  {
    PowPositive(d, e);
    PowAsReal(n, e);
    PowAsReal(d, e);
    RPowNatQuotient(n as real, d as real, e);
  }

  lemma {:induction false} RPowNatQuotient(x: real, y: real, e: nat)
    requires y != 0.0
    ensures RPowNat(y, e) != 0.0
    ensures RPowNat(x / y, e) == RPowNat(x, e) / RPowNat(y, e)
  {
    RPowNatNonzero(y, e);
    if e > 0 {
      RPowNatQuotient(x, y, e - 1);
      var p, q := RPowNat(x, e - 1), RPowNat(y, e - 1);
      RPowNatNonzero(y, e - 1);
      FracMul(x, y, p, q);
    }
  }

  /** `Const.pow`: a negative exponent is `Const(1).div(self.pow(-value))`,
      so zero to a negative power raises ZeroDivisionError. */
  function Power(c: Const, e: int): (r: Result<Const>)
    requires c.denominator > 0
    ensures e >= 0 ==> r.Ok?
    ensures e < 0 ==> (c.numerator == 0 <==> r.Err?)
    ensures r.Err? ==> r.error == ZeroDivisionError
    ensures r.Ok? ==> Valid(r.value)
  {
    if e < 0 then
      var p := PowNat(c, -e);
      NegativePowerFacts(c, -e);
      Div(One, p)
    else
      Ok(PowNat(c, e))
  }

  /** The value of `pow` is the rational power, negative exponents included. */
  lemma PowerValue(c: Const, e: int)
    requires c.denominator > 0 && (e < 0 ==> c.numerator != 0)
    ensures Power(c, e).Ok?
    ensures Value(c) != 0.0 || e >= 0
    ensures Value(Power(c, e).value) == RPow(Value(c), e)
  {
    ZeroValue(c);
    if e < 0 {
      var p := PowNat(c, -e);
      NegativePowerFacts(c, -e);
      PowNatValue(c, -e);
      DivValue(One, p);
      assert Value(One) == 1.0;
    } else {
      PowNatValue(c, e);
    }
  }

  lemma NegativePowerFacts(c: Const, k: nat)
    requires c.denominator > 0
    ensures c.numerator == 0 <==> Value(c) == 0.0
    ensures c.numerator != 0 ==> PowNat(c, k).numerator != 0
    ensures c.numerator == 0 && k > 0 ==> PowNat(c, k).numerator == 0
  {
    ZeroValue(c);
    PowNatValue(c, k);
    ZeroValue(PowNat(c, k));
    if c.numerator != 0 {
      RPowNatNonzero(Value(c), k);
    } else if k > 0 {
      assert RPowNat(Value(c), k) == Value(c) * RPowNat(Value(c), k - 1);
    }
  }

  /** Zero is the only value with a zero numerator. */
  lemma ZeroValue(c: Const)
    requires c.denominator > 0
    ensures c.numerator == 0 <==> Value(c) == 0.0
  {
    if c.numerator != 0 {
      assert Value(c) * c.denominator as real == c.numerator as real;
    }
  }

  /** `Const.__abs__`. */
  function Absolute(c: Const): (r: Const)
    requires c.denominator > 0
    ensures Valid(r)
  {
    Normalize(Abs(c.numerator), c.denominator)
  }

  lemma AbsoluteValue(c: Const)
    requires c.denominator > 0
    ensures Value(Absolute(c)) == (if Value(c) < 0.0 then -Value(c) else Value(c))
  {
    SignOfValue(c);
    NegValue(c.numerator, c.denominator);
    NormalizeValue(Abs(c.numerator), c.denominator);
  }

  lemma NegValue(n: int, d: int)
    requires d != 0
    ensures (-n) as real / d as real == -(n as real / d as real)
  {
  }

  lemma SignOfValue(c: Const)
    requires c.denominator > 0
    ensures Value(c) < 0.0 <==> c.numerator < 0
  {
    var x, y := c.numerator as real, c.denominator as real;
    assert Value(c) * y == x;
    if x < 0.0 {
      ScaleOrder(Value(c), 0.0, y);
    } else {
      ScaleOrder(0.0, Value(c), y);
    }
  }

  /** `Const.__neg__`. */
  function Negate(c: Const): (r: Const)
    requires c.denominator > 0
    ensures Valid(r)
  {
    Normalize(-c.numerator, c.denominator)
  }

  lemma NegateValue(c: Const)
    requires c.denominator > 0
    ensures Value(Negate(c)) == -Value(c)
  {
    NegValue(c.numerator, c.denominator);
    NormalizeValue(-c.numerator, c.denominator);
  }

  lemma NegateInvolution(c: Const)
    requires Valid(c)
    ensures Negate(Negate(c)) == c
  {
    NegateValue(c);
    NegateValue(Negate(c));
    Canonical(Negate(Negate(c)), c);
  }

  // --------------------------------------------------------------- equality

  /** The right operand of `==`: another Const, a Python int (numerator i,
      denominator 1) or any other object. */
  datatype Operand = ConstOperand(c: Const) | IntOperand(i: int) | OtherOperand

  /** `Const.__eq__`: only a Const or an int can be equal, and then exactly
      when numerator and denominator agree. */
  function Equals(a: Const, other: Operand): (r: bool)
    ensures other.OtherOperand? ==> !r
  {
    match other
    case ConstOperand(b) => a.numerator == b.numerator && a.denominator == b.denominator
    case IntOperand(i) => a.numerator == i && a.denominator == 1
    case OtherOperand => false
  }

  /** On values the constructor produced, `==` is equality of the rationals,
      both against another Const and against an int. */
  lemma EqualsMeansSameValue(a: Const, other: Operand)
    requires Valid(a)
    ensures other.ConstOperand? && Valid(other.c) ==> (Equals(a, other) <==> Value(a) == Value(other.c))
    ensures other.IntOperand? ==> (Equals(a, other) <==> Value(a) == other.i as real)
  {
    if other.ConstOperand? && Valid(other.c) && Value(a) == Value(other.c) {
      Canonical(a, other.c);
    }
    if other.IntOperand? && Value(a) == other.i as real {
      Canonical(a, FromInt(other.i));
    }
  }

  // ------------------------------------------------------------------ order

  /** `Const.__gt__` and its siblings compare cross products; for positive
      denominators this is the order of the rationals. */
  function Greater(a: Const, b: Const): (r: bool)
    requires a.denominator > 0 && b.denominator > 0
    ensures r <==> Value(a) > Value(b)
  {
    OrderByCross(a, b);
    a.numerator * b.denominator > a.denominator * b.numerator
  }

  function GreaterEq(a: Const, b: Const): (r: bool)
    requires a.denominator > 0 && b.denominator > 0
    ensures r <==> Value(a) >= Value(b)
  {
    OrderByCross(a, b);
    a.numerator * b.denominator >= a.denominator * b.numerator
  }

  function Less(a: Const, b: Const): (r: bool)
    requires a.denominator > 0 && b.denominator > 0
    ensures r <==> Value(a) < Value(b)
  {
    OrderByCross(a, b);
    a.numerator * b.denominator < a.denominator * b.numerator
  }

  function LessEq(a: Const, b: Const): (r: bool)
    requires a.denominator > 0 && b.denominator > 0
    ensures r <==> Value(a) <= Value(b)
  {
    OrderByCross(a, b);
    a.numerator * b.denominator <= a.denominator * b.numerator
  }

  lemma OrderByCross(a: Const, b: Const)
    requires a.denominator > 0 && b.denominator > 0
    ensures Value(a) < Value(b) <==> a.numerator * b.denominator < a.denominator * b.numerator
    ensures Value(a) <= Value(b) <==> a.numerator * b.denominator <= a.denominator * b.numerator
    ensures Value(a) > Value(b) <==> a.numerator * b.denominator > a.denominator * b.numerator
    ensures Value(a) >= Value(b) <==> a.numerator * b.denominator >= a.denominator * b.numerator
  {
    hide *;
    CrossOrder(a, b);
  }

  lemma CrossOrder(a: Const, b: Const)
    requires a.denominator > 0 && b.denominator > 0
    ensures Value(a) < Value(b) <==> a.numerator * b.denominator < a.denominator * b.numerator
    ensures Value(a) <= Value(b) <==> a.numerator * b.denominator <= a.denominator * b.numerator
  {
    hide *;
    CrossProducts(a, b);
    var k := (a.denominator * b.denominator) as real;
    MulSign(a.denominator, b.denominator);
    var u, v := Value(a) * k, Value(b) * k;
    ScaleOrder(Value(a), Value(b), k);
    var L, R := a.numerator * b.denominator, a.denominator * b.numerator;
    assert b.numerator * a.denominator == R;
    assert u == L as real && v == R as real;
  }

  /** `Const.is_neg` for a real numerator. */
  function IsNeg(c: Const): (r: bool)
    requires c.denominator > 0
    ensures r <==> Value(c) < 0.0
  {
    SignOfValue(c);
    c.numerator < 0
  }

  /** `Const.__bool__`. */
  function Truthy(c: Const): (r: bool)
    requires c.denominator > 0
    ensures r <==> Value(c) != 0.0
  {
    ZeroValue(c);
    c.numerator != 0
  }

  // -------------------------------------------------------- floordiv / mod

  /** `a // b`: the floor of the exact quotient; b == 0 raises. */
  function FloorDivide(a: Const, b: Const): (r: Result<int>)
    requires a.denominator > 0 && b.denominator > 0
    ensures b.numerator == 0 <==> r.Err?
    ensures r.Err? ==> r.error == ZeroDivisionError
  {
    var N, D := a.numerator * b.denominator, a.denominator * b.numerator;
    QuotientValue(a, b);
    if D == 0 then Err(ZeroDivisionError) else Ok(Arith.FloorDiv(N, D))
  }

  /** `a // b` is the floor of the rational quotient. */
  lemma FloorDivideValue(a: Const, b: Const)
    requires a.denominator > 0 && b.denominator > 0 && b.numerator != 0
    ensures FloorDivide(a, b).Ok? && Value(b) != 0.0
    ensures var q := FloorDivide(a, b).value as real; q <= Value(a) / Value(b) < q + 1.0
  {
    ZeroValue(b);
    QuotientValue(a, b);
    FloorOfQuotient(a.numerator * b.denominator, a.denominator * b.numerator);
  }

  /** Python's floor division gives the floor of the real quotient. */
  lemma FloorOfQuotient(N: int, D: int)
    requires D != 0
    ensures Arith.FloorDiv(N, D) as real <= N as real / D as real < Arith.FloorDiv(N, D) as real + 1.0
  {
    hide *;
    FloorDivProperties(N, D);
    var q, m := Arith.FloorDiv(N, D), PyMod(N, D);
    QuotientSplit(N, D, q, m);
    RemainderFraction(m, D);
  }

  lemma QuotientSplit(N: int, D: int, q: int, m: int)
    requires D != 0 && N == D * q + m
    ensures N as real / D as real == q as real + m as real / D as real
  {
    var x := D as real;
    assert N as real == x * q as real + m as real;
  }

  /** A remainder that takes the divisor's sign is a fraction in [0, 1) of it. */
  lemma RemainderFraction(m: int, D: int)
    requires D != 0
    requires D > 0 ==> 0 <= m < D
    requires D < 0 ==> D < m <= 0
    ensures 0.0 <= m as real / D as real < 1.0
  {
    var x := D as real;
    if D > 0 {
      ScaleOrder(m as real / x, 1.0, x);
      ScaleOrder(0.0, m as real / x, x);
    } else {
      var y := -x;
      assert m as real / x == (-m) as real / y;
      ScaleOrder((-m) as real / y, 1.0, y);
      ScaleOrder(0.0, (-m) as real / y, y);
    }
  }

  function Modulo(a: Const, b: Const): (r: Result<Const>)
    requires a.denominator > 0 && b.denominator > 0
    ensures b.numerator == 0 <==> r.Err?
    ensures r.Err? ==> r.error == ZeroDivisionError
    ensures r.Ok? ==> Valid(r.value)
  {
    var da, db := a.denominator, b.denominator;
    var D := b.numerator * da;
    MulSign(b.numerator, da);
    MulSign(-b.numerator, da);
    if D == 0 then Err(ZeroDivisionError)
    else Make(PyMod(a.numerator * db, D), da * db)
  }

  /** Python's division identity: a == b * (a // b) + a % b, and the remainder
      lies between 0 and b (0 included, b excluded). */
  lemma DivModIdentity(a: Const, b: Const)
    requires a.denominator > 0 && b.denominator > 0 && b.numerator != 0
    ensures FloorDivide(a, b).Ok? && Modulo(a, b).Ok?
    ensures Value(a) == Value(b) * FloorDivide(a, b).value as real + Value(Modulo(a, b).value)
    ensures Value(b) > 0.0 ==> 0.0 <= Value(Modulo(a, b).value) < Value(b)
    ensures Value(b) < 0.0 ==> Value(b) < Value(Modulo(a, b).value) <= 0.0
  {
    hide *;
    var da, db, na, nb := a.denominator, b.denominator, a.numerator, b.numerator;
    var N, D := na * db, nb * da;
    DivModShape(a, b);
    FloorDivProperties(N, D);
    var q, m := Arith.FloorDiv(N, D), PyMod(N, D);
    MakeValue(m, da * db);
    RemainderValue(a, b, q, m);
    SignOfValue(b);
    ZeroValue(b);
    BoundsOverDenominator(m, D, da * db);
    ValueOverCommon(b, da);
  }

  /** What FloorDivide and Modulo compute, over the common denominator. */
  lemma DivModShape(a: Const, b: Const)
    requires a.denominator > 0 && b.denominator > 0 && b.numerator != 0
    ensures var D := b.numerator * a.denominator;
      D != 0 && (D > 0 <==> b.numerator > 0) && a.denominator * b.denominator > 0
      && FloorDivide(a, b) == Ok(Arith.FloorDiv(a.numerator * b.denominator, D))
      && Modulo(a, b) == Make(PyMod(a.numerator * b.denominator, D), a.denominator * b.denominator)
  {
    MulSign(a.denominator, b.denominator);
    MulSign(b.numerator, a.denominator);
    MulSign(-b.numerator, a.denominator);
    assert a.denominator * b.numerator == b.numerator * a.denominator;
  }

  /** A Fraction's value over a denominator scaled by k > 0. */
  lemma ValueOverCommon(b: Const, k: int)
    requires b.denominator > 0 && k > 0
    ensures Value(b) == (b.numerator * k) as real / (k * b.denominator) as real
  {
    CancelFactor(b.numerator, b.denominator, k);
    assert b.denominator * k == k * b.denominator;
  }

  lemma RemainderValue(a: Const, b: Const, q: int, m: int)
    requires a.denominator > 0 && b.denominator > 0
    requires m == a.numerator * b.denominator - b.numerator * a.denominator * q
    ensures a.denominator * b.denominator > 0
    ensures m as real / (a.denominator * b.denominator) as real == Value(a) - Value(b) * q as real
  {
    var da, db, na, nb := a.denominator, b.denominator, a.numerator, b.numerator;
    MulSign(da, db);
    var x, y := da as real, db as real;
    var k := x * y;
    assert (da * db) as real == k;
    assert m as real == na as real * y - nb as real * x * q as real;
    assert (na as real * y) / k == na as real / x by {
      CancelFactor(na, da, db);
      assert (na * db) as real == na as real * y;
    }
    assert (nb as real * x) / k == nb as real / y by {
      CancelFactor(nb, db, da);
      assert (nb * da) as real == nb as real * x;
      assert (db * da) as real == k;
    }
    assert (na as real * y - nb as real * x * q as real) / k
        == (na as real * y) / k - ((nb as real * x) / k) * q as real;
  }

  /** Bounds on integers carry over to their quotients by a positive k. */
  lemma BoundsOverDenominator(m: int, D: int, k: int)
    requires k > 0
    ensures D > 0 && 0 <= m < D ==> 0.0 <= m as real / k as real < D as real / k as real
    ensures D < 0 && D < m <= 0 ==> D as real / k as real < m as real / k as real <= 0.0
  {
    var K := k as real;
    assert (m as real / K) * K == m as real;
    assert (D as real / K) * K == D as real;
    ScaleOrder(m as real / K, D as real / K, K);
    ScaleOrder(D as real / K, m as real / K, K);
    ScaleOrder(0.0, m as real / K, K);
    ScaleOrder(m as real / K, 0.0, K);
  }

  // ------------------------------------------------------------------- repr

  /** `Const.__repr__` for a real numerator: "n" when the denominator is 1,
      otherwise "n/d". */
  function Repr(c: Const): (r: string)
    ensures '/' in r <==> c.denominator != 1
  {
    NoSlash(c.numerator);
    NoSlash(c.denominator);
    if c.denominator == 1 then IntToString(c.numerator)
    else IntToString(c.numerator) + "/" + IntToString(c.denominator)
  }

  /** Position of the first occurrence of ch, or |s| when it does not occur. */
  function FirstIndex(s: string, ch: char): (k: nat)
    ensures k <= |s|
    ensures k < |s| ==> s[k] == ch
    ensures forall i :: 0 <= i < k ==> s[i] != ch
  {
    if s == [] then 0
    else if s[0] == ch then 0
    else 1 + FirstIndex(s[1..], ch)
  }

  /** Reads a printed Const back, as `Fraction(str)` would. */
  function ParseRepr(s: string): Option<Const> {
    var k := FirstIndex(s, '/');
    if k == |s| then
      match ParseInt(s)
      case Some(n) => Some(Const(n, 1))
      case None => None
    else
      match (ParseInt(s[..k]), ParseInt(s[k + 1..]))
      case (Some(n), Some(d)) => Some(Const(n, d))
      case _ => None
  }

  lemma ReprRoundTrip(c: Const)
    ensures ParseRepr(Repr(c)) == Some(c)
  {
    var n := IntToString(c.numerator);
    IntToStringRoundTrip(c.numerator);
    NoSlash(c.numerator);
    if c.denominator == 1 {
      assert FirstIndex(n, '/') == |n|;
    } else {
      var s := Repr(c);
      NoSlash(c.denominator);
      assert s[..|n|] == n;
      assert s[|n| + 1..] == IntToString(c.denominator);
      IntToStringRoundTrip(c.denominator);
      assert FirstIndex(s, '/') == |n| by {
        FirstIndexAt(s, '/', |n|);
      }
    }
  }

  lemma NoSlash(i: int)
    ensures forall k :: 0 <= k < |IntToString(i)| ==> IntToString(i)[k] != '/'
  {
  }

  lemma {:induction false} FirstIndexAt(s: string, ch: char, k: nat)
    requires k < |s| && s[k] == ch && forall i :: 0 <= i < k ==> s[i] != ch
    ensures FirstIndex(s, ch) == k
  {
    if k > 0 {
      FirstIndexAt(s[1..], ch, k - 1);
    }
  }

  // ------------------------------------------------------------------- hash

  /** `sys.hash_info.modulus` on 64-bit CPython, the prime 2^61 - 1. */
  const HashModulus: nat := 0x1FFF_FFFF_FFFF_FFFF
  /** `sys.hash_info.inf`. */
  const HashInf: int := 314159

  /** `pow(d, -1, m)`: the inverse of d modulo m, absent (ValueError) when
      d and m are not coprime. */
  function ModInverse(d: int, m: nat): (r: Option<nat>)
    requires m > 1
    ensures r.Some? <==> Gcd(d % m, m) == 1
    ensures r.Some? ==> r.value < m && (d * r.value) % m == 1
  {
    var a := d % m;
    if Gcd(a, m) != 1 then None
    else
      var xy := ExtGcd(a, m);
      InverseResidue(d, m, a, xy.0, xy.1);
      Some(xy.0 % m)
  }

  lemma InverseResidue(d: int, m: int, a: int, x: int, y: int)
    requires m > 1 && a == d % m && a * x + m * y == 1
    ensures (d * (x % m)) % m == 1
  {
    var q1, v := d / m, x % m;
    var q2 := x / m;
    assert d == m * q1 + a;
    assert x == m * q2 + v;
    var K := q1 * v - a * q2 - y;
    calc {
      d * v;
      (m * q1 + a) * v;
      m * (q1 * v) + a * v;
      m * (q1 * v) + a * (x - m * q2);
      m * (q1 * v) + a * x - m * (a * q2);
      m * (q1 * v) + 1 - m * y - m * (a * q2);
      m * K + 1;
    }
    DivModUnique(d * v, m, K, 1);
  }

  /** CPython's hash of an int: |i| mod the modulus with i's sign, except that
      -1 is reserved and becomes -2. */
  function IntHash(i: int): (r: int)
    ensures r != -1
  {
    var h := if i >= 0 then i % HashModulus else -((-i) % HashModulus);
    if h == -1 then -2 else h
  }

  /** `_hash_algorithm` for a real numerator, following CPython's
      `Fraction.__hash__`. */
  function Hash(c: Const): (r: int)
    ensures r != -1
  {
    var h :=
      match ModInverse(c.denominator, HashModulus)
      case None => HashInf
      case Some(dinv) => IntHash(IntHash(Abs(c.numerator)) * dinv);
    var result := if c.numerator >= 0 then h else -h;
    if result == -1 then -2 else result
  }

  /** A Const with denominator 1 hashes like the integer it equals
      (`hash(Const(5)) == hash(5) == 5`). */
  lemma HashOfInteger(n: int)
    ensures Hash(Const(n, 1)) == IntHash(n)
  {
    var M := HashModulus;
    assert 1 % M == 1;
    assert Gcd(1, M) == 1 by {
      assert M % 1 == 0;
      assert Gcd(1, M) == Gcd(M, 1) == Gcd(1, 0);
    }
    var inv := ModInverse(1, M).value;
    DivModUnique(inv, M, 0, inv);
    assert inv == 1;
    var a := Abs(n) % M;
    assert IntHash(Abs(n)) == a;
    DivModUnique(a, M, 0, a);
    assert IntHash(a * inv) == a;
  }

  /** When the denominator is invertible, the hash of a non-negative Const is
      the residue of n/d: hash * d == n modulo 2^61 - 1. */
  lemma HashResidue(c: Const)
    requires c.numerator >= 0 && Gcd(c.denominator % HashModulus, HashModulus) == 1
    ensures (Hash(c) * c.denominator) % HashModulus == c.numerator % HashModulus
  {
    var M := HashModulus;
    var dinv := ModInverse(c.denominator, M).value;
    var a := c.numerator % M;
    assert IntHash(c.numerator) == a;
    var h := (a * dinv) % M;
    assert Hash(c) == h;
    ResidueTimes(a, dinv, c.denominator, M);
    DivModUnique(a, M, 0, a);
  }

  /** (a*u mod M) * d == a modulo M when u*d == 1 modulo M. */
  lemma ResidueTimes(a: int, u: int, d: int, M: int)
    requires M > 1 && (d * u) % M == 1
    ensures (((a * u) % M) * d) % M == a % M
  {
    var h := (a * u) % M;
    var k := (a * u) / M;
    var j := (d * u) / M;
    assert a * u == M * k + h;
    assert d * u == M * j + 1;
    calc {
      h * d;
      (a * u - M * k) * d;
      a * (d * u) - M * (k * d);
      a * (M * j + 1) - M * (k * d);
      a + M * (a * j - k * d);
    }
    var t := a * j - k * d;
    var qa, ra := a / M, a % M;
    assert a == M * qa + ra;
    assert h * d == M * (qa + t) + ra;
    DivModUnique(h * d, M, qa + t, ra);
  }
}
