/** Integer facts shared by the exact-arithmetic modules: Euclid's gcd as
    `math.gcd` computes it, Bezout coefficients, `math.lcm`, Python's floor
    division and modulo, and integer and rational powers. */
module Arith {

  function Abs(x: int): nat {
    if x < 0 then -x else x
  }

  /** `math.gcd` on non-negative arguments: Euclid's algorithm. */
  function Gcd(a: nat, b: nat): nat
    decreases b
  {
    if b == 0 then a else Gcd(b, a % b)
  }

  /** `math.gcd` on arbitrary integers works on absolute values. */
  function IntGcd(a: int, b: int): nat {
    Gcd(Abs(a), Abs(b))
  }

  lemma DividesLinear(d: int, x: int, y: int, k: int)
    requires d > 0 && x % d == 0 && y % d == 0
    ensures (k * x + y) % d == 0
  {
    var p, q := x / d, y / d;
    assert x == d * p && y == d * q;
    assert k * x + y == d * (k * p + q) by {
      assert k * x == k * (d * p) == d * (k * p);
    }
    MultipleMod(d, k * p + q);
  }

  lemma MultipleMod(d: int, m: int)
    requires d > 0
    ensures (d * m) % d == 0
  {
    DivModUnique(d * m, d, m, 0);
  }

  /** Euclidean division has exactly one quotient and remainder. */
  lemma DivModUnique(a: int, d: int, q: int, r: int)
    requires d > 0 && a == q * d + r && 0 <= r < d
    ensures a / d == q && a % d == r
  {
    var q', r' := a / d, a % d;
    assert a == q' * d + r';
    assert (q - q') * d == r' - r;
    if q > q' {
      MulAtLeast(q - q', d);
    } else if q < q' {
      MulAtLeast(q' - q, d);
    }
  }

  lemma MulAtLeast(x: int, d: int)
    requires x >= 1 && d > 0
    ensures x * d >= d
  {
    assert x * d == (x - 1) * d + d;
    assert (x - 1) * d >= 0;
  }

  /** The gcd divides both arguments, and it is 0 only for gcd(0, 0). */
  lemma {:induction false} GcdDivides(a: nat, b: nat)
    ensures Gcd(a, b) == 0 <==> a == 0 && b == 0
    ensures Gcd(a, b) > 0 ==> a % Gcd(a, b) == 0 && b % Gcd(a, b) == 0
    decreases b
  {
    if b != 0 {
      GcdDivides(b, a % b);
      var g := Gcd(a, b);
      assert a == (a / b) * b + a % b;
      DividesLinear(g, b, a % b, a / b);
    }
  }

  /** Every common divisor divides the gcd. */
  lemma {:induction false} GcdGreatest(a: nat, b: nat, d: int)
    requires d > 0 && a % d == 0 && b % d == 0
    ensures Gcd(a, b) % d == 0
    decreases b
  {
    if b != 0 {
      assert a % b == (-(a / b)) * b + a by {
        assert a == (a / b) * b + a % b;
      }
      DividesLinear(d, b, a, -(a / b));
      GcdGreatest(b, a % b, d);
    }
  }

  /** Bezout coefficients from the extended Euclidean algorithm. */
  function ExtGcd(a: nat, b: nat): (r: (int, int))
    ensures a * r.0 + b * r.1 == Gcd(a, b)
    decreases b
  {
    if b == 0 then (1, 0)
    else
      var (x, y) := ExtGcd(b, a % b);
      BezoutStep(a, b, x, y, Gcd(a, b));
      (y, x - (a / b) * y)
  }

  /** One step back through Euclid's algorithm: a = (a / b) * b + a % b. */
  lemma BezoutStep(a: int, b: int, x: int, y: int, g: int)
    requires b > 0 && b * x + (a % b) * y == g
    ensures a * y + b * (x - (a / b) * y) == g
  {
    var q, r := a / b, a % b;
    assert a == q * b + r;
    assert a * y == (q * b) * y + r * y;
    assert b * (x - q * y) == b * x - (q * b) * y;
  }

  /** The sign of a product with a positive factor. */
  lemma MulSign(k: int, b: int)
    requires b > 0
    ensures k <= 0 ==> k * b <= 0
    ensures k >= 1 ==> k * b >= b
  {
    if k >= 1 {
      MulAtLeast(k, b);
    } else {
      assert (-k) * b >= 0;
    }
  }

  lemma MutualDivides(a: int, b: int)
    requires a > 0 && b > 0 && a % b == 0 && b % a == 0
    ensures a == b
  {
    DivisorAtMost(a, b);
    DivisorAtMost(b, a);
  }

  /** A positive multiple of b is at least b. */
  lemma DivisorAtMost(a: int, b: int)
    requires a > 0 && b > 0 && a % b == 0
    ensures b <= a
  {
    var k := a / b;
    assert a == k * b;
    MulSign(k, b);
  }

  lemma GcdCommutes(a: nat, b: nat)
    ensures Gcd(a, b) == Gcd(b, a)
  {
    GcdDivides(a, b);
    GcdDivides(b, a);
    if Gcd(a, b) > 0 {
      GcdGreatest(a, b, Gcd(b, a));
      GcdGreatest(b, a, Gcd(a, b));
      MutualDivides(Gcd(a, b), Gcd(b, a));
    }
  }

  /** Dividing both arguments by a common divisor g that is an integer
      combination of them (such as their gcd) leaves coprime numbers. */
  lemma CoprimeQuotients(a: nat, b: nat, g: nat, x: int, y: int)
    requires g > 0 && a % g == 0 && b % g == 0 && a * x + b * y == g
    ensures Gcd(a / g, b / g) == 1
  {
    QuotientBezout(a, b, g, x, y);
    BezoutOneCoprime(a / g, b / g, x, y);
  }

  /** Numbers with an integer combination equal to 1 are coprime. */
  lemma BezoutOneCoprime(a: nat, b: nat, x: int, y: int)
    requires a * x + b * y == 1
    ensures Gcd(a, b) == 1
  {
    GcdDivides(a, b);
    var h := Gcd(a, b);
    assert h != 0 by {
      assert a == 0 && b == 0 ==> a * x + b * y == 0;
    }
    MulMod(a, x, h);
    MulMod(b, y, h);
    DividesLinear(h, a * x, b * y, 1);
    OneModulo(h);
  }

  lemma OneModulo(h: int)
    requires h > 0
    ensures 1 % h == 0 ==> h == 1
  {
    if h > 1 {
      DivModUnique(1, h, 0, 1);
    }
  }

  /** Bezout for a and b, divided through by their common divisor g. */
  lemma QuotientBezout(a: int, b: int, g: int, x: int, y: int)
    requires g > 0 && a % g == 0 && b % g == 0 && a * x + b * y == g
    ensures (a / g) * x + (b / g) * y == 1
  {
    var a', b' := a / g, b / g;
    assert a == a' * g && b == b' * g;
    var t := a' * x + b' * y;
    assert t * g == g by {
      calc {
        t * g;
        (a' * x) * g + (b' * y) * g;
        (a' * g) * x + (b' * g) * y;
        a * x + b * y;
      }
    }
    MulSign(t, g);
    MulSign(t - 1, g);
    assert (t - 1) * g == 0;
    if t > 1 {
      MulAtLeast(t - 1, g);
    }
  }

  lemma MulMod(a: int, x: int, h: int)
    requires h > 0 && a % h == 0
    ensures (a * x) % h == 0
  {
    var k := a / h;
    assert a == h * k;
    assert a * x == h * (k * x);
    MultipleMod(h, k * x);
  }

  /** Euclid's lemma: a divisor coprime to one factor divides the other. */
  lemma EuclidLemma(a: nat, b: nat, c: int)
    requires a > 0 && Gcd(a, b) == 1 && (b * c) % a == 0
    ensures c % a == 0
  {
    hide *;
    var (x, y) := ExtGcd(a, b);
    ScaleBezout(a, b, c, x, y);
    MulMod(b * c, y, a);
    MultipleMod(a, c * x);
    DividesLinear(a, a * (c * x), (b * c) * y, 1);
  }

  lemma ScaleBezout(a: int, b: int, c: int, x: int, y: int)
    requires a * x + b * y == 1
    ensures c == a * (c * x) + (b * c) * y
  {
    assert c * (a * x + b * y) == c * (a * x) + c * (b * y);
    assert c * (a * x) == a * (c * x);
    assert c * (b * y) == (b * c) * y;
  }

  /** `math.lcm` of two positive integers. */
  function Lcm(a: nat, b: nat): (r: nat)
    requires a > 0 && b > 0
    ensures r > 0 && r % a == 0 && r % b == 0
  {
    GcdDivides(a, b);
    var g := Gcd(a, b);
    var k := a / g;
    assert a == k * g;
    assert k > 0;
    assert k * b == a * (b / g) by {
      assert b == (b / g) * g;
      assert k * b == k * ((b / g) * g) == (k * g) * (b / g);
    }
    MultipleMod(b, k);
    assert (k * b) % b == 0 by { assert k * b == b * k; }
    MultipleMod(a, b / g);
    k * b
  }

  /** Python's `//` on integers: the floor of the exact quotient. */
  function FloorDiv(a: int, b: int): int
    requires b != 0
  {
    if b > 0 then a / b else (-a) / (-b)
  }

  /** Python's `%` on integers: the remainder takes the sign of the divisor. */
  function PyMod(a: int, b: int): int
    requires b != 0
  {
    a - b * FloorDiv(a, b)
  }

  lemma FloorDivProperties(a: int, b: int)
    requires b != 0
    ensures a == b * FloorDiv(a, b) + PyMod(a, b)
    ensures b > 0 ==> 0 <= PyMod(a, b) < b
    ensures b < 0 ==> b < PyMod(a, b) <= 0
    ensures b > 0 ==> PyMod(a, b) == a % b
  {
    if b < 0 {
      var q := (-a) / (-b);
      assert -a == q * (-b) + (-a) % (-b);
      assert PyMod(a, b) == -((-a) % (-b));
    }
  }

  /** Integer powers with a natural exponent. */
  function Pow(b: int, e: nat): int {
    if e == 0 then 1 else b * Pow(b, e - 1)
  }

  lemma {:induction false} PowAdd(b: int, m: nat, n: nat)
    ensures Pow(b, m + n) == Pow(b, m) * Pow(b, n)
  {
    if m > 0 {
      PowAdd(b, m - 1, n);
      assert Pow(b, m + n) == b * Pow(b, m - 1 + n);
    }
  }

  lemma {:induction false} PowMulBase(a: int, b: int, e: nat)
    ensures Pow(a * b, e) == Pow(a, e) * Pow(b, e)
  {
    if e > 0 {
      PowMulBase(a, b, e - 1);
      var x, y := Pow(a, e - 1), Pow(b, e - 1);
      calc {
        Pow(a * b, e);
        (a * b) * Pow(a * b, e - 1);
        (a * b) * (x * y);
        { MulRearrange(a, b, x, y); }
        (a * x) * (b * y);
        Pow(a, e) * Pow(b, e);
      }
    }
  }

  lemma MulRearrange(a: int, b: int, x: int, y: int)
    ensures (a * b) * (x * y) == (a * x) * (b * y)
  {
    calc {
      (a * b) * (x * y);
      a * (b * (x * y));
      a * (x * (b * y));
      (a * x) * (b * y);
    }
  }

  lemma {:induction false} PowPositive(b: int, e: nat)
    requires b > 0
    ensures Pow(b, e) > 0
  {
    if e > 0 {
      PowPositive(b, e - 1);
    }
  }

  lemma {:induction false} PowNonzero(b: int, e: nat)
    requires b != 0
    ensures Pow(b, e) != 0
  {
    if e > 0 {
      PowNonzero(b, e - 1);
    }
  }

  /** Powers of a real number with an integer exponent; a negative exponent
      takes the reciprocal, so the base must then be nonzero. */
  function RPowNat(x: real, e: nat): real {
    if e == 0 then 1.0 else x * RPowNat(x, e - 1)
  }

  /** A square is never negative, and is positive off zero. */
  lemma RPowNatSquareSign(x: real)
    ensures RPowNat(x, 2) >= 0.0
    ensures x != 0.0 ==> RPowNat(x, 2) > 0.0
    ensures x == 0.0 ==> RPowNat(x, 2) == 0.0
  {
    assert RPowNat(x, 0) == 1.0;
    var p := RPowNat(x, 1);
    assert p == x;
    if x < 0.0 {
      assert RPowNat(x, 2) == x * p;
    }
  }

  lemma RPowNatSquare(x: real)
    ensures RPowNat(x, 2) == x * x
  {
    assert RPowNat(x, 1) == x;
  }

  function RPow(x: real, e: int): real
    requires e < 0 ==> x != 0.0
  {
    if e >= 0 then RPowNat(x, e)
    else
      RPowNatNonzero(x, -e);
      1.0 / RPowNat(x, -e)
  }

  lemma {:induction false} RPowNatNonzero(x: real, e: nat)
    requires x != 0.0
    ensures RPowNat(x, e) != 0.0
  {
    if e > 0 {
      RPowNatNonzero(x, e - 1);
    }
  }

  lemma {:induction false} RPowNatPositive(x: real, e: nat)
    requires x > 0.0
    ensures RPowNat(x, e) > 0.0
  {
    if e > 0 {
      RPowNatPositive(x, e - 1);
    }
  }

  lemma {:induction false} RPowNatAdd(x: real, m: nat, n: nat)
    ensures RPowNat(x, m + n) == RPowNat(x, m) * RPowNat(x, n)
  {
    if m > 0 {
      RPowNatAdd(x, m - 1, n);
      assert RPowNat(x, m + n) == x * RPowNat(x, m - 1 + n);
    }
  }

  lemma {:induction false} RPowNatMulBase(x: real, y: real, e: nat)
    ensures RPowNat(x * y, e) == RPowNat(x, e) * RPowNat(y, e)
  {
    if e > 0 {
      RPowNatMulBase(x, y, e - 1);
      var p, q := RPowNat(x, e - 1), RPowNat(y, e - 1);
      assert (x * y) * (p * q) == (x * p) * (y * q);
    }
  }

  lemma {:induction false} RPowNatMulExp(x: real, m: nat, n: nat)
    ensures RPowNat(RPowNat(x, m), n) == RPowNat(x, m * n)
  {
    if n > 0 {
      var k := m * (n - 1);
      RPowNatMulExp(x, m, n - 1);
      RPowNatAdd(x, m, k);
      assert m * n == m + k;
    }
  }

  lemma {:induction false} PowAsReal(b: int, e: nat)
    ensures Pow(b, e) as real == RPowNat(b as real, e)
  {
    if e > 0 {
      PowAsReal(b, e - 1);
    }
  }

  /** x^(m+n) = x^m * x^n for any integer exponents of a nonzero base. */
  lemma RPowAdd(x: real, m: int, n: int)
    requires x != 0.0
    ensures RPow(x, m + n) == RPow(x, m) * RPow(x, n)
  {
    if m >= 0 && n >= 0 {
      RPowNatAdd(x, m, n);
    } else if m < 0 && n < 0 {
      RPowAddNeg(x, m, n);
    } else if m >= 0 {
      RPowAddMixed(x, m, n);
    } else {
      RPowAddMixed(x, n, m);
    }
  }

  lemma RPowAddNeg(x: real, m: int, n: int)
    requires x != 0.0 && m < 0 && n < 0
    ensures RPow(x, m + n) == RPow(x, m) * RPow(x, n)
  {
    RPowNatAdd(x, -m, -n);
    RPowNatNonzero(x, -m);
    RPowNatNonzero(x, -n);
    var p, q := RPowNat(x, -m), RPowNat(x, -n);
    assert RPowNat(x, -(m + n)) == p * q;
    assert 1.0 / (p * q) == (1.0 / p) * (1.0 / q);
  }

  /** x^(m+n) = x^m * x^n for natural m and negative n. */
  lemma RPowAddMixed(x: real, m: int, n: int)
    requires x != 0.0 && m >= 0 && n < 0
    ensures RPow(x, m + n) == RPow(x, m) * RPow(x, n)
  {
    hide *;
    RPowNatNonzero(x, -n);
    RPowUnfold(x, m);
    RPowUnfold(x, n);
    RPowUnfold(x, m + n);
    var q := RPowNat(x, -n);
    if m + n >= 0 {
      RPowNatAdd(x, m + n, -n);
      CancelRight(RPowNat(x, m + n), q);
    } else {
      RPowNatAdd(x, m, -(m + n));
      RPowNatNonzero(x, m);
      RPowNatNonzero(x, -(m + n));
      InverseSplit(RPowNat(x, m), RPowNat(x, -(m + n)));
    }
  }

  lemma RPowUnfold(x: real, e: int)
    requires x != 0.0
    ensures e >= 0 ==> RPow(x, e) == RPowNat(x, e)
    ensures e < 0 ==> RPowNat(x, -e) != 0.0 && RPow(x, e) == 1.0 / RPowNat(x, -e)
  {
    if e < 0 {
      RPowNatNonzero(x, -e);
    }
  }

  lemma CancelRight(r: real, q: real)
    requires q != 0.0
    ensures r == (r * q) * (1.0 / q)
  {
  }

  lemma InverseSplit(p: real, r: real)
    requires p != 0.0 && r != 0.0
    ensures 1.0 / r == p * (1.0 / (p * r))
  {
  }

  lemma RPowMulExp(x: real, m: int, n: nat)
    requires x != 0.0
    ensures RPow(x, m) != 0.0
    ensures RPow(RPow(x, m), n) == RPow(x, m * n)
  {
    RPowNatNonzero(x, Abs(m));
    if m >= 0 {
      RPowNatMulExp(x, m, n);
    } else {
      var p := RPowNat(x, -m);
      RPowNatMulExp(x, -m, n);
      assert (-m) * n == -(m * n);
      RecipPow(p, n);
      RPowNatNonzero(x, -(m * n));
      if m * n == 0 {
        assert n == 0;
      }
    }
  }

  lemma {:induction false} RecipPow(p: real, n: nat)
    requires p != 0.0
    ensures RPowNat(p, n) != 0.0
    ensures RPowNat(1.0 / p, n) == 1.0 / RPowNat(p, n)
  {
    RPowNatNonzero(p, n);
    if n > 0 {
      RecipPow(p, n - 1);
      var q := RPowNat(p, n - 1);
      assert (1.0 / p) * (1.0 / q) == 1.0 / (p * q);
    }
  }

  /** Fractions of reals multiply numerator by numerator. */
  lemma FracMul(a: real, b: real, c: real, d: real)
    requires b != 0.0 && d != 0.0
    ensures (a / b) * (c / d) == (a * c) / (b * d)
  {
    var u, v := a / b, c / d;
    assert u * b == a;
    assert v * d == c;
    assert b * d != 0.0;
    assert (u * v) * (b * d) == a * c;
  }
}
