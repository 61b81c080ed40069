/** `Number` of data_types/number.py: a complex rational held as two exact
    Fraction parts. A Fraction is modelled by `Exact.Const`, which is the
    same normalised rational. Arithmetic builds new Numbers part by part. */
module ComplexNumber {
  import opened Outcome
  import opened Arith
  import opened Exact

  datatype Number = Number(realPart: Const, imagPart: Const)

  predicate Valid(z: Number) {
    Exact.Valid(z.realPart) && Exact.Valid(z.imagPart)
  }


  /** Two valid Numbers with the same parts are the same Number. */
  lemma Extensional(z: Number, w: Number)
    requires Valid(z) && Valid(w) && Value(z.realPart) == Value(w.realPart) && Value(z.imagPart) == Value(w.imagPart)
    ensures z == w
  {
    Canonical(z.realPart, w.realPart);
    Canonical(z.imagPart, w.imagPart);
  }

  const ZeroNumber := Number(Zero, Zero)

  /** `Number.__bool__`: true iff the real or the imaginary part is nonzero. */
  function Truthy(z: Number): (r: bool)
    requires Valid(z)
    ensures r <==> Value(z.realPart) != 0.0 || Value(z.imagPart) != 0.0
  {
    Exact.Truthy(z.realPart) || Exact.Truthy(z.imagPart)
  }

  /** `__add__` and `__sub__` work part by part. */
  function Add(z: Number, w: Number): (r: Number)
    requires Valid(z) && Valid(w)
    ensures Valid(r)
  {
    Number(Exact.Add(z.realPart, w.realPart), Exact.Add(z.imagPart, w.imagPart))
  }

  lemma AddParts(z: Number, w: Number)
    requires Valid(z) && Valid(w)
    ensures Value(Add(z, w).realPart) == Value(z.realPart) + Value(w.realPart) && Value(Add(z, w).imagPart) == Value(z.imagPart) + Value(w.imagPart)
  {
    AddValue(z.realPart, w.realPart);
    AddValue(z.imagPart, w.imagPart);
  }

  function Sub(z: Number, w: Number): (r: Number)
    requires Valid(z) && Valid(w)
    ensures Valid(r)
  {
    Number(Subtract(z.realPart, w.realPart), Subtract(z.imagPart, w.imagPart))
  }

  lemma SubParts(z: Number, w: Number)
    requires Valid(z) && Valid(w)
    ensures Value(Sub(z, w).realPart) == Value(z.realPart) - Value(w.realPart) && Value(Sub(z, w).imagPart) == Value(z.imagPart) - Value(w.imagPart)
  {
    SubtractValue(z.realPart, w.realPart);
    SubtractValue(z.imagPart, w.imagPart);
  }

  /** a*c - b*d and a*d + b*c on Fractions, the parts of a complex product. */
  function MulDiff(a: Const, c: Const, b: Const, d: Const): (r: Const)
    requires Exact.Valid(a) && Exact.Valid(b) && Exact.Valid(c) && Exact.Valid(d)
    ensures Exact.Valid(r)
  {
    Subtract(Exact.Mul(a, c), Exact.Mul(b, d))
  }

  lemma MulDiffValue(a: Const, c: Const, b: Const, d: Const)
    requires Exact.Valid(a) && Exact.Valid(b) && Exact.Valid(c) && Exact.Valid(d)
    ensures Value(MulDiff(a, c, b, d)) == Value(a) * Value(c) - Value(b) * Value(d)
  {
    MulValue(a, c);
    MulValue(b, d);
    SubtractValue(Exact.Mul(a, c), Exact.Mul(b, d));
  }

  function MulSum(a: Const, d: Const, b: Const, c: Const): (r: Const)
    requires Exact.Valid(a) && Exact.Valid(b) && Exact.Valid(c) && Exact.Valid(d)
    ensures Exact.Valid(r)
  {
    Exact.Add(Exact.Mul(a, d), Exact.Mul(b, c))
  }

  lemma MulSumValue(a: Const, d: Const, b: Const, c: Const)
    requires Exact.Valid(a) && Exact.Valid(b) && Exact.Valid(c) && Exact.Valid(d)
    ensures Value(MulSum(a, d, b, c)) == Value(a) * Value(d) + Value(b) * Value(c)
  {
    MulValue(a, d);
    MulValue(b, c);
    AddValue(Exact.Mul(a, d), Exact.Mul(b, c));
  }

  /** `__mul__`: (a + bi)(c + di) = (ac - bd) + (ad + bc)i. */
  function Mul(z: Number, w: Number): (r: Number)
    requires Valid(z) && Valid(w)
    ensures Valid(r)
  {
    var a, b, c, d := z.realPart, z.imagPart, w.realPart, w.imagPart;
    Number(MulDiff(a, c, b, d), MulSum(a, d, b, c))
  }

  lemma MulRealPart(z: Number, w: Number)
    requires Valid(z) && Valid(w)
    ensures Value(Mul(z, w).realPart) == Value(z.realPart) * Value(w.realPart) - Value(z.imagPart) * Value(w.imagPart)
  {
    MulDiffValue(z.realPart, w.realPart, z.imagPart, w.imagPart);
  }

  lemma MulImagPart(z: Number, w: Number)
    requires Valid(z) && Valid(w)
    ensures Value(Mul(z, w).imagPart) == Value(z.realPart) * Value(w.imagPart) + Value(z.imagPart) * Value(w.realPart)
  {
    MulSumValue(z.realPart, w.imagPart, z.imagPart, w.realPart);
  }

  /** `c**2 + d**2` on Fractions. */
  function NormSquared(c: Const, d: Const): (r: Const)
    requires Exact.Valid(c) && Exact.Valid(d)
    ensures Exact.Valid(r)
  {
    Exact.Add(PowNat(c, 2), PowNat(d, 2))
  }

  lemma NormSquaredValue(c: Const, d: Const)
    requires Exact.Valid(c) && Exact.Valid(d)
    ensures Value(NormSquared(c, d)) == Value(c) * Value(c) + Value(d) * Value(d)
  {
    SquareValue(c);
    SquareValue(d);
    AddValue(PowNat(c, 2), PowNat(d, 2));
  }

  lemma SquareValue(c: Const)
    requires Exact.Valid(c)
    ensures Value(PowNat(c, 2)) == Value(c) * Value(c)
  {
    PowNatValue(c, 2);
    RPowNatSquare(Value(c));
  }

  /** c² + d² is zero only when both c and d are. */
  lemma NormSquaredZero(c: Const, d: Const)
    requires Exact.Valid(c) && Exact.Valid(d)
    ensures NormSquared(c, d).numerator == 0 <==> Value(c) == 0.0 && Value(d) == 0.0
  {
    hide *;
    PartsDenominators(c, d);
    PowNatValue(c, 2);
    PowNatValue(d, 2);
    AddValue(PowNat(c, 2), PowNat(d, 2));
    RPowNatSquareSign(Value(c));
    RPowNatSquareSign(Value(d));
    NormSquaredDefinition(c, d);
    ZeroValue(NormSquared(c, d));
  }

  lemma PartsDenominators(c: Const, d: Const)
    requires Exact.Valid(c) && Exact.Valid(d)
    ensures c.denominator > 0 && d.denominator > 0
    ensures PowNat(c, 2).denominator > 0 && PowNat(d, 2).denominator > 0
  {
  }

  lemma NormSquaredDefinition(c: Const, d: Const)
    requires Exact.Valid(c) && Exact.Valid(d)
    ensures NormSquared(c, d) == Exact.Add(PowNat(c, 2), PowNat(d, 2))
    ensures NormSquared(c, d).denominator > 0
  {
  }

  /** `__truediv__`: multiply by the conjugate over c² + d², which raises
      ZeroDivisionError exactly for the divisor 0. */
  function TrueDiv(z: Number, w: Number): (r: Result<Number>)
    requires Valid(z) && Valid(w)
    ensures r.Err? <==> Value(w.realPart) == 0.0 && Value(w.imagPart) == 0.0
    ensures r.Err? ==> r.error == ZeroDivisionError
    ensures r.Ok? ==> Valid(r.value)
  {
    var a, b, c, d := z.realPart, z.imagPart, w.realPart, w.imagPart;
    var denom := NormSquared(c, d);
    NormSquaredZero(c, d);
    if denom.numerator == 0 then Err(ZeroDivisionError)
    else Ok(Number(Div(MulSum(a, c, b, d), denom).value, Div(MulDiff(b, c, a, d), denom).value))
  }

  /** A Number's parts are Fractions in lowest terms. */
  lemma PartsValid(z: Number)
    requires Valid(z)
    ensures Exact.Valid(z.realPart) && Exact.Valid(z.imagPart)
  {
  }

  /** How the parts of a quotient are formed, for a nonzero divisor. */
  lemma TrueDivShape(z: Number, w: Number)
    requires Valid(z) && Valid(w) && (Value(w.realPart) != 0.0 || Value(w.imagPart) != 0.0)
    ensures NormSquared(w.realPart, w.imagPart).numerator != 0
    ensures TrueDiv(z, w).Ok? && Valid(TrueDiv(z, w).value)
    ensures TrueDiv(z, w).value.realPart
      == Div(MulSum(z.realPart, w.realPart, z.imagPart, w.imagPart), NormSquared(w.realPart, w.imagPart)).value
    ensures TrueDiv(z, w).value.imagPart
      == Div(MulDiff(z.imagPart, w.realPart, z.realPart, w.imagPart), NormSquared(w.realPart, w.imagPart)).value
  {
    NormSquaredZero(w.realPart, w.imagPart);
  }

  lemma NormSquaredValid(c: Const, d: Const)
    requires Exact.Valid(c) && Exact.Valid(d)
    ensures Exact.Valid(NormSquared(c, d))
  {
  }

  /** A Fraction quotient times its divisor is the dividend. */
  lemma QuotientTimes(x: Const, y: Const, v: real)
    requires Exact.Valid(x) && Exact.Valid(y) && y.numerator != 0 && Value(x) == v
    ensures Div(x, y).Ok?
    ensures Value(Div(x, y).value) * Value(y) == v
  {
    DivValue(x, y);
    ZeroValue(y);
    DivTimes(Value(x), Value(y));
  }

  lemma DivTimes(x: real, D: real)
    requires D != 0.0
    ensures (x / D) * D == x
  {
  }

  /** The parts of a quotient: ((ac + bd) / D, (bc - ad) / D) with D = c² + d². */
  lemma TrueDivRealPart(z: Number, w: Number)
    requires Valid(z) && Valid(w) && (Value(w.realPart) != 0.0 || Value(w.imagPart) != 0.0)
    ensures TrueDiv(z, w).Ok?
    ensures Value(TrueDiv(z, w).value.realPart) * Value(NormSquared(w.realPart, w.imagPart))
      == Value(z.realPart) * Value(w.realPart) + Value(z.imagPart) * Value(w.imagPart)
  {
    hide *;
    PartsValid(z);
    PartsValid(w);
    TrueDivShape(z, w);
    var a, b, c, d := z.realPart, z.imagPart, w.realPart, w.imagPart;
    MulSumValue(a, c, b, d);
    QuotientTimes(MulSum(a, c, b, d), NormSquared(c, d), Value(a) * Value(c) + Value(b) * Value(d));
  }

  lemma TrueDivImagPart(z: Number, w: Number)
    requires Valid(z) && Valid(w) && (Value(w.realPart) != 0.0 || Value(w.imagPart) != 0.0)
    ensures TrueDiv(z, w).Ok?
    ensures Value(TrueDiv(z, w).value.imagPart) * Value(NormSquared(w.realPart, w.imagPart))
      == Value(z.imagPart) * Value(w.realPart) - Value(z.realPart) * Value(w.imagPart)
  {
    hide *;
    PartsValid(z);
    PartsValid(w);
    TrueDivShape(z, w);
    var a, b, c, d := z.realPart, z.imagPart, w.realPart, w.imagPart;
    MulDiffValue(b, c, a, d);
    QuotientTimes(MulDiff(b, c, a, d), NormSquared(c, d), Value(b) * Value(c) - Value(a) * Value(d));
  }

  /** Division undoes multiplication: (x / y) * y == x for y != 0. */
  lemma DivThenMul(x: Number, y: Number)
    requires Valid(x) && Valid(y) && (Value(y.realPart) != 0.0 || Value(y.imagPart) != 0.0)
    ensures TrueDiv(x, y).Ok?
    ensures Mul(TrueDiv(x, y).value, y) == x
  {
    hide *;
    TrueDivShape(x, y);
    DivThenMulRealPart(x, y);
    DivThenMulImagPart(x, y);
    MulValid(TrueDiv(x, y).value, y);
    Extensional(Mul(TrueDiv(x, y).value, y), x);
  }

  lemma MulValid(z: Number, w: Number)
    requires Valid(z) && Valid(w)
    ensures Valid(Mul(z, w))
  {
  }

  lemma DivThenMulRealPart(x: Number, y: Number)
    requires Valid(x) && Valid(y) && (Value(y.realPart) != 0.0 || Value(y.imagPart) != 0.0)
    ensures TrueDiv(x, y).Ok?
    ensures Value(Mul(TrueDiv(x, y).value, y).realPart) == Value(x.realPart)
  {
    hide *;
    PartsValid(x);
    PartsValid(y);
    TrueDivShape(x, y);
    TrueDivRealPart(x, y);
    TrueDivImagPart(x, y);
    var q := TrueDiv(x, y).value;
    PartsValid(q);
    NormSquaredValid(y.realPart, y.imagPart);
    MulRealPart(q, y);
    NormSquaredNonzero(y);
    ConjugateReal(Value(x.realPart), Value(x.imagPart), Value(y.realPart), Value(y.imagPart),
      Value(q.realPart), Value(q.imagPart), Value(NormSquared(y.realPart, y.imagPart)));
  }

  lemma DivThenMulImagPart(x: Number, y: Number)
    requires Valid(x) && Valid(y) && (Value(y.realPart) != 0.0 || Value(y.imagPart) != 0.0)
    ensures TrueDiv(x, y).Ok?
    ensures Value(Mul(TrueDiv(x, y).value, y).imagPart) == Value(x.imagPart)
  {
    hide *;
    PartsValid(x);
    PartsValid(y);
    TrueDivShape(x, y);
    TrueDivRealPart(x, y);
    TrueDivImagPart(x, y);
    var q := TrueDiv(x, y).value;
    PartsValid(q);
    NormSquaredValid(y.realPart, y.imagPart);
    MulImagPart(q, y);
    NormSquaredNonzero(y);
    ConjugateImag(Value(x.realPart), Value(x.imagPart), Value(y.realPart), Value(y.imagPart),
      Value(q.realPart), Value(q.imagPart), Value(NormSquared(y.realPart, y.imagPart)));
  }

  lemma NormSquaredNonzero(y: Number)
    requires Valid(y) && (Value(y.realPart) != 0.0 || Value(y.imagPart) != 0.0)
    ensures var D := Value(NormSquared(y.realPart, y.imagPart));
      D != 0.0 && D == Value(y.realPart) * Value(y.realPart) + Value(y.imagPart) * Value(y.imagPart)
  {
    hide *;
    PartsValid(y);
    NormSquaredZero(y.realPart, y.imagPart);
    NormSquaredDefinition(y.realPart, y.imagPart);
    ZeroValue(NormSquared(y.realPart, y.imagPart));
    NormSquaredValue(y.realPart, y.imagPart);
  }

  /** The field identities behind DivThenMul, over the reals. */
  lemma ConjugateReal(a: real, b: real, c: real, d: real, u: real, v: real, D: real)
    requires D == c * c + d * d && D != 0.0
    requires u * D == a * c + b * d && v * D == b * c - a * d
    ensures u * c - v * d == a
  {
    assert (u * c - v * d) * D == (u * D) * c - (v * D) * d;
    assert (a * c + b * d) * c - (b * c - a * d) * d == a * D;
    MulCancelReal(u * c - v * d, a, D);
  }

  lemma ConjugateImag(a: real, b: real, c: real, d: real, u: real, v: real, D: real)
    requires D == c * c + d * d && D != 0.0
    requires u * D == a * c + b * d && v * D == b * c - a * d
    ensures u * d + v * c == b
  {
    assert (u * d + v * c) * D == (u * D) * d + (v * D) * c;
    assert (a * c + b * d) * d + (b * c - a * d) * c == b * D;
    MulCancelReal(u * d + v * c, b, D);
  }

  lemma MulCancelReal(x: real, y: real, k: real)
    requires k != 0.0 && x * k == y * k
    ensures x == y
  {
    assert (x - y) * k == 0.0;
  }

  /** `__neg__` negates both parts; `__pos__` is the identity. */
  function Neg(z: Number): (r: Number)
    requires Valid(z)
    ensures Valid(r)
  {
    Number(Negate(z.realPart), Negate(z.imagPart))
  }

  lemma NegParts(z: Number)
    requires Valid(z)
    ensures Value(Neg(z).realPart) == -Value(z.realPart) && Value(Neg(z).imagPart) == -Value(z.imagPart)
  {
    NegateValue(z.realPart);
    NegateValue(z.imagPart);
  }

  function Pos(z: Number): (r: Number)
    requires Valid(z)
    ensures r == z
  {
    z
  }

  lemma NegInvolution(z: Number)
    requires Valid(z)
    ensures Neg(Neg(z)) == z
  {
    NegateInvolution(z.realPart);
    NegateInvolution(z.imagPart);
  }

  /** The right operand of a comparison: anything with `real` and `imag`
      attributes (another Number, an int or a Fraction, whose imag is 0), or
      an object without `imag`. */
  datatype Operand = Parts(re: Const, im: Const) | NoImag

  function AsOperand(z: Number): Operand {
    Parts(z.realPart, z.imagPart)
  }

  predicate ValidOperand(o: Operand) {
    o.Parts? ==> Exact.Valid(o.re) && Exact.Valid(o.im)
  }

  /** `__eq__`: both parts equal; an object without `imag` is never equal. */
  function Eq(z: Number, o: Operand): (r: bool)
    ensures o.NoImag? ==> !r
  {
    o.Parts? && z.realPart == o.re && z.imagPart == o.im
  }

  /** Equality of Numbers is equality of both parts' values. */
  lemma EqMeansSameParts(z: Number, w: Number)
    requires Valid(z) && Valid(w)
    ensures Eq(z, AsOperand(w)) <==> Value(z.realPart) == Value(w.realPart) && Value(z.imagPart) == Value(w.imagPart)
  {
    SameValueSameConst(z.realPart, w.realPart);
    SameValueSameConst(z.imagPart, w.imagPart);
  }

  /** `__gt__`, `__ge__`, `__lt__`, `__le__`: compare the real parts when the
      imaginary parts are equal, the imaginary parts when the real parts are
      equal, and otherwise answer False. */
  datatype Relation = GT | GE | LT | LE

  function Holds(rel: Relation, x: Const, y: Const): bool
    requires x.denominator > 0 && y.denominator > 0
  {
    match rel
    case GT => Greater(x, y)
    case GE => GreaterEq(x, y)
    case LT => Less(x, y)
    case LE => LessEq(x, y)
  }

  function Compare(rel: Relation, z: Number, o: Operand): (r: bool)
    requires Valid(z) && ValidOperand(o)
    ensures o.NoImag? ==> !r
  {
    if o.NoImag? then false
    else if z.imagPart == o.im then Holds(rel, z.realPart, o.re)
    else if z.realPart == o.re then Holds(rel, z.imagPart, o.im)
    else false
  }

  /** The relation on real numbers that `Holds` decides on rationals. */
  predicate RealHolds(rel: Relation, x: real, y: real) {
    match rel
    case GT => x > y
    case GE => x >= y
    case LT => x < y
    case LE => x <= y
  }

  /** The comparisons in terms of values: the real parts are compared when
      the imaginary parts are equal, the imaginary parts when the real parts
      are, and nothing else compares. */
  lemma CompareValues(rel: Relation, z: Number, w: Number)
    requires Valid(z) && Valid(w)
    ensures Compare(rel, z, AsOperand(w)) <==>
      (Value(z.imagPart) == Value(w.imagPart) && RealHolds(rel, Value(z.realPart), Value(w.realPart))) ||
      (Value(z.imagPart) != Value(w.imagPart) && Value(z.realPart) == Value(w.realPart) && RealHolds(rel, Value(z.imagPart), Value(w.imagPart)))
  {
    SameValueSameConst(z.realPart, w.realPart);
    SameValueSameConst(z.imagPart, w.imagPart);
  }

  lemma SameValueSameConst(x: Const, y: Const)
    requires Exact.Valid(x) && Exact.Valid(y)
    ensures x == y <==> Value(x) == Value(y)
  {
    if Value(x) == Value(y) {
      Canonical(x, y);
    }
  }

  /** The comparisons are consistent with each other: `>` is `<` with the
      sides swapped, and `<=` is `<` or `==`. */
  lemma CompareConsistent(z: Number, w: Number)
    requires Valid(z) && Valid(w)
    ensures Compare(GT, z, AsOperand(w)) <==> Compare(LT, w, AsOperand(z))
    ensures Compare(GE, z, AsOperand(w)) <==> Compare(LE, w, AsOperand(z))
    ensures Compare(LE, z, AsOperand(w)) <==> Compare(LT, z, AsOperand(w)) || Eq(z, AsOperand(w))
    ensures Compare(GE, z, AsOperand(w)) <==> Compare(GT, z, AsOperand(w)) || Eq(z, AsOperand(w))
  {
    CompareValues(GT, z, w);
    CompareValues(LT, w, z);
    CompareValues(GE, z, w);
    CompareValues(LE, w, z);
    CompareValues(LE, z, w);
    CompareValues(LT, z, w);
    EqMeansSameParts(z, w);
  }

  /** The `numerator` and `denominator` properties: the real part's when the
      imaginary part is 0, otherwise the Number itself over 1. */
  datatype Numerator = IntNumerator(n: int) | SelfNumerator(z: Number)

  function NumeratorOf(z: Number): (r: Numerator)
    ensures z.imagPart.numerator == 0 <==> r.IntNumerator?
  {
    if z.imagPart.numerator == 0 then IntNumerator(z.realPart.numerator) else SelfNumerator(z)
  }

  function DenominatorOf(z: Number): (r: int)
    requires Valid(z)
    ensures r > 0
  {
    if z.imagPart.numerator == 0 then z.realPart.denominator else 1
  }

  /** numerator / denominator is the Number again. */
  lemma NumeratorOverDenominator(z: Number)
    requires Valid(z)
    ensures NumeratorOf(z).IntNumerator? ==>
      Value(z.imagPart) == 0.0 && Value(z.realPart) == NumeratorOf(z).n as real / DenominatorOf(z) as real
    ensures NumeratorOf(z).SelfNumerator? ==> NumeratorOf(z).z == z && DenominatorOf(z) == 1
  {
    ZeroValue(z.imagPart);
  }
}
