/** Relations and comparisons of solving/comparison.py: `CompRel.reverse`
    works on the member's name, `Comparison.reverse` swaps the sides,
    `normalize` moves everything to the left, and `reverse_sign` decides
    whether dividing by a coefficient flips the relation. */
module Comparisons {
  import opened Outcome
  import opened Exact

  datatype CompRel = EQ | NE | LT | GT | LE | GE | IN

  /** The enum values. */
  function RelValue(r: CompRel): real {
    match r
    case EQ => 0.0
    case NE => 0.5
    case LT => 1.0
    case GT => 2.0
    case LE => 3.0
    case GE => 4.0
    case IN => 5.0
  }

  function Name(r: CompRel): string {
    match r
    case EQ => "EQ"
    case NE => "NE"
    case LT => "LT"
    case GT => "GT"
    case LE => "LE"
    case GE => "GE"
    case IN => "IN"
  }

  /** `getattr(CompRel, name)`: None where Python raises AttributeError. */
  function Named(s: string): (r: Option<CompRel>)
    ensures r.Some? ==> Name(r.value) == s
  {
    if s == "EQ" then Some(EQ) else if s == "NE" then Some(NE)
    else if s == "LT" then Some(LT) else if s == "GT" then Some(GT)
    else if s == "LE" then Some(LE) else if s == "GE" then Some(GE)
    else if s == "IN" then Some(IN) else None
  }

  lemma NamedName(r: CompRel)
    ensures Named(Name(r)) == Some(r)
  {
  }

  /** `str.replace(a, b)` for single characters. */
  function ReplaceChar(s: string, a: char, b: char): (r: string)
    ensures |r| == |s|
    ensures forall k :: 0 <= k < |s| ==> r[k] == (if s[k] == a then b else s[k])
  {
    if s == [] then [] else [if s[0] == a then b else s[0]] + ReplaceChar(s[1..], a, b)
  }

  /** `CompRel.reverse`: a value below 1 is its own reverse; a name
      starting with L has its L turned into G, any other its G into L. */
  function Reverse(r: CompRel): (q: CompRel)
    ensures r == EQ || r == NE || r == IN ==> q == r
    ensures r == LT <==> q == GT
    ensures r == LE <==> q == GE
    ensures r == GT <==> q == LT
    ensures r == GE <==> q == LE
  {
    if RelValue(r) < 1.0 then r
    else
      var n := Name(r);
      var m := if n[0] == 'L' then ReplaceChar(n, 'L', 'G') else ReplaceChar(n, 'G', 'L');
      assert m == Name(r) || (r == LT && m == "GT") || (r == LE && m == "GE")
        || (r == GT && m == "LT") || (r == GE && m == "LE") by {
        assert |n| == 2 && |m| == 2;
      }
      assert Named(m).Some?;
      Named(m).value
  }

  /** Reversing twice gives the relation back. */
  lemma ReverseInvolution(r: CompRel)
    ensures Reverse(Reverse(r)) == r
  {
  }

  /** The sides of a comparison: named values, the constant 0 that
      `normalize` puts on the right, and the difference it puts on the left. */
  datatype Expr = Atom(name: string) | Zero | Difference(minuend: Expr, subtrahend: Expr)

  datatype Comparison = Comparison(left: Expr, right: Expr, rel: CompRel)

  /** The value of a side when each name has the value env gives it. */
  function Eval(e: Expr, env: map<string, real>): real {
    match e
    case Atom(n) => if n in env then env[n] else 0.0
    case Zero => 0.0
    case Difference(a, b) => Eval(a, env) - Eval(b, env)
  }

  /** What a relation other than IN says of two values. */
  predicate Holds(rel: CompRel, a: real, b: real)
    requires rel != IN
  {
    match rel
    case EQ => a == b
    case NE => a != b
    case LT => a < b
    case GT => a > b
    case LE => a <= b
    case GE => a >= b
  }

  predicate True(c: Comparison, env: map<string, real>)
    requires c.rel != IN
  {
    Holds(c.rel, Eval(c.left, env), Eval(c.right, env))
  }

  /** `Comparison.reverse`: the right side first, with the reversed relation. */
  function ReverseComparison(c: Comparison): (r: Comparison)
    ensures r.left == c.right && r.right == c.left
  {
    Comparison(c.right, c.left, Reverse(c.rel))
  }

  /** `normalize`: left minus right on the left, 0 on the right. */
  function Normalize(c: Comparison): (r: Comparison)
    ensures r.right == Zero && r.rel == c.rel
  {
    Comparison(Difference(c.left, c.right), Zero, c.rel)
  }

  /** Reversing a comparison states the same thing. */
  lemma ReverseMeaning(c: Comparison, env: map<string, real>)
    requires c.rel != IN
    ensures Reverse(c.rel) != IN && (True(ReverseComparison(c), env) <==> True(c, env))
  {
  }

  /** Normalising a comparison states the same thing. */
  lemma NormalizeMeaning(c: Comparison, env: map<string, real>)
    requires c.rel != IN
    ensures True(Normalize(c), env) <==> True(c, env)
  {
  }

  /** `reverse_sign`: EQ and NE stay; any other relation is reversed when
      the leading coefficient of the value divided by is negative. */
  function ReverseSign(rel: CompRel, coefficient: Const): (r: CompRel)
    requires coefficient.denominator != 0
    ensures rel == EQ || rel == NE ==> r == rel
  {
    if rel == EQ || rel == NE then rel
    else if Value(coefficient) < 0.0 then Reverse(rel)
    else rel
  }

  /** Dividing both sides by a nonzero coefficient k keeps a comparison
      true exactly when the relation is the one `reverse_sign` gives. */
  lemma ReverseSignSound(rel: CompRel, coefficient: Const, a: real, b: real)
    requires coefficient.denominator != 0 && Value(coefficient) != 0.0 && rel != IN
    ensures ReverseSign(rel, coefficient) != IN
    ensures Holds(rel, a, b) <==> Holds(ReverseSign(rel, coefficient), a / Value(coefficient), b / Value(coefficient))
  {
    var k := Value(coefficient);
    if k < 0.0 {
      DivideNegative(a, b, k);
    } else {
      DividePositive(a, b, k);
    }
  }

  lemma DividePositive(a: real, b: real, k: real)
    requires k > 0.0
    ensures a < b <==> a / k < b / k
    ensures a == b <==> a / k == b / k
  {
    assert a == (a / k) * k && b == (b / k) * k;
  }

  lemma DivideNegative(a: real, b: real, k: real)
    requires k < 0.0
    ensures a < b <==> a / k > b / k
    ensures a == b <==> a / k == b / k
  {
    assert a == (a / k) * k && b == (b / k) * k;
  }
}
