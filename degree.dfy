/** The node-level half of utils/polynomial.py: which expression trees count
    as polynomials, and their degree, in total or in one variable. */
module Terms {
  import opened Outcome
  import opened Exact
  import opened Arith

  /** The node classes the two functions dispatch on by class name; every
      other class is `OtherNode`. A `Var` is a string and compares by its
      characters. */
  datatype Expr =
    | ConstNode(c: Const)
    | FloatNode
    | VarNode(name: string)
    | MulNode(args: seq<Expr>)
    | AddNode(args: seq<Expr>)
    | PowNode(base: Expr, exp: Expr)
    | OtherNode

  /** An exponent `is_polynomial` and `degree` accept: a Const with
      denominator 1 and a numerator that is not negative. */
  predicate NaturalExponent(exp: Expr) {
    exp.ConstNode? && exp.c.denominator == 1 && exp.c.numerator >= 0
  }

  /** `is_polynomial`: constants and variables are; a sum or a product is
      when all its arguments are; a power is when its exponent is natural
      and its base is a polynomial; nothing else is. */
  predicate IsPolynomial(e: Expr) {
    match e
    case ConstNode(_) => true
    case VarNode(_) => true
    case MulNode(args) => forall k :: 0 <= k < |args| ==> IsPolynomial(args[k])
    case AddNode(args) => forall k :: 0 <= k < |args| ==> IsPolynomial(args[k])
    case PowNode(base, exp) => NaturalExponent(exp) && IsPolynomial(base)
    case _ => false
  }

  /** `degree(node, var)`. The result None is Python's None. A sum takes
      `max` over its arguments: an empty one raises ValueError, and with two
      or more arguments a None among them makes the comparison raise
      TypeError. A product takes `sum`, where None raises TypeError. Powers
      of degree 0 or None return that degree before looking at the
      exponent. */
  function Degree(e: Expr, v: Option<string>): (r: Result<Option<nat>>)
    ensures r.Err? ==> r.error.ValueError? || r.error.TypeError?
    decreases e, 1
  {
    match e
    case ConstNode(_) => Ok(Some(0))
    case FloatNode => Ok(Some(0))
    case VarNode(name) =>
      if v.Some? then Ok(Some(if name == v.value then 1 else 0)) else Ok(Some(1))
    case PowNode(base, exp) =>
      var res :- Degree(base, v);
      Ok(PowerDegree(res, exp))
    case MulNode(args) => SumDegrees(e, v, 0, 0)
    case AddNode(args) =>
      if |args| == 0 then Err(ValueError("max() arg is an empty sequence"))
      else
        var first :- Degree(args[0], v);
        if |args| == 1 then Ok(first) else MaxDegrees(e, v, 1, first)
    case OtherNode => Err(TypeError("Unsupported type for degree"))
  }

  /** The `Pow` case once the base's degree res is known. */
  function PowerDegree(res: Option<nat>, exp: Expr): Option<nat> {
    if res.None? || res.value == 0 then res
    else if !exp.ConstNode? || exp.c.numerator < 0 || exp.c.denominator != 1 then None
    else Some(res.value * exp.c.numerator)
  }

  /** `sum(degree(t, var) for t in node.args)` from argument i on, with the
      running total. */
  function SumDegrees(e: Expr, v: Option<string>, i: nat, total: nat): (r: Result<Option<nat>>)
    requires e.MulNode? && i <= |e.args|
    ensures r.Err? ==> r.error.ValueError? || r.error.TypeError?
    decreases e, 0, |e.args| - i
  {
    if i == |e.args| then Ok(Some(total))
    else
      var d :- Degree(e.args[i], v);
      if d.None? then Err(TypeError("unsupported operand type(s) for +"))
      else SumDegrees(e, v, i + 1, total + d.value)
  }

  /** `max(degree(t, var) for t in node.args)` from argument i on, with the
      largest degree so far. */
  function MaxDegrees(e: Expr, v: Option<string>, i: nat, best: Option<nat>): (r: Result<Option<nat>>)
    requires e.AddNode? && i <= |e.args|
    ensures r.Err? ==> r.error.ValueError? || r.error.TypeError?
    decreases e, 0, |e.args| - i
  {
    if i == |e.args| then Ok(best)
    else
      var d :- Degree(e.args[i], v);
      if d.None? || best.None? then Err(TypeError("'>' not supported between instances"))
      else MaxDegrees(e, v, i + 1, if d.value > best.value then d else best)
  }

  // ------------------------------------------------------------ references

  function SumOf(ds: seq<nat>): nat {
    if |ds| == 0 then 0 else SumOf(ds[..|ds| - 1]) + ds[|ds| - 1]
  }

  function MaxOf(ds: seq<nat>): (r: nat)
    requires |ds| > 0
    ensures r in ds && forall k :: 0 <= k < |ds| ==> ds[k] <= r
  {
    if |ds| == 1 then ds[0]
    else
      var m := MaxOf(ds[..|ds| - 1]);
      assert forall k :: 0 <= k < |ds| - 1 ==> ds[..|ds| - 1][k] == ds[k];
      if ds[|ds| - 1] > m then ds[|ds| - 1] else m
  }

  /** Every argument has a degree. */
  predicate AllDegrees(args: seq<Expr>, v: Option<string>, ds: seq<nat>) {
    |ds| == |args| && forall k :: 0 <= k < |args| ==> Degree(args[k], v) == Ok(Some(ds[k]))
  }

  lemma SumDegreesNext(e: Expr, v: Option<string>, i: nat, d: nat, total: nat)
    requires e.MulNode? && i < |e.args| && Degree(e.args[i], v) == Ok(Some(d))
    ensures SumDegrees(e, v, i, total) == SumDegrees(e, v, i + 1, total + d)
  {
  }

  lemma {:induction false} SumDegreesIsSum(e: Expr, v: Option<string>, i: nat, ds: seq<nat>)
    requires e.MulNode? && i <= |e.args| && AllDegrees(e.args, v, ds)
    ensures SumDegrees(e, v, i, SumOf(ds[..i])) == Ok(Some(SumOf(ds)))
    decreases |e.args| - i
  {
    if i < |e.args| {
      assert ds[..i + 1][..i] == ds[..i];
      SumDegreesNext(e, v, i, ds[i], SumOf(ds[..i]));
      SumDegreesIsSum(e, v, i + 1, ds);
    } else {
      assert ds[..i] == ds;
    }
  }

  /** A product of terms with degrees has the sum of their degrees. */
  lemma MulDegree(args: seq<Expr>, v: Option<string>, ds: seq<nat>)
    requires AllDegrees(args, v, ds)
    ensures Degree(MulNode(args), v) == Ok(Some(SumOf(ds)))
  {
    SumDegreesIsSum(MulNode(args), v, 0, ds);
  }

  lemma MaxOfNext(ds: seq<nat>, i: nat)
    requires 0 < i < |ds|
    ensures MaxOf(ds[..i + 1]) == if ds[i] > MaxOf(ds[..i]) then ds[i] else MaxOf(ds[..i])
  {
    assert ds[..i + 1][..i] == ds[..i];
  }

  lemma MaxDegreesNext(e: Expr, v: Option<string>, i: nat, d: nat, m: nat)
    requires e.AddNode? && i < |e.args| && Degree(e.args[i], v) == Ok(Some(d))
    ensures MaxDegrees(e, v, i, Some(m)) == MaxDegrees(e, v, i + 1, Some(if d > m then d else m))
  {
  }

  lemma {:induction false} MaxDegreesIsMax(e: Expr, v: Option<string>, i: nat, ds: seq<nat>)
    requires e.AddNode? && 0 < i <= |e.args| && AllDegrees(e.args, v, ds)
    ensures MaxDegrees(e, v, i, Some(MaxOf(ds[..i]))) == Ok(Some(MaxOf(ds)))
    decreases |e.args| - i
  {
    if i < |e.args| {
      MaxOfNext(ds, i);
      MaxDegreesNext(e, v, i, ds[i], MaxOf(ds[..i]));
      MaxDegreesIsMax(e, v, i + 1, ds);
    } else {
      assert ds[..i] == ds;
    }
  }

  /** A nonempty sum of terms with degrees has the largest of them. */
  lemma AddDegree(args: seq<Expr>, v: Option<string>, ds: seq<nat>)
    requires AllDegrees(args, v, ds) && |args| > 0
    ensures Degree(AddNode(args), v) == Ok(Some(MaxOf(ds)))
  {
    assert ds[..1] == [ds[0]];
    if |args| > 1 {
      MaxDegreesIsMax(AddNode(args), v, 1, ds);
    }
  }

  /** A power of a term of positive degree k has degree k · n for a natural
      exponent n, and no degree for any other exponent. */
  lemma PowDegree(base: Expr, exp: Expr, v: Option<string>, k: nat)
    requires Degree(base, v) == Ok(Some(k)) && k > 0
    ensures NaturalExponent(exp) ==> Degree(PowNode(base, exp), v) == Ok(Some(k * exp.c.numerator))
    ensures !NaturalExponent(exp) ==> Degree(PowNode(base, exp), v) == Ok(None)
  {
  }

  // ------------------------------------------------------------ properties

  /** No sum in the tree is empty (`max` of nothing raises). */
  predicate NoEmptySum(e: Expr) {
    match e
    case MulNode(args) => forall k :: 0 <= k < |args| ==> NoEmptySum(args[k])
    case AddNode(args) => |args| > 0 && forall k :: 0 <= k < |args| ==> NoEmptySum(args[k])
    case PowNode(base, _) => NoEmptySum(base)
    case _ => true
  }

  /** Every polynomial without an empty sum has a degree, in total and in
      any one variable. */
  lemma {:induction false} PolynomialHasDegree(e: Expr, v: Option<string>)
    requires IsPolynomial(e) && NoEmptySum(e)
    ensures Degree(e, v).Ok? && Degree(e, v).value.Some?
    decreases e, 1
  {
    match e
    case ConstNode(_) =>
    case VarNode(_) =>
    case MulNode(args) =>
      var ds := ArgumentDegrees(e, v);
      MulDegree(args, v, ds);
    case AddNode(args) =>
      var ds := ArgumentDegrees(e, v);
      AddDegree(args, v, ds);
    case PowNode(base, exp) =>
      PolynomialHasDegree(base, v);
      var k := Degree(base, v).value.value;
      if k > 0 {
        PowDegree(base, exp, v, k);
      }
  }

  /** The degrees of the arguments of a polynomial sum or product. */
  lemma {:induction false} ArgumentDegrees(e: Expr, v: Option<string>) returns (ds: seq<nat>)
    requires (e.MulNode? || e.AddNode?) && IsPolynomial(e) && NoEmptySum(e)
    ensures AllDegrees(e.args, v, ds)
    decreases e, 0
  {
    ds := [];
    for i := 0 to |e.args|
      invariant |ds| == i && forall k :: 0 <= k < i ==> Degree(e.args[k], v) == Ok(Some(ds[k]))
    {
      PolynomialHasDegree(e.args[i], v);
      ds := ds + [Degree(e.args[i], v).value.value];
    }
  }

  lemma {:induction false} SumMonotone(a: seq<nat>, b: seq<nat>)
    requires |a| == |b| && forall k :: 0 <= k < |a| ==> a[k] <= b[k]
    ensures SumOf(a) <= SumOf(b)
  {
    if |a| > 0 {
      SumMonotone(a[..|a| - 1], b[..|b| - 1]);
    }
  }

  lemma {:induction false} MaxMonotone(a: seq<nat>, b: seq<nat>)
    requires |a| == |b| > 0 && forall k :: 0 <= k < |a| ==> a[k] <= b[k]
    ensures MaxOf(a) <= MaxOf(b)
  {
    var k :| 0 <= k < |a| && a[k] == MaxOf(a);
  }

  /** A product with a degree has arguments with degrees. */
  lemma {:induction false} SumArguments(e: Expr, v: Option<string>, i: nat, total: nat) returns (ds: seq<nat>)
    requires e.MulNode? && i <= |e.args|
    requires SumDegrees(e, v, i, total).Ok? && SumDegrees(e, v, i, total).value.Some?
    ensures |ds| == |e.args| - i && forall k :: 0 <= k < |ds| ==> Degree(e.args[i + k], v) == Ok(Some(ds[k]))
    decreases |e.args| - i
  {
    if i == |e.args| {
      ds := [];
    } else {
      var d := Degree(e.args[i], v).value.value;
      var rest := SumArguments(e, v, i + 1, total + d);
      ds := [d] + rest;
    }
  }

  /** A sum of two or more arguments with a degree has arguments with
      degrees. */
  lemma {:induction false} MaxArguments(e: Expr, v: Option<string>, i: nat, best: Option<nat>) returns (ds: seq<nat>)
    requires e.AddNode? && i <= |e.args|
    requires MaxDegrees(e, v, i, best).Ok? && MaxDegrees(e, v, i, best).value.Some?
    ensures |ds| == |e.args| - i && forall k :: 0 <= k < |ds| ==> Degree(e.args[i + k], v) == Ok(Some(ds[k]))
    ensures best.Some?
    decreases |e.args| - i
  {
    if i == |e.args| {
      ds := [];
    } else {
      var d := Degree(e.args[i], v).value.value;
      var rest := MaxArguments(e, v, i + 1, if d > best.value then Some(d) else best);
      ds := [d] + rest;
    }
  }

  /** The degrees of the arguments of a sum or product that has a degree. */
  lemma Arguments(e: Expr, v: Option<string>, b: nat) returns (ds: seq<nat>)
    requires (e.MulNode? || e.AddNode?) && Degree(e, v) == Ok(Some(b))
    ensures AllDegrees(e.args, v, ds)
  {
    if e.MulNode? {
      ds := SumArguments(e, v, 0, 0);
    } else if |e.args| == 1 {
      ds := [Degree(e.args[0], v).value.value];
    } else {
      var first := Degree(e.args[0], v).value;
      var rest := MaxArguments(e, v, 1, first);
      ds := [first.value] + rest;
    }
  }

  /** The degree in one variable never exceeds the total degree. */
  lemma {:induction false} VariableDegreeAtMost(e: Expr, x: string, a: nat, b: nat)
    requires Degree(e, Some(x)) == Ok(Some(a)) && Degree(e, None) == Ok(Some(b))
    ensures a <= b
    decreases e, 1
  {
    match e
    case ConstNode(_) =>
    case FloatNode =>
    case VarNode(_) =>
    case PowNode(base, exp) =>
      var ka := Degree(base, Some(x)).value.value;
      var kb := Degree(base, None).value.value;
      VariableDegreeAtMost(base, x, ka, kb);
      PowAtMost(base, exp, x, ka, kb, a, b);
    case MulNode(args) =>
      var da, db := ArgumentsAtMost(e, x, a, b);
      MulDegree(args, Some(x), da);
      MulDegree(args, None, db);
      SumMonotone(da, db);
    case AddNode(args) =>
      var da, db := ArgumentsAtMost(e, x, a, b);
      AddDegree(args, Some(x), da);
      AddDegree(args, None, db);
      MaxMonotone(da, db);
  }

  lemma PowAtMost(base: Expr, exp: Expr, x: string, ka: nat, kb: nat, a: nat, b: nat)
    requires Degree(base, Some(x)) == Ok(Some(ka)) && Degree(base, None) == Ok(Some(kb)) && ka <= kb
    requires Degree(PowNode(base, exp), Some(x)) == Ok(Some(a)) && Degree(PowNode(base, exp), None) == Ok(Some(b))
    ensures a <= b
  {
    if ka > 0 {
      PowDegree(base, exp, Some(x), ka);
      PowDegree(base, exp, None, kb);
      MulLeft(ka, kb, exp.c.numerator);
    }
  }

  lemma MulLeft(p: nat, q: nat, n: nat)
    requires p <= q
    ensures p * n <= q * n
  {
  }

  /** The argument degrees of a sum or product, in x and in total, pair by
      pair in order. */
  lemma {:induction false} ArgumentsAtMost(e: Expr, x: string, a: nat, b: nat) returns (da: seq<nat>, db: seq<nat>)
    requires (e.MulNode? || e.AddNode?) && Degree(e, Some(x)) == Ok(Some(a)) && Degree(e, None) == Ok(Some(b))
    ensures AllDegrees(e.args, Some(x), da) && AllDegrees(e.args, None, db)
    ensures forall k :: 0 <= k < |da| ==> da[k] <= db[k]
    decreases e, 0
  {
    da := Arguments(e, Some(x), a);
    db := Arguments(e, None, b);
    forall k | 0 <= k < |da|
      ensures da[k] <= db[k]
    {
      VariableDegreeAtMost(e.args[k], x, da[k], db[k]);
    }
  }

  // ------------------------------------------------------------ evaluation

  /** A reference meaning for expression trees, used to say what a tree
      built from coefficients stands for: the value at x of the variable v,
      with constants as their values, sums and products of the arguments
      taken from left to right, and natural powers. None marks a tree with
      no value here: another variable, a float, a power with an exponent
      that is not natural, or another node class. */
  function EvalAt(e: Expr, v: string, x: real): Option<real>
    decreases e, 1
  {
    match e
    case ConstNode(c) => if c.denominator == 0 then None else Some(Value(c))
    case VarNode(name) => if name == v then Some(x) else None
    case MulNode(args) => FoldProduct(e, v, x, 0, 1.0)
    case AddNode(args) => FoldSum(e, v, x, 0, 0.0)
    case PowNode(base, exp) =>
      if !NaturalExponent(exp) then None
      else
        var b := EvalAt(base, v, x);
        if b.None? then None else Some(RPowNat(b.value, exp.c.numerator))
    case _ => None
  }

  /** The running sum of the arguments from argument i on. */
  function FoldSum(e: Expr, v: string, x: real, i: nat, acc: real): Option<real>
    requires e.AddNode? && i <= |e.args|
    decreases e, 0, |e.args| - i
  {
    if i == |e.args| then Some(acc)
    else
      var t := EvalAt(e.args[i], v, x);
      if t.None? then None else FoldSum(e, v, x, i + 1, acc + t.value)
  }

  /** The running product of the arguments from argument i on. */
  function FoldProduct(e: Expr, v: string, x: real, i: nat, acc: real): Option<real>
    requires e.MulNode? && i <= |e.args|
    decreases e, 0, |e.args| - i
  {
    if i == |e.args| then Some(acc)
    else
      var t := EvalAt(e.args[i], v, x);
      if t.None? then None else FoldProduct(e, v, x, i + 1, Times(acc, t.value))
  }

  /** A product kept as a term of its own, so that folds over it are
      compared by their arguments. */
  function Times(a: real, b: real): real {
    a * b
  }

  lemma FoldSumStep(e: Expr, v: string, x: real, i: nat, acc: real, t: real)
    requires e.AddNode? && i < |e.args| && EvalAt(e.args[i], v, x) == Some(t)
    ensures FoldSum(e, v, x, i, acc) == FoldSum(e, v, x, i + 1, acc + t)
  {
  }

  lemma FoldSumEnd(e: Expr, v: string, x: real, acc: real)
    requires e.AddNode?
    ensures FoldSum(e, v, x, |e.args|, acc) == Some(acc)
  {
  }

  lemma FoldProductStep(e: Expr, v: string, x: real, i: nat, acc: real, t: real)
    requires e.MulNode? && i < |e.args| && EvalAt(e.args[i], v, x) == Some(t)
    ensures FoldProduct(e, v, x, i, acc) == FoldProduct(e, v, x, i + 1, Times(acc, t))
  {
  }

  lemma FoldProductEnd(e: Expr, v: string, x: real, acc: real)
    requires e.MulNode?
    ensures FoldProduct(e, v, x, |e.args|, acc) == Some(acc)
  {
  }
}
