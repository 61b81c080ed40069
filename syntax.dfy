/** The recursive-descent half of parsing/parser.py: a `Parser` over the
    prefix items, its `_parse`, `generate_system` and `parse`.

    The prefix order puts every operator before its operands, so `_parse`
    reads the current item, and for an operator parses its operands one
    after the other. By the source's convention the current item after a
    parse is the LAST item it consumed; a caller advances before it parses
    the next operand. */
module Syntax {
  import opened Outcome
  import opened Parsing

  /** What `_parse` returns. An operand's value; the result of a unary or
      a binary operator function; a comparison; the (variable, comparison)
      pair SOLVE returns; a System, whose equations are kept in the order
      they were parsed (the source's System is a frozenset, and a duplicate
      is rejected, so nothing is lost). */
  datatype Tree =
    | Leaf(value: Payload)
    | Unary(op: TokenType, arg: Tree)
    | Binary(op: TokenType, left: Tree, right: Tree)
    | Compare(op: TokenType, left: Tree, right: Tree)
    | Solve(variable: Tree, condition: Tree)
    | System(members: seq<Tree>)

  /** `isinstance(x, Node)`: a constant or variable, or the result of an
      arithmetic operator. APPROX gives a float, not a Node. */
  predicate IsNode(t: Tree) {
    match t
    case Leaf(p) => p.Term?
    case Unary(op, _) => op != APPROX
    case Binary(_, _, _) => true
    case _ => false
  }

  predicate IsVariable(t: Tree) {
    t.Leaf? && t.value.Term? && t.value.leaf.VarLeaf?
  }

  /** `Parser.operator_error`: an operator that lacks an operand. */
  function OperatorError(k: TokenType): Error {
    SyntaxError("operator '" + Name(k) + "' has inadequate operands")
  }

  /** `Parser.operand_error`: an arithmetic operator on a non-term. */
  function OperandError(k: TokenType): Error {
    TypeError("unsupported: '" + Name(k) + "' for non-term expressions")
  }

  function UniqueError(): Error {
    SyntaxError("system expects unique equations only")
  }

  function MalformedError(): Error {
    SyntaxError("Malformed expression")
  }

  /** Python's `bool` of the item left current after a parse: an operator
      type is truthy; an operand is its value's truth, so a None value, the
      constant 0 and the empty name are falsy. */
  predicate Truthy(x: Item) {
    match x
    case Op(_) => true
    case Operand(p) =>
      match p
      case NoValue => false
      case Raised(_) => true
      case Term(leaf) =>
        match leaf
        case ConstLeaf(c) => c.numerator != 0
        case VarLeaf(name) => name != []
  }

  // ------------------------------------------------ the reference parse

  /** A parse: its result (None for `return` with nothing to parse) and the
      index, in the items it was given, of the item current afterwards. */
  datatype Parsed = Parsed(tree: Option<Tree>, at: nat)

  /** The items an operand's absence leaves `self.curr is None`. */
  predicate Absent(q: seq<Item>) {
    q == [] || q[0] == Operand(NoValue)
  }

  /** `_parse` with q the current item followed by the unread ones. */
  function ParseAt(q: seq<Item>): (r: Result<Parsed>)
    ensures r.Ok? ==> r.value.at <= |q|
    ensures r.Ok? && r.value.tree.None? ==> r.value.at == 0 && Absent(q)
    ensures r.Ok? && r.value.tree.Some? ==> r.value.at < |q|
    ensures !Absent(q) && r.Ok? ==> r.value.tree.Some?
    decreases |q|, 2
  {
    if Absent(q) then Ok(Parsed(None, 0))
    else if q[0].Operand? then Ok(Parsed(Some(Leaf(q[0].value)), 0))
    else if q[0] == Op(COMMA) then SystemAt(q)
    else
      var oper := q[0].kind;
      var left :- ParseAt(q[1..]);
      if left.tree.None? then Err(OperatorError(oper))
      else if IsUnary(oper) then Place(UnaryCombine(oper, left.tree.value), 1 + left.at)
      else
        var j := 2 + left.at;
        var right :- ParseAt(q[j..]);
        if right.tree.None? then Err(OperatorError(oper))
        else Place(Combine(oper, left.tree.value, right.tree.value), j + right.at)
  }

  /** A unary operator applied to its parsed operand; only APPROX, of
      value below 6, takes a non-term. */
  function UnaryCombine(oper: TokenType, l: Tree): Result<Tree> {
    if Value(oper) >= 6.0 && !IsNode(l) then Err(OperandError(oper)) else Ok(Unary(oper, l))
  }

  /** A binary operator applied to its two parsed operands, with the
      checks of `_parse` in their order: SOLVE needs a variable and a
      comparison; a comparison rejects a nested comparison, then a
      non-term; any other operator rejects a non-term on the right, and on
      the left when its value is at least 6. */
  function Combine(oper: TokenType, l: Tree, r: Tree): Result<Tree> {
    if oper == SOLVE then
      if !IsVariable(l) then Err(SyntaxError("can only solve for Variables"))
      else if !r.Compare? then Err(SyntaxError("can only solve from an (in)equality"))
      else Ok(Solve(l, r))
    else if IsComparison(oper) then
      if l.Compare? || r.Compare? then Err(SyntaxError("nested (in)equality"))
      else if !IsNode(l) || !IsNode(r) then Err(OperandError(oper))
      else Ok(Compare(oper, l, r))
    else if (Value(oper) >= 6.0 && !IsNode(l)) || !IsNode(r) then Err(OperandError(oper))
    else Ok(Binary(oper, l, r))
  }

  /** A combined tree, current item at. */
  function Place(t: Result<Tree>, at: nat): Result<Parsed> {
    if t.Ok? then Ok(Parsed(Some(t.value), at)) else Err(t.error)
  }

  /** A parse of q[d..], its position read in q. */
  function Shift(r: Result<Parsed>, d: nat): Result<Parsed> {
    if r.Ok? then Ok(Parsed(r.value.tree, d + r.value.at)) else r
  }

  /** How many COMMA items q starts with. */
  function CommaRun(q: seq<Item>): (k: nat)
    ensures k <= |q| && (k < |q| ==> q[k] != Op(COMMA))
    ensures forall i :: 0 <= i < k ==> q[i] == Op(COMMA)
    decreases |q|
  {
    if q != [] && q[0] == Op(COMMA) then 1 + CommaRun(q[1..]) else 0
  }

  /** `System(self.generate_system())` at a COMMA: k commas announce k + 1
      equations. */
  function SystemAt(q: seq<Item>): (r: Result<Parsed>)
    requires q != [] && q[0] == Op(COMMA)
    ensures r.Ok? ==> r.value.at < |q| && r.value.tree.Some? && r.value.tree.value.System?
    decreases |q|, 1
  {
    var k := CommaRun(q);
    Shift(MembersAt(q[k..], k + 1, []), k)
  }

  /** The loop of `generate_system` with n equations still to read and
      seen those read so far. */
  function MembersAt(q: seq<Item>, n: nat, seen: seq<Tree>): (r: Result<Parsed>)
    requires n >= 1
    ensures r.Ok? ==> r.value.at < |q| && r.value.tree.Some? && r.value.tree.value.System?
    decreases |q|, 3
  {
    if Absent(q) then Err(OperatorError(COMMA))
    else if q[0] != Op(EQ) then Err(UniqueError())
    else
      var p :- ParseAt(q);
      var m := p.tree.value;
      if m in seen then Err(UniqueError())
      else if n == 1 then Ok(Parsed(Some(System(seen + [m])), p.at))
      else
        var j := p.at + 1;
        Shift(MembersAt(q[j..], n - 1, seen + [m]), j)
  }

  /** `Parser.parse` up to the automatic solving: the tree, unless an item
      left after it is truthy. */
  function ParseTop(q: seq<Item>): Result<Option<Tree>> {
    var p :- ParseAt(q);
    var after := if p.at < |q| then q[p.at + 1..] else [];
    if after != [] && Truthy(after[0]) then Err(MalformedError()) else Ok(p.tree)
  }

  /** A method's result and its items left current agree with the parse p
      of q. */
  predicate Agrees(r: Result<Option<Tree>>, p: Result<Parsed>, q: seq<Item>, rem: seq<Item>) {
    r == (if p.Ok? then Ok(p.value.tree) else Err(p.error))
    && (p.Ok? ==> p.value.at <= |q| && rem == q[p.value.at..])
  }

  lemma ParseAtBase(q: seq<Item>)
    ensures Absent(q) ==> ParseAt(q) == Ok(Parsed(None, 0))
    ensures !Absent(q) && q[0].Operand? ==> ParseAt(q) == Ok(Parsed(Some(Leaf(q[0].value)), 0))
    ensures !Absent(q) && q[0] == Op(COMMA) ==> ParseAt(q) == SystemAt(q)
  {
  }

  lemma SystemAtUnfold(q: seq<Item>)
    requires q != [] && q[0] == Op(COMMA)
    ensures SystemAt(q) == Shift(MembersAt(q[CommaRun(q)..], CommaRun(q) + 1, []), CommaRun(q))
  {
  }

  /** The failures of one equation of a system. */
  lemma MembersStep(q: seq<Item>, n: nat, seen: seq<Tree>)
    requires n >= 1
    ensures Absent(q) ==> MembersAt(q, n, seen) == Err(OperatorError(COMMA))
    ensures !Absent(q) && q[0] != Op(EQ) ==> MembersAt(q, n, seen) == Err(UniqueError())
    ensures !Absent(q) && q[0] == Op(EQ) && ParseAt(q).Err? ==> MembersAt(q, n, seen) == Err(ParseAt(q).error)
    ensures !Absent(q) && q[0] == Op(EQ) && ParseAt(q).Ok? && ParseAt(q).value.tree.value in seen ==>
      MembersAt(q, n, seen) == Err(UniqueError())
  {
    hide ParseAt, OperatorError, UniqueError;
  }

  /** An equation read, more to come. */
  lemma MembersNext(q: seq<Item>, n: nat, seen: seq<Tree>, m: Tree, used: nat)
    requires n > 1 && !Absent(q) && q[0] == Op(EQ) && ParseAt(q) == Ok(Parsed(Some(m), used)) && m !in seen
    ensures used + 1 <= |q|
    ensures MembersAt(q, n, seen) == Shift(MembersAt(q[used + 1..], n - 1, seen + [m]), used + 1)
  {
    hide ParseAt, OperatorError, UniqueError;
  }

  lemma ShiftTwice(r: Result<Parsed>, a: nat, b: nat)
    ensures Shift(Shift(r, a), b) == Shift(r, b + a)
  {
  }

  /** The last equation read. */
  lemma MembersLast(q: seq<Item>, seen: seq<Tree>, m: Tree, used: nat)
    requires !Absent(q) && q[0] == Op(EQ) && ParseAt(q) == Ok(Parsed(Some(m), used)) && m !in seen
    ensures MembersAt(q, 1, seen) == Ok(Parsed(Some(System(seen + [m])), used))
  {
    hide ParseAt, OperatorError, UniqueError;
  }

  /** The goal of the loop of `generate_system` after one more equation,
      at the item after it. */
  lemma MembersThen(q: seq<Item>, pos: nat, n: nat, seen: seq<Tree>, m: Tree, goal: Result<Parsed>)
    requires pos <= |q| && n >= 1 && goal == Shift(MembersAt(q[pos..], n, seen), pos)
    requires !Absent(q[pos..]) && q[pos..][0] == Op(EQ) && m !in seen
    requires ParseAt(q[pos..]).Ok? && ParseAt(q[pos..]).value.tree == Some(m)
    ensures var used := ParseAt(q[pos..]).value.at;
      && pos + used < |q| && q[pos..][used..] == q[pos + used..] && q[pos + used..][1..] == q[pos + used + 1..]
      && (n > 1 ==> goal == Shift(MembersAt(q[pos + used + 1..], n - 1, seen + [m]), pos + used + 1))
      && (n == 1 ==> goal == Ok(Parsed(Some(System(seen + [m])), pos + used)))
  {
    hide ParseAt, MembersAt;
    var used := ParseAt(q[pos..]).value.at;
    if n > 1 {
      MembersNext(q[pos..], n, seen, m, used);
      assert q[pos..][used + 1..] == q[pos + used + 1..];
      ShiftTwice(MembersAt(q[pos + used + 1..], n - 1, seen + [m]), used + 1, pos);
    } else {
      MembersLast(q[pos..], seen, m, used);
    }
  }

  /** An operator's first operand. */
  lemma ParseAtLeft(q: seq<Item>)
    requires !Absent(q) && q[0].Op? && q[0] != Op(COMMA)
    ensures var left := ParseAt(q[1..]);
      && (left.Err? ==> ParseAt(q) == Err(left.error))
      && (left.Ok? && left.value.tree.None? ==> ParseAt(q) == Err(OperatorError(q[0].kind)))
      && (left.Ok? && left.value.tree.Some? && IsUnary(q[0].kind) ==>
            ParseAt(q) == Place(UnaryCombine(q[0].kind, left.value.tree.value), 1 + left.value.at))
  {
    hide Combine, UnaryCombine, SystemAt, Value, IsUnary, Place;
  }

  /** A binary operator's second operand. */
  lemma ParseAtRight(q: seq<Item>)
    requires !Absent(q) && q[0].Op? && q[0] != Op(COMMA) && !IsUnary(q[0].kind)
    requires ParseAt(q[1..]).Ok? && ParseAt(q[1..]).value.tree.Some?
    ensures var left := ParseAt(q[1..]).value;
      var j := 2 + left.at;
      var right := ParseAt(q[j..]);
      && (right.Err? ==> ParseAt(q) == Err(right.error))
      && (right.Ok? && right.value.tree.None? ==> ParseAt(q) == Err(OperatorError(q[0].kind)))
      && (right.Ok? && right.value.tree.Some? ==>
            ParseAt(q) == Place(Combine(q[0].kind, left.tree.value, right.value.tree.value), j + right.value.at))
  {
    hide Combine, UnaryCombine, SystemAt, Value, IsUnary, Place;
  }

  /** `eval` without the lexer: the prefix items of the tokens, parsed. */
  function Evaluate(tokens: seq<Token>): Result<Option<Tree>> {
    var items :- PrefixOrder(tokens);
    ParseTop(items)
  }

  // ------------------------------------------------------ the round trip

  /** n COMMA items. */
  function Commas(n: nat): (s: seq<Item>)
    ensures |s| == n && forall i :: 0 <= i < n ==> s[i] == Op(COMMA)
  {
    seq(n, _ => Op(COMMA))
  }

  /** The prefix items a tree is read from: its operator, then its
      operands; a System of n equations is announced by n - 1 COMMA
      items. */
  function Serialize(t: Tree): seq<Item>
    decreases t, 1
  {
    match t
    case Leaf(p) => [Operand(p)]
    case Unary(op, a) => [Op(op)] + Serialize(a)
    case Binary(op, l, r) => [Op(op)] + Serialize(l) + Serialize(r)
    case Compare(op, l, r) => [Op(op)] + Serialize(l) + Serialize(r)
    case Solve(v, c) => [Op(SOLVE)] + Serialize(v) + Serialize(c)
    case System(ms) => Commas(if ms == [] then 0 else |ms| - 1) + SerializeAll(ms)
  }

  function SerializeAll(ms: seq<Tree>): seq<Item>
    decreases ms, 0
  {
    if ms == [] then [] else Serialize(ms[0]) + SerializeAll(ms[1..])
  }

  /** The operator types `_parse` builds a Binary for: not unary, not an
      (in)equality, not SOLVE and not COMMA. */
  predicate BinaryType(k: TokenType) {
    !IsUnary(k) && !IsComparison(k) && k != SOLVE && k != COMMA
  }

  /** The trees `_parse` can return: every check it makes passed. */
  predicate Accepted(t: Tree)
    decreases t, 1
  {
    match t
    case Leaf(p) => p != NoValue
    case Unary(op, a) => IsUnary(op) && Accepted(a) && (Value(op) >= 6.0 ==> IsNode(a))
    case Binary(op, l, r) =>
      BinaryType(op) && Accepted(l) && Accepted(r) && IsNode(r) && (Value(op) >= 6.0 ==> IsNode(l))
    case Compare(op, l, r) => IsComparison(op) && Accepted(l) && Accepted(r) && IsNode(l) && IsNode(r)
    case Solve(v, c) => IsVariable(v) && c.Compare? && Accepted(c)
    case System(ms) => |ms| >= 2 && Equations(ms) && Distinct(ms)
  }

  /** Every member an accepted equation. */
  predicate Equations(ms: seq<Tree>)
    decreases ms, 0
  {
    forall i :: 0 <= i < |ms| ==> ms[i].Compare? && ms[i].op == EQ && Accepted(ms[i])
  }

  /** No member equal to an earlier one from index s on. */
  predicate FreshFrom(ms: seq<Tree>, s: nat) {
    forall i, j :: 0 <= i < j < |ms| && s <= j ==> ms[i] != ms[j]
  }

  predicate Distinct(ms: seq<Tree>) {
    FreshFrom(ms, 0)
  }

  /** The checks of Combine pass on the parts of an accepted tree. */
  lemma CombineAccepted(t: Tree)
    requires Accepted(t) && (t.Binary? || t.Compare? || t.Solve?)
    ensures t.Binary? ==> Combine(t.op, t.left, t.right) == Ok(t)
    ensures t.Compare? ==> Combine(t.op, t.left, t.right) == Ok(t)
    ensures t.Solve? ==> Combine(SOLVE, t.variable, t.condition) == Ok(t)
    ensures !IsUnary(SOLVE) && (!t.Solve? ==> !IsUnary(t.op) && t.op != COMMA)
  {
    hide OperandError;
    if !t.Solve? {
      ComparisonTypes(t.op);
    }
  }

  /** What Combine builds from accepted operands is accepted, and is
      read from the operator followed by the operands. */
  lemma CombineBuilds(oper: TokenType, l: Tree, r: Tree)
    requires !IsUnary(oper) && oper != COMMA && Accepted(l) && Accepted(r) && Combine(oper, l, r).Ok?
    ensures Accepted(Combine(oper, l, r).value)
    ensures Serialize(Combine(oper, l, r).value) == [Op(oper)] + Serialize(l) + Serialize(r)
  {
    hide OperandError, Serialize;
    ComparisonTypes(oper);
    PairItems(Combine(oper, l, r).value);
  }


  lemma CommaRunOf(n: nat, s: seq<Item>)
    requires s == [] || s[0] != Op(COMMA)
    ensures CommaRun(Commas(n) + s) == n
    decreases n
  {
    if n > 0 {
      assert (Commas(n) + s)[1..] == Commas(n - 1) + s;
      CommaRunOf(n - 1, s);
    }
  }

  /** The operator of t followed by its two operands' items, parsed. */
  lemma CombineSerialized(oper: TokenType, l: Tree, r: Tree, rest: seq<Item>)
    requires !IsUnary(oper) && oper != COMMA
    requires |Serialize(l)| >= 1 && |Serialize(r)| >= 1
    requires ParseAt(Serialize(l) + (Serialize(r) + rest)) == Ok(Parsed(Some(l), |Serialize(l)| - 1))
    requires ParseAt(Serialize(r) + rest) == Ok(Parsed(Some(r), |Serialize(r)| - 1))
    ensures var q := [Op(oper)] + Serialize(l) + Serialize(r) + rest;
      ParseAt(q) == Place(Combine(oper, l, r), |Serialize(l)| + |Serialize(r)|)
  {
    hide ParseAt, Combine, Serialize, Place;
    var q := [Op(oper)] + Serialize(l) + Serialize(r) + rest;
    assert q[1..] == Serialize(l) + (Serialize(r) + rest);
    assert q[|Serialize(l)| + 1..] == Serialize(r) + rest;
    ParseAtRight(q);
  }

  /** A unary operator followed by its operand's items, parsed. */
  lemma UnarySerialized(op: TokenType, a: Tree, rest: seq<Item>)
    requires IsUnary(op) && (Value(op) >= 6.0 ==> IsNode(a)) && |Serialize(a)| >= 1
    requires ParseAt(Serialize(a) + rest) == Ok(Parsed(Some(a), |Serialize(a)| - 1))
    ensures ParseAt([Op(op)] + Serialize(a) + rest) == Ok(Parsed(Some(Unary(op, a)), |Serialize(a)|))
  {
    hide ParseAt, Serialize, OperandError;
    var q := [Op(op)] + Serialize(a) + rest;
    assert q[1..] == Serialize(a) + rest;
    UnaryTypes(op);
    ParseAtLeft(q);
  }

  /** The COMMA items of a System followed by its equations' items,
      parsed. */
  lemma SystemSerialized(ms: seq<Tree>, rest: seq<Item>)
    requires |ms| >= 2 && |SerializeAll(ms)| >= 1 && SerializeAll(ms)[0] == Op(EQ)
    requires MembersAt(SerializeAll(ms) + rest, |ms|, [])
      == Ok(Parsed(Some(System(ms)), |SerializeAll(ms)| - 1))
    ensures ParseAt(Commas(|ms| - 1) + SerializeAll(ms) + rest)
      == Ok(Parsed(Some(System(ms)), |ms| - 1 + |SerializeAll(ms)| - 1))
  {
    hide ParseAt, SystemAt, MembersAt, SerializeAll, Commas;
    var k := |ms| - 1;
    var q := Commas(k) + SerializeAll(ms) + rest;
    assert q == Commas(k) + (SerializeAll(ms) + rest);
    CommaRunOf(k, SerializeAll(ms) + rest);
    assert q[k..] == SerializeAll(ms) + rest;
    assert q[0] == Op(COMMA);
    ParseAtBase(q);
    SystemAtUnfold(q);
  }

  /** An accepted Binary, from its operands' parses. */
  lemma BinarySerialized(oper: TokenType, l: Tree, r: Tree, rest: seq<Item>)
    requires Accepted(Binary(oper, l, r))
    requires |Serialize(l)| >= 1 && |Serialize(r)| >= 1
    requires ParseAt(Serialize(l) + (Serialize(r) + rest)) == Ok(Parsed(Some(l), |Serialize(l)| - 1))
    requires ParseAt(Serialize(r) + rest) == Ok(Parsed(Some(r), |Serialize(r)| - 1))
    ensures |Serialize(Binary(oper, l, r))| >= 1
    ensures ParseAt(Serialize(Binary(oper, l, r)) + rest) == Ok(Parsed(Some(Binary(oper, l, r)), |Serialize(Binary(oper, l, r))| - 1))
  {
    hide ParseAt, Combine, Accepted, Serialize;
    CombineAccepted(Binary(oper, l, r));
    PairItems(Binary(oper, l, r));
    CombineSerialized(oper, l, r, rest);
  }

  /** An accepted (in)equality, from its sides' parses. */
  lemma CompareSerialized(oper: TokenType, l: Tree, r: Tree, rest: seq<Item>)
    requires Accepted(Compare(oper, l, r))
    requires |Serialize(l)| >= 1 && |Serialize(r)| >= 1
    requires ParseAt(Serialize(l) + (Serialize(r) + rest)) == Ok(Parsed(Some(l), |Serialize(l)| - 1))
    requires ParseAt(Serialize(r) + rest) == Ok(Parsed(Some(r), |Serialize(r)| - 1))
    ensures |Serialize(Compare(oper, l, r))| >= 1
    ensures ParseAt(Serialize(Compare(oper, l, r)) + rest) == Ok(Parsed(Some(Compare(oper, l, r)), |Serialize(Compare(oper, l, r))| - 1))
  {
    hide ParseAt, Combine, Accepted, Serialize;
    CombineAccepted(Compare(oper, l, r));
    PairItems(Compare(oper, l, r));
    CombineSerialized(oper, l, r, rest);
  }

  /** An accepted SOLVE, from its operands' parses. */
  lemma SolveSerialized(l: Tree, r: Tree, rest: seq<Item>)
    requires Accepted(Solve(l, r))
    requires |Serialize(l)| >= 1 && |Serialize(r)| >= 1
    requires ParseAt(Serialize(l) + (Serialize(r) + rest)) == Ok(Parsed(Some(l), |Serialize(l)| - 1))
    requires ParseAt(Serialize(r) + rest) == Ok(Parsed(Some(r), |Serialize(r)| - 1))
    ensures |Serialize(Solve(l, r))| >= 1
    ensures ParseAt(Serialize(Solve(l, r)) + rest) == Ok(Parsed(Some(Solve(l, r)), |Serialize(Solve(l, r))| - 1))
  {
    hide ParseAt, Combine, Accepted, Serialize;
    CombineAccepted(Solve(l, r));
    PairItems(Solve(l, r));
    CombineSerialized(SOLVE, l, r, rest);
  }

  /** An accepted tree's items, followed by anything, parse back to the
      tree, the last of its items left current. */
  lemma {:induction false} ParseSerialized(t: Tree, rest: seq<Item>)
    requires Accepted(t)
    ensures |Serialize(t)| >= 1
    ensures ParseAt(Serialize(t) + rest) == Ok(Parsed(Some(t), |Serialize(t)| - 1))
    decreases t, 1
  {
    hide ParseAt, Combine, UnaryCombine, SystemAt, MembersAt, IsNode, IsUnary, IsComparison, Value, Serialize, Accepted;
    AcceptedParts(t);
    match t
    case Leaf(p) =>
      LeafSerialized(p);
      ParseAtBase(Serialize(t) + rest);
    case Unary(op, a) =>
      ParseSerialized(a, rest);
      UnarySerialized(op, a, rest);
      UnaryItems(op, a);
    case Binary(op, l, r) =>
      ParseSerialized(r, rest);
      ParseSerialized(l, Serialize(r) + rest);
      BinarySerialized(op, l, r, rest);
    case Compare(op, l, r) =>
      ParseSerialized(r, rest);
      ParseSerialized(l, Serialize(r) + rest);
      CompareSerialized(op, l, r, rest);
    case Solve(v, c) =>
      ParseSerialized(c, rest);
      ParseSerialized(v, Serialize(c) + rest);
      SolveSerialized(v, c, rest);
    case System(ms) =>
      MembersSerialized(ms, [], rest);
      assert [] + ms == ms;
      SystemSerialized(ms, rest);
      SystemItems(ms);
  }

  /** The operands of an accepted tree are accepted; a System's members
      are equations. */
  lemma AcceptedParts(t: Tree)
    requires Accepted(t)
    ensures t.Unary? ==> Accepted(t.arg) && IsUnary(t.op) && (Value(t.op) >= 6.0 ==> IsNode(t.arg))
    ensures t.Binary? || t.Compare? ==> Accepted(t.left) && Accepted(t.right)
    ensures t.Solve? ==> Accepted(t.variable) && Accepted(t.condition)
    ensures t.System? ==> |t.members| >= 2 && Equations(t.members) && Distinct(t.members)
  {
  }

  /** The items of a tree of two operands. */
  lemma PairItems(t: Tree)
    requires t.Binary? || t.Compare? || t.Solve?
    ensures t.Binary? || t.Compare? ==> Serialize(t) == [Op(t.op)] + Serialize(t.left) + Serialize(t.right)
    ensures t.Solve? ==> Serialize(t) == [Op(SOLVE)] + Serialize(t.variable) + Serialize(t.condition)
  {
  }

  lemma UnaryItems(op: TokenType, a: Tree)
    ensures Serialize(Unary(op, a)) == [Op(op)] + Serialize(a)
  {
  }

  lemma SystemAccepted(ms: seq<Tree>)
    ensures Accepted(System(ms)) <==> |ms| >= 2 && Equations(ms) && Distinct(ms)
  {
  }

  lemma SystemItems(ms: seq<Tree>)
    requires ms != []
    ensures Serialize(System(ms)) == Commas(|ms| - 1) + SerializeAll(ms)
  {
  }

  /** The items of n accepted, distinct equations, followed by anything,
      give the loop of `generate_system` those n equations. */
  lemma {:induction false} MembersSerialized(ms: seq<Tree>, seen: seq<Tree>, rest: seq<Item>)
    requires ms != [] && Equations(ms) && Distinct(seen + ms)
    ensures |SerializeAll(ms)| >= 1 && SerializeAll(ms)[0] == Op(EQ)
    ensures MembersAt(SerializeAll(ms) + rest, |ms|, seen)
      == Ok(Parsed(Some(System(seen + ms)), |SerializeAll(ms)| - 1))
    decreases ms, 0
  {
    hide ParseAt, MembersAt, Accepted, Serialize, SerializeAll, Equations, Distinct, FreshFrom;
    var m := ms[0];
    EquationsCons(ms);
    AllItems(ms);
    FreshNext(seen, ms);
    EquationItems(m);
    var tail := SerializeAll(ms[1..]);
    var q := SerializeAll(ms) + rest;
    assert q == Serialize(m) + (tail + rest);
    ParseSerialized(m, tail + rest);
    var used := |Serialize(m)| - 1;
    if |ms| == 1 {
      MembersLast(q, seen, m, used);
      assert ms == [m];
    } else {
      assert q[used + 1..] == tail + rest;
      assert (seen + [m]) + ms[1..] == seen + ms;
      MembersSerialized(ms[1..], seen + [m], rest);
      MembersNext(q, |ms|, seen, m, used);
    }
  }

  lemma EquationsCons(ms: seq<Tree>)
    requires ms != []
    ensures Equations(ms) <==> ms[0].Compare? && ms[0].op == EQ && Accepted(ms[0]) && Equations(ms[1..])
  {
    hide Accepted;
    if ms[0].Compare? && ms[0].op == EQ && Accepted(ms[0]) && Equations(ms[1..]) {
      forall i | 0 <= i < |ms|
        ensures ms[i].Compare? && ms[i].op == EQ && Accepted(ms[i])
      {
        if i > 0 {
          assert ms[i] == ms[1..][i - 1];
        }
      }
    }
  }

  lemma AllItems(ms: seq<Tree>)
    requires ms != []
    ensures SerializeAll(ms) == Serialize(ms[0]) + SerializeAll(ms[1..])
    ensures |ms| == 1 ==> SerializeAll(ms) == Serialize(ms[0])
  {
  }

  /** The first of distinct members after seen is not in seen, and
      moving it into seen keeps them distinct. */
  lemma FreshNext(seen: seq<Tree>, ms: seq<Tree>)
    requires ms != [] && Distinct(seen + ms)
    ensures ms[0] !in seen && Distinct((seen + [ms[0]]) + ms[1..])
  {
    hide Accepted, Serialize;
    assert (seen + [ms[0]]) + ms[1..] == seen + ms;
    assert (seen + ms)[|seen|] == ms[0];
    forall i | 0 <= i < |seen|
      ensures seen[i] != ms[0]
    {
      assert (seen + ms)[i] == seen[i];
    }
  }

  /** An accepted tree whose items start with EQ is an equation. */
  lemma EquationHead(m: Tree)
    requires Accepted(m) && |Serialize(m)| >= 1 && Serialize(m)[0] == Op(EQ)
    ensures m.Compare? && m.op == EQ
  {
    hide SerializeAll, IsNode, Value;
    ComparisonTypes(EQ);
  }

  lemma LeafSerialized(p: Payload)
    ensures Accepted(Leaf(p)) <==> p != NoValue
    ensures Serialize(Leaf(p)) == [Operand(p)]
  {
  }

  /** A unary parse read back: accepted, and its items are the operator
      and its operand's. */
  lemma UnaryParsed(q: seq<Item>)
    requires !Absent(q) && q[0].Op? && q[0] != Op(COMMA) && IsUnary(q[0].kind)
    requires ParseAt(q).Ok? && ParseAt(q).value.tree.Some?
    requires ParseAt(q[1..]).Ok? && ParseAt(q[1..]).value.tree.Some?
    requires var left := ParseAt(q[1..]).value;
      Accepted(left.tree.value) && q[1..][..left.at + 1] == Serialize(left.tree.value)
    ensures Accepted(ParseAt(q).value.tree.value)
    ensures q[..ParseAt(q).value.at + 1] == Serialize(ParseAt(q).value.tree.value)
  {
    hide ParseAt, OperandError;
    ParseAtLeft(q);
    var left := ParseAt(q[1..]).value;
    assert q[..left.at + 2] == [q[0]] + q[1..][..left.at + 1];
  }

  /** A binary parse read back: accepted, and its items are the operator
      and its two operands'. */
  lemma BinaryParsed(q: seq<Item>)
    requires !Absent(q) && q[0].Op? && q[0] != Op(COMMA) && !IsUnary(q[0].kind)
    requires ParseAt(q).Ok? && ParseAt(q).value.tree.Some?
    requires ParseAt(q[1..]).Ok? && ParseAt(q[1..]).value.tree.Some?
    requires var left := ParseAt(q[1..]).value;
      Accepted(left.tree.value) && q[1..][..left.at + 1] == Serialize(left.tree.value)
    requires var j := 2 + ParseAt(q[1..]).value.at;
      j <= |q| && ParseAt(q[j..]).Ok? && ParseAt(q[j..]).value.tree.Some?
      && Accepted(ParseAt(q[j..]).value.tree.value)
      && q[j..][..ParseAt(q[j..]).value.at + 1] == Serialize(ParseAt(q[j..]).value.tree.value)
    ensures Accepted(ParseAt(q).value.tree.value)
    ensures q[..ParseAt(q).value.at + 1] == Serialize(ParseAt(q).value.tree.value)
  {
    hide ParseAt, Combine, Serialize, Accepted;
    ParseAtRight(q);
    var left := ParseAt(q[1..]).value;
    var j := 2 + left.at;
    var right := ParseAt(q[j..]).value;
    CombineBuilds(q[0].kind, left.tree.value, right.tree.value);
    assert q[..j + right.at + 1] == [q[0]] + q[1..][..left.at + 1] + q[j..][..right.at + 1];
  }

  /** A System parse read back, from what the loop read. */
  lemma SystemParsed(q: seq<Item>)
    requires q != [] && q[0] == Op(COMMA) && SystemAt(q).Ok?
    requires var k := CommaRun(q);
      var p := MembersAt(q[k..], k + 1, []);
      p.Ok? && var ms := p.value.tree.value.members;
      |ms| == k + 1 && Equations(ms) && FreshFrom(ms, 0) && q[k..][..p.value.at + 1] == SerializeAll(ms)
    ensures Accepted(SystemAt(q).value.tree.value)
    ensures q[..SystemAt(q).value.at + 1] == Serialize(SystemAt(q).value.tree.value)
  {
    hide ParseAt, SystemAt, MembersAt, SerializeAll, Equations, FreshFrom, Serialize, Accepted;
    var k := CommaRun(q);
    SystemAtUnfold(q);
    var p := MembersAt(q[k..], k + 1, []).value;
    SystemItems(p.tree.value.members);
    SystemAccepted(p.tree.value.members);
    assert q[..k] == Commas(k);
    assert q[..k + p.at + 1] == q[..k] + q[k..][..p.at + 1];
  }

  /** Whatever parses to a tree is an accepted tree's items followed by
      the rest: the converse of ParseSerialized. */
  lemma {:induction false} SerialParsed(q: seq<Item>)
    requires ParseAt(q).Ok? && ParseAt(q).value.tree.Some?
    ensures Accepted(ParseAt(q).value.tree.value)
    ensures q[..ParseAt(q).value.at + 1] == Serialize(ParseAt(q).value.tree.value)
    decreases |q|, 2
  {
    hide ParseAt, SystemAt, MembersAt, Combine, UnaryCombine, Accepted, Serialize, IsUnary, OperatorError;
    ParseAtBase(q);
    if q[0].Operand? {
      LeafSerialized(q[0].value);
      assert q[..1] == [q[0]];
    } else if q[0] == Op(COMMA) {
      var k := CommaRun(q);
      SystemAtUnfold(q);
      MembersParsed(q[k..], k + 1, []);
      SystemParsed(q);
    } else {
      ParseAtLeft(q);
      SerialParsed(q[1..]);
      if IsUnary(q[0].kind) {
        UnaryParsed(q);
      } else {
        ParseAtRight(q);
        SerialParsed(q[2 + ParseAt(q[1..]).value.at..]);
        BinaryParsed(q);
      }
    }
  }

  /** What the loop of `generate_system` reads: n more equations after
      seen, accepted, each new one unequal to all before it, and the
      items they are read from. */
  lemma {:induction false} MembersParsed(q: seq<Item>, n: nat, seen: seq<Tree>)
    requires n >= 1 && MembersAt(q, n, seen).Ok?
    ensures var p := MembersAt(q, n, seen).value;
      var all := p.tree.value.members;
      && |all| == |seen| + n && all[..|seen|] == seen
      && Equations(all[|seen|..]) && FreshFrom(all, |seen|)
      && q[..p.at + 1] == SerializeAll(all[|seen|..])
    decreases |q|, 3
  {
    hide ParseAt, MembersAt, Accepted, Serialize, OperatorError, UniqueError;
    MembersStep(q, n, seen);
    SerialParsed(q);
    var m := ParseAt(q).value.tree.value;
    var used := ParseAt(q).value.at;
    assert Serialize(m)[0] == Op(EQ);
    EquationHead(m);
    if n == 1 {
      MembersLast(q, seen, m, used);
      var all := seen + [m];
      assert all[|seen|..] == [m];
      assert SerializeAll([m]) == Serialize(m);
    } else {
      MembersNext(q, n, seen, m, used);
      MembersParsed(q[used + 1..], n - 1, seen + [m]);
      MembersGrow(q, used, seen, m, MembersAt(q[used + 1..], n - 1, seen + [m]).value);
    }
  }

  /** One more equation in front of what the rest of the loop read. */
  lemma MembersGrow(q: seq<Item>, used: nat, seen: seq<Tree>, m: Tree, p: Parsed)
    requires used + 1 <= |q| && q[..used + 1] == Serialize(m) && m !in seen
    requires m.Compare? && m.op == EQ && Accepted(m)
    requires p.tree.Some? && p.tree.value.System?
    requires var all := p.tree.value.members;
      && |all| >= |seen| + 1 && all[..|seen| + 1] == seen + [m]
      && Equations(all[|seen| + 1..]) && FreshFrom(all, |seen| + 1)
      && p.at + 1 <= |q[used + 1..]| && q[used + 1..][..p.at + 1] == SerializeAll(all[|seen| + 1..])
    ensures var all := p.tree.value.members;
      && all[..|seen|] == seen && Equations(all[|seen|..]) && FreshFrom(all, |seen|)
      && q[..used + 1 + p.at + 1] == SerializeAll(all[|seen|..])
  {
    hide Accepted, Serialize;
    var all := p.tree.value.members;
    assert all[..|seen|] == (seen + [m])[..|seen|] == seen;
    assert all[|seen|] == m;
    assert all[|seen|..] == [m] + all[|seen| + 1..];
    assert q[..used + 1 + p.at + 1] == q[..used + 1] + q[used + 1..][..p.at + 1];
    forall i, j | 0 <= i < j < |all| && |seen| <= j
      ensures all[i] != all[j]
    {
      if j == |seen| {
        assert all[i] == seen[i];
      }
    }
  }


  // ------------------------------------------------------ the rejections

  /** An operator of two operands over accepted operands: the parse is
      whatever Combine makes of them, so each of its checks is the one
      that rejects the input. */
  lemma ParseOperands(oper: TokenType, l: Tree, r: Tree, rest: seq<Item>)
    requires !IsUnary(oper) && oper != COMMA && Accepted(l) && Accepted(r)
    ensures ParseAt([Op(oper)] + Serialize(l) + Serialize(r) + rest)
      == Place(Combine(oper, l, r), |Serialize(l)| + |Serialize(r)|)
  {
    hide ParseAt, Combine, Place, Accepted;
    ParseSerialized(r, rest);
    ParseSerialized(l, Serialize(r) + rest);
    CombineSerialized(oper, l, r, rest);
  }

  /** An (in)equality with an (in)equality on either side is rejected. */
  lemma NestedRejected(oper: TokenType, l: Tree, r: Tree, rest: seq<Item>)
    requires IsComparison(oper) && Accepted(l) && Accepted(r) && (l.Compare? || r.Compare?)
    ensures ParseAt([Op(oper)] + Serialize(l) + Serialize(r) + rest)
      == Err(SyntaxError("nested (in)equality"))
  {
    hide ParseAt, Accepted;
    ComparisonTypes(oper);
    ParseOperands(oper, l, r, rest);
  }

  /** SOLVE rejects anything but a variable as its first operand, then
      anything but an (in)equality as its second. */
  lemma SolveRejected(v: Tree, c: Tree, rest: seq<Item>)
    requires Accepted(v) && Accepted(c) && !(IsVariable(v) && c.Compare?)
    ensures var q := [Op(SOLVE)] + Serialize(v) + Serialize(c) + rest;
      && (!IsVariable(v) ==> ParseAt(q) == Err(SyntaxError("can only solve for Variables")))
      && (IsVariable(v) ==> ParseAt(q) == Err(SyntaxError("can only solve from an (in)equality")))
  {
    hide ParseAt, Accepted;
    ParseOperands(SOLVE, v, c, rest);
  }

  /** An arithmetic operator rejects a non-term on its right, and an
      (in)equality a non-term on either side. */
  lemma NonTermRejected(oper: TokenType, l: Tree, r: Tree, rest: seq<Item>)
    requires Accepted(l) && Accepted(r)
    requires (BinaryType(oper) && !IsNode(r))
      || (IsComparison(oper) && !l.Compare? && !r.Compare? && !(IsNode(l) && IsNode(r)))
    ensures ParseAt([Op(oper)] + Serialize(l) + Serialize(r) + rest) == Err(OperandError(oper))
  {
    hide ParseAt, Accepted, OperandError;
    ComparisonTypes(oper);
    ParseOperands(oper, l, r, rest);
  }

  /** The loop of `generate_system` rejects an equation equal to the
      one before it. */
  lemma RepeatRejected(e: Tree, rest: seq<Item>)
    requires e.Compare? && e.op == EQ && Accepted(e)
    ensures MembersAt(Serialize(e) + (Serialize(e) + rest), 2, []) == Err(UniqueError())
  {
    hide ParseAt, MembersAt, Accepted, UniqueError, OperatorError;
    var se := Serialize(e);
    assert se[0] == Op(EQ);
    ParseSerialized(e, se + rest);
    ParseSerialized(e, rest);
    MembersNext(se + (se + rest), 2, [], e, |se| - 1);
    assert (se + (se + rest))[|se|..] == se + rest;
    assert [] + [e] == [e];
    MembersStep(se + rest, 1, [e]);
  }

  lemma EquationItems(e: Tree)
    requires e.Compare?
    ensures |Serialize(e)| >= 1 && Serialize(e)[0] == Op(e.op)
  {
  }

  /** A System whose second equation repeats its first is rejected. */
  lemma DuplicateRejected(e: Tree, rest: seq<Item>)
    requires e.Compare? && e.op == EQ && Accepted(e)
    ensures ParseAt([Op(COMMA)] + Serialize(e) + Serialize(e) + rest) == Err(UniqueError())
  {
    hide ParseAt, SystemAt, MembersAt, Accepted, UniqueError, OperatorError, Serialize;
    var se := Serialize(e);
    var q := [Op(COMMA)] + se + se + rest;
    RepeatRejected(e, rest);
    assert q == Commas(1) + (se + (se + rest));
    EquationItems(e);
    CommaRunOf(1, se + (se + rest));
    assert q[1..] == se + (se + rest);
    ParseAtBase(q);
    SystemAtUnfold(q);
  }

  /** An operator with nothing after it lacks an operand. */
  lemma MissingOperand(oper: TokenType, rest: seq<Item>)
    requires oper != COMMA && Absent(rest)
    ensures ParseAt([Op(oper)] + rest) == Err(OperatorError(oper))
  {
    hide OperatorError;
    var q := [Op(oper)] + rest;
    assert q[1..] == rest;
    ParseAtBase(rest);
    ParseAtLeft(q);
  }

  /** `parse`: an accepted tree's items are the whole input, or are
      followed by a falsy item, exactly when it returns that tree; a truthy
      item after them makes the input malformed. */
  lemma TopSerialized(t: Tree, rest: seq<Item>)
    requires Accepted(t)
    ensures rest == [] || !Truthy(rest[0]) ==> ParseTop(Serialize(t) + rest) == Ok(Some(t))
    ensures rest != [] && Truthy(rest[0]) ==> ParseTop(Serialize(t) + rest) == Err(MalformedError())
  {
    hide ParseAt, Accepted, MalformedError, Truthy;
    ParseSerialized(t, rest);
    var q := Serialize(t) + rest;
    assert q[|Serialize(t)|..] == rest;
  }

  /** Conversely, a tree `parse` returns is accepted, its items start the
      input, and what follows them is absent or falsy. */
  lemma TopParsed(q: seq<Item>)
    requires ParseTop(q).Ok? && ParseTop(q).value.Some?
    ensures var t := ParseTop(q).value.value;
      && Accepted(t) && |Serialize(t)| <= |q| && q[..|Serialize(t)|] == Serialize(t)
      && (|Serialize(t)| == |q| || !Truthy(q[|Serialize(t)|]))
  {
    hide ParseAt, Accepted, Serialize, MalformedError, Truthy;
    SerialParsed(q);
  }

  // ------------------------------------------------------------ the class

  /** `Parser`: the iterator over the prefix items, as the sequence still
      unread, and the current item, None once the iterator is exhausted. */
  class Parser {
    var curr: Option<Item>
    var tokens: seq<Item>

    /** The exhausted iterator stays exhausted. */
    ghost predicate Valid()
      reads this
    {
      curr.None? ==> tokens == []
    }

    /** The current item followed by the unread ones. */
    function Remaining(): seq<Item>
      reads this
    {
      (if curr.Some? then [curr.value] else []) + tokens
    }

    /** `__init__` given the prefix items: the first is current. */
    constructor(items: seq<Item>)
      ensures Valid() && Remaining() == items
    {
      tokens := items;
      curr := None;
      new;
      Advance();
    }

    /** What the current item says of the items from it on. */
    lemma Current()
      requires Valid()
      ensures curr.None? <==> Remaining() == []
      ensures curr.Some? ==> Remaining()[0] == curr.value
    {
    }

    /** `advance`: `next` of the iterator, or None at its end. */
    method Advance()
      modifies this
      ensures curr == (if old(tokens) == [] then None else Some(old(tokens)[0]))
      ensures tokens == if old(tokens) == [] then [] else old(tokens)[1..]
      ensures Valid()
      ensures old(Valid()) ==> Remaining() == if old(Remaining()) == [] then [] else old(Remaining())[1..]
    {
      if tokens == [] {
        curr := None;
      } else {
        curr := Some(tokens[0]);
        tokens := tokens[1..];
      }
    }

    /** `_parse`, proved to be ParseAt of the items from the current one. */
    method ParseOne() returns (r: Result<Option<Tree>>)
      requires Valid()
      modifies this
      ensures Valid()
      ensures Agrees(r, ParseAt(old(Remaining())), old(Remaining()), Remaining())
      decreases |Remaining()|, 2
    {
      hide ParseAt, SystemAt;
      ghost var q := Remaining();
      ParseAtBase(q);
      if curr.None? || curr.value == Operand(NoValue) {
        return Ok(None);
      }
      if curr.value.Operand? {
        return Ok(Some(Leaf(curr.value.value)));
      }
      if curr.value == Op(COMMA) {
        r := GenerateSystem();
        return;
      }
      r := ParseOperator();
    }

    /** `self.advance()` and `self._parse()`: the next operand. */
    method ParseOperand() returns (r: Result<Option<Tree>>)
      requires Valid() && Remaining() != []
      modifies this
      ensures Valid()
      ensures Agrees(r, ParseAt(old(Remaining())[1..]), old(Remaining())[1..], Remaining())
      decreases |Remaining()|, 0
    {
      Advance();
      r := ParseOne();
    }

    /** The operator case of `_parse`: its operands, then UnaryCombine or
        Combine. */
    method ParseOperator() returns (r: Result<Option<Tree>>)
      requires Valid() && curr.Some? && !Absent(Remaining()) && curr.value.Op? && curr.value != Op(COMMA)
      modifies this
      ensures Valid()
      ensures Agrees(r, ParseAt(old(Remaining())), old(Remaining()), Remaining())
      decreases |Remaining()|, 1
    {
      hide ParseAt, SystemAt, MembersAt, CommaRun, UnaryCombine, Combine, Value, IsUnary, IsComparison, IsNode, OperatorError, OperandError, Name;
      ghost var q := Remaining();
      var oper := curr.value.kind;
      ParseAtLeft(q);
      var left := ParseOperand();
      if left.Err? {
        return Err(left.error);
      }
      if left.value.None? {
        return Err(OperatorError(oper));
      }
      var l := left.value.value;
      if IsUnary(oper) {
        var t :- UnaryCombine(oper, l);
        return Ok(Some(t));
      }
      r := ParseRight(q, oper, l);
    }

    /** The rest of the binary case of `_parse`: the second operand, then
        Combine. */
    method ParseRight(ghost q: seq<Item>, oper: TokenType, l: Tree) returns (r: Result<Option<Tree>>)
      requires Valid() && !Absent(q) && q[0] == Op(oper) && oper != COMMA && !IsUnary(oper)
      requires ParseAt(q[1..]).Ok? && ParseAt(q[1..]).value.tree == Some(l)
      requires Remaining() == q[1..][ParseAt(q[1..]).value.at..]
      modifies this
      ensures Valid()
      ensures Agrees(r, ParseAt(q), q, Remaining())
      decreases |Remaining()|, 1
    {
      hide ParseAt, SystemAt, MembersAt, CommaRun, UnaryCombine, Combine, Value, IsUnary, IsComparison, IsNode, OperatorError, OperandError, Name;
      ParseAtRight(q);
      ghost var la := ParseAt(q[1..]).value.at;
      ghost var j := 2 + la;
      assert Remaining() == q[1..][la..] && Remaining()[1..] == q[j..];
      var right := ParseOperand();
      if right.Err? {
        return Err(right.error);
      }
      if right.value.None? {
        return Err(OperatorError(oper));
      }
      ghost var ra := ParseAt(q[j..]).value.at;
      assert Remaining() == q[j + ra..];
      var t :- Combine(oper, l, right.value.value);
      return Ok(Some(t));
    }

    /** The first loop of `generate_system`: i counts the equations, one
        more than the commas passed. */
    method SkipCommas() returns (i: nat)
      requires Valid()
      modifies this
      ensures Valid()
      ensures i == CommaRun(old(Remaining())) + 1 && Remaining() == old(Remaining())[i - 1..]
    {
      ghost var q := Remaining();
      ghost var k := CommaRun(q);
      i := 1;
      while curr.Some? && curr.value == Op(COMMA)
        invariant Valid() && 1 <= i <= k + 1
        invariant Remaining() == q[i - 1..]
        invariant curr.Some? && curr.value == Op(COMMA) <==> i - 1 < k
        decreases |Remaining()|
      {
        assert q[i - 1] == Op(COMMA);
        Advance();
        assert q[i - 1..][1..] == q[i..];
        i := i + 1;
      }
    }

    /** One pass of `generate_system`'s loop up to `yield val`: the
        checks on the current item, `self._parse()` and the uniqueness
        check, proved to fail exactly as MembersAt does. */
    method ReadMember(seen: seq<Tree>, ghost n: nat) returns (r: Result<Tree>)
      requires Valid() && n >= 1
      modifies this
      ensures Valid()
      ensures r.Err? ==> MembersAt(old(Remaining()), n, seen) == Err(r.error)
      ensures r.Ok? ==> var q := old(Remaining());
        && !Absent(q) && q[0] == Op(EQ) && r.value !in seen
        && ParseAt(q).Ok? && ParseAt(q).value.tree == Some(r.value)
        && Remaining() == q[ParseAt(q).value.at..]
      decreases |Remaining()|, 3
    {
      hide ParseAt, SystemAt, MembersAt, OperatorError, UniqueError, Name, Remaining;
      ghost var q := Remaining();
      MembersStep(q, n, seen);
      Current();
      if curr.None? || curr.value == Operand(NoValue) {
        return Err(OperatorError(COMMA));
      }
      if curr.value != Op(EQ) {
        return Err(UniqueError());
      }
      var val := ParseOne();
      if val.Err? {
        return Err(val.error);
      }
      var m := val.value.value;
      if m in seen {
        return Err(UniqueError());
      }
      return Ok(m);
    }

    /** The second loop of `generate_system`: n equations read, proved to
        be MembersAt of the items from the current one. */
    method ReadMembers(n: nat) returns (r: Result<Option<Tree>>)
      requires Valid() && n >= 1
      modifies this
      ensures Valid()
      ensures Agrees(r, MembersAt(old(Remaining()), n, []), old(Remaining()), Remaining())
      decreases |Remaining()|, 4
    {
      hide ParseAt, SystemAt, MembersAt, OperatorError, UniqueError, Name, Remaining, CommaRun;
      ghost var q := Remaining();
      var seen: seq<Tree> := [];
      var j := 0;
      ghost var pos := 0;
      ghost var rest := q;
      ghost var goal := MembersAt(q, n, []);
      while j < n
        invariant Valid() && 0 <= j <= n && Remaining() == rest
        invariant pos <= |q| && rest == q[pos..]
        invariant j < n ==> goal == Shift(MembersAt(rest, n - j, seen), pos)
        invariant j == n ==> goal == Ok(Parsed(Some(System(seen)), pos))
        decreases n - j
      {
        var member := ReadMember(seen, n - j);
        if member.Err? {
          return Err(member.error);
        }
        var m := member.value;
        ghost var used := ParseAt(rest).value.at;
        MembersThen(q, pos, n - j, seen, m, goal);
        if j + 1 < n {
          Advance();
          pos := pos + used + 1;
          rest := q[pos..];
        } else {
          pos := pos + used;
          rest := q[pos..];
        }
        seen := seen + [m];
        j := j + 1;
      }
      return Ok(Some(System(seen)));
    }

    /** `System(self.generate_system())`, the generator consumed to its
        end, proved to be SystemAt of the items from the current COMMA. */
    method GenerateSystem() returns (r: Result<Option<Tree>>)
      requires Valid() && curr == Some(Op(COMMA))
      modifies this
      ensures Valid()
      ensures Agrees(r, SystemAt(old(Remaining())), old(Remaining()), Remaining())
      decreases |Remaining()|, 1
    {
      hide ParseAt, SystemAt, MembersAt, OperatorError, UniqueError, Name, Remaining, CommaRun;
      ghost var q := Remaining();
      ghost var k := CommaRun(q);
      Current();
      SystemAtUnfold(q);
      var i := SkipCommas();
      r := ReadMembers(i);
      ghost var p := MembersAt(q[k..], k + 1, []);
      if p.Ok? {
        assert q[k..][p.value.at..] == q[k + p.value.at..];
      }
    }

    /** `parse` up to the automatic solving: `_parse`, one step on, and a
        truthy item left over is malformed input. */
    method Parse() returns (r: Result<Option<Tree>>)
      requires Valid()
      modifies this
      ensures Valid()
      ensures r == ParseTop(old(Remaining()))
    {
      hide ParseAt, SystemAt, MalformedError;
      ghost var q := Remaining();
      var res := ParseOne();
      if res.Err? {
        return Err(res.error);
      }
      Advance();
      if curr.Some? && Truthy(curr.value) {
        return Err(MalformedError());
      }
      return res;
    }
  }

  /** The module's `eval` from tokens on: prefix order, then a parser over
      it. */
  method Eval(tokens: seq<Token>) returns (r: Result<Option<Tree>>)
    ensures r == Evaluate(tokens)
  {
    var items :- Prefix(tokens);
    var parser := new Parser(items);
    r := parser.Parse();
  }
}
