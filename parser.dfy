/** The token types of parsing/tokens.py and the shunting-yard conversion
    of parsing/parser.py from a token list to prefix order.

    The conversion reads the tokens from the right: a ')' read that way
    opens a group and is pushed, a '(' closes it, so the output, read
    backwards, is the prefix order the parser consumes. */
module Parsing {
  import opened Outcome
  import Exact

  // ------------------------------------------------------------ token types

  datatype TokenType =
    | APPROX | SOLVE | COMMA
    | EQ | GT | GE | LT | LE
    | CONST | VAR
    | ADD | SUB | MUL | TRUEDIV | POS | NEG | POW | SQRT
    | LPAREN | RPAREN | ERROR

  /** The enum value of each member. */
  function Value(k: TokenType): real {
    match k
    case APPROX => 0.0
    case SOLVE => 1.0
    case COMMA => 2.0
    case EQ => 4.0
    case GT => 4.2
    case GE => 4.4
    case LT => 4.6
    case LE => 4.8
    case CONST => 5.0
    case VAR => 5.2
    case ADD => 7.0
    case SUB => 7.2
    case MUL => 8.0
    case TRUEDIV => 8.2
    case POS => 9.0
    case NEG => 9.2
    case POW => 10.0
    case SQRT => 10.2
    case LPAREN => -11.0
    case RPAREN => -11.2
    case ERROR => -12.0
  }

  /** The member's name, as the error messages print it. */
  function Name(k: TokenType): string {
    match k
    case APPROX => "APPROX"
    case SOLVE => "SOLVE"
    case COMMA => "COMMA"
    case EQ => "EQ"
    case GT => "GT"
    case GE => "GE"
    case LT => "LT"
    case LE => "LE"
    case CONST => "CONST"
    case VAR => "VAR"
    case ADD => "ADD"
    case SUB => "SUB"
    case MUL => "MUL"
    case TRUEDIV => "TRUEDIV"
    case POS => "POS"
    case NEG => "NEG"
    case POW => "POW"
    case SQRT => "SQRT"
    case LPAREN => "LPAREN"
    case RPAREN => "RPAREN"
    case ERROR => "ERROR"
  }

  /** `TokenType.is_unary`. */
  predicate IsUnary(k: TokenType) {
    k in {POS, NEG, APPROX, SQRT}
  }

  /** `oper.value // 1 == 4`, the test the parser uses for (in)equalities. */
  predicate IsComparison(k: TokenType) {
    Value(k).Floor == 4
  }

  /** The operand of a CONST or VAR token: a constant or a variable name. */
  datatype Leaf = ConstLeaf(constant: Exact.Const) | VarLeaf(name: string)

  /** What a token carries: nothing, an operand, or the exception of an
      ERROR token. */
  datatype Payload = NoValue | Term(leaf: Leaf) | Raised(error: Error)

  /** The frozen dataclass `Token`: equality is field-wise. */
  datatype Token = Token(kind: TokenType, value: Payload, iscoef: bool)

  function Plain(k: TokenType): Token {
    Token(k, NoValue, false)
  }

  /** `Token.priority`: the integer part of the type's value, plus 0.2 for
      a coefficient. */
  function Priority(t: Token): real {
    Value(t.kind).Floor as real + (if t.iscoef then 0.2 else 0.0)
  }

  // ------------------------------------------------------- token properties

  /** `is_unary` holds for exactly four types, all of value 0 or at least 9. */
  lemma UnaryTypes(k: TokenType)
    ensures IsUnary(k) <==> k == POS || k == NEG || k == APPROX || k == SQRT
    ensures IsUnary(k) ==> Value(k) == 0.0 || Value(k) >= 9.0
  {
  }

  /** The (in)equalities are the types whose value has integer part 4. */
  lemma ComparisonTypes(k: TokenType)
    ensures IsComparison(k) <==> k in {EQ, GT, GE, LT, LE}
  {
  }

  /** The precedence ladder: the two members of each pair share their
      priority, a coefficient product binds tighter than a written one and
      looser than a sign, and the parentheses lie below every operator. */
  lemma PriorityLadder()
    ensures Priority(Plain(ADD)) == Priority(Plain(SUB)) == 7.0
    ensures Priority(Plain(MUL)) == Priority(Plain(TRUEDIV)) == 8.0
    ensures Priority(Plain(POS)) == Priority(Plain(NEG)) == 9.0
    ensures Priority(Plain(POW)) == Priority(Plain(SQRT)) == 10.0
    ensures Priority(Plain(EQ)) == Priority(Plain(LE)) == 4.0
    ensures Priority(Plain(MUL)) < Priority(Token(MUL, NoValue, true)) < Priority(Plain(POS))
    ensures Priority(Plain(RPAREN)) == -12.0 && Priority(Plain(LPAREN)) == -11.0
    ensures Priority(Plain(APPROX)) < Priority(Plain(SOLVE)) < Priority(Plain(COMMA)) < Priority(Plain(EQ))
      < Priority(Plain(ADD))
  {
  }

  /** Every type but the operand and parenthesis types has priority at
      least 0, above both parentheses whatever their flag. */
  lemma OperatorAboveParens(t: Token, p: Token)
    requires t.kind !in {CONST, VAR, LPAREN, RPAREN, ERROR}
    requires p.kind == RPAREN
    ensures Priority(t) >= 0.0 && Priority(p) < 0.0 && !IsUnary(p.kind)
  {
  }

  // ------------------------------------------------------------- sequences

  function Last<T>(s: seq<T>): T
    requires |s| > 0
  {
    s[|s| - 1]
  }

  function Init<T>(s: seq<T>): seq<T>
    requires |s| > 0
  {
    s[..|s| - 1]
  }

  function Reverse<T>(s: seq<T>): (r: seq<T>)
    ensures |r| == |s|
    ensures forall i :: 0 <= i < |s| ==> r[i] == s[|s| - 1 - i]
  {
    seq(|s|, i requires 0 <= i < |s| => s[|s| - 1 - i])
  }

  lemma ReverseTwice<T>(s: seq<T>)
    ensures Reverse(Reverse(s)) == s
  {
  }

  lemma ReverseAppend<T>(a: seq<T>, b: seq<T>)
    ensures Reverse(a + b) == Reverse(b) + Reverse(a)
  {
  }

  lemma ReverseSnoc<T>(s: seq<T>, i: nat)
    requires i < |s|
    ensures Reverse(s[..i + 1]) == [s[i]] + Reverse(s[..i])
  {
  }

  // ------------------------------------------------------------ the postfix

  /** What the postfix generator yields: an operand's value or an
      operator's type. */
  datatype Item = Operand(value: Payload) | Op(kind: TokenType)

  function ParenError(): Error {
    SyntaxError("unmatched parenthesis")
  }

  /** `raise token.value`: the exception an ERROR token holds, or the
      TypeError Python raises for anything that is not an exception. */
  function Raise(p: Payload): Error {
    if p.Raised? then p.error else TypeError("exceptions must derive from BaseException")
  }

  /** The generator's output so far and its operator stack. */
  datatype State = State(out: seq<Item>, stack: seq<Token>)

  /** A '(' read from the right: pop to the matching ')' and drop it. */
  function Close(out: seq<Item>, stack: seq<Token>): Result<State>
    decreases |stack|
  {
    if stack == [] then Err(ParenError())
    else if Last(stack).kind == RPAREN then Ok(State(out, Init(stack)))
    else Close(out + [Op(Last(stack).kind)], Init(stack))
  }

  /** Whether operator t pops the top of the stack: POW, associating to
      the right, pops equal priorities; every other operator only higher
      ones. A unary operator on top is always popped. */
  predicate Pops(t: Token, top: Token) {
    if t.kind == POW then Priority(t) <= Priority(top) || IsUnary(top.kind)
    else Priority(t) < Priority(top) || IsUnary(top.kind)
  }

  /** The popping loop before an operator is pushed; reading `stack[-1]`
      of an empty stack raises IndexError. */
  function Yield(t: Token, out: seq<Item>, stack: seq<Token>): Result<State>
    decreases |stack|
  {
    if stack == [] then Err(IndexError)
    else if Pops(t, Last(stack)) then Yield(t, out + [Op(Last(stack).kind)], Init(stack))
    else Ok(State(out, stack))
  }

  /** One token read from the right. */
  function Step(t: Token, st: State): Result<State> {
    if t.kind == ERROR then Err(Raise(t.value))
    else if t.kind == CONST || t.kind == VAR then Ok(State(st.out + [Operand(t.value)], st.stack))
    else if t.kind == RPAREN then Ok(State(st.out, st.stack + [t]))
    else if t.kind == LPAREN then Close(st.out, st.stack)
    else if st.stack == [] then Err(ParenError())
    else
      var s :- Yield(t, st.out, st.stack);
      Ok(State(s.out, s.stack + [t]))
  }

  /** The stack emptied from the top once the input is read; a ')' left on
      it is unmatched. */
  function Drain(out: seq<Item>, stack: seq<Token>): Result<seq<Item>>
    decreases |stack|
  {
    if stack == [] then Ok(out)
    else if Last(stack).kind == RPAREN then Err(ParenError())
    else Drain(out + [Op(Last(stack).kind)], Init(stack))
  }

  /** The generator run over the tokens rs, given in the order it reads
      them. */
  function Run(rs: seq<Token>, st: State): Result<seq<Item>>
    decreases |rs|
  {
    if rs == [] then Drain(st.out, st.stack)
    else
      var s :- Step(rs[0], st);
      Run(rs[1..], s)
  }

  /** `Parser.postfix`, read to the end: the first exception it raises, or
      everything it yields. */
  function PostfixOrder(tokens: seq<Token>): Result<seq<Item>> {
    Run(Reverse(tokens), State([], []))
  }

  /** `Parser.prefix`: the postfix items reversed. */
  function PrefixOrder(tokens: seq<Token>): Result<seq<Item>> {
    var p :- PostfixOrder(tokens);
    Ok(Reverse(p))
  }

  /** The stack's bottom is always the ')' that opened the outermost group. */
  predicate BottomParen(stack: seq<Token>) {
    |stack| > 0 ==> stack[0].kind == RPAREN
  }

  /** The conversion as the source writes it: a loop over the reversed
      tokens with a stack. */
  method Postfix(tokens: seq<Token>) returns (r: Result<seq<Item>>)
    ensures r == PostfixOrder(tokens)
  {
    hide Run, Close, Yield, Drain, Reverse;
    var out: seq<Item> := [];
    var stack: seq<Token> := [];
    var i := |tokens|;
    assert tokens[..i] == tokens;
    while i > 0
      invariant 0 <= i <= |tokens|
      invariant BottomParen(stack)
      invariant Run(Reverse(tokens[..i]), State(out, stack)) == PostfixOrder(tokens)
    {
      i := i - 1;
      var t := tokens[i];
      ReverseSnoc(tokens, i);
      ghost var before := State(out, stack);
      RunCons(t, Reverse(tokens[..i]), before);
      if t.kind == ERROR {
        return Err(Raise(t.value));
      }
      if t.kind == CONST || t.kind == VAR {
        out := out + [Operand(t.value)];
      } else if t.kind == RPAREN {
        stack := stack + [t];
      } else if t.kind == LPAREN {
        CloseStep(out, stack);
        if stack == [] {
          return Err(ParenError());
        }
        while Last(stack).kind != RPAREN
          invariant |stack| > 0 && BottomParen(stack)
          invariant Close(out, stack) == Close(before.out, before.stack)
          decreases |stack|
        {
          CloseStep(out, stack);
          out := out + [Op(Last(stack).kind)];
          stack := Init(stack);
        }
        CloseStep(out, stack);
        stack := Init(stack);
      } else {
        if stack == [] {
          return Err(ParenError());
        }
        while Pops(t, Last(stack))
          invariant |stack| > 0 && BottomParen(stack)
          invariant Yield(t, out, stack) == Yield(t, before.out, before.stack)
          decreases |stack|
        {
          OperatorAboveParens(t, stack[0]);
          YieldStep(t, out, stack);
          out := out + [Op(Last(stack).kind)];
          stack := Init(stack);
        }
        YieldStep(t, out, stack);
        stack := stack + [t];
      }
    }
    assert Reverse(tokens[..0]) == [];
    RunEmpty(State(out, stack));
    var k := |stack|;
    assert stack[..k] == stack;
    while k > 0
      invariant 0 <= k <= |stack|
      invariant Drain(out, stack[..k]) == PostfixOrder(tokens)
    {
      assert Init(stack[..k]) == stack[..k - 1];
      DrainStep(out, stack[..k]);
      if stack[k - 1].kind == RPAREN {
        return Err(ParenError());
      }
      out := out + [Op(stack[k - 1].kind)];
      k := k - 1;
    }
    DrainStep(out, stack[..0]);
    return Ok(out);
  }

  // One step of each loop of the conversion.

  lemma RunEmpty(st: State)
    ensures Run([], st) == Drain(st.out, st.stack)
  {
  }

  lemma RunCons(t: Token, rs: seq<Token>, st: State)
    ensures Run([t] + rs, st) == if Step(t, st).Err? then Err(Step(t, st).error) else Run(rs, Step(t, st).value)
  {
    assert ([t] + rs)[0] == t && ([t] + rs)[1..] == rs;
  }

  lemma CloseStep(out: seq<Item>, stack: seq<Token>)
    ensures stack == [] ==> Close(out, stack) == Err(ParenError())
    ensures |stack| > 0 ==> Close(out, stack) == if Last(stack).kind == RPAREN then Ok(State(out, Init(stack)))
      else Close(out + [Op(Last(stack).kind)], Init(stack))
  {
  }

  lemma YieldStep(t: Token, out: seq<Item>, stack: seq<Token>)
    requires |stack| > 0
    ensures Yield(t, out, stack) == if Pops(t, Last(stack)) then Yield(t, out + [Op(Last(stack).kind)], Init(stack))
      else Ok(State(out, stack))
  {
  }

  lemma DrainStep(out: seq<Item>, stack: seq<Token>)
    ensures stack == [] ==> Drain(out, stack) == Ok(out)
    ensures |stack| > 0 ==> Drain(out, stack) == if Last(stack).kind == RPAREN then Err(ParenError())
      else Drain(out + [Op(Last(stack).kind)], Init(stack))
  {
  }

  method Prefix(tokens: seq<Token>) returns (r: Result<seq<Item>>)
    ensures r == PrefixOrder(tokens)
  {
    var p := Postfix(tokens);
    if p.Err? {
      return Err(p.error);
    }
    return Ok(Reverse(p.value));
  }

  // -------------------------------------------------- postfix properties

  /** What a token contributes to the output: its value for an operand,
      its type otherwise. */
  function ItemOf(t: Token): Item {
    if t.kind == CONST || t.kind == VAR then Operand(t.value) else Op(t.kind)
  }

  predicate IsParen(t: Token) {
    t.kind == LPAREN || t.kind == RPAREN
  }

  /** The items of the tokens that are not parentheses, in order. */
  function Items(ts: seq<Token>): seq<Item>
    decreases |ts|
  {
    if ts == [] then []
    else (if IsParen(ts[0]) then [] else [ItemOf(ts[0])]) + Items(ts[1..])
  }

  /** The operand values among some items, in order. */
  function Operands(items: seq<Item>): seq<Payload>
    decreases |items|
  {
    if items == [] then []
    else (if items[0].Operand? then [items[0].value] else []) + Operands(items[1..])
  }

  /** What the stack may hold: ')' and operators. */
  predicate StackShape(stack: seq<Token>) {
    forall i :: 0 <= i < |stack| ==> Stackable(stack[i])
  }

  predicate Stackable(t: Token) {
    t.kind != CONST && t.kind != VAR && t.kind != LPAREN && t.kind != ERROR
  }

  lemma {:induction false} ItemsAppend(a: seq<Token>, b: seq<Token>)
    ensures Items(a + b) == Items(a) + Items(b)
    decreases |a|
  {
    if a == [] {
      assert a + b == b;
    } else {
      assert (a + b)[0] == a[0] && (a + b)[1..] == a[1..] + b;
      ItemsAppend(a[1..], b);
    }
  }

  lemma {:induction false} OperandsAppend(a: seq<Item>, b: seq<Item>)
    ensures Operands(a + b) == Operands(a) + Operands(b)
    decreases |a|
  {
    if a == [] {
      assert a + b == b;
    } else {
      assert (a + b)[0] == a[0] && (a + b)[1..] == a[1..] + b;
      OperandsAppend(a[1..], b);
    }
  }

  lemma NothingEmpty()
    ensures Items([]) == [] && Operands([]) == []
  {
  }

  lemma ItemsOne(t: Token)
    ensures Items([t]) == if IsParen(t) then [] else [ItemOf(t)]
  {
    assert [t][1..] == [];
  }

  /** Popping an operator off the stack moves its item to the output. */
  lemma PopMoves(out: seq<Item>, stack: seq<Token>)
    requires |stack| > 0 && StackShape(stack) && Last(stack).kind != RPAREN
    ensures StackShape(Init(stack))
    ensures multiset(out + [Op(Last(stack).kind)]) + multiset(Items(Init(stack)))
      == multiset(out) + multiset(Items(stack))
    ensures Operands(out + [Op(Last(stack).kind)]) == Operands(out)
  {
    assert stack == Init(stack) + [Last(stack)];
    ItemsAppend(Init(stack), [Last(stack)]);
    ItemsOne(Last(stack));
    OperandsAppend(out, [Op(Last(stack).kind)]);
    assert Operands([Op(Last(stack).kind)]) == [];
  }

  /** The stack holds no operand. */
  lemma {:induction false} StackNoOperands(stack: seq<Token>)
    requires StackShape(stack)
    ensures Operands(Items(stack)) == []
    decreases |stack|
  {
    if stack != [] {
      assert StackShape(stack[1..]) by {
        forall i | 0 <= i < |stack[1..]|
          ensures Stackable(stack[1..][i])
        {
          assert stack[1..][i] == stack[i + 1];
        }
      }
      StackNoOperands(stack[1..]);
      var head := if IsParen(stack[0]) then [] else [ItemOf(stack[0])];
      OperandsAppend(head, Items(stack[1..]));
      assert Operands(head) == [];
    }
  }

  /** Closing a group moves operators from the stack to the output. */
  lemma {:induction false} CloseMoves(out: seq<Item>, stack: seq<Token>)
    requires StackShape(stack) && Close(out, stack).Ok?
    ensures var r := Close(out, stack).value;
      StackShape(r.stack) && |r.stack| < |stack| && r.stack == stack[..|r.stack|]
      && multiset(r.out) + multiset(Items(r.stack)) == multiset(out) + multiset(Items(stack))
      && Operands(r.out) == Operands(out)
    decreases |stack|
  {
    hide Close, Items, Operands, StackShape;
    CloseStep(out, stack);
    var r := Close(out, stack).value;
    if Last(stack).kind == RPAREN {
      assert r == State(out, Init(stack));
      assert stack == Init(stack) + [Last(stack)];
      ItemsAppend(Init(stack), [Last(stack)]);
      ItemsOne(Last(stack));
      assert Items(stack) == Items(Init(stack)) + [];
      ShapePrefix(stack, |stack| - 1);
    } else {
      PopMoves(out, stack);
      CloseMoves(out + [Op(Last(stack).kind)], Init(stack));
      var n := |r.stack|;
      assert Init(stack)[..n] == stack[..n];
    }
  }

  lemma ShapePrefix(stack: seq<Token>, n: nat)
    requires StackShape(stack) && n <= |stack|
    ensures StackShape(stack[..n])
  {
  }

  /** So does the popping loop before an operator. */
  lemma {:induction false} YieldMoves(t: Token, out: seq<Item>, stack: seq<Token>)
    requires StackShape(stack) && BottomParen(stack)
    requires t.kind !in {CONST, VAR, LPAREN, RPAREN, ERROR}
    requires Yield(t, out, stack).Ok?
    ensures var r := Yield(t, out, stack).value;
      StackShape(r.stack) && BottomParen(r.stack) && |r.stack| > 0
      && multiset(r.out) + multiset(Items(r.stack)) == multiset(out) + multiset(Items(stack))
      && Operands(r.out) == Operands(out)
    decreases |stack|
  {
    YieldStep(t, out, stack);
    if Pops(t, Last(stack)) {
      PopMoves(out, stack);
      YieldMoves(t, out + [Op(Last(stack).kind)], Init(stack));
    }
  }

  /** And so does the final draining of the stack. */
  lemma {:induction false} DrainMoves(out: seq<Item>, stack: seq<Token>)
    requires StackShape(stack) && Drain(out, stack).Ok?
    ensures multiset(Drain(out, stack).value) == multiset(out) + multiset(Items(stack))
    ensures Operands(Drain(out, stack).value) == Operands(out)
    decreases |stack|
  {
    DrainStep(out, stack);
    if stack != [] {
      PopMoves(out, stack);
      DrainMoves(out + [Op(Last(stack).kind)], Init(stack));
    }
  }

  lemma PushKeeps(stack: seq<Token>, t: Token)
    requires StackShape(stack) && Stackable(t)
    ensures StackShape(stack + [t])
    ensures multiset(Items(stack + [t])) == multiset(Items(stack)) + multiset(Items([t]))
  {
    hide Items;
    ItemsAppend(stack, [t]);
    assert forall i :: 0 <= i < |stack| ==> (stack + [t])[i] == stack[i];
  }

  /** From st to s, reading t: the stack keeps its shape, t's item, if it
      has one, joins the items held on the stack and the output, and an
      operand is appended to the output. */
  predicate Moved(st: State, s: State, t: Token) {
    StackShape(s.stack) && BottomParen(s.stack)
    && Held(s) == Held(st) + multiset(Items([t]))
    && Operands(s.out) == Operands(st.out) + Operands(Items([t]))
  }

  /** The items a state holds, on its output and on its stack. */
  function Held(st: State): multiset<Item> {
    multiset(st.out) + multiset(Items(st.stack))
  }

  lemma OperandsOne(x: Item)
    ensures Operands([x]) == if x.Operand? then [x.value] else []
  {
    assert [x][1..] == [];
  }

  lemma StepMoves(t: Token, st: State)
    requires StackShape(st.stack) && BottomParen(st.stack) && Step(t, st).Ok?
    ensures t.kind != ERROR && Moved(st, Step(t, st).value, t)
  {
    if t.kind == CONST || t.kind == VAR {
      OperandMoves(t, st);
    } else if t.kind == RPAREN {
      OpenMoves(t, st);
    } else if t.kind == LPAREN {
      GroupMoves(t, st);
    } else {
      OperatorMoves(t, st);
    }
  }

  lemma OperandMoves(t: Token, st: State)
    requires StackShape(st.stack) && BottomParen(st.stack)
    requires t.kind == CONST || t.kind == VAR
    ensures Step(t, st).Ok? && Moved(st, Step(t, st).value, t)
  {
    hide Items, Operands, StackShape;
    ItemsOne(t);
    OperandsAppend(st.out, [Operand(t.value)]);
    OperandsOne(Operand(t.value));
  }

  lemma OpenMoves(t: Token, st: State)
    requires StackShape(st.stack) && BottomParen(st.stack) && t.kind == RPAREN
    ensures Step(t, st).Ok? && Moved(st, Step(t, st).value, t)
  {
    hide Items, Operands, StackShape;
    ItemsOne(t);
    PushKeeps(st.stack, t);
    NothingEmpty();
  }

  lemma GroupMoves(t: Token, st: State)
    requires StackShape(st.stack) && BottomParen(st.stack) && t.kind == LPAREN
    requires Step(t, st).Ok?
    ensures Moved(st, Step(t, st).value, t)
  {
    hide Close, Items, Operands, StackShape;
    ItemsOne(t);
    NothingEmpty();
    CloseMoves(st.out, st.stack);
    var s := Step(t, st).value;
    assert BottomParen(s.stack) by {
      if |s.stack| > 0 {
        assert s.stack[0] == st.stack[0];
      }
    }
  }

  lemma OperatorMoves(t: Token, st: State)
    requires StackShape(st.stack) && BottomParen(st.stack)
    requires t.kind !in {CONST, VAR, LPAREN, RPAREN, ERROR}
    requires Step(t, st).Ok?
    ensures Moved(st, Step(t, st).value, t)
  {
    hide Yield, Items, Operands, StackShape;
    ItemsOne(t);
    YieldMoves(t, st.out, st.stack);
    var y := Yield(t, st.out, st.stack).value;
    PushKeeps(y.stack, t);
    OperandsOne(Op(t.kind));
    var s := Step(t, st).value;
    assert s.stack == y.stack + [t];
  }

  /** Each token's item reaches the output exactly once and no operand
      moves past another. */
  lemma {:induction false} RunMoves(rs: seq<Token>, st: State)
    requires StackShape(st.stack) && BottomParen(st.stack) && Run(rs, st).Ok?
    ensures multiset(Run(rs, st).value) == Held(st) + multiset(Items(rs))
    ensures Operands(Run(rs, st).value) == Operands(st.out) + Operands(Items(rs))
    decreases |rs|
  {
    hide Run, Close, Yield, Drain, Step, Items, Operands, StackShape, Moved, Held;
    if rs == [] {
      EndMoves(st);
    } else {
      var t := rs[0];
      assert rs == [t] + rs[1..];
      RunCons(t, rs[1..], st);
      StepMoves(t, st);
      var s := Step(t, st).value;
      MovedFacts(st, s, t);
      RunMoves(rs[1..], s);
      ItemsAppend([t], rs[1..]);
      OperandsAppend(Items([t]), Items(rs[1..]));
      assert multiset(Items(rs)) == multiset(Items([t])) + multiset(Items(rs[1..]));
    }
  }

  lemma MovedFacts(st: State, s: State, t: Token)
    requires Moved(st, s, t)
    ensures StackShape(s.stack) && BottomParen(s.stack)
    ensures Held(s) == Held(st) + multiset(Items([t]))
    ensures Operands(s.out) == Operands(st.out) + Operands(Items([t]))
  {
  }

  lemma EndMoves(st: State)
    requires StackShape(st.stack) && Run([], st).Ok?
    ensures multiset(Run([], st).value) == Held(st) + multiset(Items([]))
    ensures Operands(Run([], st).value) == Operands(st.out) + Operands(Items([]))
  {
    hide Drain, Items, Operands, StackShape;
    NothingEmpty();
    RunEmpty(st);
    DrainMoves(st.out, st.stack);
    StackNoOperands(st.stack);
  }

  /** A run that succeeds met no ERROR token. */
  lemma {:induction false} RunNoError(rs: seq<Token>, st: State)
    requires Run(rs, st).Ok?
    ensures forall i :: 0 <= i < |rs| ==> rs[i].kind != ERROR
    decreases |rs|
  {
    hide Run;
    if rs != [] {
      assert rs == [rs[0]] + rs[1..];
      RunCons(rs[0], rs[1..], st);
      assert rs[0].kind != ERROR;
      RunNoError(rs[1..], Step(rs[0], st).value);
      assert forall i :: 1 <= i < |rs| ==> rs[i] == rs[1..][i - 1];
    }
  }

  lemma {:induction false} ItemsReverse(ts: seq<Token>)
    ensures Items(Reverse(ts)) == Reverse(Items(ts))
    decreases |ts|
  {
    if ts == [] {
      NothingEmpty();
    } else {
      assert ts == [ts[0]] + ts[1..];
      ReverseAppend([ts[0]], ts[1..]);
      ItemsAppend(Reverse(ts[1..]), Reverse([ts[0]]));
      ItemsAppend([ts[0]], ts[1..]);
      ItemsReverse(ts[1..]);
      ReverseAppend(Items([ts[0]]), Items(ts[1..]));
      ItemsOne(ts[0]);
      assert Reverse([ts[0]]) == [ts[0]];
      assert Reverse(Items([ts[0]])) == Items([ts[0]]);
    }
  }

  lemma {:induction false} OperandsReverse(items: seq<Item>)
    ensures Operands(Reverse(items)) == Reverse(Operands(items))
    decreases |items|
  {
    if items == [] {
      NothingEmpty();
    } else {
      var x := items[0];
      assert items == [x] + items[1..];
      ReverseAppend([x], items[1..]);
      OperandsAppend(Reverse(items[1..]), Reverse([x]));
      OperandsAppend([x], items[1..]);
      OperandsReverse(items[1..]);
      ReverseAppend(Operands([x]), Operands(items[1..]));
      OperandsOne(x);
      assert Reverse([x]) == [x];
      assert Reverse(Operands([x])) == Operands([x]);
    }
  }

  lemma {:induction false} MultisetReverse<T>(s: seq<T>)
    ensures multiset(Reverse(s)) == multiset(s)
    decreases |s|
  {
    if s != [] {
      assert s == [s[0]] + s[1..];
      ReverseAppend([s[0]], s[1..]);
      assert Reverse([s[0]]) == [s[0]];
      MultisetReverse(s[1..]);
    }
  }

  /** `Parser.prefix`, when it raises nothing, rearranges the tokens: its
      items are those of the tokens other than parentheses, each exactly
      once; the operands keep their written order; and no ERROR token was
      among the input. */
  lemma PrefixRearranges(tokens: seq<Token>)
    requires PrefixOrder(tokens).Ok?
    ensures multiset(PrefixOrder(tokens).value) == multiset(Items(tokens))
    ensures Operands(PrefixOrder(tokens).value) == Operands(Items(tokens))
    ensures forall i :: 0 <= i < |tokens| ==> tokens[i].kind != ERROR
  {
    hide Run, Items, Operands;
    var rs := Reverse(tokens);
    var post := Run(rs, State([], [])).value;
    NothingEmpty();
    RunMoves(rs, State([], []));
    assert Held(State([], [])) == multiset{};
    ItemsReverse(tokens);
    MultisetReverse(Items(tokens));
    MultisetReverse(post);
    OperandsReverse(post);
    OperandsReverse(Items(tokens));
    ReverseTwice(Operands(Items(tokens)));
    RunNoError(rs, State([], []));
    forall i | 0 <= i < |tokens|
      ensures tokens[i].kind != ERROR
    {
      assert tokens[i] == rs[|tokens| - 1 - i];
    }
  }

  /** With the opening ')' at the bottom of the stack, the popping loop
      before an operator stops on it at the latest: reading `stack[-1]`
      never fails. */
  lemma {:induction false} YieldSafe(t: Token, out: seq<Item>, stack: seq<Token>)
    requires t.kind !in {CONST, VAR, LPAREN, RPAREN, ERROR}
    requires |stack| > 0 && BottomParen(stack)
    ensures Yield(t, out, stack).Ok?
    decreases |stack|
  {
    hide Yield;
    YieldStep(t, out, stack);
    if |stack| == 1 {
      OperatorAboveParens(t, Last(stack));
    } else if Pops(t, Last(stack)) {
      YieldSafe(t, out + [Op(Last(stack).kind)], Init(stack));
    }
  }

  lemma CloseErrors(out: seq<Item>, stack: seq<Token>)
    ensures Close(out, stack).Err? ==> Close(out, stack).error == ParenError()
    decreases |stack|
  {
  }

  lemma DrainErrors(out: seq<Item>, stack: seq<Token>)
    ensures Drain(out, stack).Err? ==> Drain(out, stack).error == ParenError()
    decreases |stack|
  {
  }

  /** One step fails with an unmatched parenthesis or with the exception
      of an ERROR token. */
  lemma StepErrors(t: Token, st: State)
    requires BottomParen(st.stack) && Step(t, st).Err?
    ensures Step(t, st).error == ParenError() || (t.kind == ERROR && Step(t, st).error == Raise(t.value))
  {
    hide Close, Yield;
    if t.kind == LPAREN {
      CloseErrors(st.out, st.stack);
    } else if t.kind !in {CONST, VAR, RPAREN, ERROR} && st.stack != [] {
      YieldSafe(t, st.out, st.stack);
    }
  }

  /** A run fails with an unmatched parenthesis or with the exception of
      one of its ERROR tokens; the IndexError of an empty stack never
      escapes. */
  lemma {:induction false} RunErrors(rs: seq<Token>, st: State)
    requires StackShape(st.stack) && BottomParen(st.stack) && Run(rs, st).Err?
    ensures var e := Run(rs, st).error;
      e == ParenError() || exists i :: 0 <= i < |rs| && rs[i].kind == ERROR && e == Raise(rs[i].value)
    decreases |rs|
  {
    hide Run, Step, Drain, Moved, StackShape;
    var e := Run(rs, st).error;
    if rs == [] {
      RunEmpty(st);
      DrainErrors(st.out, st.stack);
    } else {
      var t := rs[0];
      assert rs == [t] + rs[1..];
      RunCons(t, rs[1..], st);
      if Step(t, st).Err? {
        StepErrors(t, st);
      } else {
        StepMoves(t, st);
        var s := Step(t, st).value;
        MovedFacts(st, s, t);
        RunErrors(rs[1..], s);
        if e != ParenError() {
          var i :| 0 <= i < |rs[1..]| && rs[1..][i].kind == ERROR && e == Raise(rs[1..][i].value);
          assert rs[i + 1] == rs[1..][i];
        }
      }
    }
  }

  /** `Parser.postfix` raises either "unmatched parenthesis" or the
      exception held by one of the ERROR tokens. */
  lemma PostfixErrors(tokens: seq<Token>)
    requires PostfixOrder(tokens).Err?
    ensures var e := PostfixOrder(tokens).error;
      e == ParenError() || exists i :: 0 <= i < |tokens| && tokens[i].kind == ERROR && e == Raise(tokens[i].value)
  {
    hide Run;
    var rs := Reverse(tokens);
    RunErrors(rs, State([], []));
    var e := PostfixOrder(tokens).error;
    if e != ParenError() {
      var i :| 0 <= i < |rs| && rs[i].kind == ERROR && e == Raise(rs[i].value);
      assert rs[i] == tokens[|tokens| - 1 - i];
    }
  }

  // ------------------------------------------------------ parenthesis nesting

  /** How many tokens of type k there are. */
  function Count(ts: seq<Token>, k: TokenType): nat
    decreases |ts|
  {
    if ts == [] then 0 else Count(Init(ts), k) + (if Last(ts).kind == k then 1 else 0)
  }

  /** The groups left open after ts: its '(' less its ')'. */
  function Opens(ts: seq<Token>): int {
    Count(ts, LPAREN) - Count(ts, RPAREN)
  }

  /** Every ')' closes an earlier '(' and every '(' is closed. */
  predicate Balanced(ts: seq<Token>) {
    Opens(ts) == 0 && forall k :: 0 <= k <= |ts| ==> Opens(ts[..k]) >= 0
  }

  lemma {:induction false} CountAppend(a: seq<Token>, b: seq<Token>, k: TokenType)
    ensures Count(a + b, k) == Count(a, k) + Count(b, k)
    decreases |b|
  {
    if b == [] {
      assert a + b == a;
    } else {
      assert Last(a + b) == Last(b) && Init(a + b) == a + Init(b);
      CountAppend(a, Init(b), k);
    }
  }

  lemma CountOne(t: Token, k: TokenType)
    ensures Count([t], k) == if t.kind == k then 1 else 0
  {
    assert Init([t]) == [];
  }

  lemma {:induction false} CountReverse(s: seq<Token>, k: TokenType)
    ensures Count(Reverse(s), k) == Count(s, k)
    decreases |s|
  {
    if s != [] {
      assert s == Init(s) + [Last(s)];
      ReverseAppend(Init(s), [Last(s)]);
      assert Reverse([Last(s)]) == [Last(s)];
      CountAppend([Last(s)], Reverse(Init(s)), k);
      CountAppend(Init(s), [Last(s)], k);
      CountReverse(Init(s), k);
    }
  }

  /** Closing a group takes exactly one ')' off the stack. */
  lemma {:induction false} CloseParens(out: seq<Item>, stack: seq<Token>)
    requires Close(out, stack).Ok?
    ensures Count(Close(out, stack).value.stack, RPAREN) + 1 == Count(stack, RPAREN)
    decreases |stack|
  {
    hide Close;
    CloseStep(out, stack);
    if Last(stack).kind != RPAREN {
      CloseParens(out + [Op(Last(stack).kind)], Init(stack));
    }
  }

  lemma YieldEmpty(t: Token, out: seq<Item>, stack: seq<Token>)
    ensures stack == [] ==> Yield(t, out, stack) == Err(IndexError)
  {
  }

  /** The popping loop before an operator never pops a ')'. */
  lemma {:induction false} YieldParens(t: Token, out: seq<Item>, stack: seq<Token>)
    requires t.kind !in {CONST, VAR, LPAREN, RPAREN, ERROR}
    requires Yield(t, out, stack).Ok?
    ensures Count(Yield(t, out, stack).value.stack, RPAREN) == Count(stack, RPAREN)
    decreases |stack|
  {
    hide Yield;
    YieldEmpty(t, out, stack);
    YieldStep(t, out, stack);
    if Pops(t, Last(stack)) {
      assert Last(stack).kind != RPAREN by {
        if Last(stack).kind == RPAREN {
          OperatorAboveParens(t, Last(stack));
        }
      }
      YieldParens(t, out + [Op(Last(stack).kind)], Init(stack));
    }
  }

  /** Draining succeeds only on a stack without ')'. */
  lemma {:induction false} DrainParens(out: seq<Item>, stack: seq<Token>)
    requires Drain(out, stack).Ok?
    ensures Count(stack, RPAREN) == 0
    decreases |stack|
  {
    hide Drain;
    DrainStep(out, stack);
    if stack != [] {
      DrainParens(out + [Op(Last(stack).kind)], Init(stack));
    }
  }

  /** A step changes the number of ')' on the stack by the token's
      opening count, negated. */
  lemma StepParens(t: Token, st: State)
    requires Step(t, st).Ok?
    ensures Count(Step(t, st).value.stack, RPAREN) == Count(st.stack, RPAREN) - Opens([t])
  {
    hide Close, Yield;
    CountOne(t, LPAREN);
    CountOne(t, RPAREN);
    if t.kind == RPAREN {
      CountAppend(st.stack, [t], RPAREN);
    } else if t.kind == LPAREN {
      CloseParens(st.out, st.stack);
    } else if t.kind !in {CONST, VAR, ERROR} {
      YieldParens(t, st.out, st.stack);
      var y := Yield(t, st.out, st.stack).value;
      CountAppend(y.stack, [t], RPAREN);
    }
  }

  /** Read from the right, no prefix of the input closes more groups than
      the stack's ')' open, and the whole input closes them all. */
  lemma {:induction false} RunNests(rs: seq<Token>, st: State)
    requires Run(rs, st).Ok?
    ensures forall k :: 0 <= k <= |rs| ==> Opens(rs[..k]) <= Count(st.stack, RPAREN)
    ensures Opens(rs) == Count(st.stack, RPAREN)
    decreases |rs|
  {
    hide Run, Step, Opens;
    if rs == [] {
      RunEmpty(st);
      DrainParens(st.out, st.stack);
      OpensEmpty();
      assert rs[..0] == rs;
    } else {
      var t := rs[0];
      assert rs == [t] + rs[1..];
      RunCons(t, rs[1..], st);
      var s := Step(t, st).value;
      StepParens(t, st);
      RunNests(rs[1..], s);
      forall k | 0 <= k <= |rs|
        ensures Opens(rs[..k]) <= Count(st.stack, RPAREN)
      {
        if k == 0 {
          OpensEmpty();
          assert rs[..0] == [];
        } else {
          assert rs[..k] == [t] + rs[1..][..k - 1];
          OpensAppend([t], rs[1..][..k - 1]);
        }
      }
      OpensAppend([t], rs[1..]);
    }
  }

  lemma OpensEmpty()
    ensures Opens([]) == 0
  {
  }

  lemma OpensReverse(s: seq<Token>)
    ensures Opens(Reverse(s)) == Opens(s)
  {
    CountReverse(s, LPAREN);
    CountReverse(s, RPAREN);
  }

  lemma OpensAppend(a: seq<Token>, b: seq<Token>)
    ensures Opens(a + b) == Opens(a) + Opens(b)
  {
    CountAppend(a, b, LPAREN);
    CountAppend(a, b, RPAREN);
  }

  /** `Parser.postfix` raises nothing only on balanced parentheses. */
  lemma PostfixBalanced(tokens: seq<Token>)
    requires PostfixOrder(tokens).Ok?
    ensures Balanced(tokens)
  {
    hide Run, Opens;
    var rs := Reverse(tokens);
    var n := |tokens|;
    RunNests(rs, State([], []));
    assert Count([], RPAREN) == 0;
    OpensReverse(tokens);
    forall k | 0 <= k <= n
      ensures Opens(tokens[..k]) >= 0
    {
      assert tokens == tokens[..k] + tokens[k..];
      OpensAppend(tokens[..k], tokens[k..]);
      assert Reverse(tokens[k..]) == rs[..n - k];
      OpensReverse(tokens[k..]);
    }
  }

  // ------------------------------------------------------------- examples

  /** "x/y*z", for any operands x, y and z: the operators of one priority
      associate to the left, so the product is applied last. */
  lemma LeftAssociative(x: Token, y: Token, z: Token)
    requires x.kind in {CONST, VAR} && y.kind in {CONST, VAR} && z.kind in {CONST, VAR}
    ensures PrefixOrder([Plain(LPAREN), x, Plain(TRUEDIV), y, Plain(MUL), z, Plain(RPAREN)])
      == Ok([Op(MUL), Op(TRUEDIV), Operand(x.value), Operand(y.value), Operand(z.value)])
  {
    hide Run, Step, Reverse, Close, Yield;
    var ts := [Plain(LPAREN), x, Plain(TRUEDIV), y, Plain(MUL), z, Plain(RPAREN)];
    var rs := [Plain(RPAREN), z, Plain(MUL), y, Plain(TRUEDIV), x, Plain(LPAREN)];
    ReverseSeven(ts);
    assert Reverse(ts) == rs == rs[0..];
    var X, Y, Z := Operand(x.value), Operand(y.value), Operand(z.value);
    var p := [Plain(RPAREN)];
    var q := p + [Plain(MUL)];
    var r := q + [Plain(TRUEDIV)];
    StepPush(Plain(RPAREN), State([], []));
    assert [] + [Plain(RPAREN)] == p;
    RunFrom(rs, 0, State([], []), State([], p));
    StepOperand(z, State([], p));
    assert [] + [Z] == [Z];
    RunFrom(rs, 1, State([], p), State([Z], p));
    StepOperator(Plain(MUL), State([Z], p));
    RunFrom(rs, 2, State([Z], p), State([Z], q));
    StepOperand(y, State([Z], q));
    assert [Z] + [Y] == [Z, Y];
    RunFrom(rs, 3, State([Z], q), State([Z, Y], q));
    StepOperator(Plain(TRUEDIV), State([Z, Y], q));
    RunFrom(rs, 4, State([Z, Y], q), State([Z, Y], r));
    StepOperand(x, State([Z, Y], r));
    assert [Z, Y] + [X] == [Z, Y, X];
    RunFrom(rs, 5, State([Z, Y], r), State([Z, Y, X], r));
    StepClose(State([Z, Y, X], r));
    assert [Z, Y, X] + [Op(TRUEDIV), Op(MUL)] == [Z, Y, X, Op(TRUEDIV), Op(MUL)];
    RunFrom(rs, 6, State([Z, Y, X], r), State([Z, Y, X, Op(TRUEDIV), Op(MUL)], []));
    assert rs[7..] == [];
    RunEmpty(State([Z, Y, X, Op(TRUEDIV), Op(MUL)], []));
    assert PostfixOrder(ts) == Ok([Z, Y, X, Op(TRUEDIV), Op(MUL)]);
    ReverseFive([Z, Y, X, Op(TRUEDIV), Op(MUL)]);
  }

  lemma ReverseSeven<T>(s: seq<T>)
    requires |s| == 7
    ensures Reverse(s) == [s[6], s[5], s[4], s[3], s[2], s[1], s[0]]
  {
  }

  lemma ReverseFive<T>(s: seq<T>)
    requires |s| == 5
    ensures Reverse(s) == [s[4], s[3], s[2], s[1], s[0]]
  {
  }

  lemma StepPush(t: Token, st: State)
    requires t.kind == RPAREN
    ensures Step(t, st) == Ok(State(st.out, st.stack + [t]))
  {
  }

  lemma StepOperand(t: Token, st: State)
    requires t.kind in {CONST, VAR}
    ensures Step(t, st) == Ok(State(st.out + [Operand(t.value)], st.stack))
  {
  }

  /** A binary product or quotient on a stack below which lies only the
      opening ')' and products or quotients is pushed without popping. */
  lemma StepOperator(t: Token, st: State)
    requires t.kind in {MUL, TRUEDIV} && !t.iscoef
    requires |st.stack| > 0 && st.stack[0] == Plain(RPAREN)
    requires forall k :: 1 <= k < |st.stack| ==> st.stack[k] in {Plain(MUL), Plain(TRUEDIV)}
    ensures Step(t, st) == Ok(State(st.out, st.stack + [t]))
  {
    assert !Pops(t, Last(st.stack));
  }

  lemma StepClose(st: State)
    requires st.stack == [Plain(RPAREN), Plain(MUL), Plain(TRUEDIV)]
    ensures Step(Plain(LPAREN), st) == Ok(State(st.out + [Op(TRUEDIV), Op(MUL)], []))
  {
    var s := st.stack;
    assert Close(st.out, s) == Close(st.out + [Op(TRUEDIV)], s[..2]);
    assert s[..2] == [Plain(RPAREN), Plain(MUL)] && Init(s[..2]) == s[..1];
    assert st.out + [Op(TRUEDIV)] + [Op(MUL)] == st.out + [Op(TRUEDIV), Op(MUL)];
    assert Close(st.out + [Op(TRUEDIV)], s[..2]) == Close(st.out + [Op(TRUEDIV), Op(MUL)], s[..1]);
  }

  /** The run from the i-th token on, after one step that leads from st to s. */
  lemma RunFrom(rs: seq<Token>, i: nat, st: State, s: State)
    requires i < |rs| && Step(rs[i], st) == Ok(s)
    ensures Run(rs[i..], st) == Run(rs[i + 1..], s)
  {
    assert rs[i..] == [rs[i]] + rs[i + 1..];
    RunCons(rs[i], rs[i + 1..], st);
  }
}
