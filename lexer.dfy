/** The tokeniser of processing/lexer.py over the token types of
    processing/tokens.py. The input is wrapped in parentheses and read one
    character at a time through the `curr` field; numbers, variables,
    operators and signs become tokens, and implicit multiplication is
    inserted between adjacent operands. */
module Lexing {
  import opened Outcome
  import opened Arith
  import opened Exact
  import opened Digits
  import ComplexNumber

  /** The token types of processing/tokens.py. */
  datatype Kind =
    | GETITEM | BOOL
    | EQ | NE | GT | GE | LT | LE
    | NUMBER | VAR
    | ADD | SUB
    | MUL | TRUEDIV
    | POS | NEG
    | POW | ROOT
    | LPAREN | RPAREN
    | ERROR

  /** What a token carries: a Number, a one-letter Variable, or the
      exception an ERROR token stands for. */
  datatype Payload =
    | NoValue
    | NumberValue(number: ComplexNumber.Number)
    | VariableValue(name: char)
    | Raised(error: Error)

  datatype Token = Token(kind: Kind, value: Payload, iscoef: bool)

  function Plain(k: Kind): Token {
    Token(k, NoValue, false)
  }

  function ErrorToken(message: string): Token {
    Token(ERROR, Raised(SyntaxError(message)), false)
  }

  const NoOperatorBetweenNumbers := "No operator between numbers"
  const OneDecimalPoint := "only one decimal point is allowed in number"
  const DecimalNeedsDigit := "decimal point needs atlest one digit"

  function UnexpectedCharacter(c: char): string {
    "unexpected character: '" + [c] + "'"
  }

  // ------------------------------------------------------------ characters

  predicate IsBlank(c: char) {
    c == ' ' || c == '\n' || c == '\t'
  }

  /** A character `generate_number` takes: a digit or the decimal point. */
  predicate IsNumeric(c: char) {
    c == '.' || IsDigit(c)
  }

  predicate IsAlpha(c: char) {
    'a' <= c <= 'z' || 'A' <= c <= 'Z'
  }

  /** The keys of `OPERS` other than the two signs. */
  predicate IsOperator(c: char) {
    c in "=≠>≥<≤*/^√()"
  }

  /** `OPERS[c]` for an operator; '*' written out is the plain MUL. */
  function OperatorToken(c: char): Token
    requires IsOperator(c)
  {
    Plain(
      if c == '=' then EQ
      else if c == '≠' then NE
      else if c == '>' then GT
      else if c == '≥' then GE
      else if c == '<' then LT
      else if c == '≤' then LE
      else if c == '*' then MUL
      else if c == '/' then TRUEDIV
      else if c == '^' then POW
      else if c == '√' then ROOT
      else if c == '(' then LPAREN
      else RPAREN)
  }

  /** `OPERS[c][not was_num]` for a sign: binary after an operand, unary
      otherwise. */
  function SignToken(c: char, afterOperand: bool): Token
    requires c == '+' || c == '-'
  {
    Plain(if c == '+' then (if afterOperand then ADD else POS) else (if afterOperand then SUB else NEG))
  }

  /** `OPERS["*"][was_num >> 1]` before a number or a variable: a
      coefficient MUL after a number or a variable (was_num 2 or 3), the
      plain MUL after ')' (was_num 1), nothing at all when was_num is 0. */
  function ImplicitMul(wasNum: nat): seq<Token> {
    if wasNum == 0 then [] else [Token(MUL, NoValue, wasNum >= 2)]
  }

  // --------------------------------------------------------------- numbers

  /** How many characters `generate_number` takes from s: digits and a
      first decimal point, stopping before a second one. */
  function RunLength(s: string, dot: bool): (n: nat)
    ensures n <= |s|
  {
    if s == [] || !IsNumeric(s[0]) || (s[0] == '.' && dot) then 0
    else 1 + RunLength(s[1..], dot || s[0] == '.')
  }

  /** The digits of a numeral, the decimal point left out. */
  function DigitsOf(s: string): (r: string)
    requires forall i :: 0 <= i < |s| ==> IsNumeric(s[i])
    ensures AllDigits(r)
  {
    if s == [] then []
    else
      assert IsNumeric(s[0]);
      var head := if s[0] == '.' then [] else [s[0]];
      var r := head + DigitsOf(s[1..]);
      assert AllDigits(head) && AllDigits(DigitsOf(s[1..]));
      assert forall i :: 0 <= i < |r| ==> r[i] == if i < |head| then head[i] else DigitsOf(s[1..])[i - |head|];
      r
  }

  /** How many digits follow the decimal point. */
  function FractionLength(s: string): nat {
    if s == [] then 0 else if s[0] == '.' then |s| - 1 else FractionLength(s[1..])
  }

  /** `Fraction(number_str)`: the digits read as an integer over 10 to the
      number of decimals, in lowest terms. */
  function Numeral(s: string): (r: Const)
    requires forall i :: 0 <= i < |s| ==> IsNumeric(s[i])
    ensures Valid(r)
  {
    PowPositive(10, FractionLength(s));
    Normalize(DecimalValue(DigitsOf(s)), Pow(10, FractionLength(s)))
  }

  /** The token `generate_number` returns for the rest s of the input, and
      how many characters it consumed. */
  function ReadNumber(s: string): (r: (Token, nat))
    requires |s| > 0 && IsNumeric(s[0])
    ensures 1 <= r.1 <= |s|
  {
    var n := RunLength(s, false);
    RunNumeric(s, false);
    if n < |s| && s[n] == '.' then (ErrorToken(OneDecimalPoint), n)
    else if s[..n] == "." then (ErrorToken(DecimalNeedsDigit), n)
    else (Token(NUMBER, NumberValue(ComplexNumber.Number(Numeral(s[..n]), Zero)), false), n)
  }

  lemma {:induction false} RunNumeric(s: string, dot: bool)
    ensures forall i :: 0 <= i < RunLength(s, dot) ==> IsNumeric(s[i])
    ensures |s| > 0 && IsNumeric(s[0]) && !dot ==> RunLength(s, dot) >= 1
    decreases |s|
  {
    if s != [] && IsNumeric(s[0]) && !(s[0] == '.' && dot) {
      RunNumeric(s[1..], dot || s[0] == '.');
    }
  }

  lemma RunStep(r: string, dot: bool)
    requires |r| > 0 && IsNumeric(r[0]) && !(r[0] == '.' && dot)
    ensures RunLength(r, dot) == 1 + RunLength(r[1..], dot || r[0] == '.')
  {
  }

  lemma RunStop(r: string, dot: bool)
    requires r == [] || !IsNumeric(r[0]) || (r[0] == '.' && dot)
    ensures RunLength(r, dot) == 0
  {
  }

  /** Stopping at a second decimal point after n characters. */
  lemma SecondPoint(s: string, n: nat)
    requires |s| > 0 && IsNumeric(s[0]) && n < |s| && s[n] == '.' && RunLength(s, false) == n
    ensures ReadNumber(s) == (ErrorToken(OneDecimalPoint), n)
  {
  }

  /** Stopping at the end of the input or at a character that is not part
      of a numeral after n characters. */
  lemma NumberEnd(s: string, n: nat)
    requires |s| > 0 && IsNumeric(s[0]) && n <= |s| && RunLength(s, false) == n
    requires n == |s| || !IsNumeric(s[n])
    ensures ReadNumber(s).1 == n
    ensures s[..n] == "." ==> ReadNumber(s).0 == ErrorToken(DecimalNeedsDigit)
    ensures s[..n] != "." ==>
      (forall i :: 0 <= i < n ==> IsNumeric(s[i]))
      && ReadNumber(s).0 == Token(NUMBER, NumberValue(ComplexNumber.Number(Numeral(s[..n]), Zero)), false)
  {
    RunNumeric(s, false);
  }

  // ------------------------------------------------------------ the stream

  /** The tokens `generate_tokens` yields for the unread input s, when
      was_num is w: 0 after an operator, 1 after ')', 2 after a variable, 3
      after a number. Whitespace is skipped; a number right after a number,
      and an unknown character, end the stream with an ERROR token. */
  function Scan(s: string, w: nat): seq<Token>
    requires w <= 3
    decreases |s|
  {
    if s == [] then []
    else
      var c := s[0];
      if IsBlank(c) then Scan(s[1..], w)
      else if IsNumeric(c) then
        if w == 3 then [ErrorToken(NoOperatorBetweenNumbers)]
        else
          var (t, n) := ReadNumber(s);
          ImplicitMul(w) + [t] + Scan(s[n..], 3)
      else if IsAlpha(c) then
        ImplicitMul(w) + [Token(VAR, VariableValue(c), false)] + Scan(s[1..], 2)
      else if c == '+' || c == '-' then
        [SignToken(c, w != 0)] + Scan(s[1..], 0)
      else if IsOperator(c) then
        (if w != 0 && c == '(' then [Token(MUL, NoValue, true)] else [])
        + [OperatorToken(c)] + Scan(s[1..], if c == ')' then 1 else 0)
      else [ErrorToken(UnexpectedCharacter(c))]
  }

  lemma Extend(before: seq<Token>, emitted: seq<Token>, rest: seq<Token>)
    ensures before + (emitted + rest) == (before + emitted) + rest
  {
  }

  // One step of the scan for each kind of first character.

  lemma ScanEmpty(w: nat)
    requires w <= 3
    ensures Scan([], w) == []
  {
  }

  lemma ScanBlank(s: string, w: nat)
    requires w <= 3 && |s| > 0 && IsBlank(s[0])
    ensures Scan(s, w) == Scan(s[1..], w)
  {
  }

  lemma ScanNumberAfterNumber(s: string)
    requires |s| > 0 && IsNumeric(s[0])
    ensures Scan(s, 3) == [ErrorToken(NoOperatorBetweenNumbers)]
  {
  }

  lemma ScanNumeral(s: string, w: nat)
    requires w < 3 && |s| > 0 && IsNumeric(s[0])
    ensures Scan(s, w) == ImplicitMul(w) + [ReadNumber(s).0] + Scan(s[ReadNumber(s).1..], 3)
  {
  }

  lemma ScanLetter(s: string, w: nat)
    requires w <= 3 && |s| > 0 && IsAlpha(s[0])
    ensures Scan(s, w) == ImplicitMul(w) + [Token(VAR, VariableValue(s[0]), false)] + Scan(s[1..], 2)
  {
  }

  lemma ScanSign(s: string, w: nat)
    requires w <= 3 && |s| > 0 && (s[0] == '+' || s[0] == '-')
    ensures Scan(s, w) == [SignToken(s[0], w != 0)] + Scan(s[1..], 0)
  {
  }

  lemma ScanOperator(s: string, w: nat)
    requires w <= 3 && |s| > 0 && IsOperator(s[0])
    ensures Scan(s, w) == (if w != 0 && s[0] == '(' then [Token(MUL, NoValue, true)] else [])
      + [OperatorToken(s[0])] + Scan(s[1..], if s[0] == ')' then 1 else 0)
  {
    assert !IsBlank(s[0]) && !IsNumeric(s[0]) && !IsAlpha(s[0]) && s[0] != '+' && s[0] != '-';
  }

  lemma ScanUnknown(s: string, w: nat)
    requires w <= 3 && |s| > 0
    requires !IsBlank(s[0]) && !IsNumeric(s[0]) && !IsAlpha(s[0]) && s[0] != '+' && s[0] != '-' && !IsOperator(s[0])
    ensures Scan(s, w) == [ErrorToken(UnexpectedCharacter(s[0]))]
  {
  }

  /** `Lexer(expr).generate_tokens()`, read to the end. */
  function Tokens(expr: string): (r: seq<Token>)
    ensures |r| >= 1 && r[0] == Plain(LPAREN)
  {
    var s := "(" + expr + ")";
    assert s[0] == '(' && s[1..] == expr + ")";
    Scan(s, 0)
  }

  // ------------------------------------------------------------ properties

  /** The two ERROR tokens a numeral can give; the scan goes on after them
      as after a number. */
  predicate NumeralError(t: Token) {
    t == ErrorToken(OneDecimalPoint) || t == ErrorToken(DecimalNeedsDigit)
  }

  /** An ERROR token that ends the stream. */
  predicate Stops(t: Token) {
    t.kind == ERROR && !NumeralError(t)
  }

  /** A token after which was_num is set: an operand or ')'. */
  predicate AfterOperand(t: Token) {
    t.kind == NUMBER || t.kind == VAR || t.kind == RPAREN || NumeralError(t)
  }

  /** A token that begins an operand. */
  predicate StartsOperand(t: Token) {
    t.kind == NUMBER || t.kind == VAR || t.kind == LPAREN || NumeralError(t)
  }

  /** What may come after a token that is (after) or is not an operand: a
      binary sign only after an operand, a unary sign and the start of an
      operand only after something else. */
  predicate Allowed(after: bool, t: Token) {
    ((t.kind == ADD || t.kind == SUB) ==> after)
    && ((t.kind == POS || t.kind == NEG) ==> !after)
    && (StartsOperand(t) ==> !after)
    && (t.kind == MUL && t.iscoef ==> after)
  }

  /** The shape of a token stream following a token that is (after) or is
      not an operand: every token is allowed where it stands, a coefficient
      MUL is followed by the start of an operand, and nothing follows an
      ERROR token that ends the stream. */
  predicate Follows(after: bool, ts: seq<Token>)
    decreases |ts|
  {
    ts == []
    || (Allowed(after, ts[0])
        && (Stops(ts[0]) ==> |ts| == 1)
        && (ts[0].kind == MUL && ts[0].iscoef ==> |ts| > 1 && StartsOperand(ts[1]))
        && Follows(AfterOperand(ts[0]), ts[1..]))
  }

  lemma FollowsCons(after: bool, t: Token, ts: seq<Token>)
    ensures Follows(after, [t] + ts) <==>
      Allowed(after, t) && (Stops(t) ==> ts == [])
      && (t.kind == MUL && t.iscoef ==> |ts| > 0 && StartsOperand(ts[0]))
      && Follows(AfterOperand(t), ts)
  {
    assert ([t] + ts)[0] == t && ([t] + ts)[1..] == ts;
  }

  lemma OperatorTokenFacts(c: char)
    requires IsOperator(c)
    ensures var t := OperatorToken(c);
      t.value == NoValue && !t.iscoef && !NumeralError(t)
      && t.kind != ADD && t.kind != SUB && t.kind != POS && t.kind != NEG
      && t.kind != NUMBER && t.kind != VAR && t.kind != ERROR
      && (t.kind == LPAREN <==> c == '(') && (t.kind == RPAREN <==> c == ')')
  {
  }

  lemma FollowsEmpty(after: bool)
    ensures Follows(after, [])
  {
  }

  /** Every scan has that shape, was_num standing for the token before. */
  lemma {:induction false} ScanFollows(s: string, w: nat)
    requires w <= 3
    ensures Follows(w != 0, Scan(s, w))
    decreases |s|
  {
    hide Scan, Follows, ReadNumber;
    if s == [] {
      ScanEmpty(w);
      FollowsEmpty(w != 0);
    } else {
      var c := s[0];
      if IsBlank(c) {
        ScanBlank(s, w);
        ScanFollows(s[1..], w);
      } else if IsNumeric(c) && w == 3 {
        ScanNumberAfterNumber(s);
        StopFollows(w != 0, ErrorToken(NoOperatorBetweenNumbers));
      } else if IsNumeric(c) {
        ScanFollows(s[ReadNumber(s).1..], 3);
        NumeralFollows(s, w);
      } else if IsAlpha(c) {
        ScanFollows(s[1..], 2);
        LetterFollows(s, w);
      } else if c == '+' || c == '-' {
        ScanFollows(s[1..], 0);
        SignFollows(s, w);
      } else if IsOperator(c) {
        ScanFollows(s[1..], if c == ')' then 1 else 0);
        OperatorFollows(s, w);
      } else {
        ScanUnknown(s, w);
        StopFollows(w != 0, ErrorToken(UnexpectedCharacter(c)));
      }
    }
  }

  lemma StopFollows(after: bool, e: Token)
    requires Stops(e)
    ensures Follows(after, [e])
  {
    FollowsEmpty(false);
    FollowsCons(after, e, []);
    assert [e] + [] == [e];
  }

  lemma NumeralFollows(s: string, w: nat)
    requires w < 3 && |s| > 0 && IsNumeric(s[0])
    requires Follows(true, Scan(s[ReadNumber(s).1..], 3))
    ensures Follows(w != 0, Scan(s, w))
  {
    hide Scan, Follows, ReadNumber;
    ScanNumeral(s, w);
    var (t, n) := ReadNumber(s);
    var rest := Scan(s[n..], 3);
    NumberFollows(s);
    FollowsCons(false, t, rest);
    assert Follows(false, [t] + rest);
    if w != 0 {
      FollowsCons(true, Token(MUL, NoValue, w >= 2), [t] + rest);
      assert Follows(true, [Token(MUL, NoValue, w >= 2)] + ([t] + rest));
    } else {
      assert ImplicitMul(w) + ([t] + rest) == [t] + rest;
    }
    Extend(ImplicitMul(w), [t], rest);
  }

  lemma LetterFollows(s: string, w: nat)
    requires w <= 3 && |s| > 0 && IsAlpha(s[0])
    requires Follows(true, Scan(s[1..], 2))
    ensures Follows(w != 0, Scan(s, w))
  {
    hide Scan, Follows, ReadNumber;
    ScanLetter(s, w);
    var t := Token(VAR, VariableValue(s[0]), false);
    var rest := Scan(s[1..], 2);
    FollowsCons(false, t, rest);
    assert Follows(false, [t] + rest);
    if w != 0 {
      FollowsCons(true, Token(MUL, NoValue, w >= 2), [t] + rest);
      assert Follows(true, [Token(MUL, NoValue, w >= 2)] + ([t] + rest));
    } else {
      assert ImplicitMul(w) + ([t] + rest) == [t] + rest;
    }
    Extend(ImplicitMul(w), [t], rest);
  }

  lemma SignFollows(s: string, w: nat)
    requires w <= 3 && |s| > 0 && (s[0] == '+' || s[0] == '-')
    requires Follows(false, Scan(s[1..], 0))
    ensures Follows(w != 0, Scan(s, w))
  {
    hide Scan, Follows, ReadNumber;
    ScanSign(s, w);
    FollowsCons(w != 0, SignToken(s[0], w != 0), Scan(s[1..], 0));
  }

  lemma OperatorFollows(s: string, w: nat)
    requires w <= 3 && |s| > 0 && IsOperator(s[0])
    requires Follows(s[0] == ')', Scan(s[1..], if s[0] == ')' then 1 else 0))
    ensures Follows(w != 0, Scan(s, w))
  {
    hide Scan, Follows, ReadNumber;
    var c := s[0];
    ScanOperator(s, w);
    var t := OperatorToken(c);
    var rest := Scan(s[1..], if c == ')' then 1 else 0);
    OperatorTokenFacts(c);
    var head: seq<Token> := if w != 0 && c == '(' then [Token(MUL, NoValue, true)] else [];
    Extend(head, [t], rest);
    if w != 0 && c == '(' {
      FollowsCons(false, t, rest);
      assert Follows(false, [t] + rest);
      FollowsCons(true, Token(MUL, NoValue, true), [t] + rest);
      assert Follows(true, [Token(MUL, NoValue, true)] + ([t] + rest));
    } else {
      FollowsCons(w != 0, t, rest);
      assert Follows(w != 0, [t] + rest);
      assert head + ([t] + rest) == [t] + rest;
    }
  }

  /** The token of a numeral is a number or a numeral error. */
  lemma NumberFollows(s: string)
    requires |s| > 0 && IsNumeric(s[0])
    ensures ReadNumber(s).0.kind == NUMBER || NumeralError(ReadNumber(s).0)
  {
  }

  /** The sign rule, the implicit product and the stop on an error, over
      the whole token list of an input: a binary sign comes exactly after
      an operand or ')', a unary sign and the start of an operand never do,
      a coefficient MUL stands between an operand and the start of the
      next, and an ERROR token other than a numeral's is the last token. */
  lemma TokenShape(expr: string)
    ensures var ts := Tokens(expr);
      (forall k :: 0 < k < |ts| ==> Allowed(AfterOperand(ts[k - 1]), ts[k]))
      && (forall k :: 0 <= k < |ts| - 1 ==> !Stops(ts[k]))
      && (forall k :: 0 <= k < |ts| && ts[k].kind == MUL && ts[k].iscoef ==>
            0 < k < |ts| - 1 && StartsOperand(ts[k + 1]))
  {
    var s := "(" + expr + ")";
    assert s[0] == '(' && s[1..] == expr + ")";
    ScanFollows(s, 0);
    FollowsAt(false, Scan(s, 0));
  }

  lemma {:induction false} FollowsAt(after: bool, ts: seq<Token>)
    requires Follows(after, ts)
    ensures |ts| > 0 ==> Allowed(after, ts[0])
    ensures forall k :: 0 < k < |ts| ==> Allowed(AfterOperand(ts[k - 1]), ts[k])
    ensures forall k :: 0 <= k < |ts| - 1 ==> !Stops(ts[k])
    ensures forall k :: 0 <= k < |ts| && ts[k].kind == MUL && ts[k].iscoef ==>
      (k > 0 || after) && k < |ts| - 1 && StartsOperand(ts[k + 1])
    decreases |ts|
  {
    if |ts| > 0 {
      FollowsAt(AfterOperand(ts[0]), ts[1..]);
      assert forall k :: 0 < k < |ts| ==> ts[k] == ts[1..][k - 1];
    }
  }

  predicate NoError(ts: seq<Token>) {
    forall k :: 0 <= k < |ts| ==> ts[k].kind != ERROR
  }

  /** Without an ERROR token, an input ending in ')' ends with RPAREN. */
  lemma {:induction false} ScanLast(s: string, w: nat)
    requires w <= 3 && |s| > 0 && s[|s| - 1] == ')' && NoError(Scan(s, w))
    ensures |Scan(s, w)| > 0 && Scan(s, w)[|Scan(s, w)| - 1] == Plain(RPAREN)
    decreases |s|
  {
    hide Scan, ReadNumber, NoError;
    var c := s[0];
    if |s| == 1 {
      assert c == ')' && IsOperator(c) && s[1..] == [];
      ScanOperator(s, w);
      ScanEmpty(1);
      assert Scan(s, w) == [OperatorToken(c)] + [];
    } else if IsBlank(c) {
      ScanBlank(s, w);
      ScanLast(s[1..], w);
    } else if IsNumeric(c) {
      if w == 3 {
        ScanNumberAfterNumber(s);
        NoErrorHead(Scan(s, w));
      } else {
        ScanNumeral(s, w);
        var (t, n) := ReadNumber(s);
        NumeralBeforeParen(s);
        TailOf(ImplicitMul(w) + [t], Scan(s[n..], 3));
        ScanLast(s[n..], 3);
      }
    } else if IsAlpha(c) {
      ScanLetter(s, w);
      TailOf(ImplicitMul(w) + [Token(VAR, VariableValue(c), false)], Scan(s[1..], 2));
      ScanLast(s[1..], 2);
    } else if c == '+' || c == '-' {
      ScanSign(s, w);
      TailOf([SignToken(c, w != 0)], Scan(s[1..], 0));
      ScanLast(s[1..], 0);
    } else if IsOperator(c) {
      ScanOperator(s, w);
      var w' := if c == ')' then 1 else 0;
      TailOf((if w != 0 && c == '(' then [Token(MUL, NoValue, true)] else []) + [OperatorToken(c)], Scan(s[1..], w'));
      ScanLast(s[1..], w');
    } else {
      ScanUnknown(s, w);
      NoErrorHead(Scan(s, w));
    }
  }

  /** A numeral stops before a final ')'. */
  lemma NumeralBeforeParen(s: string)
    requires |s| > 0 && IsNumeric(s[0]) && s[|s| - 1] == ')'
    ensures ReadNumber(s).1 < |s|
  {
    RunNumeric(s, false);
    assert !IsNumeric(s[|s| - 1]);
  }

  lemma NoErrorHead(ts: seq<Token>)
    requires NoError(ts) && |ts| > 0
    ensures ts[0].kind != ERROR
  {
  }

  /** The tail of an error-free list is error free and ends as it does. */
  lemma TailOf(head: seq<Token>, rest: seq<Token>)
    requires NoError(head + rest)
    ensures NoError(rest)
    ensures |rest| > 0 ==> (head + rest)[|head + rest| - 1] == rest[|rest| - 1]
  {
    forall k | 0 <= k < |rest|
      ensures rest[k].kind != ERROR
    {
      assert rest[k] == (head + rest)[|head| + k];
    }
  }

  /** The wrapping parentheses: without an ERROR token the list ends with
      RPAREN (it always starts with LPAREN). */
  lemma LastToken(expr: string)
    requires NoError(Tokens(expr))
    ensures Tokens(expr)[|Tokens(expr)| - 1] == Plain(RPAREN)
  {
    var s := "(" + expr + ")";
    assert s[|s| - 1] == ')';
    ScanLast(s, 0);
  }

  // ------------------------------------------------------------ whitespace

  /** The length of the longest prefix of numeral characters. */
  function Span(s: string): (n: nat)
    ensures n <= |s|
    ensures forall i :: 0 <= i < n ==> IsNumeric(s[i])
    ensures n < |s| ==> !IsNumeric(s[n])
  {
    if s == [] || !IsNumeric(s[0]) then 0 else 1 + Span(s[1..])
  }

  /** `generate_number` reads no further than the numeral characters. */
  lemma {:induction false} RunLocal(x: string, y: string, dot: bool)
    requires forall i :: 0 <= i < |x| ==> IsNumeric(x[i])
    requires y == [] || !IsNumeric(y[0])
    ensures RunLength(x + y, dot) == RunLength(x, dot)
    decreases |x|
  {
    if x == [] {
      assert x + y == y;
    } else {
      assert (x + y)[0] == x[0] && (x + y)[1..] == x[1..] + y;
      RunLocal(x[1..], y, dot || x[0] == '.');
    }
  }

  lemma ReadLocal(x: string, y: string)
    requires |x| > 0 && forall i :: 0 <= i < |x| ==> IsNumeric(x[i])
    requires y == [] || !IsNumeric(y[0])
    ensures ReadNumber(x + y) == ReadNumber(x)
  {
    RunLocal(x, y, false);
    var n := RunLength(x, false);
    assert (x + y)[..n] == x[..n];
    if n == |x| && y != [] {
      assert (x + y)[n] == y[0];
    }
  }

  /** Whitespace emits no token: a blank inserted anywhere except between
      two numeral characters leaves the tokens as they were. */
  lemma {:induction false} BlankEmitsNothing(a: string, c: char, b: string, w: nat)
    requires w <= 3 && IsBlank(c)
    requires !(|a| > 0 && |b| > 0 && IsNumeric(a[|a| - 1]) && IsNumeric(b[0]))
    ensures Scan(a + [c] + b, w) == Scan(a + b, w)
    decreases |a|
  {
    hide Scan, ReadNumber;
    if a == [] {
      assert a + [c] + b == [c] + b && ([c] + b)[1..] == b && a + b == b;
      ScanBlank([c] + b, w);
    } else {
      if |a| > 1 {
        assert a[1..][|a[1..]| - 1] == a[|a| - 1];
      }
      var d := a[0];
      if IsNumeric(d) && w < 3 {
        NumeralEmitsSame(a, c, b);
        var n := ReadNumber(a + b).1;
        if n < |a| {
          assert a[n..][|a[n..]| - 1] == a[|a| - 1];
          BlankEmitsNothing(a[n..], c, b, 3);
        }
        NumeralBlank(a, c, b, w);
      } else {
        var w' := if IsBlank(d) then w else if IsAlpha(d) then 2 else if d == ')' then 1 else 0;
        BlankEmitsNothing(a[1..], c, b, w');
        StepBlank(a, c, b, w);
      }
    }
  }

  /** Every case of BlankEmitsNothing but the numeral, given the case for
      the rest of a. */
  lemma StepBlank(a: string, c: char, b: string, w: nat)
    requires w <= 3 && |a| > 0 && !(IsNumeric(a[0]) && w < 3)
    requires var d := a[0];
      var w' := if IsBlank(d) then w else if IsAlpha(d) then 2 else if d == ')' then 1 else 0;
      Scan(a[1..] + [c] + b, w') == Scan(a[1..] + b, w')
    ensures Scan(a + [c] + b, w) == Scan(a + b, w)
  {
    hide Scan, ReadNumber;
    var s, t := a + [c] + b, a + b;
    assert s[0] == a[0] && t[0] == a[0];
    assert s[1..] == a[1..] + [c] + b && t[1..] == a[1..] + b;
    var d := a[0];
    if IsBlank(d) {
      ScanBlank(s, w);
      ScanBlank(t, w);
    } else if IsNumeric(d) {
      ScanNumberAfterNumber(s);
      ScanNumberAfterNumber(t);
    } else if IsAlpha(d) {
      ScanLetter(s, w);
      ScanLetter(t, w);
    } else if d == '+' || d == '-' {
      ScanSign(s, w);
      ScanSign(t, w);
    } else if IsOperator(d) {
      ScanOperator(s, w);
      ScanOperator(t, w);
    } else {
      ScanUnknown(s, w);
      ScanUnknown(t, w);
    }
  }

  /** The numeral case of BlankEmitsNothing, given the case for the rest. */
  lemma NumeralBlank(a: string, c: char, b: string, w: nat)
    requires w < 3 && |a| > 0 && IsNumeric(a[0]) && IsBlank(c)
    requires ReadNumber(a + [c] + b) == ReadNumber(a + b) && ReadNumber(a + b).1 <= |a|
    requires var n := ReadNumber(a + b).1;
      n < |a| ==> Scan(a[n..] + [c] + b, 3) == Scan(a[n..] + b, 3)
    ensures Scan(a + [c] + b, w) == Scan(a + b, w)
  {
    hide Scan, ReadNumber;
    var s, t := a + [c] + b, a + b;
    assert s[0] == a[0] && t[0] == a[0];
    var n := ReadNumber(t).1;
    ScanNumeral(s, w);
    ScanNumeral(t, w);
    if n < |a| {
      assert s[n..] == a[n..] + [c] + b && t[n..] == a[n..] + b;
    } else {
      assert s[n..] == [c] + b && t[n..] == b;
      assert ([c] + b)[1..] == b;
      ScanBlank(s[n..], 3);
    }
  }

  /** A numeral at the head of a reads the same with or without the blank
      inserted after a, and ends within a. */
  lemma NumeralEmitsSame(a: string, c: char, b: string)
    requires |a| > 0 && IsNumeric(a[0]) && IsBlank(c)
    requires !(|b| > 0 && IsNumeric(a[|a| - 1]) && IsNumeric(b[0]))
    ensures ReadNumber(a + [c] + b) == ReadNumber(a + b)
    ensures ReadNumber(a + b).1 <= |a|
  {
    var s, t := a + [c] + b, a + b;
    var j := Span(a);
    if j < |a| {
      assert s == a[..j] + (a[j..] + [c] + b) && t == a[..j] + (a[j..] + b);
      ReadLocal(a[..j], a[j..] + [c] + b);
      ReadLocal(a[..j], a[j..] + b);
    } else {
      assert a[..j] == a && s == a + ([c] + b) && t == a + b;
      ReadLocal(a, [c] + b);
      ReadLocal(a, b);
    }
  }

  // --------------------------------------------------------------- numbers

  /** The value of a numeral: its digits over 10 to the number of decimals. */
  lemma NumeralValue(s: string)
    requires forall i :: 0 <= i < |s| ==> IsNumeric(s[i])
    ensures Pow(10, FractionLength(s)) > 0
      && Value(Numeral(s)) == DecimalValue(DigitsOf(s)) as real / Pow(10, FractionLength(s)) as real
  {
    PowPositive(10, FractionLength(s));
    NormalizeValue(DecimalValue(DigitsOf(s)), Pow(10, FractionLength(s)));
  }

  // ------------------------------------------------------------- the class

  class Lexer {
    /** The characters the iterator has not handed out yet. */
    var expr: string
    /** The current character; None once the input is exhausted. */
    var curr: Option<char>

    ghost predicate Valid()
      reads this
    {
      curr.None? ==> expr == []
    }

    /** The characters not yet tokenised, the current one first. */
    function Remaining(): string
      reads this
    {
      if curr.None? then [] else [curr.value] + expr
    }

    constructor (input: string)
      ensures Valid() && Remaining() == "(" + input + ")"
    {
      expr := input + ")";
      curr := Some('(');
    }

    /** `advance`: the next character, or None at the end. */
    method Advance()
      requires Valid()
      modifies this
      ensures Valid()
      ensures old(expr) == [] ==> curr == None && expr == []
      ensures old(expr) != [] ==> curr == Some(old(expr)[0]) && expr == old(expr)[1..]
      ensures old(curr).Some? ==> Remaining() == old(Remaining())[1..]
    {
      if expr == [] {
        curr := None;
      } else {
        curr := Some(expr[0]);
        expr := expr[1..];
      }
    }

    /** `generate_number`: reads the numeral at the current character. */
    method GenerateNumber() returns (t: Token)
      requires Valid() && curr.Some? && IsNumeric(curr.value)
      modifies this
      ensures Valid()
      ensures var (t', n) := ReadNumber(old(Remaining()));
        t == t' && Remaining() == old(Remaining())[n..]
    {
      ghost var s := Remaining();
      var decimals := 0;
      var numberStr := "";
      while curr.Some? && IsNumeric(curr.value)
        invariant Valid() && |numberStr| <= |s| && Remaining() == s[|numberStr|..]
        invariant numberStr == s[..|numberStr|]
        invariant decimals == 0 || decimals == 1
        invariant RunLength(s, false) == |numberStr| + RunLength(s[|numberStr|..], decimals == 1)
        decreases |Remaining()|
      {
        ghost var k := |numberStr|;
        if curr.value == '.' {
          if decimals != 0 {
            RunStop(s[k..], true);
            SecondPoint(s, k);
            return ErrorToken(OneDecimalPoint);
          }
          decimals := 1;
        }
        RunStep(s[k..], decimals == 1 && curr.value != '.');
        assert s[k..][1..] == s[k + 1..];
        numberStr := numberStr + [curr.value];
        Advance();
        assert s[..k + 1] == s[..k] + [s[k]];
      }
      ghost var k := |numberStr|;
      RunStop(s[k..], decimals == 1);
      NumberEnd(s, k);
      if numberStr == "." {
        return ErrorToken(DecimalNeedsDigit);
      }
      return Token(NUMBER, NumberValue(ComplexNumber.Number(Numeral(numberStr), Zero)), false);
    }

    /** `generate_tokens`, consumed to the end: the tokens of the unread
      input with was_num starting at 0. */
    method GenerateTokens() returns (tokens: seq<Token>)
      requires Valid()
      modifies this
      ensures Valid()
      ensures tokens == Scan(old(Remaining()), 0)
    {
      hide Scan;
      ghost var s := Remaining();
      var wasNum := 0;
      tokens := [];
      while curr.Some?
        invariant Valid() && wasNum <= 3
        invariant tokens + Scan(Remaining(), wasNum) == Scan(s, 0)
        decreases |Remaining()|
      {
        ghost var r := Remaining();
        ghost var before := tokens;
        var c := curr.value;
        if IsBlank(c) {
          ScanBlank(r, wasNum);
          Advance();
          continue;
        }
        if IsNumeric(c) {
          if wasNum == 3 {
            ScanNumberAfterNumber(r);
            tokens := tokens + [ErrorToken(NoOperatorBetweenNumbers)];
            return;
          }
          ScanNumeral(r, wasNum);
          var t := GenerateNumber();
          var emitted := ImplicitMul(wasNum) + [t];
          tokens := tokens + emitted;
          wasNum := 3;
          Extend(before, emitted, Scan(Remaining(), wasNum));
          continue;
        }
        var emitted;
        if IsAlpha(c) {
          ScanLetter(r, wasNum);
          emitted := ImplicitMul(wasNum) + [Token(VAR, VariableValue(c), false)];
          wasNum := 2;
        } else if c == '+' || c == '-' {
          ScanSign(r, wasNum);
          emitted := [SignToken(c, wasNum != 0)];
          wasNum := 0;
        } else if IsOperator(c) {
          ScanOperator(r, wasNum);
          emitted := (if wasNum != 0 && c == '(' then [Token(MUL, NoValue, true)] else []) + [OperatorToken(c)];
          wasNum := if c == ')' then 1 else 0;
        } else {
          ScanUnknown(r, wasNum);
          tokens := tokens + [ErrorToken(UnexpectedCharacter(c))];
          return;
        }
        tokens := tokens + emitted;
        Advance();
        Extend(before, emitted, Scan(Remaining(), wasNum));
      }
      ScanEmpty(wasNum);
    }
  }

  /** `list(Lexer(expr).generate_tokens())`. */
  method Tokenize(input: string) returns (tokens: seq<Token>)
    ensures tokens == Tokens(input)
  {
    var lexer := new Lexer(input);
    tokens := lexer.GenerateTokens();
  }
}
