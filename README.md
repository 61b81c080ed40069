# Exact core of a Python computer-algebra engine

The engine parses an algebraic expression, simplifies it symbolically and
solves equations and inequalities step by step. This project models the
parts of it that are exactly specifiable and proves properties about them:

- `Const` (datatypes/const.py), the normalised rational every numeric leaf is
  built from: construction, arithmetic, order, floor division, printing and
  the hash (module `Exact`);
- the complex rational `Number` of data_types/number.py, two exact parts
  (module `ComplexNumber`);
- prime factorisation and radical simplification of utils/numeric.py
  (modules `Numeric` and `Radicals`);
- the coefficient-list algorithms of utils/polynomial.py: synthetic and long
  division, the derivative, `normalize` and the Euclidean gcd (module
  `Polynomials`, over the algebra of `PolyAlgebra`), and `is_polynomial` and
  `degree` on expression trees (module `Terms`);
- divisor enumeration, `rebuild` and rational-root extraction of
  utils/factoring.py, for Const coefficients (module `Factoring`);
- the character lexer of processing/lexer.py: a `Lexer` class over the
  unread input, its token generator and number reader (module `Lexing`);
- the token types of parsing/tokens.py and the shunting-yard conversion of
  parsing/parser.py from tokens to prefix order (module `Parsing`);
- the recursive-descent half of parsing/parser.py: a `Parser` class over the
  prefix items with `_parse`, `generate_system` and the leftover check of
  `parse`, each method proved equal to a reference function, and the trees it
  accepts characterised by a round trip through their prefix items (module
  `Syntax`);
- the step trace `ETSteps` of datatypes/eval_trace.py: a class over the
  trace's lists, the `history` stack of lists being written to and the `idx`
  stack of branch counters, with `register`, `create_branches`,
  `next_branch`, `end_branches`, the branch iterator and the `branching`
  block (module `Trace`); the class-level `ETSteps` of solving/eval_trace.py
  updates the same three lists in the same way and is modelled by the same
  class;
- the text output of solving/eval_trace.py: `tostr` and its `box`, the
  sorting of a branch node of comparisons (module `TraceText`), and
  `strip_ansi`, `hex_to_rgb` and `colorize_ansi` (module `Ansi`);
- `Interval` of solving/interval.py, with `to_float` of solving/core.py:
  membership, intersection and printing (module `Intervals`);
- `merge_intervals`, `split_domain_by_roots` and `intersect_domains` of
  solving/core.py (module `Domains`);
- `CompRel` and `Comparison` of solving/comparison.py: `reverse`,
  `normalize` and `reverse_sign` (module `Comparisons`);
- `print_frac`, `print_coef` and `ineq_to_range` of utils/print_.py (module
  `Printing`).

Shared integer and real facts live in `Arith` (gcd, Python's floor division
and modulo, powers), decimal printing in `Digits` and the error outcome in
`Outcome`. A Python exception is an `Err` of `Outcome.Result`; a Python dict,
which keeps insertion order, is a sequence of `Factor(base, exponent)` entries
with distinct bases.

## Model

| member | source | states |
|---|---|---|
| Exact.FromInt | datatypes/const.py:63-92 | an integer n becomes the valid Const n/1 with value n |
| Exact.Normalize | datatypes/const.py:83-88 | dividing by the gcd and moving the sign up leaves lowest terms with a positive denominator |
| Exact.NormalizeValue | datatypes/const.py:83-88 | normalising keeps the value n/d |
| Exact.Make | datatypes/const.py:64-92 | a zero denominator, and only that, raises ZeroDivisionError; any other result is in lowest terms with a positive denominator |
| Exact.MakeValue | datatypes/const.py:64-92 | Const(n, d) with d != 0 has the value n/d |
| Exact.NormalizeIdempotent | datatypes/const.py:83-88 | normalising a value already in lowest terms returns it unchanged |
| Exact.Canonical | datatypes/const.py:188-193 | two valid Consts with the same value have the same numerator and denominator |
| Exact.AddValue | datatypes/const.py:147-155 | the sum over lcm(d1, d2) is the rational sum |
| Exact.Add | datatypes/const.py:147-155 | the sum is in lowest terms over a positive denominator; its value is Exact.AddValue |
| Exact.MulValue | datatypes/const.py:157-162 | the product is the rational product |
| Exact.Mul | datatypes/const.py:157-162 | the product is in lowest terms over a positive denominator; its value is Exact.MulValue |
| Exact.SubtractValue | data_types/number.py:57-58 | the difference of two Fractions is the rational difference |
| Exact.Subtract | data_types/number.py:57-58 | the difference is in lowest terms over a positive denominator; its value is Exact.SubtractValue |
| Exact.Div | datatypes/const.py:164-173 | dividing by a zero numerator, and only that, raises ZeroDivisionError |
| Exact.DivValue | datatypes/const.py:164-173 | for a nonzero divisor the result is the rational quotient |
| Exact.PowNatValue | datatypes/const.py:178-180 | raising numerator and denominator to e gives the e-th power of the value |
| Exact.PowNat | datatypes/const.py:178-180 | a natural power is in lowest terms over a positive denominator; its value is Exact.PowNatValue |
| Exact.Power | datatypes/const.py:175-180 | a natural exponent always succeeds; a negative one raises exactly for zero |
| Exact.PowerValue | datatypes/const.py:175-180 | pow(-n) is 1 / pow(n): the value is the rational power for every integer exponent |
| Exact.AbsoluteValue | datatypes/const.py:182-183 | abs gives the absolute value |
| Exact.Absolute | datatypes/const.py:182-183 | abs is in lowest terms over a positive denominator; its value is Exact.AbsoluteValue |
| Exact.NegateValue | datatypes/const.py:185-186 | neg gives the negated value |
| Exact.Negate | datatypes/const.py:185-186 | neg is in lowest terms over a positive denominator; its value is Exact.NegateValue |
| Exact.NegateInvolution | datatypes/const.py:185-186 | negating twice returns the same Const |
| Exact.Equals | datatypes/const.py:188-193 | anything other than a Const or an int is never equal |
| Exact.EqualsMeansSameValue | datatypes/const.py:188-193 | against a Const or an int, `==` holds exactly when the values are equal |
| Exact.Greater | datatypes/const.py:195-196 | the cross-multiplication test holds exactly when a > b |
| Exact.GreaterEq | datatypes/const.py:198-199 | the cross-multiplication test holds exactly when a >= b |
| Exact.Less | datatypes/const.py:201-202 | the cross-multiplication test holds exactly when a < b |
| Exact.LessEq | datatypes/const.py:204-205 | the cross-multiplication test holds exactly when a <= b |
| Exact.OrderByCross | datatypes/const.py:195-205 | each of the four orders agrees with the order of the cross products |
| Exact.IsNeg | datatypes/const.py:139-142 | is_neg holds exactly for negative values |
| Exact.Truthy | datatypes/const.py:109-110 | bool holds exactly for nonzero values |
| Exact.FloorDivide | datatypes/const.py:129-130 | floor division raises ZeroDivisionError exactly for a zero divisor |
| Exact.FloorDivideValue | datatypes/const.py:129-130 | a // b is the floor of the rational quotient |
| Exact.Modulo | datatypes/const.py:132-134 | modulo raises exactly for a zero divisor and otherwise returns a valid Const |
| Exact.DivModIdentity | datatypes/const.py:129-134 | a == b · (a // b) + a % b, and the remainder lies between 0 and b, taking b's sign |
| Exact.ReprRoundTrip | datatypes/const.py:112-118 | reading the printed "n" or "n/d" back gives the same Const |
| Exact.Repr | datatypes/const.py:112-118 | the text has a '/' exactly when the denominator is not 1 |
| Exact.ModInverse | datatypes/const.py:31-35 | pow(d, -1, M) exists exactly when d is coprime to M, and is then the inverse modulo M |
| Exact.IntHash | datatypes/const.py:37 | the integer hash is never -1 |
| Exact.Hash | datatypes/const.py:20-39 | the hash of a Const is never -1 |
| Exact.HashOfInteger | datatypes/const.py:31-39 | a Const with denominator 1 hashes like the integer it equals |
| Exact.HashResidue | datatypes/const.py:31-37 | for an invertible denominator, hash · d agrees with the numerator modulo 2^61 - 1 |
| ComplexNumber.Extensional | data_types/number.py:19-21 | a Number is determined by the values of its two parts |
| ComplexNumber.Truthy | data_types/number.py:26-27 | bool holds exactly when the real or the imaginary part is nonzero |
| ComplexNumber.AddParts | data_types/number.py:54-55 | addition works part by part |
| ComplexNumber.Add | data_types/number.py:54-55 | both parts of the sum are Consts in lowest terms; their values are ComplexNumber.AddParts |
| ComplexNumber.SubParts | data_types/number.py:57-58 | subtraction works part by part |
| ComplexNumber.Sub | data_types/number.py:57-58 | both parts of the difference are Consts in lowest terms; their values are ComplexNumber.SubParts |
| ComplexNumber.MulRealPart | data_types/number.py:60-63 | the real part of the product is ac - bd |
| ComplexNumber.MulImagPart | data_types/number.py:60-63 | the imaginary part of the product is ad + bc |
| ComplexNumber.Mul | data_types/number.py:60-63 | both parts of the product are Consts in lowest terms; their values are ComplexNumber.MulRealPart and MulImagPart |
| ComplexNumber.NormSquaredValue | data_types/number.py:68 | the divisor's norm is c² + d² |
| ComplexNumber.TrueDiv | data_types/number.py:65-71 | division raises ZeroDivisionError exactly when the divisor is 0 |
| ComplexNumber.TrueDivRealPart | data_types/number.py:65-71 | the real part of the quotient times c² + d² is ac + bd |
| ComplexNumber.TrueDivImagPart | data_types/number.py:65-71 | the imaginary part of the quotient times c² + d² is bc - ad |
| ComplexNumber.DivThenMul | data_types/number.py:60-71 | (x / y) · y == x for every y != 0 |
| ComplexNumber.NegParts | data_types/number.py:85-86 | negation negates both parts |
| ComplexNumber.Neg | data_types/number.py:85-86 | both parts of the negation are Consts in lowest terms; their values are ComplexNumber.NegParts |
| ComplexNumber.Pos | data_types/number.py:88-89 | unary plus is the identity |
| ComplexNumber.NegInvolution | data_types/number.py:85-86 | negating twice returns the same Number |
| ComplexNumber.Eq | data_types/number.py:91-94 | a value without `imag` is never equal |
| ComplexNumber.EqMeansSameParts | data_types/number.py:91-94 | equality holds exactly when both parts are equal |
| ComplexNumber.Compare | data_types/number.py:99-133 | an order against a value without `imag` is False |
| ComplexNumber.CompareValues | data_types/number.py:99-133 | an order compares the real parts when the imaginary parts match, the imaginary parts when the real parts match, and is False otherwise |
| ComplexNumber.CompareConsistent | data_types/number.py:99-133 | a > b iff b < a, a >= b iff b <= a; <= is < or ==, and >= is > or == |
| ComplexNumber.NumeratorOf | data_types/number.py:135-139 | the numerator is the real part's exactly when the imaginary part is 0 |
| ComplexNumber.DenominatorOf | data_types/number.py:141-145 | the denominator is positive |
| ComplexNumber.NumeratorOverDenominator | data_types/number.py:135-145 | a real Number is numerator / denominator; otherwise the pair is (self, 1) |
| Numeric.Find | utils/numeric.py:33-42 | the dict lookup finds the first entry with the key, or reports that none exists |
| Numeric.AssignLookup | utils/numeric.py:39-40 | after `d[k] = v`, k maps to v and every other key is unchanged |
| Numeric.IncrementLookup | utils/numeric.py:33-36 | after `d[k] += 1` on a defaultdict, k maps to its old count plus one and every other key is unchanged |
| Numeric.IntegerPrimes | utils/numeric.py:24-43 | beyond 2^40 the result is {n: 1}; otherwise distinct prime keys with positive exponents, the key -1 exactly for negative n, and the product of p^e equals n |
| Numeric.AssignNegated | utils/numeric.py:21-22 | assigning each denominator prime its negated exponent appends the negated entries in order, as no key is shared |
| Numeric.Primes | utils/numeric.py:16-43 | for a fraction the denominator's primes carry negative exponents, the keys stay distinct and the product of p^e is the value |
| Numeric.RProductOfNatural | utils/numeric.py:16-43 | with natural exponents the real product equals the integer product |
| Radicals.ExponentGcdDivides | utils/numeric.py:72 | gcd(root, exponents) is positive and divides the root and every exponent |
| Radicals.ReduceRoot | utils/numeric.py:72-75 | the root is divided by cd = gcd(root, exponents) when this exceeds 1, every exponent floor-divided by cd, and the product raised to cd is unchanged |
| Radicals.SplitProduct | utils/numeric.py:77-80 | (Π p^(e div r))^r · Π p^(e mod r) equals Π p^e |
| Radicals.SplitExponents | utils/numeric.py:77-80 | the loop leaves c = Π p^(e div r) and v = Π p^(e mod r) |
| Radicals.PositiveRadical | utils/numeric.py:68-82 | for positive n, c^root · v^cd = scale^root · n, and v is 1 when the root reduces to 1 |
| Radicals.NegativeRadical | utils/numeric.py:55-67 | for negative n the coefficient is imaginary exactly under a square root, and the result represents scale · n^(1/root) |
| Radicals.EvenRadical | utils/numeric.py:61-67 | for negative n under an even root other than 2 the result is real and represents scale · n^(1/root) |
| Radicals.SimplifyRadical | utils/numeric.py:46-82 | n == 0 gives (n, 1, 1); an imaginary coefficient arises exactly for a negative n under a square root; every result represents scale · n^(1/root) |
| Radicals.SimplifyRadicalAsWritten | utils/numeric.py:47-48 | root 1 returns (n, 1, 1) whatever the scale; every other root represents scale · n^(1/root) |
| Radicals.RootOneDropsScale | utils/numeric.py:47-48 | for n = 2, root 1 and scale 15 the result (2, 1, 1) does not represent 30 |
| Polynomials.SyntheticDivide | utils/polynomial.py:113-116 | division by (x - r) fails with IndexError exactly on an empty list; otherwise the quotient has one coefficient fewer than the input |
| Polynomials.FactorTheorem | utils/polynomial.py:113-116 | at every x the input equals (x - r) times the quotient plus the remainder |
| Polynomials.SyntheticRemainder | utils/polynomial.py:115-116 | the remainder is the input's Horner value at r |
| Polynomials.Derivative | utils/polynomial.py:150-153 | a list of m + 1 coefficients has a derivative of m coefficients |
| Polynomials.DerivativeCoefficient | utils/polynomial.py:151-153 | the coefficient of x^k in the derivative is (k + 1) times the input's coefficient of x^(k + 1) |
| Polynomials.PolyDivide | utils/polynomial.py:119-147 | a dividend shorter than the divisor gives ((0,), dividend); otherwise division fails exactly on an empty divisor (IndexError) or a zero leading coefficient (ZeroDivisionError), and succeeds with dividend = quotient · divisor + remainder coefficient by coefficient, a quotient of degA - degB + 1 entries and a remainder shorter than the divisor with no leading zero |
| Polynomials.LongDivision | utils/polynomial.py:131-142 | a zero leading divisor coefficient raises ZeroDivisionError, and only that; otherwise the two loops leave dividend = quotient · divisor + working remainder, with the first degA - degB + 1 entries of the remainder zero |
| Polynomials.TrimLeadingZeros | utils/polynomial.py:143-145 | the result is the input with its leading zeros removed, same coefficients, and starts with a nonzero entry unless empty |
| Polynomials.NormalizeMeaning | utils/polynomial.py:172-183 | normalising fails exactly on an empty (IndexError) or all-zero (ZeroDivisionError) list; otherwise it returns integer coefficients and a factor other than 1, or none, that multiplies them back into the input |
| Polynomials.RootsOfRemainder | utils/polynomial.py:191-195 | one Euclidean step keeps the common roots: a and b vanish together at x exactly when b and the remainder do |
| Polynomials.DivisorsOfRemainder | utils/polynomial.py:191-195 | one Euclidean step keeps the common divisors: g divides a and b exactly when it divides b and the remainder |
| Polynomials.UnitGcd | utils/polynomial.py:192-193 | a remainder that is a nonzero constant makes (1,) a greatest common divisor of the inputs |
| PolyAlgebra.DividesRemainder | utils/polynomial.py:191-195 | when a = q · b + r at every x, the common divisors of a and b are those of b and r |
| PolyAlgebra.ConstantDivisor | utils/polynomial.py:192-193 | a divisor of a nonzero constant divides 1 |
| Polynomials.PolyGcd | utils/polynomial.py:186-196 | the Euclidean loop fails exactly when the shorter input has a zero leading coefficient; otherwise the result is a greatest common divisor: it divides both inputs, every common divisor divides it, and it vanishes at x exactly where both inputs do; it is (1,), the shorter input, the longer one when the shorter is empty, or a remainder of degree one or more with a nonzero leading coefficient |
| Terms.MulDegree | utils/polynomial.py:56-57 | a product has the sum of its arguments' degrees |
| Terms.AddDegree | utils/polynomial.py:58-59 | a nonempty sum has the largest of its arguments' degrees |
| Terms.PowDegree | utils/polynomial.py:45-55 | a power of a base of positive degree k has degree k · n for a natural exponent n, and None for any other exponent |
| Terms.PolynomialHasDegree | utils/polynomial.py:16-60 | every tree `is_polynomial` accepts, with no empty sum, has a degree, in total and in any variable |
| Terms.VariableDegreeAtMost | utils/polynomial.py:36-60 | the degree in one variable never exceeds the total degree |
| Terms.Degree | utils/polynomial.py:36-60 | `degree` raises only ValueError (`max` of an empty sum) or TypeError (a None in a sum or a product, or an unsupported node) |
| Factoring.Divisors | utils/factoring.py:63-74 | the divisors of an integer are the products over the exponent vectors of its prime factorisation, all nonzero integers dividing it; 0 gives (1,), a value beyond 2^40 gives (1, n) and a non-integer none |
| Factoring.DivisorsAreVectorProducts | utils/factoring.py:66-74 | x is listed exactly when x = Π p^k for an exponent vector with 0 ≤ k ≤ e for each factor |
| Factoring.VectorDivides | utils/factoring.py:66-74 | the product over every exponent vector times the product over its complement is the product of all the factors |
| Factoring.RebuildValue | utils/factoring.py:150-151 | the sum of c · base^n, coefficients high to low, evaluates at every x to the Horner value of the coefficient list |
| Factoring.RebuildDegree | utils/factoring.py:150-151 | a rebuilt list of m + 1 coefficients is a polynomial of degree m in its base |
| Factoring.Rebuild | utils/factoring.py:150-151 | the rebuilt sum of c · base^n is a tree `is_polynomial` accepts |
| Factoring.LastNonzero | utils/factoring.py:158 | the scan raises StopIteration exactly when every coefficient is zero; otherwise it returns the last nonzero one |
| Factoring.Pairs | utils/factoring.py:164 | the candidate pairs are exactly the pairs of a divisor of q and a divisor of p |
| Factoring.RationalRoots | utils/factoring.py:154-180 | at most two coefficients come back as they are; otherwise the call fails with StopIteration exactly on all-zero coefficients, and succeeds with linear factors (1, -root) followed by the residual coefficients, their product equal to the input at every x, each root a zero of the input of the form ±d/e for d dividing the last nonzero coefficient and e the leading one, and, for a residual of more than one coefficient, no candidate ±d/e left as a root of it, for d among the listed divisors of the last nonzero coefficient and e among those of the leading one, the lists being the divisors of the prime factorisations returned beside the result |
| Factoring.TryPairs | utils/factoring.py:164-179 | the loop over the divisor pairs keeps the factors and the residual multiplying to the input, and unless it stops at a constant residual, tries both candidates of every pair |
| Factoring.TryPair | utils/factoring.py:167-179 | each of the two candidates not seen before is marked seen and divided out while it is a root |
| Factoring.NoRootLeft | utils/factoring.py:164-179 | once every pair is tried, no candidate ±d/e of the listed divisors is a root of a residual of more than one coefficient |
| Lexing.Lexer.constructor | processing/lexer.py:23-25 | the unread input is the expression wrapped in parentheses, its first character current |
| Lexing.Lexer.Advance | processing/lexer.py:27-31 | the current character moves one step, becoming None at the end; the unread input loses its first character |
| Lexing.Lexer.GenerateNumber | processing/lexer.py:74-91 | reads the maximal run of digits with at most one decimal point and returns the token of ReadNumber, the unread input advanced by the characters consumed |
| Lexing.ReadNumber | processing/lexer.py:74-91 | at least one and at most all of the characters are consumed |
| Lexing.Lexer.GenerateTokens | processing/lexer.py:33-72 | the tokens yielded, read to the end, are the reference scan of the unread input from was_num 0 |
| Lexing.Tokenize | processing/lexer.py:23-72 | a fresh lexer's tokens are Tokens(expr), which always starts with LPAREN |
| Lexing.NumberFollows | processing/lexer.py:80-91 | a numeral gives a NUMBER token, or the ERROR of a second decimal point or of a lone point |
| Lexing.ScanFollows | processing/lexer.py:33-72 | from every state, the scan keeps the sign rule, the implicit products and the stop after an error |
| Lexing.TokenShape | processing/lexer.py:41-71 | in Tokens(expr): `+` and `-` are ADD/SUB exactly after an operand or `)`, otherwise POS/NEG; no operand starts right after an operand; a coefficient MUL comes only after a number, a variable or `)`, and before the start of an operand; an ERROR other than a numeral's is the last token |
| Lexing.FollowsAt | processing/lexer.py:41-71 | the recursive shape predicate means the index-wise statements of TokenShape |
| Lexing.LastToken | processing/lexer.py:24 | without an ERROR token, Tokens(expr) ends with RPAREN |
| Lexing.ScanLast | processing/lexer.py:24 | a scan of input ending in `)` that raises no ERROR ends with RPAREN |
| Lexing.BlankEmitsNothing | processing/lexer.py:36-38 | inserting a space, tab or newline anywhere except between two numeral characters leaves the tokens unchanged |
| Lexing.NumeralValue | processing/lexer.py:91 | a numeral's value is its digits, read as an integer, over 10 to the number of decimals |
| Parsing.UnaryTypes | parsing/tokens.py:23-24 | `is_unary` holds for exactly POS, NEG, APPROX and SQRT, each of value 0 or at least 9 |
| Parsing.ComparisonTypes | parsing/tokens.py:13 | the types whose value has integer part 4 are exactly EQ, GT, GE, LT and LE |
| Parsing.PriorityLadder | parsing/tokens.py:38-40 | priority is the integer part of the value plus 0.2 for a coefficient: the pairs share a level, a coefficient product binds tighter than a written one and looser than a sign, the parentheses lie lowest |
| Parsing.OperatorAboveParens | parsing/tokens.py:9-21 | every operator type has priority at least 0, above an RPAREN of either flag, which is not unary |
| Parsing.Postfix | parsing/parser.py:127-176 | the loop over the reversed tokens with its stack returns PostfixOrder(tokens), an error included |
| Parsing.Prefix | parsing/parser.py:178-181 | prefix order is the reversed postfix output, or its error |
| Parsing.RunMoves | parsing/parser.py:135-176 | a run's output holds the items of its input and of the stack, each once, and the operands in their input order after those already output |
| Parsing.PrefixRearranges | parsing/parser.py:135-176 | a successful conversion outputs a permutation of the non-parenthesis items, keeps the operands in their written order, and met no ERROR token |
| Parsing.YieldSafe | parsing/parser.py:161-171 | with the opening ')' at the bottom of a nonempty stack, the popping loop before an operator never reads an empty stack |
| Parsing.RunErrors | parsing/parser.py:135-176 | a failing run raises "unmatched parenthesis" or the exception of one of its ERROR tokens, never the IndexError of an empty stack |
| Parsing.PostfixErrors | parsing/parser.py:133-176 | the conversion fails only with "unmatched parenthesis" or with the stored exception of an ERROR token of the input |
| Parsing.StepParens | parsing/parser.py:141-171 | one token changes the number of ')' on the stack by the groups it opens, read from the right |
| Parsing.RunNests | parsing/parser.py:141-175 | a successful run never closes more groups than are open and ends with all of them closed |
| Parsing.PostfixBalanced | parsing/parser.py:143-175 | tokens that convert without error are balanced: every prefix has at least as many '(' as ')', and the whole has as many |
| Parsing.LeftAssociative | parsing/parser.py:161-171 | for any operands x, y, z, "(x/y*z)" converts to MUL TRUEDIV x y z: operators of one priority associate to the left |
| Syntax.ParseAt | parsing/parser.py:64-105 | a parse ends inside its input; nothing is parsed exactly when the current item is absent; otherwise a tree is returned |
| Syntax.CommaRun | parsing/parser.py:46-48 | the count of leading COMMA items: all items before it are COMMA and the one at it is not |
| Syntax.SystemAt | parsing/parser.py:43-62 | a successful parse at a COMMA returns a System, ending inside the input |
| Syntax.MembersAt | parsing/parser.py:49-62 | a successful read of the equations returns a System, ending inside the input |
| Syntax.Parser.constructor | parsing/parser.py:17-19 | the items still to parse are those given, the first of them current |
| Syntax.Parser.Advance | parsing/parser.py:21-25 | the next unread item becomes current, or None at the end; the items still to parse lose their first |
| Syntax.Parser.ParseOne | parsing/parser.py:64-70 | `_parse` returns the tree of ParseAt of the items from the current one, or its error, and leaves current the last item the parse consumed |
| Syntax.Parser.ParseOperand | parsing/parser.py:72-74 | advancing and then parsing gives ParseAt of the items after the current one |
| Syntax.Parser.ParseOperator | parsing/parser.py:71-80 | the operator case of `_parse` agrees with ParseAt: its first operand, then the unary check |
| Syntax.Parser.ParseRight | parsing/parser.py:80-105 | the binary case of `_parse` agrees with ParseAt: its second operand, then the checks of Combine |
| Syntax.Parser.SkipCommas | parsing/parser.py:44-48 | the first loop counts one equation more than the leading commas and stops at the first item that is not a COMMA |
| Syntax.Parser.ReadMember | parsing/parser.py:50-59 | one pass of the second loop fails exactly as MembersAt does; otherwise it returns an EQ tree not seen before, from a parse starting at the current EQ |
| Syntax.Parser.ReadMembers | parsing/parser.py:49-62 | the second loop returns the System of MembersAt of the items from the current one, or its error |
| Syntax.Parser.GenerateSystem | parsing/parser.py:43-62 | `System(self.generate_system())` at a COMMA is SystemAt of the items from it, or its error |
| Syntax.Parser.Parse | parsing/parser.py:107-111 | `parse`, before solving, is ParseTop of the items from the current one |
| Syntax.Eval | parsing/parser.py:184-185 | a parser over the prefix order of the tokens gives Evaluate(tokens), a conversion error included |
| Syntax.CombineAccepted | parsing/parser.py:84-105 | on the parts of an accepted tree of two operands, every check of `_parse` passes and rebuilds that tree |
| Syntax.CombineBuilds | parsing/parser.py:84-105 | what the checks let through from accepted operands is accepted, and is read from the operator followed by the operands' items |
| Syntax.ParseSerialized | parsing/parser.py:64-105 | an accepted tree's prefix items, followed by anything, parse back to the tree, its last item left current |
| Syntax.MembersSerialized | parsing/parser.py:43-62 | the items of distinct accepted equations give the second loop of `generate_system` those equations, in order |
| Syntax.SerialParsed | parsing/parser.py:64-105 | whatever parses to a tree is accepted and starts with that tree's prefix items: the converse of ParseSerialized |
| Syntax.MembersParsed | parsing/parser.py:43-62 | the equations the second loop reads are accepted, each unequal to all before it, and their items are what was consumed |
| Syntax.ParseOperands | parsing/parser.py:79-105 | an operator of two operands over accepted operands parses to whatever the checks of `_parse` make of them |
| Syntax.NestedRejected | parsing/parser.py:91-94 | an (in)equality with an (in)equality on either side raises "nested (in)equality" |
| Syntax.SolveRejected | parsing/parser.py:85-89 | SOLVE raises "can only solve for Variables" unless its first operand is a variable, then "can only solve from an (in)equality" unless its second is an (in)equality |
| Syntax.NonTermRejected | parsing/parser.py:95-104 | an arithmetic operator with a non-term on its right, or an (in)equality with a non-term side, raises the operand TypeError |
| Syntax.RepeatRejected | parsing/parser.py:57-58 | the second loop raises "system expects unique equations only" on an equation equal to the one before it |
| Syntax.DuplicateRejected | parsing/parser.py:57-58 | a System whose second equation repeats its first raises "system expects unique equations only" |
| Syntax.MissingOperand | parsing/parser.py:74-76 | an operator followed by nothing raises "operator ... has inadequate operands" |
| Syntax.TopSerialized | parsing/parser.py:107-111 | an accepted tree's items, alone or followed by a falsy item, give that tree; followed by a truthy item, "Malformed expression" |
| Syntax.TopParsed | parsing/parser.py:107-111 | a tree `parse` returns is accepted, its items start the input, and what follows them is nothing or a falsy item |
| Ansi.MatchLength | solving/eval_trace.py:351 | a match of `\x1b\[[0-9;]*m` at the front is ESC, '[', characters of `[0-9;]` and a final 'm', and is at least 3 long |
| Ansi.StripAnsi | solving/eval_trace.py:354-356 | removing the escape sequences never lengthens the text |
| Ansi.StripPlain | solving/eval_trace.py:354-356 | a prefix without ESC passes through unchanged, whatever follows it |
| Ansi.StripEscapeFree | solving/eval_trace.py:354-356 | text without ESC is left as it is |
| Ansi.StripSequence | solving/eval_trace.py:351-356 | a complete escape sequence at the front is removed and the scan goes on after it |
| Ansi.StripKeepsEscape | solving/eval_trace.py:351-356 | an ESC that starts no complete sequence is kept |
| Ansi.Trim | solving/eval_trace.py:361 | the whitespace `int()` strips is off both ends of the result |
| Ansi.HexValue | solving/eval_trace.py:361 | a hex digit, of either case, has a value below 16 |
| Ansi.ParseHexPiece | solving/eval_trace.py:361 | `int(piece, 16)` of at most two characters, a sign included, lies between -15 and 255 |
| Ansi.DropHashes | solving/eval_trace.py:360 | `lstrip("#")` leaves no '#' at the front |
| Ansi.TwoAt | solving/eval_trace.py:361 | the slice `[i:i + 2]` has at most two characters |
| Ansi.HexToRgb | solving/eval_trace.py:359-361 | every component it reads lies between -15 and 255 |
| Ansi.ColorizeAnsi | solving/eval_trace.py:364-366 | the colouring fails exactly when `hex_to_rgb` does, and wraps the text in more than 10 characters |
| Ansi.HexByte | solving/eval_trace.py:359-361 | a byte printed as two hex digits, the input `hex_to_rgb` reads |
| Ansi.PieceOfByte | solving/eval_trace.py:361 | two hex digits of a byte read back as that byte |
| Ansi.HashesDropped | solving/eval_trace.py:360 | any number of leading '#' is stripped, and nothing more |
| Ansi.HexToRgbOfBytes | solving/eval_trace.py:359-361 | leading '#'s followed by three bytes in hex read back as those three bytes |
| Ansi.NonNegativeSgr | solving/eval_trace.py:366 | a non-negative number prints with the characters `[0-9;]` only |
| Ansi.OpeningSgr | solving/eval_trace.py:366 | the opening `38;2;r;g;b` of non-negative components is a run the pattern accepts |
| Ansi.BrokenRun | solving/eval_trace.py:351 | a '-' inside the parameters ends the run without an 'm', so nothing matches |
| Ansi.OpeningBroken | solving/eval_trace.py:351-366 | the opening sequence of a colour with a negative component is not an escape sequence to the pattern |
| Ansi.StripColorized | solving/eval_trace.py:351-366 | stripping a coloured escape-free text gives the text back exactly when every colour component is non-negative |
| Trace.Advance | datatypes/eval_trace.py:162-167 | `next_branch`: when it succeeds, the top counter is one higher and every frame still names a list; on failure the counters are unchanged |
| Trace.Retreat | datatypes/eval_trace.py:169-172 | `end_branches` as written succeeds exactly when there are two frames and a counter, and pops two frames and one counter |
| Trace.Close | datatypes/eval_trace.py:169-172 | the corrected `end_branches` pops one counter and two frames after an entered branch, one frame when no branch was entered |
| Trace.Upto | datatypes/eval_trace.py:183-188 | the values a branch iterator over n yields: 0 to n - 1 in order |
| Trace.Fanned | datatypes/eval_trace.py:155-160 | `create_branches(n)`: n new empty lists, referenced at the end of list k and by a new fan list; every other list unchanged |
| Trace.FannedLinked | datatypes/eval_trace.py:155-160 | creating branches keeps every list referring only to lists made after it, so the lists stay a tree |
| Trace.TexAt | datatypes/eval_trace.py:204-216 | `totex` is "" exactly for an empty list |
| Trace.ETSteps.constructor | datatypes/eval_trace.py:142-145 | a new trace has empty data, written to directly, with counter stack [0] |
| Trace.ETSteps.Clear | datatypes/eval_trace.py:147-150 | `clear` empties data in place, so every reference to it sees it empty, and resets both stacks |
| Trace.ETSteps.Register | datatypes/eval_trace.py:152-153 | `register` appends the step to the list on top of `history` and to nothing else, and raises IndexError on an empty history |
| Trace.ETSteps.CreateBranches | datatypes/eval_trace.py:155-160 | `create_branches` leaves the lists Fanned, pushes the fan frame and a counter 0 |
| Trace.ETSteps.NextBranch | datatypes/eval_trace.py:162-167 | `next_branch` changes the stacks as Advance says and no list |
| Trace.ETSteps.EndBranches | datatypes/eval_trace.py:169-172 | `end_branches` changes the stacks as Retreat says and no list |
| Trace.ETSteps.CloseBranches | datatypes/eval_trace.py:169-172 | the corrected `end_branches` changes the stacks as Close says and no list |
| Trace.ETSteps.Branching | datatypes/eval_trace.py:190-196 | a `branching` block as written fans out, yields 0, 1, ... for as many rounds as there are branches, and restores both stacks when a branch was entered but pops the caller's own frame when none was |
| Trace.ETSteps.SafeBranching | datatypes/eval_trace.py:190-196 | with the corrected `end_branches`, a `branching` block always restores both stacks |
| Trace.ETSteps.Pull | datatypes/eval_trace.py:183-194 | the body of the block takes 0, 1, ... in order and leaves the last branch entered on top, the counter at the number taken |
| Trace.EnterNext | datatypes/eval_trace.py:162-167 | inside a fan of fresh branches, `next_branch` enters branch t, replacing branch t - 1 |
| Trace.BranchIterator.constructor | datatypes/eval_trace.py:175-178 | the iterator starts at count 0 over the given trace and number |
| Trace.BranchIterator.Next | datatypes/eval_trace.py:183-188 | `__next__` raises StopIteration at the end and changes nothing; otherwise it does `next_branch` and returns the old count |
| Trace.LostFrame | datatypes/eval_trace.py:190-196 | `branching(0)` on a fresh trace leaves no frame, and the next `register` raises IndexError |
| Trace.KeptFrame | datatypes/eval_trace.py:169-172 | with the corrected `end_branches`, a step registered after `branching(0)` goes into data |
| TraceText.SplitLines | solving/eval_trace.py:297 | `split("\n")` gives at least one piece and no piece holds a newline |
| TraceText.JoinSplit | solving/eval_trace.py:297-300 | joining with "\n" what `split("\n")` gave returns the text |
| TraceText.MaxWidth | solving/eval_trace.py:281-283 | `max_len` is at least every line's visible width and is the width of some line |
| TraceText.PadLine | solving/eval_trace.py:272-276 | `pad_line` is a space, the line as it is, the spaces up to `max_len`, and a space |
| TraceText.Top | solving/eval_trace.py:284-290 | the top row starts with '╭', ends with '╮' and is `max_len` + 4 long when the title fits |
| TraceText.Bottom | solving/eval_trace.py:292 | the bottom row is `max_len` + 4 long |
| TraceText.Row | solving/eval_trace.py:291 | a body row is the padded line between two '│' |
| TraceText.Body | solving/eval_trace.py:291 | there is one body row for each line after the first, in order |
| TraceText.Box | solving/eval_trace.py:278-293 | `box` raises IndexError exactly for an empty line or for a line after the first with no visible character |
| TraceText.BoxRows | solving/eval_trace.py:278-293 | a box is the top row, the body rows in order and the bottom row |
| TraceText.BoxShape | solving/eval_trace.py:278-293 | a box has one row more than lines, opens with '╭' ... '╮' and closes with "╰", `max_len` + 2 '─' and "╯", and holds every further line between two '│' after one space |
| TraceText.BoxAligned | solving/eval_trace.py:272-293 | on lines without escapes every row has the same width, a mark counting one column more |
| TraceText.ToStr | solving/eval_trace.py:267-300 | `tostr` of an empty trace is "" |
| TraceText.IsNonEmpty | solving/eval_trace.py:206-208 | the trace is truthy exactly when data has an entry |
| TraceText.TextLeTotal | solving/eval_trace.py:40-41 | any two texts are ordered one way or the other by Python's string order |
| TraceText.Insert | solving/eval_trace.py:40-41 | inserting into a list sorted by text keeps it sorted and adds exactly that element |
| TraceText.SortByText | solving/eval_trace.py:40-41 | sorting by `str` gives a sorted permutation |
| TraceText.SortStable | solving/eval_trace.py:40-41 | the sort is stable: for every text, the results of that text keep their order |
| TraceText.BranchNode | solving/eval_trace.py:37-41 | a branch node raises IndexError on no results, sorts the results by text when the first is a Comparison, and otherwise keeps them as given |
| Intervals.ToFloat | solving/core.py:19-22 | a missing endpoint is minus infinity as a start, plus infinity as an end; a present one is its exact value |
| Intervals.Contains | solving/interval.py:28-34 | the whole line holds every point; an interval whose start equals its end holds that value when both sides are closed, and nothing otherwise |
| Intervals.Intersect | solving/interval.py:36-59 | `intersect` as written: the later start and the earlier end, each that of an argument and the first argument's at a tie; each flag the first argument's when its endpoint is the one chosen, else the second's; never an end before the start |
| Intervals.IntersectWithin | solving/interval.py:36-59 | a result of `intersect` holds every point both arguments hold, and besides them at most its own endpoints |
| Intervals.IntersectShares | solving/interval.py:36-59 | for intervals that are not empty, a result of `intersect` means they share a point, so the corrected intersection is not None either |
| Intervals.EmptyArgumentKept | solving/interval.py:46-59 | with an empty argument `intersect` can return an interval: [1, 1) met with [1, 1] is [1, 1), though they share no point and the corrected intersection is None |
| Intervals.IntersectLosesOnlyTies | solving/interval.py:41-54 | when `intersect` returns None while both arguments hold x, both are the whole line, or x is the one point they share |
| Intervals.WholeLineLost | solving/interval.py:36-59 | INF met with INF is None, although INF holds 0 |
| Intervals.SharedPointLost | solving/interval.py:36-59 | [1, 3] met with [0, 1] is None, although 1 is in both |
| Intervals.OpenSideIgnored | solving/interval.py:36-59 | [1, 3] met with (1, 3) is [1, 3], which holds 1, while (1, 3) does not |
| Intervals.Meet | solving/interval.py:36-59 | the corrected intersection: a valid interval that is not empty, or None |
| Intervals.MeetContains | solving/interval.py:28-59 | a point is in the corrected intersection exactly when it is in both intervals |
| Intervals.NonEmptyHasPoint | solving/interval.py:28-34 | an interval that is not empty holds a point |
| Intervals.MeetEmpty | solving/interval.py:36-59 | the corrected intersection is None exactly when the intervals share no point |
| Intervals.IntersectAgrees | solving/interval.py:36-59 | with four distinct finite endpoints and an overlap of more than a point, the code as written agrees with the corrected intersection |
| Intervals.StartText | solving/interval.py:18-21 | the start side opens with '[' exactly for a closed finite start, and shows '∞' exactly for a missing one |
| Intervals.EndText | solving/interval.py:22-25 | the end side closes with ']' exactly for a closed finite end, and shows '∞' exactly for a missing one |
| Intervals.Repr | solving/interval.py:17-26 | `__repr__` opens with '[' exactly for a closed finite start, closes with ']' exactly for a closed finite end, and shows '∞' exactly on a missing side |
| Domains.KeyTotal | solving/core.py:30 | the sort key orders any two intervals one way or the other |
| Domains.KeyTrans | solving/core.py:30 | the sort key is transitive |
| Domains.Insert | solving/core.py:30 | inserting adds exactly that interval |
| Domains.InsertAdjacent | solving/core.py:30 | inserting into a sorted list keeps it sorted |
| Domains.AdjacentSorted | solving/core.py:30 | a list ordered at each neighbour is ordered at every pair |
| Domains.SortBy | solving/core.py:30 | the sort gives a permutation ordered by start, a closed start before an open one at the same place |
| Domains.SortedMembers | solving/core.py:30 | the sorted list is ordered at every pair and has the same members |
| Domains.SortStable | solving/core.py:30 | the sort is stable: for every key, the intervals of that key keep their order |
| Domains.Spans | solving/core.py:26-27 | one or no interval is returned as it is |
| Domains.Joined | solving/core.py:51-66 | the merge step as written keeps the start of the current interval and its flag |
| Domains.EndClosedByInner | solving/core.py:56-64 | [0, 5) merged with [1, 2] gives [0, 5], which holds 5, though neither input does |
| Domains.Union | solving/core.py:52-66 | the corrected merge step keeps the current start and its flag |
| Domains.MergeStep | solving/core.py:51-66 | the step as written, or the corrected one: the current start and its flag, and the end of one of the two intervals |
| Domains.UnionContains | solving/core.py:40-66 | merging two overlapping intervals in sorted order holds exactly the points of either |
| Domains.JoinedContains | solving/core.py:40-66 | for overlapping intervals in sorted order the step as written holds every point of either, and besides them at most the current interval's end |
| Domains.StepContains | solving/core.py:40-66 | either step holds every point of either interval; the corrected one nothing else, the one as written at most the current end besides; the new end is an end of one of the two |
| Domains.Emit | solving/core.py:44-47 | a finished interval becomes a valid piece, a single point when its start is its end |
| Domains.EmitContains | solving/core.py:44-47 | the emitted piece holds exactly the points of the interval |
| Domains.Sweep | solving/core.py:34-67 | the sweep yields valid pieces, with the step as written or the corrected one |
| Domains.Merge | solving/core.py:25-68 | `merge_intervals` yields valid pieces, with the step as written or the corrected one |
| Domains.MergeIntervals | solving/core.py:25-68 | the loop appends exactly the pieces Merge describes with the step as written |
| Domains.SweepCovers | solving/core.py:34-67 | the sweep's pieces hold every point of the current interval and the ones after it; the corrected sweep nothing else, the one as written at most besides the end of one of those intervals |
| Domains.SweepSeparated | solving/core.py:34-67 | with either step, every point of an earlier piece is below every point of a later one |
| Domains.MergeCovers | solving/core.py:25-68 | the merged pieces hold every point of the input intervals; the corrected merge nothing else, the one as written at most besides the end of an input; for more than one input the pieces are apart and in increasing order |
| Domains.SortedCover | solving/core.py:30 | sorting keeps the points covered and the ends, and keeps empty intervals out |
| Domains.MergeClosesEnd | solving/core.py:56-67 | [0, 5) and [1, 2] merge, as written, to [0, 5], which holds 5 though no input does; the corrected merge gives [0, 5) |
| Domains.KeepRoots | solving/core.py:75 | only roots r with r·0.999 in the domain are kept, and every such root is kept |
| Domains.Splits | solving/core.py:79-84 | one piece more than cuts, the first with the domain's start and its flag, the last with the domain's end and its flag |
| Domains.SplitDomainByRoots | solving/core.py:71-84 | the loop returns the pieces between consecutive points of start, kept roots, end, or the domain itself when no root is kept |
| Domains.SplitsPieces | solving/core.py:79-84 | piece k runs from the k-th to the k + 1-th of start, cuts, end, open at a cut when `open` is set |
| Domains.SplitCovers | solving/core.py:71-84 | for increasing cuts inside the domain, the pieces hold exactly the domain's points, minus the cuts when `open` is set |
| Domains.Cons | solving/core.py:154 | each tuple gets the interval in front |
| Domains.Product | solving/core.py:154 | the product of no domains is the one empty tuple |
| Domains.ProductShape | solving/core.py:154 | every tuple of the product takes one interval from each domain |
| Domains.ProductHas | solving/core.py:154 | every choice of one interval per domain is a tuple of the product |
| Domains.IntersectStep | solving/core.py:157 | `intersect` as written, or the corrected intersection: None, or a valid interval whose start and end are each one of the two intervals' |
| Domains.StepWithin | solving/core.py:157-159 | a step that returns an interval keeps the common points; the corrected step returns one whenever a point is common and holds nothing else; the step as written may besides hold an endpoint of an input, and returns None for a common point only when it is an endpoint or the second interval is the whole line |
| Domains.Chain | solving/core.py:155-159 | intersecting along a tuple, stopping at the first None, gives a valid interval or None, with either step |
| Domains.ChainContains | solving/core.py:155-159 | a chain that returns an interval holds every point common to the tuple; the corrected chain returns one exactly when a point is common, holding only those; the one as written may besides hold an endpoint of the tuple, and breaks off for a common point only at an endpoint or at a whole line |
| Domains.Kept | solving/core.py:154-161 | the intervals kept are valid, with either step |
| Domains.KeptCovers | solving/core.py:154-161 | with the corrected step a point is in a kept interval exactly when some tuple has it in all its intervals; as written, besides those, at most an endpoint of a tuple, and a common point is missed only at an endpoint or a whole line |
| Domains.IntersectAll | solving/core.py:152-163 | `intersect_domains`, with `intersect` as written or corrected, raises IndexError exactly for no domains, since the one empty tuple has no first element |
| Domains.IntersectTuple | solving/core.py:155-159 | the inner loop computes the chain of the tuple with `intersect` as written |
| Domains.IntersectDomains | solving/core.py:152-163 | the loops compute IntersectAll with `intersect` as written |
| Domains.ProductCovers | solving/core.py:154 | some tuple has a point in all its intervals exactly when every domain holds the point; an endpoint or a whole line of a tuple is one of a domain |
| Domains.IntersectCovers | solving/core.py:152-163 | for at least one domain the result is sorted by start; corrected, it holds exactly the points every domain holds; as written, it holds besides those at most an endpoint of a domain, and misses a common point only when that is an endpoint or a domain holds the whole line |
| Domains.DomainsWholeLine | solving/core.py:152-163 | two domains of the whole line give [] as written, and the whole line corrected |
| Domains.DomainsSharedPoint | solving/core.py:152-163 | [1, 3] against [0, 1] gives [] as written, and [1, 1] corrected |
| Domains.DomainsOpenSide | solving/core.py:152-163 | [1, 3] against (1, 3) gives [1, 3] as written, and (1, 3) corrected |
| Comparisons.Named | solving/comparison.py:113-115 | a name `getattr` finds is the name of the member returned |
| Comparisons.NamedName | solving/comparison.py:113-115 | every member is found again by its name |
| Comparisons.ReplaceChar | solving/comparison.py:113-115 | `replace` of a character changes exactly the occurrences of it |
| Comparisons.Reverse | solving/comparison.py:110-115 | `reverse` fixes EQ, NE and IN and swaps LT with GT and LE with GE, the renamed member always existing |
| Comparisons.ReverseInvolution | solving/comparison.py:110-115 | reversing twice gives the relation back |
| Comparisons.ReverseComparison | solving/comparison.py:303-305 | `Comparison.reverse` swaps the sides |
| Comparisons.ReverseMeaning | solving/comparison.py:303-305 | the reversed comparison is true exactly when the comparison is |
| Comparisons.Normalize | solving/comparison.py:307-309 | `normalize` puts 0 on the right and keeps the relation |
| Comparisons.NormalizeMeaning | solving/comparison.py:307-309 | the normalised comparison is true exactly when the comparison is |
| Comparisons.ReverseSign | solving/comparison.py:311-319 | EQ and NE are kept whatever the coefficient |
| Comparisons.ReverseSignSound | solving/comparison.py:311-319 | dividing both sides by a nonzero coefficient keeps the comparison true exactly when the relation is the one `reverse_sign` gives |
| Printing.Strip | utils/print_.py:12-15 | dividing out a factor as long as it goes leaves a positive number it does not divide |
| Printing.PrintFrac | utils/print_.py:8-18 | the two loops give FracText: the numerator for denominator 1, the decimal for a denominator of only 2s and 5s when it has no exponent, "n/d" otherwise |
| Printing.StripFactor | utils/print_.py:12-13 | stripping p divides out a power of p |
| Printing.StripPower | utils/print_.py:12-15 | stripping p from a power of p times k, with p not dividing k, leaves k |
| Printing.OddPower5 | utils/print_.py:12-15 | a power of 5 times an odd number is odd, so the first loop cannot take the 5s |
| Printing.StripsToOne | utils/print_.py:12-16 | the loops leave 1 exactly when the denominator is 2^a·5^b |
| Printing.OtherFactorRemains | utils/print_.py:12-16 | the loops leave exactly the part of the denominator prime to 10 |
| Printing.NonTerminating | utils/print_.py:12-18 | a denominator with a factor other than 2 and 5 prints as "n/d" |
| Printing.Terminating | utils/print_.py:10-18 | denominator 1 prints the numerator; any other 2^a·5^b prints the decimal, or "n/d" when the decimal has an exponent |
| Printing.PrintCoef | utils/print_.py:21-29 | "" exactly for 1, "-" for -1, otherwise the number's text, in parentheses when its real part is 0 |
| Printing.IneqToRange | utils/print_.py:32-40 | a G relation gives "(" or "[" before the right side, any other the right side before ")" or "]"; the bracket is closed for GE, LE and NE |
| Printing.RangeOfInequality | utils/print_.py:32-40 | for an order relation the text is the finite side of the interval of its solutions, as that interval prints, and the interval holds exactly the solutions |

## Left out

- Floats: the `Float` class, `approx`, `__float__` and `__complex__` of `Const`, `Number.__pow__` and `Number.__abs__`.
- Complex numerators of `Const` (built through `as_integer_ratio` of floats), and their branches in `__new__`, `div`, `__repr__`, `is_neg` and the hash.
- `Const.totex` and `Number.__str__`: rendering.
- The `lru_cache` on `__new__` and on the hash: caching does not change results.
- `Number.__hash__` (data_types/number.py:23-24): CPython's tuple hash.
- The imaginary-numerator branch of `simplify_radical`, as for `Const`.
- Numeric.IntegerPrimes: the integer `i` stands for the `Const(i)` keys; both compare and hash alike.
- Radicals.SimplifyRadical: a coefficient `scale * 1j` is held as a real coefficient with an `imaginary` flag, since Const has no complex numerators here.
- Polynomial coefficients are Const values only: the symbolic `Node` coefficients `poly_divide` and `synthetic_divide` also accept are not modelled, so `hasremainder` of a Const quotient is always false and its ValueError never arises.
- `long_division`, `hasremainder`, `square_free`, `leading` and `leading_options` of utils/polynomial.py, and `extract`, `factor`, `gcd`, `lcm` and `cancel_factors` of utils/factoring.py: they work on symbolic `Node` trees through the simplifier, which is not part of this model.
- The `lru_cache` on `degree`, `poly_divide`, `derivative`, `poly_gcd`, `divisors` and `rational_roots`: caching does not change results.
- Polynomials.NormalizeMeaning: does not prove that the returned numerators are coprime, and leaves out the `approx().imag` filter, which only matters for complex numerators.
- Polynomials.PolyGcd: which remainder the loop stops at is stated through the shape of the result (GcdShape), not by a reference function over the sequence of remainders; divisibility is of polynomial functions over the reals, so a greatest common divisor is determined up to a constant factor.
- Terms.PolynomialHasDegree: assumes no empty sum in the tree, since `max` of an empty sum raises; Degree itself models that error.
- Terms.Degree: a `Var` is compared with the requested variable by name; `Float` leaves are a node without a value.
- Factoring.Rebuild: builds the unsimplified sum of products, before `Add.from_terms` and `Mul` simplification, which are not part of this model; its value and degree are what is proved.
- Factoring.Divisors: `flatten_factors` is modelled by `primes` of a Const, its branches for symbolic and complex nodes are left out.
- Factoring.RationalRoots: iterates the candidate pairs in `product` order, while the source iterates `set(product(...))` in hash order; the recorded factors, as a set of roots, do not depend on the order, but their sequence may differ. The leading 1 of each recorded factor is the Const 1 rather than the Python int 1.
- Factoring.RationalRoots: the rational-root theorem is not proved, so the model does not conclude that a residual of more than one coefficient has no rational root at all; it proves that none of the listed candidates ±d/e is one. For a coefficient beyond 2^40, `divisors` lists only 1 and the number itself, and the candidates are those.
- Lexing: `isdigit` and `isalpha` are the ASCII digits and letters; Python's Unicode classes are wider.
- Lexing: the generator is modelled as read to the end, the token list it yields as a sequence; a caller that stops early sees a prefix of it.
- Lexing.BlankEmitsNothing: leaves out a blank inserted between two numeral characters, which splits the numeral and gives the "No operator between numbers" error.
- Lexing: `Token` equality is datatype equality; processing/tokens.py is not part of this model beyond the kinds, value and `iscoef` flag.
- Parsing, Syntax: parsing/lexer.py is not part of this model; the tokens are given as a sequence, and `eval` starts from them.
- Parsing: the generators `postfix` and `prefix` are modelled as read to the end; `prefix` reads all of `postfix` before yielding, so its error comes first either way.
- Syntax: parsing/operators.py and the Node, Comparison and System classes are not part of this model. An operator's result is the symbolic tree of it, unsimplified, so `+x` is a Unary tree, not the variable x, and SOLVE rejects it, while the source may accept it.
- Syntax: `SYMBOLS` of utils/constants.py is not part of this model; an error message names the token type where the source prints its symbol.
- Syntax: the automatic solving and `is_close` of `parse` (parsing/parser.py:112-125) call the solver, which is not part of this model.
- Syntax: a System keeps its equations in parse order; the source's frozenset has no order, and its duplicates are rejected, so no equation is lost. `val in seen` is tree equality.
- Syntax: an operand item whose value is None is read as the end of the input, as `self.curr is None` does.
- Trace: `ETSteps(data)` with a list passed in, `__repr__` and the class-level `torich` and `toHTML` are left out: the model starts from an empty trace, and `rich` panels and HTML are rendering. The step nodes of solving/eval_trace.py are given by their `str()` text and their `totex` markup, since their classes print through the symbolic simplifier.
- Trace: the class-level `ETSteps` of solving/eval_trace.py keeps its state in class attributes shared by the whole program; the model holds that state in one `ETSteps` object.
- Trace.ETSteps.Branching: the body of the `with` block is modelled as a loop that takes at most `rounds` items and writes nothing; an exception raised inside the body, which `finally` also answers with `end_branches`, is not modelled.
- TraceText.ToStr: proves the empty case and the shape of each box; the rows of a whole nested trace are given by Render, without a separate lemma about their widths.
- TraceText.BranchNode: a result is given by its class name and its `str()` text; `__repr__` and `totex` of a branch node, with `zip_longest` over System texts, are rendering and are left out.
- Ansi: `int(x, 16)` is modelled for the ASCII hex digits and ASCII whitespace; Python also accepts other Unicode digits and spaces.
- Intervals: endpoints are exact `Const` values and `approx()` is their exact value; the float rounding of `approx`, `to_float` and `math.isclose` is not modelled, so `isclose` becomes equality.
- Intervals: `Interval.totex` is rendering and is left out.
- Domains.KeepRoots: `i * 0.999 in domain` is evaluated on the exact value times 0.999, without float rounding.
- Domains.MergeIntervals: the source sorts the caller's list in place; the model returns the merged pieces and does not model the reordering the caller sees. A single-point piece stands for `SolutionSet([c.start])`; the last interval is always appended as an interval, as the source does.
- Domains.MergeIntervals, Domains.IntersectDomains: the methods compute the source's behaviour as written; the corrected step and intersection are the `written = false` instances of the same functions, and what they promise beyond the versions as written is in the Findings below.
- Domains.SplitCovers: assumes the kept roots are increasing and strictly inside the domain, as the solver's roots are; `split_domain_by_roots` itself is modelled for any roots.
- Comparisons: the sides of a comparison are symbolic expressions with a value; `left - right` is a difference node, since the simplifier that would reduce it is not part of this model.
- Comparisons.ReverseSign: takes the leading coefficient `value.canonical()[0]` as a Const parameter; `canonical` is part of the simplifier.
- Comparisons: the IN relation states membership in a set and has no value semantics here; ReverseMeaning, NormalizeMeaning and ReverseSignSound are stated for the other six.
- Printing.PrintFrac: Python's float text of n / d is a parameter (`decimal`); float formatting is not modelled, only the test for an 'e' in it.
- Printing.PrintFrac: the OverflowError of the true division `n / d` for a quotient beyond the float range is not modelled; for such a fraction the model returns `decimal` where the source raises.
- Printing.Terminating: states the decimal text also for a quotient beyond the float range, where the source raises OverflowError at `n / d`.
- Printing.PrintCoef: `str(coef)` is a parameter (`shown`), since `Number.__str__` is rendering.
- Printing.IneqToRange: `str(ineq.right)` is a parameter (`right`).

## Findings

| source | as written | input that shows it | evidently intended | confidence | as-written member | corrected member |
|---|---|---|---|---|---|---|
| utils/numeric.py:47-48 | `root == 1` returns `(n, 1, 1)`, dropping `scale` | n = 2, root = 1, scale = 15 gives (2, 1, 1), read as 2 instead of 30 | return `(n * scale, 1, 1)`, as every other branch multiplies the scale in | not executed | Radicals.RootOneDropsScale | Radicals.SimplifyRadical |
| datatypes/eval_trace.py:169-172 | `end_branches` pops two frames even when the block entered no branch, so only the fan's frame was pushed | `branching(0)` on a fresh trace pops `data`'s own frame, and the next `register` raises IndexError | pop the entered branch only when `idx[-1]` is nonzero, then the fan, as `next_branch` does | not executed | Trace.LostFrame | Trace.ETSteps.CloseBranches |
| solving/interval.py:46-54 | the single-point test runs when the chosen start and end are equal, and None equals None | `INF.intersect(INF)` returns None, though INF holds every point | test for a single point only with two finite equal endpoints | not executed | Intervals.WholeLineLost | Intervals.Meet |
| solving/interval.py:47-53 | a single point survives only when both starts, or both ends, are that point and closed | `[1, 3]` intersected with `[0, 1]` returns None, though both hold 1 | keep the point when both intervals hold it | not executed | Intervals.SharedPointLost | Intervals.Meet |
| solving/interval.py:56-57 | at equal starts (or ends) the flag of `self` is taken, whatever `other`'s is | `[1, 3]` intersected with `(1, 3)` gives `[1, 3]`, which holds 1 | an equal endpoint is open when either side is open | not executed | Intervals.OpenSideIgnored | Intervals.Meet |
| solving/core.py:62-64 | when the next interval ends before the current one, the end flag is `c_open_right and n_open_right` | `[0, 5)` merged with `[1, 2]` gives `[0, 5]`, which holds 5 | keep the current interval's end flag when it ends later | not executed | Domains.EndClosedByInner | Domains.Union |
| solving/core.py:155-161 | every step of the inner loop is `intersect` as written, so its discrepancies reach the result | `intersect_domains([[INF], [INF]])` returns `[]`, though both domains hold every point | intersect each tuple with the corrected intersection | not executed | Domains.DomainsWholeLine | Domains.IntersectAll |
