/** The calculator end to end: printing and reading back, and its two evaluators (sample_projects/project_02/src). */
module Calculator {
  import opened Decimals
  import opened Results
  import opened Tokenizer
  import opened Expressions
  import opened Parser

  // ---------- printed text tokenizes to the canonical tokens ----------

  lemma {:induction false} NumberEndIs(input: string, from: nat, end: nat)
    requires from <= end <= |input| && (forall i :: from <= i < end ==> IsNumeric(input[i]))
    requires end == |input| || !IsNumeric(input[end])
    ensures NumberEnd(input, from) == end
    decreases end - from
  {
    if from < end {
      NumberEndIs(input, from + 1, end);
    }
  }

  lemma PrependAllTwice(a: seq<Token>, b: seq<Token>, rest: Outcome<seq<Token>, char>)
    ensures PrependAll(a, PrependAll(b, rest)) == PrependAll(a + b, rest)
  {
    if rest.Ok? {
      assert a + (b + rest.value) == (a + b) + rest.value;
    }
  }

  lemma OneCharToken(input: string, pos: nat)
    requires pos < |input| && IsSymbol(input[pos])
    ensures TokensFrom(input, pos) == PrependAll([Token(SymbolType(input[pos]), [input[pos]])], TokensFrom(input, pos + 1))
  {
  }

  lemma CharStands(input: string, pos: nat, c: char)
    requires StandsAt(input, pos, [c])
    ensures pos < |input| && input[pos] == c
  {
    assert input[pos] == input[pos..pos + 1][0];
  }

  /** Wherever the printed tree stands, followed by the end or something that is no digit or dot, its tokens are read. */
  lemma {:induction false} DescribedTokens(input: string, pos: nat, e: Expression)
    requires Printable(e) && StandsAt(input, pos, Describe(e))
    requires pos + |Describe(e)| == |input| || !IsNumeric(input[pos + |Describe(e)|])
    ensures TokensFrom(input, pos) == PrependAll(CanonicalTokens(e), TokensFrom(input, pos + |Describe(e)|))
    decreases e, 1
  {
    match e
    case NumberLiteral(Finite(v)) => LiteralTokens(input, pos, v.Floor);
    case UnaryExpression(o) =>
      StandsSplit(input, pos, "-", Describe(o));
      CharStands(input, pos, '-');
      OneCharToken(input, pos);
      DescribedTokens(input, pos + 1, o);
      PrependAllTwice([Token(Minus, "-")], CanonicalTokens(o), TokensFrom(input, pos + |Describe(e)|));
    case BinaryExpression(op, l, r) => BinaryTokens(input, pos, op, l, r);
  }

  lemma LiteralTokens(input: string, pos: nat, n: nat)
    requires StandsAt(input, pos, Decimal(n))
    requires pos + |Decimal(n)| == |input| || !IsNumeric(input[pos + |Decimal(n)|])
    ensures TokensFrom(input, pos) == PrependAll([Token(Number, Decimal(n))], TokensFrom(input, pos + |Decimal(n)|))
  {
    var end := pos + |Decimal(n)|;
    assert forall i :: pos <= i < end ==> input[i] == input[pos..end][i - pos];
    NumberEndIs(input, pos + 1, end);
  }

  /** Where the parts of a printed binary expression stand. */
  lemma BinaryLayout(input: string, pos: nat, op: Operator, l: Expression, r: Expression)
    requires Printable(l) && Printable(r)
    requires StandsAt(input, pos, Describe(BinaryExpression(op, l, r)))
    ensures var a := pos + 1 + |Describe(l)|;
            var b := a + 3 + |Describe(r)|;
            && StandsAt(input, pos + 1, Describe(l)) && StandsAt(input, a + 3, Describe(r)) && b < |input|
            && b + 1 == pos + |Describe(BinaryExpression(op, l, r))|
            && input[pos] == '(' && input[a] == ' ' && input[a + 1] == OperatorChar(op) && input[a + 2] == ' ' && input[b] == ')'
  {
    hide *;
    DescribeBinary(op, l, r);
    PartsStand(input, pos, Describe(l), OperatorChar(op), Describe(r));
  }

  lemma DescribeBinary(op: Operator, l: Expression, r: Expression)
    requires Printable(l) && Printable(r)
    ensures Printable(BinaryExpression(op, l, r))
    ensures Describe(BinaryExpression(op, l, r)) == Parenthesised(Describe(l), OperatorChar(op), Describe(r))
  {
    hide Parenthesised;
  }

  lemma PartsStand(input: string, pos: nat, l: string, c: char, r: string)
    requires StandsAt(input, pos, Parenthesised(l, c, r))
    ensures |Parenthesised(l, c, r)| == |l| + |r| + 5
    ensures var a := pos + 1 + |l|;
            && StandsAt(input, pos + 1, l) && StandsAt(input, a + 3, r) && a + 3 + |r| < |input|
            && input[pos] == '(' && input[a] == ' ' && input[a + 1] == c && input[a + 2] == ' ' && input[a + 3 + |r|] == ')'
  {
    hide StandsAt;
    var a := pos + 1 + |l|;
    StandsSplit(input, pos, "(" + l + " " + [c] + " " + r, ")");
    StandsSplit(input, pos, "(" + l + " " + [c] + " ", r);
    StandsSplit(input, pos, "(" + l + " " + [c], " ");
    StandsSplit(input, pos, "(" + l + " ", [c]);
    StandsSplit(input, pos, "(" + l, " ");
    StandsSplit(input, pos, "(", l);
    CharStands(input, pos, '(');
    CharStands(input, a, ' ');
    CharStands(input, a + 1, c);
    CharStands(input, a + 2, ' ');
    CharStands(input, a + 3 + |r|, ')');
  }

  lemma SpaceIsSkipped(input: string, pos: nat)
    requires pos < |input| && input[pos] == ' '
    ensures TokensFrom(input, pos) == TokensFrom(input, pos + 1)
  {
  }

  /** From the space before the operator to the closing parenthesis. */
  lemma {:induction false} RightHalfTokens(input: string, a: nat, op: Operator, r: Expression)
    requires Printable(r) && StandsAt(input, a + 3, Describe(r)) && a + 3 + |Describe(r)| < |input|
    requires input[a] == ' ' && input[a + 1] == OperatorChar(op) && input[a + 2] == ' ' && input[a + 3 + |Describe(r)|] == ')'
    ensures TokensFrom(input, a) ==
            PrependAll([Token(KindOf(op), [OperatorChar(op)])] + CanonicalTokens(r) + [Token(RightParen, ")")],
                       TokensFrom(input, a + 4 + |Describe(r)|))
    decreases r, 2
  {
    hide StandsAt, Describe, TokensFrom, CanonicalTokens;
    var b := a + 3 + |Describe(r)|;
    SpaceIsSkipped(input, a);
    OneCharToken(input, a + 1);
    SpaceIsSkipped(input, a + 2);
    DescribedTokens(input, a + 3, r);
    OneCharToken(input, b);
    var sign, close := Token(KindOf(op), [OperatorChar(op)]), Token(RightParen, ")");
    assert SymbolType(OperatorChar(op)) == KindOf(op) && SymbolType(')') == RightParen;
    PrependAllTwice(CanonicalTokens(r), [close], TokensFrom(input, b + 1));
    PrependAllTwice([sign], CanonicalTokens(r) + [close], TokensFrom(input, b + 1));
    assert [sign] + (CanonicalTokens(r) + [close]) == [sign] + CanonicalTokens(r) + [close];
  }

  lemma {:induction false} BinaryTokens(input: string, pos: nat, op: Operator, l: Expression, r: Expression)
    requires Printable(l) && Printable(r)
    requires StandsAt(input, pos, Describe(BinaryExpression(op, l, r)))
    ensures var e := BinaryExpression(op, l, r);
            TokensFrom(input, pos) == PrependAll(CanonicalTokens(e), TokensFrom(input, pos + |Describe(e)|))
    decreases BinaryExpression(op, l, r), 0
  {
    hide TokensFrom, CanonicalTokens, Describe, StandsAt;
    BinaryLayout(input, pos, op, l, r);
    var a := pos + 1 + |Describe(l)|;
    var end := a + 4 + |Describe(r)|;
    var open, right := Token(LeftParen, "("), [Token(KindOf(op), [OperatorChar(op)])] + CanonicalTokens(r) + [Token(RightParen, ")")];
    assert SymbolType('(') == LeftParen && !IsNumeric(' ');
    OneCharToken(input, pos);
    DescribedTokens(input, pos + 1, l);
    RightHalfTokens(input, a, op, r);
    PrependAllTwice(CanonicalTokens(l), right, TokensFrom(input, end));
    PrependAllTwice([open], CanonicalTokens(l) + right, TokensFrom(input, end));
    CanonicalTokensOfBinary(op, l, r);
    assert [open] + (CanonicalTokens(l) + right) == CanonicalTokens(BinaryExpression(op, l, r));
  }

  /**
   Printing, tokenizing and parsing give back the tree, for every tree whose literals are
   non-negative integers.
   */
  lemma PrintReadsBack(e: Expression)
    requires Printable(e)
    ensures TokensFrom(Describe(e), 0) == Ok(CanonicalTokens(e) + [END_TOKEN])
    ensures ParseAt(CanonicalTokens(e) + [END_TOKEN]) == Done(e, |CanonicalTokens(e)| + 1)
  {
    var text := Describe(e);
    assert text[0..|text|] == text;
    hide Describe, CanonicalTokens;
    DescribedTokens(text, 0, e);
    assert TokensFrom(text, |text|) == Ok([END_TOKEN]);
    CanonicalParses(e);
  }

  datatype CalcError = Unexpected(c: char) | Malformed(error: ParseError)

  /** A text of digits and points that starts with a digit is one token. */
  lemma NumericTextIsOneToken(text: string)
    requires text != "" && IsDigit(text[0]) && forall i :: 0 <= i < |text| ==> IsNumeric(text[i])
    ensures TokensFrom(text, 0) == Ok([Token(Number, text), END_TOKEN])
  {
    NumberEndIs(text, 1, |text|);
    assert TokensFrom(text, |text|) == Ok([END_TOKEN]);
    assert text[0..|text|] == text;
    assert TokensFrom(text, 0) == Prepend(Token(Number, text), Ok([END_TOKEN]));
    assert [Token(Number, text)] + [END_TOKEN] == [Token(Number, text), END_TOKEN];
  }

  lemma NumberTokenParses(text: string)
    ensures ParseAt([Token(Number, text), END_TOKEN]) == Done(NumberLiteral(NumberOf(text)), 2)
  {
    hide NumberOf;
    var tokens := [Token(Number, text), END_TOKEN];
    assert FactorAt(tokens, 0) == Done(NumberLiteral(NumberOf(text)), 1);
    assert TermAt(tokens, 0) == Done(NumberLiteral(NumberOf(text)), 1);
    assert ExpressionAt(tokens, 0) == Done(NumberLiteral(NumberOf(text)), 1);
  }

  lemma PointTextIsNumeric(whole: string, fraction: string)
    requires AllDigits(whole) && AllDigits(fraction) && whole != ""
    ensures var text := whole + "." + fraction; IsDigit(text[0]) && forall i :: 0 <= i < |text| ==> IsNumeric(text[i])
  {
    var text := whole + "." + fraction;
    assert forall i :: 0 <= i < |whole| ==> text[i] == whole[i];
    assert text[|whole|] == '.';
    assert forall i :: |whole| < i < |text| ==> text[i] == fraction[i - |whole| - 1];
  }

  /** A number with a point is read whole: one literal, worth its digits with the point put back. */
  lemma PointIsRead(whole: string, fraction: string)
    requires AllDigits(whole) && AllDigits(fraction) && whole != ""
    ensures var text := whole + "." + fraction;
            && TokensFrom(text, 0) == Ok([Token(Number, text), END_TOKEN])
            && ParseAt([Token(Number, text), END_TOKEN]) == Done(NumberLiteral(NumberOf(text)), 2)
    ensures AllDigits(whole + fraction)
    ensures var n := NumberOf(whole + "." + fraction);
            n.Finite? && n.value * Pow10(|fraction|) == DigitsValue(whole + fraction) as real
  {
    hide NumberOf, DigitsValue, Pow10, TokensFrom, ParseAt;
    NumberOfFraction(whole, fraction);
    PointTextIsNumeric(whole, fraction);
    NumericTextIsOneToken(whole + "." + fraction);
    NumberTokenParses(whole + "." + fraction);
  }

  /** Tokenizes and parses a text; a printed tree comes back as itself. */
  method ParseText(text: string) returns (r: Outcome<Expression, CalcError>)
    ensures forall e :: Printable(e) && text == Describe(e) ==> r == Ok(e)
    ensures TokensFrom(text, 0).Error? <==> r.Error? && r.error.Unexpected?
    ensures r.Error? && r.error.Malformed? ==> TokensFrom(text, 0).Ok? && Mismatch(TokensFrom(text, 0).value, r.error.error)
    ensures r.Error? && r.error.Unexpected? ==> StartsNoToken(r.error.c) && r.error.c in text
    ensures r.Ok? ==> InOrder(r.value) == Erased(TokensFrom(text, 0).value)
  {
    var tokenizer := new Tokenizer(text);
    var tokens := tokenizer.Tokenize();
    forall e | Printable(e) && text == Describe(e)
      ensures tokens == Ok(CanonicalTokens(e) + [END_TOKEN])
      ensures ParseAt(CanonicalTokens(e) + [END_TOKEN]) == Done(e, |CanonicalTokens(e)| + 1)
    {
      PrintReadsBack(e);
    }
    if tokens.Error? {
      ErrorIsInText(text, 0);
      return Error(Unexpected(tokens.error));
    }
    TokensSpellInput(text, 0);
    ParseReadsNoFurther(tokens.value);
    var parser := new Parser(tokens.value);
    var parsed := parser.Parse();
    if ParseAt(tokens.value).Done? {
      ParsedInOrder(tokens.value);
    }
    r := if parsed.Ok? then Ok(parsed.value) else Error(Malformed(parsed.error));
  }

  // ---------- evaluation ----------

  /** The machine's arithmetic and reading of numbers, whatever they do with overflow, NaN or division by zero. */
  datatype Arithmetic = Arithmetic(
    number: string -> JsNumber,
    add: (JsNumber, JsNumber) -> JsNumber, sub: (JsNumber, JsNumber) -> JsNumber,
    mul: (JsNumber, JsNumber) -> JsNumber, div: (JsNumber, JsNumber) -> JsNumber, negate: JsNumber -> JsNumber)

  function Apply(m: Arithmetic, op: Operator, left: JsNumber, right: JsNumber): JsNumber {
    match op
    case Add => m.add(left, right)
    case Sub => m.sub(left, right)
    case Mul => m.mul(left, right)
    case Div => m.div(left, right)
  }

  ghost function ValueOf(m: Arithmetic, e: Expression): JsNumber {
    match e
    case NumberLiteral(v) => v
    case UnaryExpression(o) => m.negate(ValueOf(m, o))
    case BinaryExpression(op, l, r) => Apply(m, op, ValueOf(m, l), ValueOf(m, r))
  }

  ghost function NodeCount(e: Expression): nat {
    match e
    case NumberLiteral(_) => 1
    case UnaryExpression(o) => 1 + NodeCount(o)
    case BinaryExpression(_, l, r) => 1 + NodeCount(l) + NodeCount(r)
  }

  /** One count for every number and every operator sign of the tree read left to right. */
  lemma {:induction false} CountIsItems(e: Expression)
    ensures NodeCount(e) == |InOrder(e)|
  {
    match e
    case NumberLiteral(_) =>
    case UnaryExpression(o) => CountIsItems(o);
    case BinaryExpression(_, l, r) =>
      CountIsItems(l);
      CountIsItems(r);
  }

  /** The evaluation counter. */
  class EvalStats {
    var nodesEvaluated: nat

    constructor ()
      ensures nodesEvaluated == 0
    {
      nodesEvaluated := 0;
    }

    method Record()
      modifies this
      ensures nodesEvaluated == old(nodesEvaluated) + 1
    {
      nodesEvaluated := nodesEvaluated + 1;
    }
  }

  /** Recursive evaluation; every node is counted once. */
  method Evaluate(m: Arithmetic, e: Expression, stats: EvalStats) returns (v: JsNumber)
    modifies stats
    ensures v == ValueOf(m, e)
    ensures stats.nodesEvaluated == old(stats.nodesEvaluated) + NodeCount(e)
    decreases e
  {
    stats.Record();
    match e
    case NumberLiteral(value) => v := value;
    case UnaryExpression(o) =>
      var operand := Evaluate(m, o, stats);
      v := m.negate(operand);
    case BinaryExpression(op, l, r) =>
      var left := Evaluate(m, l, stats);
      var right := Evaluate(m, r, stats);
      v := Apply(m, op, left, right);
  }

  predicate IsOperator(token: string) {
    token == "+" || token == "-" || token == "*" || token == "/"
  }

  /** An operator by its text; anything but + - * divides. */
  function ApplyOperator(m: Arithmetic, token: string, left: JsNumber, right: JsNumber): JsNumber {
    if token == "+" then m.add(left, right)
    else if token == "-" then m.sub(left, right)
    else if token == "*" then m.mul(left, right)
    else m.div(left, right)
  }

  /** Top of the stack, 0 when it is empty. */
  function TopOr0(stack: seq<JsNumber>): JsNumber {
    if stack == [] then Finite(0.0) else stack[|stack| - 1]
  }

  function Popped(stack: seq<JsNumber>): seq<JsNumber> {
    if stack == [] then [] else stack[..|stack| - 1]
  }

  ghost function StepStack(m: Arithmetic, token: string, stack: seq<JsNumber>): seq<JsNumber> {
    if IsOperator(token) then
      var right, rest := TopOr0(stack), Popped(stack);
      Popped(rest) + [ApplyOperator(m, token, TopOr0(rest), right)]
    else stack + [m.number(token)]
  }

  /** The stack after a postfix token list. */
  ghost function RunPostfix(m: Arithmetic, tokens: seq<string>, stack: seq<JsNumber>): seq<JsNumber> {
    if tokens == [] then stack else RunPostfix(m, tokens[1..], StepStack(m, tokens[0], stack))
  }

  /** Postfix evaluation with a stack. */
  method EvaluatePostfix(m: Arithmetic, tokens: seq<string>) returns (v: JsNumber)
    ensures v == TopOr0(RunPostfix(m, tokens, []))
  {
    var stack: seq<JsNumber> := [];
    assert tokens[0..] == tokens;
    for i := 0 to |tokens|
      invariant RunPostfix(m, tokens, []) == RunPostfix(m, tokens[i..], stack)
    {
      var token := tokens[i];
      assert tokens[i..][1..] == tokens[i + 1..];
      if IsOperator(token) {
        var right := TopOr0(stack);
        stack := Popped(stack);
        var left := TopOr0(stack);
        stack := Popped(stack);
        stack := stack + [ApplyOperator(m, token, left, right)];
        continue;
      }
      stack := stack + [m.number(token)];
    }
    v := TopOr0(stack);
  }

  predicate NoUnary(e: Expression) {
    match e
    case NumberLiteral(_) => true
    case UnaryExpression(_) => false
    case BinaryExpression(_, l, r) => NoUnary(l) && NoUnary(r)
  }

  /** The tree's tokens, operands before operators, literals as `spell` writes them. */
  ghost function Postorder(spell: JsNumber -> string, e: Expression): seq<string>
    requires NoUnary(e)
  {
    match e
    case NumberLiteral(v) => [spell(v)]
    case BinaryExpression(op, l, r) => Postorder(spell, l) + Postorder(spell, r) + [[OperatorChar(op)]]
  }

  /** Every literal of the tree, as `spell` writes it, reads as itself and is not taken for an operator. */
  ghost predicate ReadsBack(m: Arithmetic, spell: JsNumber -> string, e: Expression) {
    match e
    case NumberLiteral(v) => m.number(spell(v)) == v && !IsOperator(spell(v))
    case UnaryExpression(o) => ReadsBack(m, spell, o)
    case BinaryExpression(_, l, r) => ReadsBack(m, spell, l) && ReadsBack(m, spell, r)
  }

  /** Non-negative integers in plain decimal. */
  function PlainDecimal(): JsNumber -> string {
    (v: JsNumber) => if v.Finite? && v.value >= 0.0 then Decimal(v.value.Floor) else ""
  }

  /** Plain decimals read back wherever the literals are non-negative integers. */
  lemma {:induction false} PlainDecimalsReadBack(m: Arithmetic, e: Expression)
    requires Printable(e) && forall n: nat :: m.number(Decimal(n)) == NumberOf(Decimal(n))
    ensures ReadsBack(m, PlainDecimal(), e)
  {
    match e
    case NumberLiteral(v) =>
      NumberOfDecimal(v.value.Floor);
      DecimalIsNoOperator(v.value.Floor);
    case UnaryExpression(o) => PlainDecimalsReadBack(m, o);
    case BinaryExpression(_, l, r) =>
      PlainDecimalsReadBack(m, l);
      PlainDecimalsReadBack(m, r);
  }

  lemma {:induction false} RunConcat(m: Arithmetic, a: seq<string>, b: seq<string>, stack: seq<JsNumber>)
    ensures RunPostfix(m, a + b, stack) == RunPostfix(m, b, RunPostfix(m, a, stack))
    decreases |a|
  {
    if a == [] {
      assert a + b == b;
    } else {
      assert (a + b)[1..] == a[1..] + b;
      RunConcat(m, a[1..], b, StepStack(m, a[0], stack));
    }
  }

  /** Running a tree's postorder pushes its value and leaves the stack below untouched. */
  lemma {:induction false} PostorderPushesValue(m: Arithmetic, spell: JsNumber -> string, e: Expression, stack: seq<JsNumber>)
    requires NoUnary(e) && ReadsBack(m, spell, e)
    ensures RunPostfix(m, Postorder(spell, e), stack) == stack + [ValueOf(m, e)]
    decreases e
  {
    match e
    case NumberLiteral(v) =>
      assert Postorder(spell, e)[1..] == [];
    case BinaryExpression(op, l, r) =>
      var sign := [OperatorChar(op)];
      var vl, vr := ValueOf(m, l), ValueOf(m, r);
      PostorderPushesValue(m, spell, l, stack);
      PostorderPushesValue(m, spell, r, stack + [vl]);
      RunConcat(m, Postorder(spell, l) + Postorder(spell, r), [sign], stack);
      RunConcat(m, Postorder(spell, l), Postorder(spell, r), stack);
      OperatorStep(m, op, stack, vl, vr);
  }

  lemma OperatorStep(m: Arithmetic, op: Operator, stack: seq<JsNumber>, left: JsNumber, right: JsNumber)
    ensures RunPostfix(m, [[OperatorChar(op)]], stack + [left] + [right]) == stack + [Apply(m, op, left, right)]
  {
    var full := stack + [left] + [right];
    assert Popped(full) == stack + [left] && Popped(stack + [left]) == stack;
    assert TopOr0(full) == right && TopOr0(stack + [left]) == left;
    assert ApplyOperator(m, [OperatorChar(op)], left, right) == Apply(m, op, left, right);
    assert [[OperatorChar(op)]][1..] == [];
  }

  lemma DecimalIsNoOperator(n: nat)
    ensures !IsOperator(Decimal(n))
  {
    assert IsDigit(Decimal(n)[0]);
  }

  /** Both evaluators agree on every tree without unary minus, however its literals are spelled, if they read back. */
  lemma EvaluatorsAgree(m: Arithmetic, spell: JsNumber -> string, e: Expression)
    requires NoUnary(e) && ReadsBack(m, spell, e)
    ensures TopOr0(RunPostfix(m, Postorder(spell, e), [])) == ValueOf(m, e)
  {
    PostorderPushesValue(m, spell, e, []);
  }

  // ---------- unary minus as subtraction from zero ----------

  /** Every unary minus written as a subtraction from 0. */
  ghost function MinusFromZero(e: Expression): Expression {
    match e
    case NumberLiteral(_) => e
    case UnaryExpression(o) => BinaryExpression(Sub, NumberLiteral(Finite(0.0)), MinusFromZero(o))
    case BinaryExpression(op, l, r) => BinaryExpression(op, MinusFromZero(l), MinusFromZero(r))
  }

  /** Where negating is subtracting from 0, that changes no value and leaves no unary minus. */
  lemma {:induction false} MinusFromZeroKeepsValue(m: Arithmetic, e: Expression)
    requires forall x :: m.negate(x) == m.sub(Finite(0.0), x)
    ensures NoUnary(MinusFromZero(e)) && ValueOf(m, MinusFromZero(e)) == ValueOf(m, e)
  {
    match e
    case NumberLiteral(_) =>
    case UnaryExpression(o) =>
      MinusFromZeroKeepsValue(m, o);
      assert ValueOf(m, NumberLiteral(Finite(0.0))) == Finite(0.0);
    case BinaryExpression(_, l, r) =>
      MinusFromZeroKeepsValue(m, l);
      MinusFromZeroKeepsValue(m, r);
  }

  lemma {:induction false} MinusFromZeroReadsBack(m: Arithmetic, spell: JsNumber -> string, e: Expression)
    requires ReadsBack(m, spell, e) && m.number(spell(Finite(0.0))) == Finite(0.0) && !IsOperator(spell(Finite(0.0)))
    ensures ReadsBack(m, spell, MinusFromZero(e))
  {
    match e
    case NumberLiteral(_) =>
    case UnaryExpression(o) =>
      MinusFromZeroReadsBack(m, spell, o);
      assert ReadsBack(m, spell, NumberLiteral(Finite(0.0)));
    case BinaryExpression(_, l, r) =>
      MinusFromZeroReadsBack(m, spell, l);
      MinusFromZeroReadsBack(m, spell, r);
  }

  /** So on every tree at all the postfix evaluator, given its subtractions from 0, agrees with the recursive one. */
  lemma EvaluatorsAgreeOnAll(m: Arithmetic, spell: JsNumber -> string, e: Expression)
    requires forall x :: m.negate(x) == m.sub(Finite(0.0), x)
    requires ReadsBack(m, spell, e) && m.number(spell(Finite(0.0))) == Finite(0.0) && !IsOperator(spell(Finite(0.0)))
    ensures NoUnary(MinusFromZero(e))
    ensures TopOr0(RunPostfix(m, Postorder(spell, MinusFromZero(e)), [])) == ValueOf(m, e)
  {
    MinusFromZeroKeepsValue(m, e);
    MinusFromZeroReadsBack(m, spell, e);
    EvaluatorsAgree(m, spell, MinusFromZero(e));
  }

  // ---------- exact arithmetic ----------

  /** The machine adds, subtracts and negates finite numbers exactly. */
  ghost predicate ExactSums(m: Arithmetic) {
    && (forall a: JsNumber, b: JsNumber {:trigger m.add(a, b)} :: a.Finite? && b.Finite? ==> m.add(a, b) == Finite(a.value + b.value))
    && (forall a: JsNumber, b: JsNumber {:trigger m.sub(a, b)} :: a.Finite? && b.Finite? ==> m.sub(a, b) == Finite(a.value - b.value))
    && (forall a: JsNumber {:trigger m.negate(a)} :: a.Finite? ==> m.negate(a) == Finite(-a.value))
  }

  /** It multiplies finite numbers exactly, and its quotients are exact. */
  ghost predicate ExactProducts(m: Arithmetic) {
    && (forall a: JsNumber, b: JsNumber {:trigger m.mul(a, b)} :: a.Finite? && b.Finite? ==> m.mul(a, b) == Finite(a.value * b.value))
    && (forall a: JsNumber, b: JsNumber {:trigger m.div(a, b)} :: a.Finite? && b.Finite? && b.value != 0.0 ==>
          m.div(a, b).Finite? && m.div(a, b).value * b.value == a.value)
  }

  /** Addition undoes subtraction, and two minus signs cancel. */
  lemma SubtractionUndone(m: Arithmetic, l: Expression, r: Expression)
    requires ExactSums(m) && ValueOf(m, l).Finite? && ValueOf(m, r).Finite?
    ensures ValueOf(m, BinaryExpression(Add, BinaryExpression(Sub, l, r), r)) == ValueOf(m, l)
    ensures ValueOf(m, BinaryExpression(Add, UnaryExpression(l), l)) == Finite(0.0)
    ensures ValueOf(m, UnaryExpression(UnaryExpression(l))) == ValueOf(m, l)
  {
    var x, y := ValueOf(m, l), ValueOf(m, r);
    assert ValueOf(m, BinaryExpression(Sub, l, r)) == m.sub(x, y);
    assert ValueOf(m, UnaryExpression(l)) == m.negate(x);
  }

  /** Multiplication undoes division. */
  lemma DivisionUndone(m: Arithmetic, l: Expression, r: Expression)
    requires ExactProducts(m) && ValueOf(m, l).Finite? && ValueOf(m, r).Finite? && ValueOf(m, r) != Finite(0.0)
    ensures ValueOf(m, BinaryExpression(Mul, BinaryExpression(Div, l, r), r)) == ValueOf(m, l)
  {
    var x, y := ValueOf(m, l), ValueOf(m, r);
    hide ExactProducts;
    assert ValueOf(m, BinaryExpression(Div, l, r)) == m.div(x, y);
    assert ValueOf(m, BinaryExpression(Mul, BinaryExpression(Div, l, r), r)) == m.mul(m.div(x, y), y);
    hide *;
    QuotientTimes(m, x, y);
  }

  lemma QuotientTimes(m: Arithmetic, x: JsNumber, y: JsNumber)
    requires ExactProducts(m) && x.Finite? && y.Finite? && y.value != 0.0
    ensures m.mul(m.div(x, y), y) == x
  {
    var q := m.div(x, y);
    assert q.Finite? && q.value * y.value == x.value;
  }

  // ---------- an empty stack reads zero ----------

  ghost function Zeros(k: nat): seq<JsNumber> {
    seq(k, _ => Finite(0.0))
  }

  lemma StepOnZeros(m: Arithmetic, token: string, stack: seq<JsNumber>, k: nat) returns (j: nat)
    ensures StepStack(m, token, Zeros(k) + stack) == Zeros(j) + StepStack(m, token, stack)
  {
    var full := Zeros(k) + stack;
    if !IsOperator(token) {
      j := k;
      assert full + [m.number(token)] == Zeros(k) + (stack + [m.number(token)]);
      return;
    }
    j := if |stack| >= 2 then k else if k + |stack| >= 2 then k + |stack| - 2 else 0;
    assert TopOr0(full) == TopOr0(stack) && TopOr0(Popped(full)) == TopOr0(Popped(stack));
    assert Popped(Popped(full)) == Zeros(j) + Popped(Popped(stack));
    var y := ApplyOperator(m, token, TopOr0(Popped(stack)), TopOr0(stack));
    assert (Zeros(j) + Popped(Popped(stack))) + [y] == Zeros(j) + (Popped(Popped(stack)) + [y]);
  }

  /** On any token list, missing operands are zeros: any number of zeros below the stack changes no result. */
  lemma {:induction false} MissingOperandsAreZeros(m: Arithmetic, tokens: seq<string>, stack: seq<JsNumber>, k: nat)
    ensures TopOr0(RunPostfix(m, tokens, Zeros(k) + stack)) == TopOr0(RunPostfix(m, tokens, stack))
    decreases |tokens|
  {
    if tokens != [] {
      var j := StepOnZeros(m, tokens[0], stack, k);
      MissingOperandsAreZeros(m, tokens[1..], StepStack(m, tokens[0], stack), j);
    }
  }
}
