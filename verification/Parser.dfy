/**
 The calculator's recursive-descent parser (sample_projects/project_02/src/parser/parser.ts), proved
 to accept exactly the grammar's derivations and to return their trees.
 */
module Parser {
  import opened Decimals
  import opened Results
  import opened Tokenizer
  import opened Expressions

  datatype ParseError = Expected(expected: TokenType, found: TokenType) | ReadPastEnd

  datatype Parsed = Done(tree: Expression, next: nat) | Failed(error: ParseError)

  predicate IsAdditive(k: TokenType) {
    k == Plus || k == Minus
  }

  predicate IsMultiplicative(k: TokenType) {
    k == Star || k == Slash
  }

  function OperatorOf(k: TokenType): Operator {
    if k == Plus then Add else if k == Minus then Sub else if k == Star then Mul else Div
  }

  // ---------- what each level computes ----------

  ghost function ExpectAt(tokens: seq<Token>, pos: nat, kind: TokenType, tree: Expression): (r: Parsed)
    ensures r.Done? ==> r.next == pos + 1 <= |tokens|
  {
    if pos >= |tokens| then Failed(ReadPastEnd)
    else if tokens[pos].kind != kind then Failed(Expected(kind, tokens[pos].kind))
    else Done(tree, pos + 1)
  }

  ghost function ExpressionAt(tokens: seq<Token>, pos: nat): (r: Parsed)
    requires pos <= |tokens|
    ensures r.Done? ==> pos < r.next <= |tokens|
    decreases |tokens| - pos, 3
  {
    var left := TermAt(tokens, pos);
    if left.Failed? then left else ExpressionLoop(tokens, left.tree, left.next)
  }

  ghost function ExpressionLoop(tokens: seq<Token>, left: Expression, pos: nat): (r: Parsed)
    requires pos <= |tokens|
    ensures r.Done? ==> pos <= r.next <= |tokens|
    decreases |tokens| - pos, 4
  {
    if pos >= |tokens| then Failed(ReadPastEnd)
    else if IsAdditive(tokens[pos].kind) then
      var right := TermAt(tokens, pos + 1);
      if right.Failed? then right
      else ExpressionLoop(tokens, BinaryExpression(OperatorOf(tokens[pos].kind), left, right.tree), right.next)
    else Done(left, pos)
  }

  ghost function TermAt(tokens: seq<Token>, pos: nat): (r: Parsed)
    requires pos <= |tokens|
    ensures r.Done? ==> pos < r.next <= |tokens|
    decreases |tokens| - pos, 2
  {
    var left := FactorAt(tokens, pos);
    if left.Failed? then left else TermLoop(tokens, left.tree, left.next)
  }

  ghost function TermLoop(tokens: seq<Token>, left: Expression, pos: nat): (r: Parsed)
    requires pos <= |tokens|
    ensures r.Done? ==> pos <= r.next <= |tokens|
    decreases |tokens| - pos, 4
  {
    if pos >= |tokens| then Failed(ReadPastEnd)
    else if IsMultiplicative(tokens[pos].kind) then
      var right := FactorAt(tokens, pos + 1);
      if right.Failed? then right
      else TermLoop(tokens, BinaryExpression(OperatorOf(tokens[pos].kind), left, right.tree), right.next)
    else Done(left, pos)
  }

  ghost function FactorAt(tokens: seq<Token>, pos: nat): (r: Parsed)
    requires pos <= |tokens|
    ensures r.Done? ==> pos < r.next <= |tokens|
    decreases |tokens| - pos, 1
  {
    if pos >= |tokens| then Failed(ReadPastEnd)
    else if tokens[pos].kind == Minus then
      var operand := FactorAt(tokens, pos + 1);
      if operand.Failed? then operand else Done(UnaryExpression(operand.tree), operand.next)
    else PrimaryAt(tokens, pos)
  }

  ghost function PrimaryAt(tokens: seq<Token>, pos: nat): (r: Parsed)
    requires pos < |tokens|
    ensures r.Done? ==> pos < r.next <= |tokens|
    decreases |tokens| - pos, 0
  {
    if tokens[pos].kind == LeftParen then
      var inner := ExpressionAt(tokens, pos + 1);
      if inner.Failed? then inner else ExpectAt(tokens, inner.next, RightParen, inner.tree)
    else ExpectAt(tokens, pos, Number, NumberLiteral(NumberOf(tokens[pos].value)))
  }

  ghost function ParseAt(tokens: seq<Token>): Parsed {
    var e := ExpressionAt(tokens, 0);
    if e.Failed? then e else ExpectAt(tokens, e.next, End, e.tree)
  }

  // ---------- the parser object ----------

  /** `r` and the cursor are what `p` says. */
  ghost predicate Agrees(p: Parsed, r: Outcome<Expression, ParseError>, position: nat) {
    match p
    case Failed(e) => r == Error(e)
    case Done(t, n) => r == Ok(t) && position == n
  }

  class Parser {
    const tokens: seq<Token>
    var position: nat

    ghost predicate Valid()
      reads this
    {
      position <= |tokens|
    }

    constructor (tokens: seq<Token>)
      ensures Valid() && this.tokens == tokens && position == 0
    {
      this.tokens := tokens;
      this.position := 0;
    }

    /** Type of the current token; reading beyond the list is an error. */
    method Peek() returns (kind: Outcome<TokenType, ParseError>)
      ensures kind == if position < |tokens| then Ok(tokens[position].kind) else Error(ReadPastEnd)
    {
      kind := if position < |tokens| then Ok(tokens[position].kind) else Error(ReadPastEnd);
    }

    /** Consumes the current token if it has the expected type. */
    method Expect(kind: TokenType, tree: Expression) returns (r: Outcome<Expression, ParseError>)
      requires Valid()
      modifies this
      ensures Valid() && Agrees(ExpectAt(tokens, old(position), kind, tree), r, position)
    {
      if position >= |tokens| {
        return Error(ReadPastEnd);
      }
      var actual := tokens[position].kind;
      if actual != kind {
        return Error(Expected(kind, actual));
      }
      position := position + 1;
      r := Ok(tree);
    }

    method Parse() returns (r: Outcome<Expression, ParseError>)
      requires Valid() && position == 0
      modifies this
      ensures Valid() && Agrees(ParseAt(tokens), r, position)
    {
      r := ParseExpression();
      if r.Ok? {
        r := Expect(End, r.value);
      }
    }

    /** Addition and subtraction. */
    method ParseExpression() returns (r: Outcome<Expression, ParseError>)
      requires Valid()
      modifies this
      ensures Valid() && Agrees(ExpressionAt(tokens, old(position)), r, position)
      decreases |tokens| - position, 3
    {
      ghost var start := position;
      var left := ParseTerm();
      if left.Error? {
        return left;
      }
      while true
        invariant Valid() && left.Ok? && start < position
        invariant ExpressionAt(tokens, start) == ExpressionLoop(tokens, left.value, position)
        decreases |tokens| - position
      {
        var kind := Peek();
        if kind.Error? {
          return Error(kind.error);
        }
        if !IsAdditive(kind.value) {
          return left;
        }
        position := position + 1;
        var right := ParseTerm();
        if right.Error? {
          return right;
        }
        left := Ok(BinaryExpression(OperatorOf(kind.value), left.value, right.value));
      }
    }

    /** Multiplication and division. */
    method ParseTerm() returns (r: Outcome<Expression, ParseError>)
      requires Valid()
      modifies this
      ensures Valid() && Agrees(TermAt(tokens, old(position)), r, position)
      decreases |tokens| - position, 2
    {
      ghost var start := position;
      var left := ParseFactor();
      if left.Error? {
        return left;
      }
      while true
        invariant Valid() && left.Ok? && start < position
        invariant TermAt(tokens, start) == TermLoop(tokens, left.value, position)
        decreases |tokens| - position
      {
        var kind := Peek();
        if kind.Error? {
          return Error(kind.error);
        }
        if !IsMultiplicative(kind.value) {
          return left;
        }
        position := position + 1;
        var right := ParseFactor();
        if right.Error? {
          return right;
        }
        left := Ok(BinaryExpression(OperatorOf(kind.value), left.value, right.value));
      }
    }

    /** Unary minus, then a primary. */
    method ParseFactor() returns (r: Outcome<Expression, ParseError>)
      requires Valid()
      modifies this
      ensures Valid() && Agrees(FactorAt(tokens, old(position)), r, position)
      decreases |tokens| - position, 1
    {
      var kind := Peek();
      if kind.Error? {
        return Error(kind.error);
      }
      if kind.value == Minus {
        position := position + 1;
        var operand := ParseFactor();
        return if operand.Ok? then Ok(UnaryExpression(operand.value)) else operand;
      }
      r := ParsePrimary();
    }

    /** A number literal or a parenthesised sub-expression. */
    method ParsePrimary() returns (r: Outcome<Expression, ParseError>)
      requires Valid() && position < |tokens|
      modifies this
      ensures Valid() && Agrees(PrimaryAt(tokens, old(position)), r, position)
      decreases |tokens| - position, 0
    {
      if tokens[position].kind == LeftParen {
        position := position + 1;
        r := ParseExpression();
        if r.Ok? {
          r := Expect(RightParen, r.value);
        }
        return;
      }
      r := Expect(Number, NumberLiteral(NumberOf(tokens[position].value)));
    }
  }

  // ---------- the grammar ----------

  datatype ExprD = OneTerm(term: TermD) | Sum(left: ExprD, op: Token, right: TermD)
  datatype TermD = OneFactor(factor: FactorD) | Product(left: TermD, op: Token, right: FactorD)
  datatype FactorD = Negated(minus: Token, operand: FactorD) | Grouped(open: Token, inner: ExprD, close: Token) | Literal(number: Token)

  ghost predicate ExprOk(d: ExprD) {
    match d
    case OneTerm(t) => TermOk(t)
    case Sum(l, op, r) => ExprOk(l) && IsAdditive(op.kind) && TermOk(r)
  }

  ghost predicate TermOk(d: TermD) {
    match d
    case OneFactor(f) => FactorOk(f)
    case Product(l, op, r) => TermOk(l) && IsMultiplicative(op.kind) && FactorOk(r)
  }

  ghost predicate FactorOk(d: FactorD) {
    match d
    case Negated(m, f) => m.kind == Minus && FactorOk(f)
    case Grouped(o, e, c) => o.kind == LeftParen && ExprOk(e) && c.kind == RightParen
    case Literal(n) => n.kind == Number
  }

  ghost function ExprTokens(d: ExprD): seq<Token> {
    match d
    case OneTerm(t) => TermTokens(t)
    case Sum(l, op, r) => ExprTokens(l) + [op] + TermTokens(r)
  }

  ghost function TermTokens(d: TermD): seq<Token> {
    match d
    case OneFactor(f) => FactorTokens(f)
    case Product(l, op, r) => TermTokens(l) + [op] + FactorTokens(r)
  }

  ghost function FactorTokens(d: FactorD): seq<Token> {
    match d
    case Negated(m, f) => [m] + FactorTokens(f)
    case Grouped(o, e, c) => [o] + ExprTokens(e) + [c]
    case Literal(n) => [n]
  }

  ghost function ExprTree(d: ExprD): Expression {
    match d
    case OneTerm(t) => TermTree(t)
    case Sum(l, op, r) => BinaryExpression(OperatorOf(op.kind), ExprTree(l), TermTree(r))
  }

  ghost function TermTree(d: TermD): Expression {
    match d
    case OneFactor(f) => FactorTree(f)
    case Product(l, op, r) => BinaryExpression(OperatorOf(op.kind), TermTree(l), FactorTree(r))
  }

  ghost function FactorTree(d: FactorD): Expression {
    match d
    case Negated(_, f) => UnaryExpression(FactorTree(f))
    case Grouped(_, e, _) => ExprTree(e)
    case Literal(n) => NumberLiteral(NumberOf(n.value))
  }

  // ---------- every derivation is parsed ----------

  /** `part` stands at `pos` in `tokens`. */
  ghost predicate StandsAt<T>(tokens: seq<T>, pos: nat, part: seq<T>) {
    pos + |part| <= |tokens| && tokens[pos..pos + |part|] == part
  }

  lemma StandsSplit<T>(tokens: seq<T>, pos: nat, a: seq<T>, b: seq<T>)
    requires StandsAt(tokens, pos, a + b)
    ensures StandsAt(tokens, pos, a) && StandsAt(tokens, pos + |a|, b)
  {
    assert tokens[pos..pos + |a|] == tokens[pos..pos + |a + b|][..|a|] == a;
    assert tokens[pos + |a|..pos + |a + b|] == tokens[pos..pos + |a + b|][|a|..] == b;
  }

  lemma {:induction false} FactorParsed(d: FactorD, tokens: seq<Token>, pos: nat)
    requires FactorOk(d) && StandsAt(tokens, pos, FactorTokens(d))
    ensures FactorAt(tokens, pos) == Done(FactorTree(d), pos + |FactorTokens(d)|)
    decreases d
  {
    hide NumberOf, ExpressionAt, TermAt, TermLoop, ExprOk, TermOk, ExprTree, TermTree, ExprTokens, TermTokens;
    match d
    case Negated(m, f) =>
      StandsSplit(tokens, pos, [m], FactorTokens(f));
      assert tokens[pos] == tokens[pos..pos + 1][0] == m;
      FactorParsed(f, tokens, pos + 1);
    case Grouped(o, e, c) =>
      StandsSplit(tokens, pos, [o] + ExprTokens(e), [c]);
      StandsSplit(tokens, pos, [o], ExprTokens(e));
      assert tokens[pos] == tokens[pos..pos + 1][0] == o;
      var close := pos + 1 + |ExprTokens(e)|;
      assert tokens[close] == tokens[close..close + 1][0] == c;
      ExprParsed(e, tokens, pos + 1);
    case Literal(n) =>
      assert tokens[pos] == tokens[pos..pos + 1][0] == n;
  }

  lemma {:induction false} TermParsed(d: TermD, tokens: seq<Token>, pos: nat)
    requires TermOk(d) && StandsAt(tokens, pos, TermTokens(d))
    ensures TermAt(tokens, pos) == TermLoop(tokens, TermTree(d), pos + |TermTokens(d)|)
    decreases d, 0
  {
    hide ExpressionAt, FactorAt, FactorOk, FactorTree, FactorTokens, StandsAt, TermLoop, IsMultiplicative;
    match d
    case OneFactor(f) =>
      FactorParsed(f, tokens, pos);
    case Product(l, op, r) =>
      var at := pos + |TermTokens(l)|;
      ProductStands(l, op, r, tokens, pos);
      TermParsed(l, tokens, pos);
      FactorParsed(r, tokens, at + 1);
      LoopTakesFactor(tokens, TermTree(l), at);
  }

  /** Where the parts of a product stand. */
  lemma ProductStands(l: TermD, op: Token, r: FactorD, tokens: seq<Token>, pos: nat)
    requires StandsAt(tokens, pos, TermTokens(l) + [op] + FactorTokens(r))
    ensures var at := pos + |TermTokens(l)|;
            && StandsAt(tokens, pos, TermTokens(l)) && StandsAt(tokens, at + 1, FactorTokens(r))
            && at < |tokens| && tokens[at] == op
  {
    hide TermTokens, FactorTokens;
    StandsSplit(tokens, pos, TermTokens(l) + [op], FactorTokens(r));
    StandsSplit(tokens, pos, TermTokens(l), [op]);
    var at := pos + |TermTokens(l)|;
    assert tokens[at] == tokens[at..at + 1][0] == op;
  }

  lemma LoopTakesFactor(tokens: seq<Token>, left: Expression, pos: nat)
    requires pos < |tokens| && IsMultiplicative(tokens[pos].kind) && FactorAt(tokens, pos + 1).Done?
    ensures var right := FactorAt(tokens, pos + 1);
            TermLoop(tokens, left, pos) ==
            TermLoop(tokens, BinaryExpression(OperatorOf(tokens[pos].kind), left, right.tree), right.next)
  {
    hide FactorAt;
  }

  /** Before anything but * and /, a term's derivation is exactly what the term level consumes. */
  lemma TermStops(d: TermD, tokens: seq<Token>, pos: nat)
    requires TermOk(d) && StandsAt(tokens, pos, TermTokens(d))
    requires pos + |TermTokens(d)| < |tokens| && !IsMultiplicative(tokens[pos + |TermTokens(d)|].kind)
    ensures TermAt(tokens, pos) == Done(TermTree(d), pos + |TermTokens(d)|)
    decreases d, 1
  {
    hide TermAt, TermOk, TermTree, TermTokens, StandsAt;
    TermParsed(d, tokens, pos);
  }

  lemma {:induction false} ExprParsed(d: ExprD, tokens: seq<Token>, pos: nat)
    requires ExprOk(d) && StandsAt(tokens, pos, ExprTokens(d))
    requires pos + |ExprTokens(d)| < |tokens| && !IsMultiplicative(tokens[pos + |ExprTokens(d)|].kind)
    ensures ExpressionAt(tokens, pos) == ExpressionLoop(tokens, ExprTree(d), pos + |ExprTokens(d)|)
    decreases d
  {
    hide TermAt, TermOk, TermTree, TermTokens, StandsAt, ExpressionLoop, IsMultiplicative;
    match d
    case OneTerm(t) =>
      TermStops(t, tokens, pos);
    case Sum(l, op, r) =>
      var at := pos + |ExprTokens(l)|;
      SumStands(l, op, r, tokens, pos);
      ExprParsed(l, tokens, pos);
      TermStops(r, tokens, at + 1);
      LoopTakesTerm(tokens, ExprTree(l), at);
  }

  /** Where the parts of a sum stand. */
  lemma SumStands(l: ExprD, op: Token, r: TermD, tokens: seq<Token>, pos: nat)
    requires IsAdditive(op.kind) && StandsAt(tokens, pos, ExprTokens(l) + [op] + TermTokens(r))
    ensures var at := pos + |ExprTokens(l)|;
            && StandsAt(tokens, pos, ExprTokens(l)) && StandsAt(tokens, at + 1, TermTokens(r))
            && at < |tokens| && tokens[at] == op && !IsMultiplicative(op.kind)
  {
    hide ExprTokens, TermTokens;
    StandsSplit(tokens, pos, ExprTokens(l) + [op], TermTokens(r));
    StandsSplit(tokens, pos, ExprTokens(l), [op]);
    var at := pos + |ExprTokens(l)|;
    assert tokens[at] == tokens[at..at + 1][0] == op;
  }

  lemma LoopTakesTerm(tokens: seq<Token>, left: Expression, pos: nat)
    requires pos < |tokens| && IsAdditive(tokens[pos].kind) && TermAt(tokens, pos + 1).Done?
    ensures var right := TermAt(tokens, pos + 1);
            ExpressionLoop(tokens, left, pos) ==
            ExpressionLoop(tokens, BinaryExpression(OperatorOf(tokens[pos].kind), left, right.tree), right.next)
  {
    hide TermAt;
  }

  lemma Joined(tokens: seq<Token>, start: nat, pos: nat, next: nat)
    requires start <= pos < next <= |tokens|
    ensures tokens[start..next] == tokens[start..pos] + [tokens[pos]] + tokens[pos + 1..next]
  {
  }

  // ---------- everything parsed has a derivation ----------

  lemma {:induction false} FactorDerived(tokens: seq<Token>, pos: nat) returns (d: FactorD)
    requires pos <= |tokens| && FactorAt(tokens, pos).Done?
    ensures var r := FactorAt(tokens, pos);
            FactorOk(d) && FactorTokens(d) == tokens[pos..r.next] && FactorTree(d) == r.tree
    decreases |tokens| - pos, 1
  {
    if tokens[pos].kind == Minus {
      var f := FactorDerived(tokens, pos + 1);
      d := Negated(tokens[pos], f);
    } else if tokens[pos].kind == LeftParen {
      var e := ExprDerived(tokens, pos + 1);
      var close := ExpressionAt(tokens, pos + 1).next;
      d := Grouped(tokens[pos], e, tokens[close]);
      assert tokens[pos..close + 1] == [tokens[pos]] + tokens[pos + 1..close] + [tokens[close]];
    } else {
      d := Literal(tokens[pos]);
    }
  }

  lemma {:induction false} TermDerived(tokens: seq<Token>, pos: nat) returns (d: TermD)
    requires pos <= |tokens| && TermAt(tokens, pos).Done?
    ensures var r := TermAt(tokens, pos);
            TermOk(d) && TermTokens(d) == tokens[pos..r.next] && TermTree(d) == r.tree
    decreases |tokens| - pos, 2
  {
    var f := FactorDerived(tokens, pos);
    d := TermLoopDerived(tokens, pos, OneFactor(f), FactorAt(tokens, pos).next);
  }

  lemma {:induction false} TermLoopDerived(tokens: seq<Token>, start: nat, left: TermD, pos: nat) returns (d: TermD)
    requires start < pos <= |tokens| && TermLoop(tokens, TermTree(left), pos).Done?
    requires TermOk(left) && TermTokens(left) == tokens[start..pos]
    ensures var r := TermLoop(tokens, TermTree(left), pos);
            TermOk(d) && TermTokens(d) == tokens[start..r.next] && TermTree(d) == r.tree
    decreases |tokens| - pos, 4
  {
    if IsMultiplicative(tokens[pos].kind) {
      var f := FactorDerived(tokens, pos + 1);
      var next := FactorAt(tokens, pos + 1).next;
      Joined(tokens, start, pos, next);
      d := TermLoopDerived(tokens, start, Product(left, tokens[pos], f), next);
    } else {
      d := left;
    }
  }

  lemma {:induction false} ExprDerived(tokens: seq<Token>, pos: nat) returns (d: ExprD)
    requires pos <= |tokens| && ExpressionAt(tokens, pos).Done?
    ensures var r := ExpressionAt(tokens, pos);
            ExprOk(d) && ExprTokens(d) == tokens[pos..r.next] && ExprTree(d) == r.tree
    decreases |tokens| - pos, 3
  {
    var t := TermDerived(tokens, pos);
    d := ExprLoopDerived(tokens, pos, OneTerm(t), TermAt(tokens, pos).next);
  }

  lemma {:induction false} ExprLoopDerived(tokens: seq<Token>, start: nat, left: ExprD, pos: nat) returns (d: ExprD)
    requires start < pos <= |tokens| && ExpressionLoop(tokens, ExprTree(left), pos).Done?
    requires ExprOk(left) && ExprTokens(left) == tokens[start..pos]
    ensures var r := ExpressionLoop(tokens, ExprTree(left), pos);
            ExprOk(d) && ExprTokens(d) == tokens[start..r.next] && ExprTree(d) == r.tree
    decreases |tokens| - pos, 4
  {
    if IsAdditive(tokens[pos].kind) {
      var t := TermDerived(tokens, pos + 1);
      var next := TermAt(tokens, pos + 1).next;
      Joined(tokens, start, pos, next);
      d := ExprLoopDerived(tokens, start, Sum(left, tokens[pos], t), next);
    } else {
      d := left;
    }
  }

  // ---------- the parser is the grammar ----------

  /** The tokens before the last. */
  ghost function Body(tokens: seq<Token>): seq<Token>
    requires tokens != []
  {
    tokens[..|tokens| - 1]
  }

  /** `d` derives these tokens and stands for `tree`. */
  ghost predicate Derives(tokens: seq<Token>, tree: Expression, d: ExprD) {
    ExprOk(d) && ExprTokens(d) == tokens && ExprTree(d) == tree
  }

  /** Where the first End stands, nothing before it is an End. */
  lemma {:induction false} NoEndInside(d: ExprD)
    requires ExprOk(d)
    ensures forall t :: t in ExprTokens(d) ==> t.kind != End
    decreases d
  {
    match d
    case OneTerm(t) => NoEndInTerm(t);
    case Sum(l, op, r) => NoEndInside(l); NoEndInTerm(r);
  }

  lemma {:induction false} NoEndInTerm(d: TermD)
    requires TermOk(d)
    ensures forall t :: t in TermTokens(d) ==> t.kind != End
    decreases d
  {
    match d
    case OneFactor(f) => NoEndInFactor(f);
    case Product(l, op, r) => NoEndInTerm(l); NoEndInFactor(r);
  }

  lemma {:induction false} NoEndInFactor(d: FactorD)
    requires FactorOk(d)
    ensures forall t :: t in FactorTokens(d) ==> t.kind != End
    decreases d
  {
    match d
    case Negated(m, f) => NoEndInFactor(f);
    case Grouped(o, e, c) => NoEndInside(e);
    case Literal(n) =>
  }

  /**
   On a token list whose only End is last, the parser returns a tree exactly when the grammar derives
   the tokens before End with that tree.
   */
  lemma ParserIsGrammar(tokens: seq<Token>, tree: Expression)
    requires EndsOnce(tokens)
    ensures ParseAt(tokens) == Done(tree, |tokens|) <==> exists d :: Derives(Body(tokens), tree, d)
    ensures ParseAt(tokens).Done? ==> ParseAt(tokens).next == |tokens|
  {
    var n := |tokens| - 1;
    if ParseAt(tokens).Done? {
      var d := ExprDerived(tokens, 0);
      var next := ExpressionAt(tokens, 0).next;
      assert tokens[next].kind == End && next == n;
      assert tokens[..n] == tokens[0..next];
      assert Derives(Body(tokens), ParseAt(tokens).tree, d);
    }
    if d :| Derives(Body(tokens), tree, d) {
      assert tokens[0..0 + |ExprTokens(d)|] == tokens[..n];
      ExprParsed(d, tokens, 0);
    }
  }

  /** The grammar gives a token list at most one tree. */
  lemma GrammarUnambiguous(d1: ExprD, d2: ExprD)
    requires ExprOk(d1) && ExprOk(d2) && ExprTokens(d1) == ExprTokens(d2)
    ensures ExprTree(d1) == ExprTree(d2)
  {
    var tokens := ExprTokens(d1) + [END_TOKEN];
    NoEndInside(d1);
    forall i | 0 <= i < |tokens| - 1 ensures tokens[i].kind != End {
      assert tokens[i] == ExprTokens(d1)[i] && ExprTokens(d1)[i] in ExprTokens(d1);
    }
    assert Body(tokens) == ExprTokens(d1);
    assert Derives(Body(tokens), ExprTree(d1), d1) && Derives(Body(tokens), ExprTree(d2), d2);
    ParserIsGrammar(tokens, ExprTree(d1));
    ParserIsGrammar(tokens, ExprTree(d2));
  }

  // ---------- precedence and associativity ----------

  ghost predicate Tight(k: TokenType) {
    k in {Star, Slash}
  }

  ghost function Meant(k: TokenType): Operator
    requires k in {Plus, Minus, Star, Slash}
  {
    match k
    case Plus => Add
    case Minus => Sub
    case Star => Mul
    case _ => Div
  }

  /** How two operators in a row group. */
  ghost function Grouped2(t1: Expression, o1: TokenType, t2: Expression, o2: TokenType, t3: Expression): Expression
    requires o1 in {Plus, Minus, Star, Slash} && o2 in {Plus, Minus, Star, Slash}
  {
    if !Tight(o1) && Tight(o2) then BinaryExpression(Meant(o1), t1, BinaryExpression(Meant(o2), t2, t3))
    else BinaryExpression(Meant(o2), BinaryExpression(Meant(o1), t1, t2), t3)
  }

  ghost function PairTokens(f1: FactorD, o1: Token, f2: FactorD, o2: Token, f3: FactorD): seq<Token> {
    FactorTokens(f1) + [o1] + FactorTokens(f2) + [o2] + FactorTokens(f3)
  }

  /** The derivation of two operators between three factors. */
  lemma PairDerivation(f1: FactorD, o1: Token, f2: FactorD, o2: Token, f3: FactorD) returns (d: ExprD)
    requires FactorOk(f1) && FactorOk(f2) && FactorOk(f3)
    requires o1.kind in {Plus, Minus, Star, Slash} && o2.kind in {Plus, Minus, Star, Slash}
    ensures ExprOk(d) && ExprTokens(d) == PairTokens(f1, o1, f2, o2, f3)
    ensures ExprTree(d) == Grouped2(FactorTree(f1), o1.kind, FactorTree(f2), o2.kind, FactorTree(f3))
  {
    hide FactorOk, FactorTokens, FactorTree;
    var t1, t2, t3 := OneFactor(f1), OneFactor(f2), OneFactor(f3);
    assert TermOk(t1) && TermTokens(t1) == FactorTokens(f1) && TermTree(t1) == FactorTree(f1);
    assert TermOk(t2) && TermTokens(t2) == FactorTokens(f2) && TermTree(t2) == FactorTree(f2);
    assert TermOk(t3) && TermTokens(t3) == FactorTokens(f3) && TermTree(t3) == FactorTree(f3);
    var a, b, c := FactorTokens(f1), FactorTokens(f2), FactorTokens(f3);
    if Tight(o1.kind) {
      var p := Product(t1, o1, f2);
      assert TermOk(p) && TermTokens(p) == a + [o1] + b;
      assert TermTree(p) == BinaryExpression(Meant(o1.kind), FactorTree(f1), FactorTree(f2));
      if Tight(o2.kind) {
        var q := Product(p, o2, f3);
        d := OneTerm(q);
        assert TermOk(q) && TermTokens(q) == TermTokens(p) + [o2] + c;
        assert TermTree(q) == BinaryExpression(Meant(o2.kind), TermTree(p), FactorTree(f3));
      } else {
        var l := OneTerm(p);
        d := Sum(l, o2, t3);
        assert ExprOk(l) && ExprTokens(l) == TermTokens(p) && ExprTree(l) == TermTree(p);
        assert ExprTokens(d) == ExprTokens(l) + [o2] + TermTokens(t3);
      }
    } else {
      var l := OneTerm(t1);
      assert ExprOk(l) && ExprTokens(l) == a && ExprTree(l) == FactorTree(f1);
      if Tight(o2.kind) {
        var p := Product(t2, o2, f3);
        d := Sum(l, o1, p);
        assert TermOk(p) && TermTokens(p) == b + [o2] + c;
        assert ExprTokens(d) == ExprTokens(l) + [o1] + TermTokens(p);
        assert a + [o1] + (b + [o2] + c) == a + [o1] + b + [o2] + c;
      } else {
        var m := Sum(l, o1, t2);
        d := Sum(m, o2, t3);
        assert ExprOk(m) && ExprTokens(m) == ExprTokens(l) + [o1] + TermTokens(t2);
        assert ExprTree(m) == BinaryExpression(Meant(o1.kind), FactorTree(f1), FactorTree(f2));
        assert ExprTokens(d) == ExprTokens(m) + [o2] + TermTokens(t3);
      }
    }
  }

  /**
   Two operators between any three factors: `*` and `/` bind tighter than `+` and `-`, and operators
   that bind alike group to the left.
   */
  lemma OperatorsGroup(f1: FactorD, o1: Token, f2: FactorD, o2: Token, f3: FactorD)
    requires FactorOk(f1) && FactorOk(f2) && FactorOk(f3)
    requires o1.kind in {Plus, Minus, Star, Slash} && o2.kind in {Plus, Minus, Star, Slash}
    ensures var tokens := PairTokens(f1, o1, f2, o2, f3) + [END_TOKEN];
            ParseAt(tokens) == Done(Grouped2(FactorTree(f1), o1.kind, FactorTree(f2), o2.kind, FactorTree(f3)), |tokens|)
  {
    hide FactorOk, FactorTokens, FactorTree, PairTokens, Grouped2, ExpressionAt, ExprTokens, ExprTree, ExprOk;
    var d := PairDerivation(f1, o1, f2, o2, f3);
    var body := ExprTokens(d);
    var tokens := body + [END_TOKEN];
    assert tokens[0..|body|] == body;
    ExprParsed(d, tokens, 0);
  }

  // ---------- the cursor stays on the list ----------

  /** The error names a token type of the list, and the different one that must stand there. */
  ghost predicate Mismatch(tokens: seq<Token>, error: ParseError) {
    && error.Expected? && error.expected in {Number, RightParen, End} && error.found != error.expected
    && exists p :: 0 <= p < |tokens| && tokens[p].kind == error.found
  }

  /** A result that neither moved past the last token nor ran off the list. */
  ghost predicate Inside(tokens: seq<Token>, r: Parsed) {
    if r.Done? then r.next < |tokens| else Mismatch(tokens, r.error)
  }

  lemma ExpectInside(tokens: seq<Token>, pos: nat, kind: TokenType, tree: Expression)
    requires EndsOnce(tokens) && pos < |tokens| && kind in {Number, RightParen}
    ensures Inside(tokens, ExpectAt(tokens, pos, kind, tree))
  {
    assert tokens[pos].kind == kind ==> pos + 1 < |tokens|;
  }

  /** With End last and only there, no level consumes it or reads beyond it. */
  lemma {:induction false} NeverPastEnd(tokens: seq<Token>, pos: nat)
    requires EndsOnce(tokens) && pos < |tokens|
    ensures Inside(tokens, ExpressionAt(tokens, pos)) && Inside(tokens, TermAt(tokens, pos)) && Inside(tokens, FactorAt(tokens, pos))
    decreases |tokens| - pos, 3
  {
    FactorInside(tokens, pos);
    hide FactorAt, Mismatch, EndsOnce;
    var f := FactorAt(tokens, pos);
    if f.Done? {
      TermLoopInside(tokens, f.tree, f.next);
    }
    var t := TermAt(tokens, pos);
    if t.Done? {
      ExpressionLoopInside(tokens, t.tree, t.next);
    }
  }

  lemma {:induction false} FactorInside(tokens: seq<Token>, pos: nat)
    requires EndsOnce(tokens) && pos < |tokens|
    ensures Inside(tokens, FactorAt(tokens, pos))
    decreases |tokens| - pos, 1
  {
    hide ExpressionAt, Mismatch;
    if tokens[pos].kind == Minus {
      FactorInside(tokens, pos + 1);
    } else if tokens[pos].kind == LeftParen {
      NeverPastEnd(tokens, pos + 1);
      var inner := ExpressionAt(tokens, pos + 1);
      if inner.Done? {
        ExpectInside(tokens, inner.next, RightParen, inner.tree);
      }
    } else {
      ExpectInside(tokens, pos, Number, NumberLiteral(NumberOf(tokens[pos].value)));
    }
  }

  lemma {:induction false} TermLoopInside(tokens: seq<Token>, left: Expression, pos: nat)
    requires EndsOnce(tokens) && pos < |tokens|
    ensures Inside(tokens, TermLoop(tokens, left, pos))
    decreases |tokens| - pos, 2
  {
    if IsMultiplicative(tokens[pos].kind) {
      NeverPastEnd(tokens, pos + 1);
      var right := FactorAt(tokens, pos + 1);
      if right.Done? {
        TermLoopInside(tokens, BinaryExpression(OperatorOf(tokens[pos].kind), left, right.tree), right.next);
      }
    }
  }

  lemma {:induction false} ExpressionLoopInside(tokens: seq<Token>, left: Expression, pos: nat)
    requires EndsOnce(tokens) && pos < |tokens|
    ensures Inside(tokens, ExpressionLoop(tokens, left, pos))
    decreases |tokens| - pos, 2
  {
    if IsAdditive(tokens[pos].kind) {
      NeverPastEnd(tokens, pos + 1);
      var right := TermAt(tokens, pos + 1);
      if right.Done? {
        ExpressionLoopInside(tokens, BinaryExpression(OperatorOf(tokens[pos].kind), left, right.tree), right.next);
      }
    }
  }

  /** The whole parse never reads beyond the closing End: it fails only on an unexpected token, and says which. */
  lemma ParseReadsNoFurther(tokens: seq<Token>)
    requires EndsOnce(tokens)
    ensures ParseAt(tokens).Failed? ==> Mismatch(tokens, ParseAt(tokens).error)
  {
    NeverPastEnd(tokens, 0);
  }

  // ---------- in-order tokens ----------

  datatype Item = Value(number: JsNumber) | Symbol(kind: TokenType)

  function KindOf(op: Operator): TokenType {
    match op
    case Add => Plus
    case Sub => Minus
    case Mul => Star
    case Div => Slash
  }

  /** The tree read left to right. */
  function InOrder(e: Expression): seq<Item> {
    match e
    case NumberLiteral(v) => [Value(v)]
    case BinaryExpression(op, l, r) => InOrder(l) + [Symbol(KindOf(op))] + InOrder(r)
    case UnaryExpression(o) => [Symbol(Minus)] + InOrder(o)
  }

  /** The tokens without parentheses and End. */
  function Erased(tokens: seq<Token>): seq<Item> {
    if tokens == [] then [] else
      var t := tokens[|tokens| - 1];
      Erased(tokens[..|tokens| - 1]) +
      (if t.kind == LeftParen || t.kind == RightParen || t.kind == End then []
       else if t.kind == Number then [Value(NumberOf(t.value))]
       else [Symbol(t.kind)])
  }

  lemma {:induction false} ErasedConcat(a: seq<Token>, b: seq<Token>)
    ensures Erased(a + b) == Erased(a) + Erased(b)
  {
    if b == [] {
      assert a + b == a;
    } else {
      assert (a + b)[..|a + b| - 1] == a + b[..|b| - 1];
      ErasedConcat(a, b[..|b| - 1]);
    }
  }

  lemma ErasedOne(t: Token)
    ensures Erased([t]) == if t.kind == LeftParen || t.kind == RightParen || t.kind == End then []
                           else if t.kind == Number then [Value(NumberOf(t.value))]
                           else [Symbol(t.kind)]
  {
    assert [t][..0] == [];
  }

  lemma ErasedBinary(a: seq<Token>, op: Token, b: seq<Token>)
    requires IsAdditive(op.kind) || IsMultiplicative(op.kind)
    ensures Erased(a + [op] + b) == Erased(a) + [Symbol(KindOf(OperatorOf(op.kind)))] + Erased(b)
  {
    hide Erased, NumberOf;
    ErasedConcat(a + [op], b);
    ErasedConcat(a, [op]);
    ErasedOne(op);
  }

  lemma {:induction false} ExprErases(d: ExprD)
    requires ExprOk(d)
    ensures Erased(ExprTokens(d)) == InOrder(ExprTree(d))
    decreases d
  {
    match d
    case OneTerm(t) => TermErases(t);
    case Sum(l, op, r) =>
      ExprErases(l);
      TermErases(r);
      ErasedBinary(ExprTokens(l), op, TermTokens(r));
  }

  lemma {:induction false} TermErases(d: TermD)
    requires TermOk(d)
    ensures Erased(TermTokens(d)) == InOrder(TermTree(d))
    decreases d
  {
    match d
    case OneFactor(f) => FactorErases(f);
    case Product(l, op, r) =>
      TermErases(l);
      FactorErases(r);
      ErasedBinary(TermTokens(l), op, FactorTokens(r));
  }

  lemma {:induction false} FactorErases(d: FactorD)
    requires FactorOk(d)
    ensures Erased(FactorTokens(d)) == InOrder(FactorTree(d))
    decreases d
  {
    match d
    case Negated(m, f) =>
      FactorErases(f);
      ErasedConcat([m], FactorTokens(f));
      ErasedOne(m);
    case Grouped(o, e, c) =>
      ExprErases(e);
      ErasedConcat([o] + ExprTokens(e), [c]);
      ErasedConcat([o], ExprTokens(e));
      ErasedOne(o);
      ErasedOne(c);
    case Literal(n) =>
      ErasedOne(n);
  }

  /** A successful parse keeps every number and operator, in order. */
  lemma ParsedInOrder(tokens: seq<Token>)
    requires EndsOnce(tokens) && ParseAt(tokens).Done?
    ensures InOrder(ParseAt(tokens).tree) == Erased(tokens)
  {
    ParserIsGrammar(tokens, ParseAt(tokens).tree);
    var d :| Derives(Body(tokens), ParseAt(tokens).tree, d);
    ExprErases(d);
  }

  // ---------- printing and parsing back ----------

  /** The derivation the canonical printer writes out. */
  ghost function Canonical(e: Expression): FactorD
    requires Printable(e)
  {
    match e
    case NumberLiteral(Finite(v)) => Literal(Token(Number, Decimal(v.Floor)))
    case UnaryExpression(o) => Negated(Token(Minus, "-"), Canonical(o))
    case BinaryExpression(op, l, r) =>
      var sign := Token(KindOf(op), [OperatorChar(op)]);
      Grouped(Token(LeftParen, "("),
              if op == Add || op == Sub then Sum(OneTerm(OneFactor(Canonical(l))), sign, OneFactor(Canonical(r)))
              else OneTerm(Product(OneFactor(Canonical(l)), sign, Canonical(r))),
              Token(RightParen, ")"))
  }

  lemma {:induction false} CanonicalStandsForTree(e: Expression)
    requires Printable(e)
    ensures FactorOk(Canonical(e)) && FactorTree(Canonical(e)) == e
  {
    match e
    case NumberLiteral(Finite(v)) => NumberOfDecimal(v.Floor);
    case UnaryExpression(o) => CanonicalStandsForTree(o);
    case BinaryExpression(op, l, r) =>
      CanonicalStandsForTree(l);
      CanonicalStandsForTree(r);
      var d := Canonical(e).inner;
      assert OperatorOf(KindOf(op)) == op;
      if op == Add || op == Sub {
        assert TermOk(OneFactor(Canonical(l))) && TermOk(OneFactor(Canonical(r)));
        assert ExprOk(OneTerm(OneFactor(Canonical(l)))) && ExprTree(OneTerm(OneFactor(Canonical(l)))) == l;
        assert TermTree(OneFactor(Canonical(r))) == r;
      } else {
        assert TermOk(OneFactor(Canonical(l))) && TermTree(OneFactor(Canonical(l))) == l;
        assert TermOk(d.term) && TermTree(d.term) == e;
      }
      assert ExprOk(d) && ExprTree(d) == e;
  }

  ghost function CanonicalTokens(e: Expression): seq<Token>
    requires Printable(e)
  {
    FactorTokens(Canonical(e))
  }

  /** Parsing the canonical tokens of a tree gives the tree. */
  lemma CanonicalParses(e: Expression)
    requires Printable(e)
    ensures ParseAt(CanonicalTokens(e) + [END_TOKEN]) == Done(e, |CanonicalTokens(e)| + 1)
  {
    CanonicalStandsForTree(e);
    var f := Canonical(e);
    hide Canonical;
    var tokens, d := FactorTokens(f) + [END_TOKEN], OneTerm(OneFactor(f));
    assert TermTree(OneFactor(f)) == e && TermOk(OneFactor(f)) && TermTokens(OneFactor(f)) == FactorTokens(f);
    hide FactorTokens, FactorTree, FactorOk, ExpressionAt, TermAt;
    assert ExprTokens(d) == FactorTokens(f) && ExprTree(d) == e && ExprOk(d);
    assert tokens[0..|FactorTokens(f)|] == FactorTokens(f);
    ExprParsed(d, tokens, 0);
  }

  lemma CanonicalTokensOfBinary(op: Operator, l: Expression, r: Expression)
    requires Printable(l) && Printable(r)
    ensures CanonicalTokens(BinaryExpression(op, l, r)) ==
            [Token(LeftParen, "(")] + CanonicalTokens(l) + [Token(KindOf(op), [OperatorChar(op)])] + CanonicalTokens(r)
            + [Token(RightParen, ")")]
  {
    var sign := Token(KindOf(op), [OperatorChar(op)]);
    var d := Canonical(BinaryExpression(op, l, r)).inner;
    assert TermTokens(OneFactor(Canonical(l))) == CanonicalTokens(l);
    assert TermTokens(OneFactor(Canonical(r))) == CanonicalTokens(r);
    if op == Add || op == Sub {
      assert ExprTokens(OneTerm(OneFactor(Canonical(l)))) == CanonicalTokens(l);
    } else {
      assert ExprTokens(d) == TermTokens(d.term);
    }
    assert ExprTokens(Canonical(BinaryExpression(op, l, r)).inner) == CanonicalTokens(l) + [sign] + CanonicalTokens(r);
  }
}
