/** The calculator's tokens and tokenizer (sample_projects/project_02/src/lexer). */
module Tokenizer {
  import opened Decimals
  import opened Results

  datatype TokenType = Number | Plus | Minus | Star | Slash | LeftParen | RightParen | End

  datatype Token = Token(kind: TokenType, value: string)

  predicate IsNumeric(c: char) {
    IsDigit(c) || c == '.'
  }

  predicate IsSymbol(c: char) {
    c == '+' || c == '-' || c == '*' || c == '/' || c == '(' || c == ')'
  }

  function SymbolType(c: char): TokenType
    requires IsSymbol(c)
  {
    match c
    case '+' => Plus
    case '-' => Minus
    case '*' => Star
    case '/' => Slash
    case '(' => LeftParen
    case _ => RightParen
  }

  const END_TOKEN := Token(End, "")

  /** Where the run of digits and dots starting at `from` stops. */
  ghost function NumberEnd(input: string, from: nat): (end: nat)
    requires from <= |input|
    ensures from <= end <= |input|
    ensures forall i :: from <= i < end ==> IsNumeric(input[i])
    ensures end < |input| ==> !IsNumeric(input[end])
    decreases |input| - from
  {
    if from < |input| && IsNumeric(input[from]) then NumberEnd(input, from + 1) else from
  }

  /** The tokens from position `from` on, each number token the longest run it can be. */
  ghost function TokensFrom(input: string, from: nat): Outcome<seq<Token>, char>
    requires from <= |input|
    decreases |input| - from
  {
    if from == |input| then Ok([END_TOKEN])
    else if input[from] == ' ' then TokensFrom(input, from + 1)
    else if IsDigit(input[from]) then
      var end := NumberEnd(input, from + 1);
      Prepend(Token(Number, input[from..end]), TokensFrom(input, end))
    else if IsSymbol(input[from]) then
      Prepend(Token(SymbolType(input[from]), [input[from]]), TokensFrom(input, from + 1))
    else Error(input[from])
  }

  ghost function Prepend(t: Token, rest: Outcome<seq<Token>, char>): Outcome<seq<Token>, char> {
    if rest.Ok? then Ok([t] + rest.value) else rest
  }

  ghost function PrependAll(ts: seq<Token>, rest: Outcome<seq<Token>, char>): Outcome<seq<Token>, char> {
    if rest.Ok? then Ok(ts + rest.value) else rest
  }

  /** A cursor over the input. */
  class Tokenizer {
    const input: string
    var position: nat

    ghost predicate Valid()
      reads this
    {
      position <= |input|
    }

    constructor (input: string)
      ensures Valid() && this.input == input && position == 0
    {
      this.input := input;
      this.position := 0;
    }

    /** Reads the run of digits and dots at the cursor. */
    method ReadNumber() returns (token: Token)
      requires Valid() && position < |input| && IsDigit(input[position])
      modifies this
      ensures Valid() && position == NumberEnd(input, old(position) + 1)
      ensures token == Token(Number, input[old(position)..position])
    {
      ghost var start := position;
      var value := "";
      while position < |input| && IsNumeric(input[position])
        invariant start <= position <= |input| && value == input[start..position]
        invariant NumberEnd(input, start) == NumberEnd(input, position)
        decreases |input| - position
      {
        value := value + [input[position]];
        position := position + 1;
      }
      token := Token(Number, value);
    }

    /** Reads the one-character token at the cursor. */
    method ReadSymbol(c: char) returns (token: Outcome<Token, char>)
      requires Valid() && position < |input|
      modifies this
      ensures Valid() && position == old(position) + 1
      ensures token == if IsSymbol(c) then Ok(Token(SymbolType(c), [c])) else Error(c)
    {
      position := position + 1;
      match c
      case '+' => token := Ok(Token(Plus, [c]));
      case '-' => token := Ok(Token(Minus, [c]));
      case '*' => token := Ok(Token(Star, [c]));
      case '/' => token := Ok(Token(Slash, [c]));
      case '(' => token := Ok(Token(LeftParen, [c]));
      case ')' => token := Ok(Token(RightParen, [c]));
      case _ => token := Error(c);
    }

    /** All tokens of the rest of the input, or the first character that starts none. */
    method Tokenize() returns (result: Outcome<seq<Token>, char>)
      requires Valid()
      modifies this
      ensures Valid() && result == TokensFrom(input, old(position))
    {
      var tokens: seq<Token> := [];
      assert PrependAll([], TokensFrom(input, position)) == TokensFrom(input, position) by {
        EmptyPrepend(TokensFrom(input, position));
      }
      while position < |input|
        invariant Valid() && TokensFrom(input, old(position)) == PrependAll(tokens, TokensFrom(input, position))
        decreases |input| - position
      {
        var c := input[position];
        ghost var start := position;
        if c == ' ' {
          position := position + 1;
          continue;
        }
        if IsDigit(c) {
          var number := ReadNumber();
          PrependMore(tokens, number, TokensFrom(input, position));
          tokens := tokens + [number];
          continue;
        }
        var symbol := ReadSymbol(c);
        if symbol.Error? {
          return Error(c);
        }
        PrependMore(tokens, symbol.value, TokensFrom(input, position));
        tokens := tokens + [symbol.value];
      }
      tokens := tokens + [END_TOKEN];
      result := Ok(tokens);
    }
  }

  lemma EmptyPrepend(rest: Outcome<seq<Token>, char>)
    ensures PrependAll([], rest) == rest
  {
    if rest.Ok? {
      assert [] + rest.value == rest.value;
    }
  }

  lemma PrependMore(ts: seq<Token>, t: Token, rest: Outcome<seq<Token>, char>)
    ensures PrependAll(ts, Prepend(t, rest)) == PrependAll(ts + [t], rest)
  {
    if rest.Ok? {
      assert ts + ([t] + rest.value) == (ts + [t]) + rest.value;
    }
  }

  /** A character that no token starts with and that is no space. */
  predicate StartsNoToken(c: char) {
    c != ' ' && !('0' <= c <= '9') && c !in "+-*/()"
  }

  /** The reported character is in the text and starts no token; so a text without such characters has tokens. */
  lemma {:induction false} ErrorIsInText(input: string, from: nat)
    requires from <= |input| && TokensFrom(input, from).Error?
    ensures StartsNoToken(TokensFrom(input, from).error) && TokensFrom(input, from).error in input[from..]
    decreases |input| - from
  {
    if input[from] == ' ' || IsSymbol(input[from]) {
      ErrorIsInText(input, from + 1);
    } else if IsDigit(input[from]) {
      ErrorIsInText(input, NumberEnd(input, from + 1));
    }
  }

  // ---------- nothing is lost ----------

  function WithoutSpaces(s: string): string {
    if s == "" then "" else (if s[0] == ' ' then "" else [s[0]]) + WithoutSpaces(s[1..])
  }

  function Values(tokens: seq<Token>): string {
    if tokens == [] then "" else tokens[0].value + Values(tokens[1..])
  }

  lemma {:induction false} WithoutSpacesConcat(s: string, t: string)
    ensures WithoutSpaces(s + t) == WithoutSpaces(s) + WithoutSpaces(t)
  {
    if s == "" {
      assert s + t == t;
    } else {
      assert (s + t)[1..] == s[1..] + t;
      WithoutSpacesConcat(s[1..], t);
    }
  }

  lemma WithoutSpacesSplit(s: string, from: nat, mid: nat)
    requires from <= mid <= |s|
    ensures WithoutSpaces(s[from..]) == WithoutSpaces(s[from..mid]) + WithoutSpaces(s[mid..])
  {
    assert s[from..] == s[from..mid] + s[mid..];
    WithoutSpacesConcat(s[from..mid], s[mid..]);
  }

  lemma {:induction false} NoSpacesInNumber(s: string)
    requires forall i :: 0 <= i < |s| ==> s[i] != ' '
    ensures WithoutSpaces(s) == s
  {
    if s != "" {
      NoSpacesInNumber(s[1..]);
    }
  }

  /** Token list of a successful tokenization: End once and last, and no other empty value. */
  ghost predicate EndsOnce(tokens: seq<Token>) {
    && |tokens| > 0 && tokens[|tokens| - 1].kind == End
    && forall i :: 0 <= i < |tokens| - 1 ==> tokens[i].kind != End
  }

  lemma FirstValue(t: Token, rest: seq<Token>)
    ensures Values([t] + rest) == t.value + Values(rest)
    ensures t.kind != End && EndsOnce(rest) ==> EndsOnce([t] + rest)
  {
    assert ([t] + rest)[1..] == rest;
    hide Values;
    if t.kind != End && EndsOnce(rest) {
      var all := [t] + rest;
      forall i | 0 <= i < |all| - 1 ensures all[i].kind != End {
        assert i == 0 || all[i] == rest[i - 1];
      }
    }
  }

  lemma FirstChar(c: char)
    ensures WithoutSpaces([c]) == if c == ' ' then "" else [c]
  {
    assert [c][1..] == "";
  }

  /** The token values spell the input without its spaces, and End comes once, last. */
  lemma {:induction false} TokensSpellInput(input: string, from: nat)
    requires from <= |input| && TokensFrom(input, from).Ok?
    ensures Values(TokensFrom(input, from).value) == WithoutSpaces(input[from..])
    ensures EndsOnce(TokensFrom(input, from).value)
    decreases |input| - from
  {
    if from == |input| {
      assert [END_TOKEN] + [] == [END_TOKEN];
      FirstValue(END_TOKEN, []);
      return;
    }
    hide WithoutSpaces, Values, EndsOnce, NumberEnd;
    if IsDigit(input[from]) {
      var end := NumberEnd(input, from + 1);
      TokensSpellInput(input, end);
      WithoutSpacesSplit(input, from, end);
      NoSpacesInNumber(input[from..end]);
      FirstValue(Token(Number, input[from..end]), TokensFrom(input, end).value);
      return;
    }
    TokensSpellInput(input, from + 1);
    WithoutSpacesSplit(input, from, from + 1);
    assert input[from..from + 1] == [input[from]];
    FirstChar(input[from]);
    if input[from] == ' ' {
      assert "" + WithoutSpaces(input[from + 1..]) == WithoutSpaces(input[from + 1..]);
    } else {
      FirstValue(Token(SymbolType(input[from]), [input[from]]), TokensFrom(input, from + 1).value);
    }
  }
}
