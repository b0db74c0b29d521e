/**
 The lexer of the SQL statements: a loop over the characters of the input, and what token stream a text has.
 Characters are ASCII.
 */
module Lexing {

  datatype TokenType =
    Number | Word | Literal | OpenBracket | CloseBracket | Any | Comma | Equal | END | Invalid

  datatype Token = Token(kind: TokenType, value: string)

  const END_TOKEN := Token(END, "")

  predicate IsSpace(c: char) {
    c == ' ' || 9 <= c as int <= 13
  }

  predicate IsDigit(c: char) {
    '0' <= c <= '9'
  }

  predicate IsAlpha(c: char) {
    'a' <= c <= 'z' || 'A' <= c <= 'Z'
  }

  predicate IsPunctuation(c: char) {
    c == '(' || c == ')' || c == '*' || c == ',' || c == '='
  }

  // The token of a character that is one by itself.
  function Punctuation(c: char): Token
    requires IsPunctuation(c)
  {
    if c == '(' then Token(OpenBracket, "(")
    else if c == ')' then Token(CloseBracket, ")")
    else if c == '*' then Token(Any, "*")
    else if c == ',' then Token(Comma, ",")
    else Token(Equal, "\"")
  }

  // ------------------------------------------------------------------
  // The lexical grammar

  predicate AllOf(p: char -> bool, s: string) {
    forall i | 0 <= i < |s| :: p(s[i])
  }

  // w is some letters followed by digits, if any.
  ghost predicate IsWord(w: string) {
    exists k :: 0 < k <= |w| && LettersUpTo(w, k)
  }

  predicate LettersUpTo(w: string, k: nat) {
    && (forall i | 0 <= i < |w| && i < k :: IsAlpha(w[i]))
    && (forall i | k <= i < |w| :: IsDigit(w[i]))
  }

  // w is a way to write t.
  ghost predicate Writes(w: string, t: Token) {
    match t.kind
    case Number => w == t.value && w != "" && AllOf(IsDigit, w)
    case Word => w == t.value && IsWord(w)
    case Literal => '"' !in t.value && w == "\"" + t.value + "\""
    case END => false
    case Invalid =>
      || (|w| == 1 && t.value == w && !IsSpace(w[0]) && !IsDigit(w[0]) && !IsAlpha(w[0]) && w[0] !in "()*,=\"")
      || (|w| > 0 && t.value == "" && w[0] == '"' && '"' !in w[1..])
    case OpenBracket => w == "(" && t.value == "("
    case CloseBracket => w == ")" && t.value == ")"
    case Any => w == "*" && t.value == "*"
    case Comma => w == "," && t.value == ","
    case Equal => w == "=" && t.value == "\""
  }

  // Text `rest` can stand right behind t without becoming part of it.
  ghost predicate CanFollow(t: Token, rest: string) {
    rest != "" ==>
      && !(t.kind == Number && IsDigit(rest[0]))
      && !(t.kind == Word && IsDigit(rest[0]))
      && !(t.kind == Word && t.value != "" && IsAlpha(t.value[|t.value| - 1]) && IsAlpha(rest[0]))
      && !(t.kind == Invalid && t.value == "")
  }

  // From the position on the text is the tokens in order, with spaces around them as they need.
  ghost predicate Spells(text: string, pos: nat, ts: seq<Token>)
    requires pos <= |text|
    decreases |ts|
  {
    if ts == [] then AllOf(IsSpace, text[pos..])
    else exists i, j :: pos <= i <= j <= |text| && Starts(text, pos, i, j, ts[0]) && Spells(text, j, ts[1..])
  }

  // Behind spaces, t stands in text[i..j].
  ghost predicate Starts(text: string, pos: nat, i: nat, j: nat, t: Token)
    requires pos <= i <= j <= |text|
  {
    AllOf(IsSpace, text[pos..i]) && Writes(text[i..j], t) && CanFollow(t, text[j..])
  }

  // ------------------------------------------------------------------
  // What the loops compute

  // The first position from `pos` on whose character is not in p.
  function After(p: char -> bool, s: string, pos: nat): (r: nat)
    requires pos <= |s|
    ensures pos <= r <= |s|
    ensures forall i | pos <= i < r :: p(s[i])
    ensures r < |s| ==> !p(s[r])
    decreases |s| - pos
  {
    if pos < |s| && p(s[pos]) then After(p, s, pos + 1) else pos
  }

  lemma {:induction false} AfterIs(p: char -> bool, s: string, pos: nat, r: nat)
    requires pos <= r <= |s| && (forall i | pos <= i < r :: p(s[i])) && (r < |s| ==> !p(s[r]))
    ensures After(p, s, pos) == r
    decreases r - pos
  {
    if pos < r {
      AfterIs(p, s, pos + 1, r);
    }
  }

  // The token at the position, where no space is, and the position behind it.
  function TokenAt(s: string, pos: nat): (r: (Token, nat))
    requires pos < |s|
    ensures pos < r.1 <= |s|
  {
    var c := s[pos];
    if IsDigit(c) then
      var end := After(IsDigit, s, pos);
      (Token(Number, s[pos..end]), end)
    else if IsAlpha(c) then
      var end := After(IsDigit, s, After(IsAlpha, s, pos));
      (Token(Word, s[pos..end]), end)
    else if IsPunctuation(c) then (Punctuation(c), pos + 1)
    else if c == '"' then
      var end := After(NotQuote, s, pos + 1);
      if end == |s| then (Token(Invalid, ""), end) else (Token(Literal, s[pos + 1..end]), end + 1)
    else (Token(Invalid, [c]), pos + 1)
  }

  predicate NotQuote(c: char) {
    c != '"'
  }

  function Next(s: string, pos: nat): (r: (Token, nat))
    requires pos <= |s|
    ensures pos <= r.1 <= |s|
    ensures r.0.kind != END ==> pos < r.1
    ensures r.0.kind == END ==> r == (END_TOKEN, |s|)
  {
    var at := After(IsSpace, s, pos);
    if at == |s| then (END_TOKEN, at) else TokenAt(s, at)
  }

  // The tokens from the position on, up to END.
  function Tokens(s: string, pos: nat): seq<Token>
    requires pos <= |s|
    decreases |s| - pos
  {
    var (t, end) := Next(s, pos);
    if t.kind == END then [] else [t] + Tokens(s, end)
  }

  class Lexer {
    const input: string
    var pos: nat

    ghost predicate Valid()
      reads this
    {
      pos <= |input|
    }

    constructor (input: string)
      ensures Valid() && this.input == input && pos == 0
    {
      this.input, pos := input, 0;
    }

    // At the end it keeps returning END.
    method NextToken() returns (t: Token)
      requires Valid()
      modifies this
      ensures Valid() && (t, pos) == Next(input, old(pos))
    {
      while pos < |input| && IsSpace(input[pos])
        invariant Valid() && After(IsSpace, input, pos) == After(IsSpace, input, old(pos))
      {
        pos := pos + 1;
      }
      if pos >= |input| {
        return END_TOKEN;
      }
      var current := input[pos];
      if IsDigit(current) {
        t := Number();
      } else if IsAlpha(current) {
        t := Word();
      } else if IsPunctuation(current) {
        pos := pos + 1;
        t := Punctuation(current);
      } else if current == '"' {
        t := Literal();
      } else {
        pos := pos + 1;
        t := Token(Invalid, [current]);
      }
    }

    method Number() returns (t: Token)
      requires Valid() && pos < |input| && IsDigit(input[pos])
      modifies this
      ensures Valid() && (t, pos) == TokenAt(input, old(pos))
    {
      var start := pos;
      while pos < |input| && IsDigit(input[pos])
        invariant start <= pos <= |input| && After(IsDigit, input, pos) == After(IsDigit, input, start)
      {
        pos := pos + 1;
      }
      t := Token(TokenType.Number, input[start..pos]);
    }

    method Word() returns (t: Token)
      requires Valid() && pos < |input| && IsAlpha(input[pos])
      modifies this
      ensures Valid() && (t, pos) == TokenAt(input, old(pos))
    {
      var start := pos;
      while pos < |input| && IsAlpha(input[pos])
        invariant start <= pos <= |input| && After(IsAlpha, input, pos) == After(IsAlpha, input, start)
      {
        pos := pos + 1;
      }
      ghost var letters := pos;
      while pos < |input| && IsDigit(input[pos])
        invariant letters <= pos <= |input| && After(IsDigit, input, pos) == After(IsDigit, input, letters)
      {
        pos := pos + 1;
      }
      t := Token(TokenType.Word, input[start..pos]);
    }

    // A literal without its closing quote takes the rest of the input and is invalid.
    method Literal() returns (t: Token)
      requires Valid() && pos < |input| && input[pos] == '"'
      modifies this
      ensures Valid() && (t, pos) == TokenAt(input, old(pos))
    {
      pos := pos + 1;
      var start := pos;
      while pos < |input| && input[pos] != '"'
        invariant start <= pos <= |input| && After(NotQuote, input, pos) == After(NotQuote, input, start)
      {
        pos := pos + 1;
      }
      if pos == |input| {
        return Token(Invalid, "");
      }
      pos := pos + 1;
      t := Token(TokenType.Literal, input[start..pos - 1]);
    }
  }

  // ------------------------------------------------------------------
  // The loops compute the lexical grammar

  // The token found at a position is written there, and what follows can follow it.
  lemma TokenAtWrites(s: string, pos: nat)
    requires pos < |s| && !IsSpace(s[pos])
    ensures var (t, end) := TokenAt(s, pos); Writes(s[pos..end], t) && CanFollow(t, s[end..])
  {
    if IsAlpha(s[pos]) {
      WordWrites(s, pos);
    } else if s[pos] == '"' {
      LiteralWrites(s, pos);
    }
  }

  lemma WordWrites(s: string, pos: nat)
    requires pos < |s| && IsAlpha(s[pos])
    ensures var (t, end) := TokenAt(s, pos); Writes(s[pos..end], t) && CanFollow(t, s[end..])
  {
    assert LettersUpTo(s[pos..TokenAt(s, pos).1], After(IsAlpha, s, pos) - pos);
  }

  lemma LiteralWrites(s: string, pos: nat)
    requires pos < |s| && s[pos] == '"'
    ensures var (t, end) := TokenAt(s, pos); Writes(s[pos..end], t) && CanFollow(t, s[end..])
  {
    var (t, end) := TokenAt(s, pos);
    if t.kind == Literal {
      assert s[pos..end] == "\"" + s[pos + 1..end - 1] + "\"";
    } else {
      assert s[pos..end][1..] == s[pos + 1..end];
    }
  }

  // Where t is written, and what follows can follow it, t is the token found.
  lemma WrittenIsTokenAt(s: string, pos: nat, j: nat, t: Token)
    requires pos <= j <= |s| && Writes(s[pos..j], t) && CanFollow(t, s[j..])
    ensures pos < |s| && !IsSpace(s[pos]) && TokenAt(s, pos) == (t, j)
  {
    var w := s[pos..j];
    assert w != "" && w[0] == s[pos];
    match t.kind
    case Number => NumberIsTokenAt(s, pos, j, t);
    case Word => WordIsTokenAt(s, pos, j, t);
    case Literal => LiteralIsTokenAt(s, pos, j, t);
    case Invalid =>
      if t.value == "" {
        UnclosedIsTokenAt(s, pos, j, t);
      } else {
        assert t.value == [s[pos]];
      }
    case _ =>
  }

  lemma NumberIsTokenAt(s: string, pos: nat, j: nat, t: Token)
    requires pos <= j <= |s| && t.kind == Number && Writes(s[pos..j], t) && CanFollow(t, s[j..])
    ensures pos < |s| && IsDigit(s[pos]) && TokenAt(s, pos) == (t, j)
  {
    assert forall i | pos <= i < j :: s[i] == s[pos..j][i - pos];
    AfterIs(IsDigit, s, pos, j);
  }

  lemma WordIsTokenAt(s: string, pos: nat, j: nat, t: Token)
    requires pos <= j <= |s| && t.kind == Word && Writes(s[pos..j], t) && CanFollow(t, s[j..])
    ensures pos < |s| && IsAlpha(s[pos]) && TokenAt(s, pos) == (t, j)
  {
    var w := s[pos..j];
    var k :| 0 < k <= |w| && LettersUpTo(w, k);
    forall i | pos <= i < j ensures if i < pos + k then IsAlpha(s[i]) else IsDigit(s[i]) {
      assert s[i] == w[i - pos];
    }
    assert w[|w| - 1] == s[j - 1];
    AfterIs(IsAlpha, s, pos, pos + k);
    AfterIs(IsDigit, s, pos + k, j);
  }

  lemma LiteralIsTokenAt(s: string, pos: nat, j: nat, t: Token)
    requires pos <= j <= |s| && t.kind == Literal && Writes(s[pos..j], t)
    ensures pos < |s| && s[pos] == '"' && TokenAt(s, pos) == (t, j)
  {
    var w, end := s[pos..j], |t.value| + 1;
    assert w[0] == '"' && w[end] == '"' && w[1..end] == t.value;
    assert forall i | pos + 1 <= i < pos + end :: s[i] == t.value[i - pos - 1];
    AfterIs(NotQuote, s, pos + 1, pos + end);
    assert s[pos + 1..pos + end] == t.value;
  }

  lemma UnclosedIsTokenAt(s: string, pos: nat, j: nat, t: Token)
    requires pos <= j <= |s| && t == Token(Invalid, "") && Writes(s[pos..j], t) && CanFollow(t, s[j..])
    ensures pos < |s| && s[pos] == '"' && TokenAt(s, pos) == (t, j)
  {
    assert j == |s|;
    assert forall i | pos + 1 <= i < j :: s[i] == s[pos..j][1..][i - pos - 1];
    AfterIs(NotQuote, s, pos + 1, j);
  }

  lemma StartsIsNext(text: string, pos: nat, i: nat, j: nat, t: Token)
    requires pos <= i <= j <= |text| && Starts(text, pos, i, j, t)
    ensures Next(text, pos) == (t, j) && t.kind != END
  {
    WrittenIsTokenAt(text, i, j, t);
    assert forall k | pos <= k < i :: text[k] == text[pos..i][k - pos];
    AfterIs(IsSpace, text, pos, i);
  }

  lemma NextStarts(text: string, pos: nat)
    requires pos <= |text| && Next(text, pos).0.kind != END
    ensures var i, (t, j) := After(IsSpace, text, pos), Next(text, pos); i <= j && Starts(text, pos, i, j, t)
  {
    TokenAtWrites(text, After(IsSpace, text, pos));
  }

  lemma EndIsSpaces(text: string, pos: nat)
    requires pos <= |text|
    ensures Next(text, pos).0.kind == END <==> AllOf(IsSpace, text[pos..])
  {
    var at := After(IsSpace, text, pos);
    if at < |text| {
      assert text[pos..][at - pos] == text[at];
    }
  }

  lemma {:induction false} TokensSpell(text: string, pos: nat)
    requires pos <= |text|
    ensures Spells(text, pos, Tokens(text, pos))
    decreases |text| - pos
  {
    EndIsSpaces(text, pos);
    var (t, j) := Next(text, pos);
    if t.kind != END {
      NextStarts(text, pos);
      TokensSpell(text, j);
      SpellsFirst(text, pos, After(IsSpace, text, pos), j, [t] + Tokens(text, j));
    }
  }

  lemma SpellsFirst(text: string, pos: nat, i: nat, j: nat, ts: seq<Token>)
    requires pos <= i <= j <= |text| && ts != [] && Starts(text, pos, i, j, ts[0]) && Spells(text, j, ts[1..])
    ensures Spells(text, pos, ts)
  {
  }

  lemma {:induction false} SpellsIsTokens(text: string, pos: nat, ts: seq<Token>)
    requires pos <= |text| && Spells(text, pos, ts)
    ensures Tokens(text, pos) == ts
    decreases |ts|
  {
    EndIsSpaces(text, pos);
    if ts != [] {
      var i, j :| pos <= i <= j <= |text| && Starts(text, pos, i, j, ts[0]) && Spells(text, j, ts[1..]);
      StartsIsNext(text, pos, i, j, ts[0]);
      SpellsIsTokens(text, j, ts[1..]);
    }
  }

  // The token stream of a text is the one sequence of tokens the lexical grammar gives it.
  lemma TokensIffSpells(text: string, pos: nat, ts: seq<Token>)
    requires pos <= |text|
    ensures Tokens(text, pos) == ts <==> Spells(text, pos, ts)
  {
    TokensSpell(text, pos);
    if Spells(text, pos, ts) {
      SpellsIsTokens(text, pos, ts);
    }
  }
}
