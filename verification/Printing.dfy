/** Printing statements so that they read back as themselves. */
module Printing {
  import opened Wrappers
  import opened Lexing
  import opened Grammar

  function Lexeme(t: Token): string {
    if t.kind == Literal then "\"" + t.value + "\"" else if t.kind == Equal then "=" else t.value
  }

  // The tokens, a space behind each.
  function PrintTokens(ts: seq<Token>): string {
    if ts == [] then "" else Lexeme(ts[0]) + " " + PrintTokens(ts[1..])
  }

  function SymbolToken(kind: SymbolType): Token {
    match kind
    case OpenBracket => Token(kind, "(")
    case CloseBracket => Token(kind, ")")
    case Any => Token(kind, "*")
    case Comma => Token(kind, ",")
    case Equal => Token(kind, "\"")
  }

  function TokenFor(p: Pattern): Token {
    match p
    case Keyword(word) => Token(Word, word)
    case From => Token(Word, "FROM")
    case Name(name) => Token(Word, name)
    case Value(text) => Token(Literal, text)
    case Symbol(kind) => SymbolToken(kind)
  }

  function TokensFor(f: Form): seq<Token> {
    match f
    case End => []
    case Then(p, more) => [TokenFor(p)] + TokensFor(more)
  }

  function Print(s: Statement): string
    requires WellFormed(s)
  {
    PrintTokens(TokensFor(StatementForm(s)))
  }

  // Names are words, and values have no quotes.
  ghost predicate PatternOk(p: Pattern) {
    match p
    case Keyword(word) => word != "" && AllOf(IsAlpha, word)
    case From => true
    case Name(name) => IsWord(name)
    case Value(text) => '"' !in text
    case Symbol(_) => true
  }

  ghost predicate FormOk(f: Form) {
    f.Then? ==> PatternOk(f.first) && FormOk(f.more)
  }

  ghost predicate Printable(s: Statement) {
    WellFormed(s) && FormOk(StatementForm(s))
  }

  ghost predicate Written(t: Token) {
    exists w :: Writes(w, t)
  }

  ghost predicate AllWritten(ts: seq<Token>) {
    forall i | 0 <= i < |ts| :: Written(ts[i])
  }

  // ------------------------------------------------------------------
  // Reading back what was printed

  lemma LettersAreWord(w: string)
    requires w != "" && AllOf(IsAlpha, w)
    ensures IsWord(w)
  {
    assert LettersUpTo(w, |w|);
  }

  lemma LexemeWrites(p: Pattern)
    requires PatternOk(p)
    ensures Writes(Lexeme(TokenFor(p)), TokenFor(p)) && TokenFor(p).kind != Invalid
  {
    match p
    case Keyword(word) => LettersAreWord(word);
    case From => LettersAreWord("FROM");
    case Name(name) =>
    case Value(text) =>
    case Symbol(kind) =>
  }

  // Printed tokens, behind a space or not, are spelled.
  lemma {:induction false} PrintedSpells(text: string, pos: nat, i: nat, f: Form)
    requires FormOk(f) && pos <= i <= |text| && AllOf(IsSpace, text[pos..i]) && text[i..] == PrintTokens(TokensFor(f))
    ensures Spells(text, pos, TokensFor(f))
    decreases f
  {
    if f.Then? {
      var t, more := TokenFor(f.first), TokensFor(f.more);
      assert TokensFor(f) == [t] + more;
      var j := PrintedStarts(text, pos, i, f);
      PrintedSpells(text, j, j + 1, f.more);
      SpellsFirst(text, pos, i, j, [t] + more);
    }
  }

  lemma PrintedStarts(text: string, pos: nat, i: nat, f: Form) returns (j: nat)
    requires FormOk(f) && f.Then?
    requires pos <= i <= |text| && AllOf(IsSpace, text[pos..i]) && text[i..] == PrintTokens(TokensFor(f))
    ensures i <= j < |text| && Starts(text, pos, i, j, TokenFor(f.first))
    ensures AllOf(IsSpace, text[j..j + 1]) && text[j + 1..] == PrintTokens(TokensFor(f.more))
  {
    var t, more := TokenFor(f.first), TokensFor(f.more);
    assert ([t] + more)[1..] == more;
    var w := Lexeme(t);
    j := i + |w|;
    LexemeWrites(f.first);
    assert text[i..] == w + (" " + PrintTokens(more));
    Sliced(text, i, w, " " + PrintTokens(more));
    Sliced(text, j, " ", PrintTokens(more));
    assert text[j] == ' ';
  }

  lemma Sliced(text: string, i: nat, w: string, more: string)
    requires i <= |text| && text[i..] == w + more
    ensures i + |w| <= |text| && text[i..i + |w|] == w && text[i + |w|..] == more
  {
    assert text[i..][..|w|] == w && text[i..][|w|..] == more;
  }

  lemma PrintedTokens(f: Form)
    requires FormOk(f)
    ensures Tokens(PrintTokens(TokensFor(f)), 0) == TokensFor(f)
  {
    var text := PrintTokens(TokensFor(f));
    PrintedSpells(text, 0, 0, f);
    SpellsIsTokens(text, 0, TokensFor(f));
  }

  lemma {:induction false} TokensForFit(f: Form)
    requires FormOk(f)
    ensures Fits(TokensFor(f), f)
  {
    if f.Then? {
      TokensForFit(f.more);
    }
  }

  // Parsing what was printed gives the statement.
  lemma PrintThenRead(s: Statement)
    requires Printable(s)
    ensures Meaning(Print(s)) == Some(s)
  {
    var f := StatementForm(s);
    PrintedTokens(f);
    TokensForFit(f);
    TokensProper(Print(s), 0);
    ReadIffDerives(TokensFor(f), s);
  }

  // ------------------------------------------------------------------
  // Printing what was read

  lemma {:induction false} TokensWritten(text: string, pos: nat)
    requires pos <= |text|
    ensures AllWritten(Tokens(text, pos))
    decreases |text| - pos
  {
    var (t, j) := Next(text, pos);
    if t.kind != END {
      NextStarts(text, pos);
      TokensWritten(text, j);
    }
  }

  lemma MatchedIsOk(t: Token, p: Pattern)
    requires Written(t) && Matches(t, p)
    ensures PatternOk(p)
  {
    var w :| Writes(w, t);
    match p
    case Keyword(word) =>
      assert forall i | 0 <= i < |word| :: IsAlpha(word[i]);
    case Value(text) =>
      assert t.kind == Number ==> AllOf(IsDigit, text);
    case _ =>
  }

  lemma {:induction false} FittedIsOk(ts: seq<Token>, f: Form)
    requires AllWritten(ts) && Fits(ts, f)
    ensures FormOk(f)
  {
    if f.Then? {
      MatchedIsOk(ts[0], f.first);
      FittedIsOk(Tail(ts), f.more);
    }
  }

  lemma ReadIsPrintable(text: string, s: Statement)
    requires Meaning(text) == Some(s)
    ensures Printable(s)
  {
    TokensProper(text, 0);
    TokensWritten(text, 0);
    ReadIffDerives(Tokens(text, 0), s);
    FittedIsOk(Tokens(text, 0), StatementForm(s));
  }

  // The printable statements are the ones that some text means.
  lemma PrintableIff(s: Statement)
    ensures Printable(s) <==> exists text :: Meaning(text) == Some(s)
  {
    if Printable(s) {
      PrintThenRead(s);
    }
    if text :| Meaning(text) == Some(s) {
      ReadIsPrintable(text, s);
    }
  }

  // Reading, printing and reading again gives what reading gave.
  lemma ReadPrintRead(text: string)
    requires Meaning(text).Some?
    ensures Meaning(Print(Meaning(text).value)) == Meaning(text)
  {
    ReadIsPrintable(text, Meaning(text).value);
    PrintThenRead(Meaning(text).value);
  }

  // ------------------------------------------------------------------
  // FROM by its value alone

  // The grammar with FROM a keyword like the others.
  function Strict(f: Form): Form {
    match f
    case End => End
    case Then(p, more) => Then(if p == From then Keyword("FROM") else p, Strict(more))
  }

  // A quoted literal stands where FROM should.
  predicate QuotedFrom(ts: seq<Token>, f: Form) {
    match f
    case End => false
    case Then(p, more) => (p == From && Head(ts).kind == Literal) || QuotedFrom(Tail(ts), more)
  }

  // The parser accepts more than the strict grammar exactly where FROM is a quoted literal.
  lemma {:induction false} StrictIff(ts: seq<Token>, f: Form)
    requires AllWritten(ts)
    ensures Fits(ts, Strict(f)) <==> Fits(ts, f) && !QuotedFrom(ts, f)
  {
    if f.Then? {
      StrictIff(Tail(ts), f.more);
      if ts != [] && Matches(ts[0], From) {
        FromTypes(ts[0]);
      }
    }
  }

  lemma FromTypes(t: Token)
    requires Written(t) && SameWord(t.value, "FROM")
    ensures t.kind == Word || t.kind == Literal
  {
    var w :| Writes(w, t);
    assert IsAlpha(t.value[0]) && |t.value| == 4;
  }

  // FROM put in quotes.
  function Quoted(f: Form): Form {
    match f
    case End => End
    case Then(p, more) => Then(if p == From then Value("FROM") else p, Quoted(more))
  }

  predicate HasFrom(f: Form) {
    f.Then? && (f.first == From || HasFrom(f.more))
  }

  lemma {:induction false} QuotedFits(f: Form)
    requires FormOk(f)
    ensures FormOk(Quoted(f)) && Fits(TokensFor(Quoted(f)), f)
    ensures HasFrom(f) ==> QuotedFrom(TokensFor(Quoted(f)), f)
  {
    if f.Then? {
      QuotedFits(f.more);
    }
  }

  lemma {:induction false} ListHasFrom(kind: EntryKind, es: seq<Entry>, more: Form)
    requires es != [] && EntriesOk(kind, es) && HasFrom(more)
    ensures HasFrom(ListForm(kind, es, more))
  {
    var rest := if |es| == 1 then more else Then(Symbol(Comma), ListForm(kind, es[1..], more));
    if |es| > 1 {
      ListHasFrom(kind, es[1..], more);
    }
    assert HasFrom(rest);
    match kind
    case NAME =>
    case COLUMN => assert HasFrom(Then(Keyword(es[0].second), rest));
    case VALUE =>
    case PAIR => assert HasFrom(Then(Symbol(Equal), Then(Value(es[0].second), rest)));
  }

  // Every SELECT is also read with FROM in quotes, against the strict grammar.
  lemma QuotedFromAccepted(s: Statement)
    requires Printable(s) && s.Select?
    ensures var text := PrintTokens(TokensFor(Quoted(StatementForm(s))));
            Meaning(text) == Some(s) && !Fits(Tokens(text, 0), Strict(StatementForm(s)))
  {
    var f := StatementForm(s);
    var ts := TokensFor(Quoted(f));
    var from := Then(From, Then(Name(s.table), WhereForm(s.where)));
    if s.chosen.Named? {
      ListHasFrom(NAME, s.chosen.names, from);
    }
    assert HasFrom(ColumnsForm(s.chosen, from));
    QuotedFits(f);
    PrintedTokens(Quoted(f));
    TokensProper(PrintTokens(ts), 0);
    TokensWritten(PrintTokens(ts), 0);
    ReadIffDerives(ts, s);
    StrictIff(ts, f);
  }
}
