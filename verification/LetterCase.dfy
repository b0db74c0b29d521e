/** Letter case: which words are the same but for case, and that only the case of the keywords is of no importance. */
module LetterCase {
  import opened Wrappers
  import opened Lexing
  import opened Grammar

  predicate Letter(c: char) {
    65 <= c as int <= 90 || 97 <= c as int <= 122
  }

  // The same character, or the same letter in the other case.
  predicate SameButCase(c: char, d: char) {
    c == d || (Letter(c) && Letter(d) && (c as int == d as int + 32 || d as int == c as int + 32))
  }

  predicate SameButCaseAll(a: string, b: string) {
    |a| == |b| && forall i | 0 <= i < |a| :: SameButCase(a[i], b[i])
  }

  lemma SameLetter(c: char, d: char)
    ensures IsAlpha(c) <==> Letter(c)
    ensures Letter(c) && Letter(d) ==> (Upper(c) == Upper(d) <==> SameButCase(c, d))
  {
  }

  // Two words are taken for the same exactly if they have letters only, equally many, and at each place the same one
  // or codes that differ by 32.
  lemma SameWordIff(a: string, b: string)
    ensures SameWord(a, b) <==> SameButCaseAll(a, b) && forall i | 0 <= i < |a| :: Letter(a[i])
  {
    if |a| == |b| {
      forall i | 0 <= i < |a|
        ensures IsAlpha(a[i]) && IsAlpha(b[i]) && Upper(a[i]) == Upper(b[i]) <==>
                Letter(a[i]) && SameButCase(a[i], b[i])
      {
        SameLetter(a[i], b[i]);
        SameLetter(b[i], a[i]);
      }
    }
  }

  predicate IsKeywordPattern(p: Pattern) {
    p.Keyword? || p.From?
  }

  // Token by token the same, but that the keywords of the form may be written in another case.
  predicate Recased(ts: seq<Token>, us: seq<Token>, f: Form) {
    match f
    case End => ts == us
    case Then(p, more) =>
      && ts != [] && us != []
      && (if IsKeywordPattern(p) then ts[0].kind == us[0].kind && SameButCaseAll(ts[0].value, us[0].value)
          else ts[0] == us[0])
      && Recased(ts[1..], us[1..], more)
  }

  lemma RecasedWord(v: string, w: string, word: string)
    requires SameButCaseAll(v, w) && SameWord(v, word)
    ensures SameWord(w, word)
  {
    SameWordIff(v, word);
    SameWordIff(w, word);
    SameWordIff(v, w);
    forall i | 0 <= i < |w| ensures Letter(w[i]) && SameButCase(w[i], word[i]) {
      assert Letter(v[i]) && SameButCase(v[i], w[i]) && SameButCase(v[i], word[i]);
    }
  }

  lemma {:induction false} RecasedFits(ts: seq<Token>, us: seq<Token>, f: Form)
    requires Recased(ts, us, f)
    ensures Fits(ts, f) <==> Fits(us, f)
  {
    if f.Then? {
      RecasedFits(ts[1..], us[1..], f.more);
      RecasedMatches(ts[0], us[0], f.first);
    }
  }

  lemma RecasedMatches(t: Token, u: Token, p: Pattern)
    requires if IsKeywordPattern(p) then t.kind == u.kind && SameButCaseAll(t.value, u.value) else t == u
    ensures Matches(t, p) <==> Matches(u, p)
  {
    if IsKeywordPattern(p) {
      var word := if p.Keyword? then p.word else "FROM";
      if SameWord(t.value, word) {
        RecasedWord(t.value, u.value, word);
      }
      if SameWord(u.value, word) {
        RecasedWord(u.value, t.value, word);
      }
    }
  }

  // Tokens that differ in the case of the keywords alone derive the same statements.
  lemma CaseIrrelevant(ts: seq<Token>, us: seq<Token>, s: Statement)
    requires WellFormed(s) ==> Recased(ts, us, StatementForm(s))
    ensures Derives(s, ts) <==> Derives(s, us)
  {
    if WellFormed(s) {
      RecasedFits(ts, us, StatementForm(s));
    }
  }

  // Texts whose tokens do so mean the same.
  lemma TextsRecased(a: string, b: string, s: Statement)
    requires WellFormed(s) ==> Recased(Tokens(a, 0), Tokens(b, 0), StatementForm(s))
    ensures Meaning(a) == Some(s) <==> Meaning(b) == Some(s)
  {
    TokensProper(a, 0);
    TokensProper(b, 0);
    CaseIrrelevant(Tokens(a, 0), Tokens(b, 0), s);
    ReadIffDerives(Tokens(a, 0), s);
    ReadIffDerives(Tokens(b, 0), s);
  }

  // ------------------------------------------------------------------
  // Texts that differ in letter case

  predicate Alike(t: Token, u: Token) {
    t.kind == u.kind && SameButCaseAll(t.value, u.value)
  }

  predicate AllAlike(ts: seq<Token>, us: seq<Token>) {
    |ts| == |us| && forall i | 0 <= i < |ts| :: Alike(ts[i], us[i])
  }

  lemma SameClass(c: char, d: char)
    requires SameButCase(c, d)
    ensures IsSpace(c) == IsSpace(d) && IsDigit(c) == IsDigit(d) && IsAlpha(c) == IsAlpha(d)
    ensures NotQuote(c) == NotQuote(d) && (!IsAlpha(c) ==> c == d)
  {
  }

  lemma {:induction false} AfterAlike(p: char -> bool, a: string, b: string, pos: nat)
    requires SameButCaseAll(a, b) && pos <= |a| && forall i | 0 <= i < |a| :: p(a[i]) == p(b[i])
    ensures After(p, a, pos) == After(p, b, pos)
    decreases |a| - pos
  {
    if pos < |a| && p(a[pos]) {
      AfterAlike(p, a, b, pos + 1);
    }
  }

  ghost predicate ClassesAlike(a: string, b: string) {
    && SameButCaseAll(a, b)
    && (forall i | 0 <= i < |a| :: IsSpace(a[i]) == IsSpace(b[i]))
    && (forall i | 0 <= i < |a| :: IsDigit(a[i]) == IsDigit(b[i]))
    && (forall i | 0 <= i < |a| :: IsAlpha(a[i]) == IsAlpha(b[i]))
    && (forall i | 0 <= i < |a| :: NotQuote(a[i]) == NotQuote(b[i]))
  }

  lemma TextsAlike(a: string, b: string)
    requires SameButCaseAll(a, b)
    ensures ClassesAlike(a, b)
  {
    forall i | 0 <= i < |a|
      ensures IsSpace(a[i]) == IsSpace(b[i]) && IsDigit(a[i]) == IsDigit(b[i]) && IsAlpha(a[i]) == IsAlpha(b[i])
      ensures NotQuote(a[i]) == NotQuote(b[i])
    {
      SameClass(a[i], b[i]);
    }
  }

  lemma SliceAlike(a: string, b: string, i: nat, j: nat)
    requires SameButCaseAll(a, b) && i <= j <= |a|
    ensures SameButCaseAll(a[i..j], b[i..j])
  {
  }

  lemma WordAlike(a: string, b: string, i: nat)
    requires ClassesAlike(a, b) && i < |a| && IsAlpha(a[i])
    ensures TokenAt(a, i).1 == TokenAt(b, i).1 && Alike(TokenAt(a, i).0, TokenAt(b, i).0)
  {
    AfterAlike(IsAlpha, a, b, i);
    AfterAlike(IsDigit, a, b, After(IsAlpha, a, i));
    SliceAlike(a, b, i, TokenAt(a, i).1);
  }

  lemma NumberAlike(a: string, b: string, i: nat)
    requires ClassesAlike(a, b) && i < |a| && IsDigit(a[i])
    ensures TokenAt(a, i).1 == TokenAt(b, i).1 && Alike(TokenAt(a, i).0, TokenAt(b, i).0)
  {
    AfterAlike(IsDigit, a, b, i);
    SliceAlike(a, b, i, TokenAt(a, i).1);
  }

  lemma LiteralAlike(a: string, b: string, i: nat)
    requires ClassesAlike(a, b) && i < |a| && a[i] == '"'
    ensures TokenAt(a, i).1 == TokenAt(b, i).1 && Alike(TokenAt(a, i).0, TokenAt(b, i).0)
  {
    assert b[i] == '"' by {
      SameClass(a[i], b[i]);
    }
    AfterAlike(NotQuote, a, b, i + 1);
    SliceAlike(a, b, i + 1, After(NotQuote, a, i + 1));
  }

  lemma TokenAtAlike(a: string, b: string, i: nat)
    requires ClassesAlike(a, b) && i < |a| && !IsSpace(a[i])
    ensures TokenAt(a, i).1 == TokenAt(b, i).1 && Alike(TokenAt(a, i).0, TokenAt(b, i).0)
  {
    if IsDigit(a[i]) {
      NumberAlike(a, b, i);
    } else if IsAlpha(a[i]) {
      WordAlike(a, b, i);
    } else {
      SameClass(a[i], b[i]);
      if a[i] == '"' {
        LiteralAlike(a, b, i);
      }
    }
  }

  lemma NextAlike(a: string, b: string, pos: nat)
    requires SameButCaseAll(a, b) && pos <= |a|
    ensures Next(a, pos).1 == Next(b, pos).1 && Alike(Next(a, pos).0, Next(b, pos).0)
  {
    TextsAlike(a, b);
    AfterAlike(IsSpace, a, b, pos);
    if After(IsSpace, a, pos) < |a| {
      TokenAtAlike(a, b, After(IsSpace, a, pos));
    }
  }

  // They have the same tokens but for case.
  lemma {:induction false} TokensAlike(a: string, b: string, pos: nat)
    requires SameButCaseAll(a, b) && pos <= |a|
    ensures AllAlike(Tokens(a, pos), Tokens(b, pos))
    decreases |a| - pos
  {
    NextAlike(a, b, pos);
    if Next(a, pos).0.kind != END {
      TokensAlike(a, b, Next(a, pos).1);
    }
  }

  lemma TailAlike(ts: seq<Token>, us: seq<Token>)
    requires AllAlike(ts, us)
    ensures Alike(Head(ts), Head(us)) && AllAlike(Tail(ts), Tail(us))
  {
  }

  lemma KeywordAlike(t: Token, u: Token, word: string)
    requires Alike(t, u)
    ensures SameWord(t.value, word) <==> SameWord(u.value, word)
    ensures IsKeyword(t, word) <==> IsKeyword(u, word)
  {
    RecasedMatches(t, u, Keyword(word));
    if SameWord(t.value, word) {
      RecasedWord(t.value, u.value, word);
    }
    if SameWord(u.value, word) {
      RecasedWord(u.value, t.value, word);
    }
  }

  lemma EntryAlike(kind: EntryKind, ts: seq<Token>, us: seq<Token>)
    requires AllAlike(ts, us)
    ensures ReadEntry(kind, ts).Some? <==> ReadEntry(kind, us).Some?
    ensures ReadEntry(kind, ts).Some? ==> AllAlike(ReadEntry(kind, ts).value.1, ReadEntry(kind, us).value.1)
  {
    TailAlike(ts, us);
    TailAlike(Tail(ts), Tail(us));
    TailAlike(Tail(Tail(ts)), Tail(Tail(us)));
    KeywordAlike(Head(Tail(ts)), Head(Tail(us)), "INT");
    KeywordAlike(Head(Tail(ts)), Head(Tail(us)), "TEXT");
  }

  lemma {:induction false} ListAlike(kind: EntryKind, ts: seq<Token>, us: seq<Token>)
    requires AllAlike(ts, us)
    ensures ReadList(kind, ts).Some? <==> ReadList(kind, us).Some?
    ensures ReadList(kind, ts).Some? ==> AllAlike(ReadList(kind, ts).value.1, ReadList(kind, us).value.1)
    decreases |ts|
  {
    EntryAlike(kind, ts, us);
    if ReadEntry(kind, ts).Some? {
      var rest, rest' := ReadEntry(kind, ts).value.1, ReadEntry(kind, us).value.1;
      TailAlike(rest, rest');
      if Head(rest).kind == Comma {
        ListAlike(kind, Tail(rest), Tail(rest'));
      }
    }
  }

  lemma WhereAlike(ts: seq<Token>, us: seq<Token>)
    requires AllAlike(ts, us)
    ensures ReadWhere(ts).Some? <==> ReadWhere(us).Some?
  {
    TailAlike(ts, us);
    KeywordAlike(Head(ts), Head(us), "WHERE");
    ListAlike(PAIR, Tail(ts), Tail(us));
    if ReadList(PAIR, Tail(ts)).Some? {
      TailAlike(ReadList(PAIR, Tail(ts)).value.1, ReadList(PAIR, Tail(us)).value.1);
    }
  }

  lemma BracketedAlike(kind: EntryKind, ts: seq<Token>, us: seq<Token>)
    requires AllAlike(ts, us)
    ensures ReadBracketed(kind, ts).Some? <==> ReadBracketed(kind, us).Some?
  {
    TailAlike(ts, us);
    ListAlike(kind, Tail(ts), Tail(us));
    if ReadList(kind, Tail(ts)).Some? {
      var rest, rest' := ReadList(kind, Tail(ts)).value.1, ReadList(kind, Tail(us)).value.1;
      TailAlike(rest, rest');
      TailAlike(Tail(rest), Tail(rest'));
    }
  }

  lemma SelectAlike(ts: seq<Token>, us: seq<Token>)
    requires AllAlike(ts, us)
    ensures ReadSelect(ts).Some? <==> ReadSelect(us).Some?
  {
    TailAlike(ts, us);
    ListAlike(NAME, ts, us);
    if ReadColumns(ts).Some? {
      var rest, rest' := ReadColumns(ts).value.1, ReadColumns(us).value.1;
      TailAlike(rest, rest');
      TailAlike(Tail(rest), Tail(rest'));
      KeywordAlike(Head(rest), Head(rest'), "FROM");
      WhereAlike(Tail(Tail(rest)), Tail(Tail(rest')));
    }
  }

  lemma UpdateAlike(ts: seq<Token>, us: seq<Token>)
    requires AllAlike(ts, us)
    ensures ReadUpdate(ts).Some? <==> ReadUpdate(us).Some?
  {
    TailAlike(ts, us);
    TailAlike(Tail(ts), Tail(us));
    KeywordAlike(Head(Tail(ts)), Head(Tail(us)), "SET");
    ListAlike(PAIR, Tail(Tail(ts)), Tail(Tail(us)));
    if ReadList(PAIR, Tail(Tail(ts))).Some? {
      WhereAlike(ReadList(PAIR, Tail(Tail(ts))).value.1, ReadList(PAIR, Tail(Tail(us))).value.1);
    }
  }

  lemma CommandAlike(command: string, ts: seq<Token>, us: seq<Token>)
    requires command in COMMANDS && AllAlike(ts, us)
    ensures ReadCommand(command, ts).Some? <==> ReadCommand(command, us).Some?
  {
    TailAlike(ts, us);
    TailAlike(Tail(ts), Tail(us));
    TailAlike(Tail(Tail(ts)), Tail(Tail(us)));
    if command == "CREATE" {
      KeywordAlike(Head(ts), Head(us), "TABLE");
      BracketedAlike(COLUMN, Tail(Tail(ts)), Tail(Tail(us)));
    } else if command == "INSERT" {
      KeywordAlike(Head(ts), Head(us), "INTO");
      KeywordAlike(Head(Tail(Tail(ts))), Head(Tail(Tail(us))), "VALUES");
      BracketedAlike(VALUE, Tail(Tail(Tail(ts))), Tail(Tail(Tail(us))));
    } else if command == "SELECT" {
      SelectAlike(ts, us);
    } else if command == "UPDATE" {
      UpdateAlike(ts, us);
    } else {
      KeywordAlike(Head(ts), Head(us), "FROM");
      WhereAlike(Tail(Tail(ts)), Tail(Tail(us)));
    }
  }

  lemma {:induction false} WhichAlike(t: Token, u: Token, order: seq<string>)
    requires Alike(t, u)
    ensures Which(t, order) == Which(u, order)
  {
    if order != [] {
      KeywordAlike(t, u, order[0]);
      WhichAlike(t, u, order[1..]);
    }
  }

  // Whether a text is accepted does not depend on the case of any of its letters.
  lemma AcceptedInAnyCase(a: string, b: string)
    requires SameButCaseAll(a, b)
    ensures Meaning(a).Some? <==> Meaning(b).Some?
  {
    var ts, us := Tokens(a, 0), Tokens(b, 0);
    TokensAlike(a, b, 0);
    TailAlike(ts, us);
    WhichAlike(Head(ts), Head(us), COMMANDS);
    if Which(Head(ts), COMMANDS).Some? {
      CommandAlike(Which(Head(ts), COMMANDS).value, Tail(ts), Tail(us));
    }
  }
}
