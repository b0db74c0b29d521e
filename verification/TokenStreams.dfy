/** The lexer's characters by their codes, and where texts may be cut: what separates tokens, and what spaces change. */
module TokenStreams {
  import opened Lexing
  import opened Grammar

  const UNCLOSED := Token(Invalid, "")

  // What the text of one character is read as, for all characters.
  function Single(c: char): seq<Token> {
    var code := c as int;
    if 9 <= code <= 13 || code == 32 then []
    else if 48 <= code <= 57 then [Token(Number, [c])]
    else if 65 <= code <= 90 || 97 <= code <= 122 then [Token(Word, [c])]
    else if code == 40 then [Token(OpenBracket, "(")]
    else if code == 41 then [Token(CloseBracket, ")")]
    else if code == 42 then [Token(Any, "*")]
    else if code == 44 then [Token(Comma, ",")]
    else if code == 61 then [Token(Equal, "\"")]
    else if code == 34 then [UNCLOSED]
    else [Token(Invalid, [c])]
  }

  lemma SingleCharacter(c: char)
    ensures Tokens([c], 0) == Single(c)
  {
    if !IsSpace(c) {
      assert [c][0..1] == [c];
      assert TokenAt([c], 0) == (Single(c)[0], 1);
      assert Next([c], 1).0.kind == END;
    }
  }

  // Spaces, brackets, star, comma and equal sign.
  predicate Separator(c: char) {
    9 <= c as int <= 13 || c in " ()*,="
  }

  // ------------------------------------------------------------------
  // Cutting texts

  lemma SliceShifted(text: string, off: nat, i: nat, j: nat)
    requires off <= |text| && i <= j <= |text| - off
    ensures text[off..][i..j] == text[off + i..off + j] && text[off..][j..] == text[off + j..]
  {
    assert forall k | 0 <= k < j - i :: text[off..][i..j][k] == text[off + i..off + j][k];
  }

  lemma StartsShifted(text: string, off: nat, b: string, pos: nat, i: nat, j: nat, t: Token)
    requires off <= |text| && text[off..] == b && pos <= i <= j <= |b| && Starts(b, pos, i, j, t)
    ensures Starts(text, off + pos, off + i, off + j, t)
  {
    SliceShifted(text, off, pos, i);
    SliceShifted(text, off, i, j);
  }

  lemma TokensFrom(text: string, pos: nat, t: Token, j: nat)
    requires pos <= |text| && Next(text, pos) == (t, j) && t.kind != END
    ensures j <= |text| && Tokens(text, pos) == [t] + Tokens(text, j)
  {
  }

  lemma NoTokens(text: string, pos: nat)
    requires pos <= |text| && Next(text, pos).0.kind == END
    ensures Tokens(text, pos) == []
  {
  }

  lemma {:induction false} SpellsShifted(text: string, off: nat, b: string, pos: nat, ts: seq<Token>)
    requires off <= |text| && text[off..] == b && pos <= |b| && Spells(b, pos, ts)
    ensures Spells(text, off + pos, ts)
    decreases |ts|
  {
    if ts == [] {
      SliceShifted(text, off, pos, pos);
    } else {
      var i, j :| pos <= i <= j <= |b| && Starts(b, pos, i, j, ts[0]) && Spells(b, j, ts[1..]);
      SpellsShifted(text, off, b, j, ts[1..]);
      OneMoreShifted(text, off, b, pos, i, j, ts);
    }
  }

  lemma OneMoreShifted(text: string, off: nat, b: string, pos: nat, i: nat, j: nat, ts: seq<Token>)
    requires off <= |text| && text[off..] == b && pos <= i <= j <= |b|
    requires ts != [] && Starts(b, pos, i, j, ts[0]) && Spells(text, off + j, ts[1..])
    ensures Spells(text, off + pos, ts)
  {
    StartsShifted(text, off, b, pos, i, j, ts[0]);
    SpellsFirst(text, off + pos, off + i, off + j, ts);
  }

  // Behind another text the tokens are the same.
  lemma Shifted(a: string, b: string)
    ensures Tokens(a + b, |a|) == Tokens(b, 0)
  {
    TokensSpell(b, 0);
    SpellsShifted(a + b, |a|, b, 0, Tokens(b, 0));
    SpellsIsTokens(a + b, |a|, Tokens(b, 0));
  }

  lemma StartsBefore(a: string, more: string, pos: nat, i: nat, j: nat, t: Token)
    requires pos <= i <= j <= |a| && Starts(a, pos, i, j, t) && t != UNCLOSED
    requires more != "" && Separator(more[0])
    ensures Starts(a + more, pos, i, j, t)
  {
    var text := a + more;
    assert text[pos..i] == a[pos..i] && text[i..j] == a[i..j];
    assert text[j..] == a[j..] + more;
    assert (a[j..] + more)[0] == if j < |a| then a[j..][0] else more[0];
  }

  // What stands behind a text does not change its first token, if that is closed and a separator stands there.
  lemma NextBefore(a: string, more: string, pos: nat)
    requires pos <= |a| && more != "" && Separator(more[0])
    requires Next(a, pos).0.kind != END && Next(a, pos).0 != UNCLOSED
    ensures Next(a + more, pos) == Next(a, pos)
  {
    var i, j := After(IsSpace, a, pos), Next(a, pos).1;
    NextStarts(a, pos);
    StartsBefore(a, more, pos, i, j, Next(a, pos).0);
    StartsIsNext(a + more, pos, i, j, Next(a, pos).0);
  }

  lemma NextSame(text: string, pos: nat, i: nat)
    requires pos <= |text| && i <= |text| && Next(text, pos) == Next(text, i)
    ensures Tokens(text, pos) == Tokens(text, i)
  {
  }

  lemma SpacesSkipped(text: string, pos: nat, i: nat)
    requires pos <= i <= |text| && forall k | pos <= k < i :: IsSpace(text[k])
    ensures Tokens(text, pos) == Tokens(text, i)
  {
    AfterIs(IsSpace, text, pos, After(IsSpace, text, i));
    NextSame(text, pos, i);
  }

  lemma SymbolFirst(c: char, b: string)
    requires Separator(c) && !IsSpace(c)
    ensures |Single(c)| == 1 && Single(c)[0].kind != END && Next([c] + b, 0) == (Single(c)[0], 1)
  {
  }

  lemma SeparatorFirst(c: char, b: string)
    requires Separator(c)
    ensures Tokens([c] + b, 0) == Single(c) + Tokens(b, 0)
  {
    Shifted([c], b);
    if IsSpace(c) {
      assert Single(c) == [];
      SpacesSkipped([c] + b, 0, 1);
    } else {
      SymbolFirst(c, b);
      TokensFrom([c] + b, 0, Single(c)[0], 1);
    }
  }

  lemma {:induction false} SeparatedFrom(a: string, more: string, pos: nat)
    requires pos <= |a| && more != "" && Separator(more[0]) && UNCLOSED !in Tokens(a, pos)
    ensures Tokens(a + more, pos) == Tokens(a, pos) + Tokens(more, 0)
    decreases |a| - pos
  {
    var (t, j) := Next(a, pos);
    if t.kind == END {
      OnlySpacesBefore(a, more, pos);
    } else {
      TokensFrom(a, pos, t, j);
      assert UNCLOSED !in Tokens(a, j);
      NextBefore(a, more, pos);
      SeparatedFrom(a, more, j);
      OneMoreToken(a + more, pos, t, j, Tokens(a, j), Tokens(more, 0));
    }
  }

  lemma OneMoreToken(text: string, pos: nat, t: Token, j: nat, ts: seq<Token>, us: seq<Token>)
    requires pos <= |text| && Next(text, pos) == (t, j) && t.kind != END && Tokens(text, j) == ts + us
    ensures Tokens(text, pos) == [t] + ts + us
  {
    TokensFrom(text, pos, t, j);
    assert [t] + ts + us == [t] + (ts + us);
  }

  lemma OnlySpacesBefore(a: string, more: string, pos: nat)
    requires pos <= |a| && Next(a, pos).0.kind == END
    ensures Tokens(a + more, pos) == Tokens(more, 0)
  {
    SpacesToTheEnd(a, more, pos);
    SpacesSkipped(a + more, pos, |a|);
    Shifted(a, more);
  }

  lemma SpacesToTheEnd(a: string, more: string, pos: nat)
    requires pos <= |a| && Next(a, pos).0.kind == END
    ensures forall k | pos <= k < |a| :: IsSpace((a + more)[k])
  {
    forall k | pos <= k < |a| ensures IsSpace((a + more)[k]) {
      assert (a + more)[k] == a[k];
    }
  }

  lemma Associated(a: seq<Token>, b: seq<Token>, c: seq<Token>)
    ensures a + (b + c) == a + b + c
  {
  }

  // A separator divides the token stream, but behind a quote that is not closed.
  lemma Separates(a: string, c: char, b: string)
    requires Separator(c) && UNCLOSED !in Tokens(a, 0)
    ensures Tokens(a + [c] + b, 0) == Tokens(a, 0) + Single(c) + Tokens(b, 0)
  {
    assert a + [c] + b == a + ([c] + b);
    SeparatedFrom(a, [c] + b, 0);
    SeparatorFirst(c, b);
    Associated(Tokens(a, 0), Single(c), Tokens(b, 0));
  }

  // A space drops out of the token stream.
  lemma SpaceSeparates(a: string, c: char, b: string)
    requires (9 <= c as int <= 13 || c as int == 32) && UNCLOSED !in Tokens(a, 0)
    ensures Tokens(a + [c] + b, 0) == Tokens(a, 0) + Tokens(b, 0)
  {
    Separates(a, c, b);
    assert Tokens(a, 0) + Single(c) == Tokens(a, 0);
  }

  // A quote left open takes in what stands behind: up to the next quote, or all of it.
  lemma OpenQuote(a: string, more: string, pos: nat)
    requires pos <= |a| && Next(a, pos).0 == UNCLOSED
    ensures Tokens(a, pos) == [UNCLOSED]
    ensures '"' !in more ==> Tokens(a + more, pos) == [UNCLOSED]
    ensures '"' in more ==> Next(a + more, pos).0.kind == Literal
  {
    var i, text := After(IsSpace, a, pos), a + more;
    NextStarts(a, pos);
    QuoteOpens(a, i);
    TokensFrom(a, pos, UNCLOSED, |a|);
    AfterIs(IsSpace, text, pos, i);
    if '"' !in more {
      forall k | i < k < |text| ensures NotQuote(text[k]) {
        assert text[k] == if k < |a| then a[i + 1..][k - i - 1] else more[k - |a|];
      }
      AfterIs(NotQuote, text, i + 1, |text|);
      TokensFrom(text, pos, UNCLOSED, |text|);
    } else {
      var m :| 0 <= m < |more| && more[m] == '"';
      assert text[|a| + m] == '"';
    }
  }

  lemma QuoteOpens(a: string, i: nat)
    requires i < |a| && !IsSpace(a[i]) && TokenAt(a, i).0 == UNCLOSED
    ensures a[i] == '"' && '"' !in a[i + 1..] && TokenAt(a, i).1 == |a|
  {
  }

  lemma {:induction false} OpenQuoteBehind(a: string, more: string, pos: nat)
    requires pos <= |a| && more != "" && Separator(more[0]) && UNCLOSED in Tokens(a, pos)
    ensures var ts, us := Tokens(a, pos), Tokens(a + more, pos);
            && ts[|ts| - 1] == UNCLOSED
            && if '"' in more then |us| >= |ts| && us[|ts| - 1].kind == Literal else us == ts
    decreases |a| - pos
  {
    var (t, j) := Next(a, pos);
    if t == UNCLOSED {
      OpenQuote(a, more, pos);
      if '"' in more {
        TokensFrom(a + more, pos, Next(a + more, pos).0, Next(a + more, pos).1);
      }
    } else {
      TokensFrom(a, pos, t, j);
      NextBefore(a, more, pos);
      TokensFrom(a + more, pos, t, j);
      OpenQuoteBehind(a, more, j);
    }
  }

  // A space divides the token stream exactly if it stands outside of quotes or has only spaces behind it.
  lemma SpaceSeparatesIff(a: string, c: char, b: string)
    requires 9 <= c as int <= 13 || c as int == 32
    ensures Tokens(a + [c] + b, 0) == Tokens(a, 0) + Tokens(b, 0) <==> UNCLOSED !in Tokens(a, 0) || Tokens(b, 0) == []
  {
    if UNCLOSED !in Tokens(a, 0) {
      SpaceSeparates(a, c, b);
    } else {
      assert a + [c] + b == a + ([c] + b);
      OpenQuoteBehind(a, [c] + b, 0);
      if Tokens(b, 0) == [] {
        EndIsSpaces(b, 0);
        assert b == b[0..];
      } else {
        var ts := Tokens(a, 0);
        assert (ts + Tokens(b, 0))[|ts| - 1] == UNCLOSED;
      }
    }
  }

  // Any of the six spaces may be put between two tokens: put into a text at any place outside of quotes, it changes
  // what the text is read as only if it cuts a token.
  lemma SpaceBetween(a: string, c: char, b: string)
    requires (9 <= c as int <= 13 || c as int == 32) && UNCLOSED !in Tokens(a, 0)
    ensures Tokens(a + [c] + b, 0) == Tokens(a + b, 0) <==> Tokens(a + b, 0) == Tokens(a, 0) + Tokens(b, 0)
    ensures Tokens(a + b, 0) == Tokens(a, 0) + Tokens(b, 0) ==> Meaning(a + [c] + b) == Meaning(a + b)
  {
    SpaceSeparates(a, c, b);
  }
}
