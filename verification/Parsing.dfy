/** The parser: methods that look at one token at a time, proved to decide the grammar. */
module Parsing {
  import opened Wrappers
  import opened Lexing
  import opened Grammar
  import opened LetterCase

  class Parser {
    const lexer: Lexer
    var currentToken: Token

    ghost predicate Valid()
      reads this, lexer
    {
      lexer.Valid()
      && (currentToken.kind == END ==> currentToken == END_TOKEN && Tokens(lexer.input, lexer.pos) == [])
    }

    // The tokens still to be read, the current one first.
    ghost function Stream(): (ts: seq<Token>)
      requires Valid()
      reads this, lexer
      ensures Head(ts) == currentToken
    {
      if currentToken.kind == END then [] else [currentToken] + Tokens(lexer.input, lexer.pos)
    }

    // The first token is read at once.
    constructor (lexer: Lexer)
      requires lexer.Valid()
      modifies lexer
      ensures Valid() && this.lexer == lexer && Stream() == Tokens(lexer.input, old(lexer.pos))
    {
      this.lexer := lexer;
      var first := lexer.NextToken();
      currentToken := first;
    }

    method Advance()
      requires Valid()
      modifies this, lexer
      ensures Valid() && Stream() == Tail(old(Stream()))
    {
      currentToken := lexer.NextToken();
    }

    // Compares two words letter by letter, whatever their case.
    method CheckWords(s1: string, s2: string) returns (same: bool)
      ensures same <==> SameWord(s1, s2)
      ensures same <==> SameButCaseAll(s1, s2) && forall i | 0 <= i < |s1| :: Letter(s1[i])
    {
      SameWordIff(s1, s2);
      if |s1| != |s2| {
        return false;
      }
      for i := 0 to |s1|
        invariant forall k | 0 <= k < i :: IsAlpha(s1[k]) && IsAlpha(s2[k]) && Upper(s1[k]) == Upper(s2[k])
      {
        if !IsAlpha(s1[i]) || !IsAlpha(s2[i]) || Upper(s1[i]) != Upper(s2[i]) {
          return false;
        }
      }
      return true;
    }

    // The commands are tried in an order of no importance; anything else than one statement up to END is None.
    method Serialize(order: seq<string>) returns (r: Option<Statement>)
      requires Valid() && AllCommands(order)
      modifies this, lexer
      ensures r == ReadStatement(old(Stream()))
      ensures Proper(old(Stream())) ==> forall s :: r == Some(s) <==> Derives(s, old(Stream()))
    {
      ghost var ts := Stream();
      OrderIrrelevant(currentToken, order);
      r := Dispatch(order);
      forall s | Proper(ts) ensures r == Some(s) <==> Derives(s, ts) {
        ReadIffDerives(ts, s);
      }
    }

    method Dispatch(order: seq<string>) returns (r: Option<Statement>)
      requires Valid() && forall c | c in order :: c in COMMANDS
      modifies this, lexer
      ensures r == match Which(old(currentToken), order)
                   case None => None
                   case Some(command) => ReadCommand(command, Tail(old(Stream())))
    {
      if currentToken.kind != Word || |currentToken.value| != 6 {
        assert forall c | c in COMMANDS :: |c| == 6;
        return None;
      }
      var i := 0;
      while i < |order|
        invariant 0 <= i <= |order| && unchanged(this, lexer)
        invariant Which(currentToken, order[i..]) == Which(currentToken, order)
      {
        assert order[i..][1..] == order[i + 1..];
        var same := CheckWords(currentToken.value, order[i]);
        if same {
          if order[i] == "CREATE" {
            r := this.Create();
          } else if order[i] == "INSERT" {
            r := this.Insert();
          } else if order[i] == "SELECT" {
            r := this.Select();
          } else if order[i] == "UPDATE" {
            r := this.Update();
          } else {
            r := this.Delete();
          }
          return;
        }
        i := i + 1;
      }
      return None;
    }

    // The current token as the type of a column.
    method ColumnType() returns (r: Option<string>)
      requires Valid()
      ensures r == if currentToken.kind == Word then TypeOf(currentToken.value) else None
    {
      if currentToken.kind != Word {
        return None;
      }
      var isInt := CheckWords(currentToken.value, "INT");
      var isText := CheckWords(currentToken.value, "TEXT");
      r := if isInt then Some("INT") else if isText then Some("TEXT") else None;
    }

    // The entry that starts at the current token; it leaves the current token behind it.
    method Entry(kind: EntryKind) returns (r: Option<Entry>)
      requires Valid()
      modifies this, lexer
      ensures Valid()
      ensures match ReadEntry(kind, old(Stream()))
              case None => r == None
              case Some((e, rest)) => r == Some(e) && Stream() == rest
    {
      var first := currentToken;
      match kind {
        case NAME =>
          if first.kind != Word {
            return None;
          }
          r := Some(One(first.value));
        case COLUMN =>
          if first.kind != Word {
            return None;
          }
          Advance();
          var columnType := ColumnType();
          if columnType == None {
            return None;
          }
          r := Some(Two(first.value, columnType.value));
        case VALUE =>
          if !IsValue(first) {
            return None;
          }
          r := Some(One(first.value));
        case PAIR =>
          if first.kind != Word {
            return None;
          }
          Advance();
          if currentToken.kind != Equal {
            return None;
          }
          Advance();
          if !IsValue(currentToken) {
            return None;
          }
          r := Some(Two(first.value, currentToken.value));
      }
      Advance();
    }

    // The loop of all the lists: entries up to the first one without a comma behind it.
    method List(kind: EntryKind) returns (r: Option<seq<Entry>>)
      requires Valid()
      modifies this, lexer
      ensures Valid()
      ensures match ReadList(kind, old(Stream()))
              case None => r == None
              case Some((es, rest)) => r == Some(es) && Stream() == rest
    {
      var entries := [];
      BehindNothing(ReadList(kind, Stream()));
      while true
        invariant Valid()
        invariant ReadList(kind, old(Stream())) == Behind(entries, ReadList(kind, Stream()))
        decreases |Stream()|
      {
        var e := Entry(kind);
        if e == None {
          return None;
        }
        BehindOne(entries, e.value, ReadList(kind, Tail(Stream())));
        entries := entries + [e.value];
        if currentToken.kind != Comma {
          return Some(entries);
        }
        Advance();
      }
    }

    method Where() returns (r: Option<seq<Entry>>)
      requires Valid()
      modifies this, lexer
      ensures r == ReadWhere(old(Stream()))
    {
      if currentToken.kind == END {
        return Some([]);
      }
      if currentToken.kind != Word {
        return None;
      }
      var same := CheckWords(currentToken.value, "WHERE");
      if !same {
        return None;
      }
      Advance();
      r := List(PAIR);
      if currentToken.kind != END {
        return None;
      }
    }

    method Bracketed(kind: EntryKind) returns (r: Option<seq<Entry>>)
      requires Valid()
      modifies this, lexer
      ensures r == ReadBracketed(kind, old(Stream()))
    {
      if currentToken.kind != OpenBracket {
        return None;
      }
      Advance();
      r := List(kind);
      if r == None || currentToken.kind != CloseBracket {
        return None;
      }
      Advance();
      if currentToken.kind != END {
        return None;
      }
    }

    // The current token is a word; the next one becomes current.
    method Keyword(word: string) returns (same: bool)
      requires Valid()
      modifies this, lexer
      ensures Valid()
      ensures same <==> IsKeyword(old(currentToken), word)
      ensures Stream() == Tail(old(Stream()))
    {
      same := false;
      if currentToken.kind == Word {
        same := CheckWords(currentToken.value, word);
      }
      Advance();
    }

    method Create() returns (r: Option<Statement>)
      requires Valid()
      modifies this, lexer
      ensures r == ReadCreate(Tail(old(Stream())))
    {
      Advance();
      var same := Keyword("TABLE");
      if !same || currentToken.kind != Word {
        return None;
      }
      var table := currentToken.value;
      Advance();
      var columns := Bracketed(COLUMN);
      if columns == None {
        return None;
      }
      return Some(Statement.Create(table, columns.value));
    }

    method Insert() returns (r: Option<Statement>)
      requires Valid()
      modifies this, lexer
      ensures r == ReadInsert(Tail(old(Stream())))
    {
      Advance();
      var same := Keyword("INTO");
      if !same || currentToken.kind != Word {
        return None;
      }
      var table := currentToken.value;
      Advance();
      same := Keyword("VALUES");
      if !same {
        return None;
      }
      var values := Bracketed(VALUE);
      if values == None {
        return None;
      }
      return Some(Statement.Insert(table, values.value));
    }

    // A star or the names of columns.
    method ColumnNames() returns (r: Option<Columns>)
      requires Valid()
      modifies this, lexer
      ensures Valid()
      ensures match ReadColumns(old(Stream()))
              case None => r == None
              case Some((chosen, rest)) => r == Some(chosen) && Stream() == rest
    {
      if currentToken.kind == Any {
        Advance();
        return Some(All);
      }
      var names := List(NAME);
      r := if names == None then None else Some(Named(names.value));
    }

    method Select() returns (r: Option<Statement>)
      requires Valid()
      modifies this, lexer
      ensures r == ReadSelect(Tail(old(Stream())))
    {
      Advance();
      var chosen := ColumnNames();
      if chosen == None {
        return None;
      }
      var same := CheckWords(currentToken.value, "FROM");
      if !same {
        return None;
      }
      Advance();
      if currentToken.kind != Word {
        return None;
      }
      var table := currentToken.value;
      Advance();
      var where := Where();
      if where == None {
        return None;
      }
      return Some(Statement.Select(chosen.value, table, where.value));
    }

    method Update() returns (r: Option<Statement>)
      requires Valid()
      modifies this, lexer
      ensures r == ReadUpdate(Tail(old(Stream())))
    {
      Advance();
      if currentToken.kind != Word {
        return None;
      }
      var table := currentToken.value;
      Advance();
      var same := Keyword("SET");
      if !same {
        return None;
      }
      var values := List(PAIR);
      if values == None {
        return None;
      }
      var where := Where();
      if where == None {
        return None;
      }
      return Some(Statement.Update(table, values.value, where.value));
    }

    method Delete() returns (r: Option<Statement>)
      requires Valid()
      modifies this, lexer
      ensures r == ReadDelete(Tail(old(Stream())))
    {
      Advance();
      var same := Keyword("FROM");
      if !same || currentToken.kind != Word {
        return None;
      }
      var table := currentToken.value;
      Advance();
      var where := Where();
      if where == None {
        return None;
      }
      return Some(Statement.Delete(table, where.value));
    }
  }

  // The result of reading a list, behind entries already read.
  ghost function Behind(es: seq<Entry>, r: Option<(seq<Entry>, seq<Token>)>): Option<(seq<Entry>, seq<Token>)> {
    match r
    case None => None
    case Some((more, rest)) => Some((es + more, rest))
  }

  lemma BehindNothing(r: Option<(seq<Entry>, seq<Token>)>)
    ensures Behind([], r) == r
  {
    if r.Some? {
      assert [] + r.value.0 == r.value.0;
    }
  }

  lemma BehindOne(es: seq<Entry>, e: Entry, r: Option<(seq<Entry>, seq<Token>)>)
    ensures Behind(es, Behind([e], r)) == Behind(es + [e], r)
  {
    if r.Some? {
      assert es + ([e] + r.value.0) == es + [e] + r.value.0;
    }
  }

  // A text is accepted exactly if it spells a token sequence that derives a statement, and then as that statement.
  method Parse(text: string, order: seq<string>) returns (r: Option<Statement>)
    requires AllCommands(order)
    ensures r == Meaning(text)
    ensures forall s :: r == Some(s) <==> exists ts :: Spells(text, 0, ts) && Derives(s, ts)
  {
    var lexer := new Lexer(text);
    var parser := new Parser(lexer);
    r := parser.Serialize(order);
    forall s ensures r == Some(s) <==> exists ts :: Spells(text, 0, ts) && Derives(s, ts) {
      MeaningIffSpelled(text, s);
    }
  }
}
