/**
 The five statements, the token sequences that derive each of them, and the functions the parser computes.
 */
module Grammar {
  import opened Wrappers
  import opened Lexing

  // ------------------------------------------------------------------
  // Statements

  // An element of a list of a statement: a string, or two of them.
  datatype Entry = One(s: string) | Two(first: string, second: string)

  datatype Columns = All | Named(names: seq<Entry>)

  datatype Statement =
    | Create(table: string, columns: seq<Entry>)
    | Insert(table: string, values: seq<Entry>)
    | Select(chosen: Columns, table: string, where: seq<Entry>)
    | Update(table: string, values: seq<Entry>, where: seq<Entry>)
    | Delete(table: string, where: seq<Entry>)

  // Column names, columns with a type, values, and keys with a value.
  datatype EntryKind = NAME | COLUMN | VALUE | PAIR

  const COLUMN_TYPES := ["INT", "TEXT"]

  predicate EntryOk(kind: EntryKind, e: Entry) {
    match kind
    case NAME => e.One?
    case COLUMN => e.Two? && e.second in COLUMN_TYPES
    case VALUE => e.One?
    case PAIR => e.Two?
  }

  predicate EntriesOk(kind: EntryKind, es: seq<Entry>) {
    forall i | 0 <= i < |es| :: EntryOk(kind, es[i])
  }

  predicate WellFormed(s: Statement) {
    match s
    case Create(_, columns) => columns != [] && EntriesOk(COLUMN, columns)
    case Insert(_, values) => values != [] && EntriesOk(VALUE, values)
    case Select(chosen, _, where) =>
      (chosen.Named? ==> chosen.names != [] && EntriesOk(NAME, chosen.names)) && EntriesOk(PAIR, where)
    case Update(_, values, where) => values != [] && EntriesOk(PAIR, values) && EntriesOk(PAIR, where)
    case Delete(_, where) => EntriesOk(PAIR, where)
  }

  // ------------------------------------------------------------------
  // The grammar: what the tokens of a statement have to be, one after the other

  function Upper(c: char): char {
    if 'a' <= c <= 'z' then (c as int - 32) as char else c
  }

  // Both are letters only, and the same ones but for case.
  predicate SameWord(a: string, b: string) {
    |a| == |b| && forall i | 0 <= i < |a| :: IsAlpha(a[i]) && IsAlpha(b[i]) && Upper(a[i]) == Upper(b[i])
  }

  // The types of the tokens that always look the same.
  type SymbolType = k: TokenType |
    k == OpenBracket || k == CloseBracket || k == Any || k == Comma || k == Equal witness Comma

  datatype Pattern =
    | Keyword(word: string)    // a word, in any case
    | From                     // a token of any type whose value is the word FROM, in any case
    | Name(name: string)       // this very word
    | Value(text: string)      // a number or a literal with this value
    | Symbol(kind: SymbolType) // a token of this type

  predicate Matches(t: Token, p: Pattern) {
    match p
    case Keyword(word) => t.kind == Word && SameWord(t.value, word)
    case From => SameWord(t.value, "FROM")
    case Name(name) => t == Token(Word, name)
    case Value(text) => (t.kind == Number || t.kind == Literal) && t.value == text
    case Symbol(kind) => t.kind == kind
  }

  datatype Form = End | Then(first: Pattern, more: Form)

  function EntryForm(kind: EntryKind, e: Entry, more: Form): Form
    requires EntryOk(kind, e)
  {
    match kind
    case NAME => Then(Name(e.s), more)
    case COLUMN => Then(Name(e.first), Then(Keyword(e.second), more))
    case VALUE => Then(Value(e.s), more)
    case PAIR => Then(Name(e.first), Then(Symbol(Equal), Then(Value(e.second), more)))
  }

  // A list of one entry or more, with commas between them.
  function ListForm(kind: EntryKind, es: seq<Entry>, more: Form): Form
    requires es != [] && EntriesOk(kind, es)
  {
    if |es| == 1 then EntryForm(kind, es[0], more)
    else EntryForm(kind, es[0], Then(Symbol(Comma), ListForm(kind, es[1..], more)))
  }

  function WhereForm(where: seq<Entry>): Form
    requires EntriesOk(PAIR, where)
  {
    if where == [] then End else Then(Keyword("WHERE"), ListForm(PAIR, where, End))
  }

  // A star or column names.
  function ColumnsForm(chosen: Columns, more: Form): Form
    requires chosen.Named? ==> chosen.names != [] && EntriesOk(NAME, chosen.names)
  {
    if chosen.All? then Then(Symbol(Any), more) else ListForm(NAME, chosen.names, more)
  }

  function StatementForm(s: Statement): Form
    requires WellFormed(s)
  {
    match s
    case Create(table, columns) =>
      Then(Keyword("CREATE"), Then(Keyword("TABLE"), Then(Name(table), Then(Symbol(OpenBracket),
        ListForm(COLUMN, columns, Then(Symbol(CloseBracket), End))))))
    case Insert(table, values) =>
      Then(Keyword("INSERT"), Then(Keyword("INTO"), Then(Name(table), Then(Keyword("VALUES"), Then(Symbol(OpenBracket),
        ListForm(VALUE, values, Then(Symbol(CloseBracket), End)))))))
    case Select(chosen, table, where) =>
      Then(Keyword("SELECT"), ColumnsForm(chosen, Then(From, Then(Name(table), WhereForm(where)))))
    case Update(table, values, where) =>
      Then(Keyword("UPDATE"), Then(Name(table), Then(Keyword("SET"), ListForm(PAIR, values, WhereForm(where)))))
    case Delete(table, where) =>
      Then(Keyword("DELETE"), Then(Keyword("FROM"), Then(Name(table), WhereForm(where))))
  }

  function Head(ts: seq<Token>): Token {
    if ts == [] then END_TOKEN else ts[0]
  }

  function Tail(ts: seq<Token>): seq<Token> {
    if ts == [] then [] else ts[1..]
  }

  predicate Fits(ts: seq<Token>, f: Form) {
    match f
    case End => ts == []
    case Then(p, more) => ts != [] && Matches(ts[0], p) && Fits(Tail(ts), more)
  }

  predicate Derives(s: Statement, ts: seq<Token>) {
    WellFormed(s) && Fits(ts, StatementForm(s))
  }

  // ------------------------------------------------------------------
  // What the parser computes, by looking at one token at a time

  predicate IsKeyword(t: Token, word: string) {
    t.kind == Word && SameWord(t.value, word)
  }

  predicate IsValue(t: Token) {
    t.kind == Number || t.kind == Literal
  }

  function TypeOf(word: string): (r: Option<string>)
    ensures r.Some? ==> r.value in COLUMN_TYPES && SameWord(word, r.value)
  {
    if SameWord(word, "INT") then Some("INT") else if SameWord(word, "TEXT") then Some("TEXT") else None
  }

  // An entry at the start of the tokens, and the tokens behind it.
  function ReadEntry(kind: EntryKind, ts: seq<Token>): (r: Option<(Entry, seq<Token>)>)
    ensures r.Some? ==> |r.value.1| < |ts| && EntryOk(kind, r.value.0)
  {
    var t0, t1, t2 := Head(ts), Head(Tail(ts)), Head(Tail(Tail(ts)));
    match kind
    case NAME => if t0.kind == Word then Some((One(t0.value), Tail(ts))) else None
    case COLUMN =>
      if t0.kind == Word && t1.kind == Word && TypeOf(t1.value).Some?
      then Some((Two(t0.value, TypeOf(t1.value).value), Tail(Tail(ts))))
      else None
    case VALUE => if IsValue(t0) then Some((One(t0.value), Tail(ts))) else None
    case PAIR =>
      if t0.kind == Word && t1.kind == Equal && IsValue(t2)
      then Some((Two(t0.value, t2.value), Tail(Tail(Tail(ts)))))
      else None
  }

  function ReadList(kind: EntryKind, ts: seq<Token>): (r: Option<(seq<Entry>, seq<Token>)>)
    ensures r.Some? ==> |r.value.1| < |ts| && r.value.0 != [] && EntriesOk(kind, r.value.0)
    decreases |ts|
  {
    match ReadEntry(kind, ts)
    case None => None
    case Some((e, rest)) =>
      if Head(rest).kind != Comma then Some(([e], rest))
      else match ReadList(kind, Tail(rest))
        case None => None
        case Some((es, behind)) => Some(([e] + es, behind))
  }

  // Nothing, or WHERE and a list up to the end.
  function ReadWhere(ts: seq<Token>): (r: Option<seq<Entry>>)
    ensures r.Some? ==> EntriesOk(PAIR, r.value)
  {
    if Head(ts).kind == END then Some([])
    else if !IsKeyword(Head(ts), "WHERE") then None
    else match ReadList(PAIR, Tail(ts))
      case None => None
      case Some((es, rest)) => if Head(rest).kind == END then Some(es) else None
  }

  // A list in brackets up to the end.
  function ReadBracketed(kind: EntryKind, ts: seq<Token>): (r: Option<seq<Entry>>)
    ensures r.Some? ==> r.value != [] && EntriesOk(kind, r.value)
  {
    if Head(ts).kind != OpenBracket then None
    else match ReadList(kind, Tail(ts))
      case None => None
      case Some((es, rest)) =>
        if Head(rest).kind == CloseBracket && Head(Tail(rest)).kind == END then Some(es) else None
  }

  function ReadCreate(ts: seq<Token>): (r: Option<Statement>)
    ensures r.Some? ==> WellFormed(r.value)
  {
    if !IsKeyword(Head(ts), "TABLE") || Head(Tail(ts)).kind != Word then None
    else match ReadBracketed(COLUMN, Tail(Tail(ts)))
      case None => None
      case Some(columns) => Some(Create(Head(Tail(ts)).value, columns))
  }

  function ReadInsert(ts: seq<Token>): (r: Option<Statement>)
    ensures r.Some? ==> WellFormed(r.value)
  {
    if !IsKeyword(Head(ts), "INTO") || Head(Tail(ts)).kind != Word || !IsKeyword(Head(Tail(Tail(ts))), "VALUES") then
      None
    else match ReadBracketed(VALUE, Tail(Tail(Tail(ts))))
      case None => None
      case Some(values) => Some(Insert(Head(Tail(ts)).value, values))
  }

  function ReadColumns(ts: seq<Token>): (r: Option<(Columns, seq<Token>)>)
    ensures r.Some? && r.value.0.Named? ==> r.value.0.names != [] && EntriesOk(NAME, r.value.0.names)
  {
    if Head(ts).kind == Any then Some((All, Tail(ts)))
    else match ReadList(NAME, ts)
      case None => None
      case Some((names, rest)) => Some((Named(names), rest))
  }

  // The word FROM is recognised whatever the type of its token.
  function ReadSelect(ts: seq<Token>): (r: Option<Statement>)
    ensures r.Some? ==> WellFormed(r.value)
  {
    match ReadColumns(ts)
    case None => None
    case Some((chosen, rest)) =>
      if !SameWord(Head(rest).value, "FROM") || Head(Tail(rest)).kind != Word then None
      else match ReadWhere(Tail(Tail(rest)))
        case None => None
        case Some(where) => Some(Select(chosen, Head(Tail(rest)).value, where))
  }

  function ReadUpdate(ts: seq<Token>): (r: Option<Statement>)
    ensures r.Some? ==> WellFormed(r.value)
  {
    if Head(ts).kind != Word || !IsKeyword(Head(Tail(ts)), "SET") then None
    else match ReadList(PAIR, Tail(Tail(ts)))
      case None => None
      case Some((values, rest)) =>
        match ReadWhere(rest)
        case None => None
        case Some(where) => Some(Update(Head(ts).value, values, where))
  }

  function ReadDelete(ts: seq<Token>): (r: Option<Statement>)
    ensures r.Some? ==> WellFormed(r.value)
  {
    if !IsKeyword(Head(ts), "FROM") || Head(Tail(ts)).kind != Word then None
    else match ReadWhere(Tail(Tail(ts)))
      case None => None
      case Some(where) => Some(Delete(Head(Tail(ts)).value, where))
  }

  // ------------------------------------------------------------------
  // The functions decide the grammar

  // What holds of the tokens of any text.
  predicate Proper(ts: seq<Token>) {
    forall i | 0 <= i < |ts| :: ts[i].kind != END && (ts[i].kind == Comma ==> ts[i].value == ",")
  }

  // A form that does not start with a comma.
  predicate NoComma(f: Form) {
    f.Then? ==> f.first != Symbol(Comma)
  }

  lemma EntryFits(kind: EntryKind, ts: seq<Token>, e: Entry, more: Form)
    requires EntryOk(kind, e)
    ensures Fits(ts, EntryForm(kind, e, more))
            <==> ReadEntry(kind, ts).Some? && ReadEntry(kind, ts).value.0 == e
                 && Fits(ReadEntry(kind, ts).value.1, more)
  {
    match kind
    case NAME =>
    case COLUMN =>
      var t1 := Head(Tail(ts));
      var last := Then(Keyword(e.second), more);
      assert Fits(Tail(ts), last) <==> Tail(ts) != [] && Matches(t1, last.first) && Fits(Tail(Tail(ts)), more);
      assert SameWord(t1.value, "TEXT") ==> |t1.value| == 4;
    case VALUE =>
    case PAIR =>
      var last := Then(Value(e.second), more);
      var tail := Tail(Tail(ts));
      assert Fits(tail, last) <==> tail != [] && Matches(tail[0], last.first) && Fits(Tail(tail), more);
  }

  lemma ReadEntryProper(kind: EntryKind, ts: seq<Token>)
    requires Proper(ts) && ReadEntry(kind, ts).Some?
    ensures Proper(ReadEntry(kind, ts).value.1)
  {
  }

  // No form but one that starts with a comma fits tokens that do.
  lemma CommaFirst(ts: seq<Token>, f: Form)
    requires Proper(ts) && NoComma(f) && Fits(ts, f)
    ensures Head(ts).kind != Comma
  {
    if f.Then? && f.first.From? {
      assert ts[0].value != "" ==> IsAlpha(ts[0].value[0]);
    }
  }

  lemma {:induction false} ListFits(kind: EntryKind, ts: seq<Token>, es: seq<Entry>, more: Form)
    requires Proper(ts) && es != [] && EntriesOk(kind, es) && NoComma(more)
    ensures Fits(ts, ListForm(kind, es, more))
            <==> ReadList(kind, ts).Some? && ReadList(kind, ts).value.0 == es && Fits(ReadList(kind, ts).value.1, more)
    decreases |es|
  {
    if ReadEntry(kind, ts).None? {
      EntryFits(kind, ts, es[0], if |es| == 1 then more else Then(Symbol(Comma), ListForm(kind, es[1..], more)));
    } else if |es| == 1 {
      LastEntryFits(kind, ts, es[0], more);
      assert es == [es[0]];
    } else {
      var rest := Tail(ReadEntry(kind, ts).value.1);
      ReadEntryProper(kind, ts);
      assert EntriesOk(kind, es[1..]) && Proper(rest);
      ListFits(kind, rest, es[1..], more);
      MoreEntriesFit(kind, ts, es, more);
    }
  }

  lemma MoreEntriesFit(kind: EntryKind, ts: seq<Token>, es: seq<Entry>, more: Form)
    requires |es| > 1 && EntriesOk(kind, es) && ReadEntry(kind, ts).Some?
    requires var rest := Tail(ReadEntry(kind, ts).value.1);
             Fits(rest, ListForm(kind, es[1..], more)) <==>
             ReadList(kind, rest).Some? && ReadList(kind, rest).value.0 == es[1..]
             && Fits(ReadList(kind, rest).value.1, more)
    ensures Fits(ts, ListForm(kind, es, more))
            <==> ReadList(kind, ts).Some? && ReadList(kind, ts).value.0 == es && Fits(ReadList(kind, ts).value.1, more)
  {
    EntryFits(kind, ts, es[0], Then(Symbol(Comma), ListForm(kind, es[1..], more)));
    assert es == [es[0]] + es[1..];
  }

  lemma LastEntryFits(kind: EntryKind, ts: seq<Token>, e: Entry, more: Form)
    requires Proper(ts) && EntryOk(kind, e) && NoComma(more) && ReadEntry(kind, ts).Some?
    ensures var (e', rest) := ReadEntry(kind, ts).value;
            Fits(ts, EntryForm(kind, e, more)) <==> e' == e && Head(rest).kind != Comma && Fits(rest, more)
  {
    var rest := ReadEntry(kind, ts).value.1;
    ReadEntryProper(kind, ts);
    EntryFits(kind, ts, e, more);
    if Fits(rest, more) {
      CommaFirst(rest, more);
    }
  }

  lemma {:induction false} ReadListProper(kind: EntryKind, ts: seq<Token>)
    requires Proper(ts) && ReadList(kind, ts).Some?
    ensures Proper(ReadList(kind, ts).value.1)
    decreases |ts|
  {
    ReadEntryProper(kind, ts);
    var rest := ReadEntry(kind, ts).value.1;
    if Head(rest).kind == Comma {
      ReadListProper(kind, Tail(rest));
    }
  }

  lemma WhereFits(ts: seq<Token>, where: seq<Entry>)
    requires Proper(ts) && EntriesOk(PAIR, where)
    ensures Fits(ts, WhereForm(where)) <==> ReadWhere(ts) == Some(where)
  {
    assert Head(ts).kind == END <==> ts == [];
    if ReadList(PAIR, Tail(ts)).Some? {
      ReadListProper(PAIR, Tail(ts));
    }
    if where != [] {
      ListFits(PAIR, Tail(ts), where, End);
    }
  }

  lemma BracketedFits(kind: EntryKind, ts: seq<Token>, es: seq<Entry>)
    requires Proper(ts) && es != [] && EntriesOk(kind, es)
    ensures Fits(ts, Then(Symbol(OpenBracket), ListForm(kind, es, Then(Symbol(CloseBracket), End))))
            <==> ReadBracketed(kind, ts) == Some(es)
  {
    ListFits(kind, Tail(ts), es, Then(Symbol(CloseBracket), End));
    if ReadList(kind, Tail(ts)).Some? {
      ReadListProper(kind, Tail(ts));
      CloseFits(ReadList(kind, Tail(ts)).value.1);
    }
  }

  lemma CloseFits(ts: seq<Token>)
    requires Proper(ts)
    ensures Fits(ts, Then(Symbol(CloseBracket), End)) <==> Head(ts).kind == CloseBracket && Head(Tail(ts)).kind == END
  {
    assert Fits(Tail(ts), End) <==> Tail(ts) == [];
  }

  lemma CreateFits(ts: seq<Token>, s: Statement)
    requires Proper(ts) && WellFormed(s) && s.Create?
    ensures Fits(ts, StatementForm(s)) <==> IsKeyword(Head(ts), "CREATE") && ReadCreate(Tail(ts)) == Some(s)
  {
    var t1 := Tail(ts);
    var list := Then(Symbol(OpenBracket), ListForm(COLUMN, s.columns, Then(Symbol(CloseBracket), End)));
    BracketedFits(COLUMN, Tail(Tail(t1)), s.columns);
    assert Fits(Tail(t1), Then(Name(s.table), list)) <==>
      Tail(t1) != [] && Matches(Tail(t1)[0], Name(s.table)) && Fits(Tail(Tail(t1)), list);
  }

  lemma InsertFits(ts: seq<Token>, s: Statement)
    requires Proper(ts) && WellFormed(s) && s.Insert?
    ensures Fits(ts, StatementForm(s)) <==> IsKeyword(Head(ts), "INSERT") && ReadInsert(Tail(ts)) == Some(s)
  {
    var t2 := Tail(Tail(ts));
    var list := Then(Symbol(OpenBracket), ListForm(VALUE, s.values, Then(Symbol(CloseBracket), End)));
    var values := Then(Keyword("VALUES"), list);
    BracketedFits(VALUE, Tail(Tail(t2)), s.values);
    assert Fits(t2, Then(Name(s.table), values)) <==>
      t2 != [] && Matches(t2[0], Name(s.table)) && Fits(Tail(t2), values);
    assert Fits(Tail(t2), values) <==>
      Tail(t2) != [] && Matches(Tail(t2)[0], Keyword("VALUES")) && Fits(Tail(Tail(t2)), list);
  }

  lemma FromFits(ts: seq<Token>, table: string, where: seq<Entry>)
    requires Proper(ts) && EntriesOk(PAIR, where)
    ensures Fits(ts, Then(From, Then(Name(table), WhereForm(where))))
            <==> SameWord(Head(ts).value, "FROM") && Head(Tail(ts)) == Token(Word, table)
                 && ReadWhere(Tail(Tail(ts))) == Some(where)
  {
    WhereFits(Tail(Tail(ts)), where);
    assert Fits(Tail(ts), Then(Name(table), WhereForm(where))) <==>
      Tail(ts) != [] && Matches(Tail(ts)[0], Name(table)) && Fits(Tail(Tail(ts)), WhereForm(where));
  }

  lemma ColumnsFits(ts: seq<Token>, chosen: Columns, more: Form)
    requires Proper(ts) && NoComma(more) && (chosen.Named? ==> chosen.names != [] && EntriesOk(NAME, chosen.names))
    ensures ReadColumns(ts).Some? ==> Proper(ReadColumns(ts).value.1)
    ensures Fits(ts, ColumnsForm(chosen, more)) <==>
            ReadColumns(ts).Some? && ReadColumns(ts).value.0 == chosen && Fits(ReadColumns(ts).value.1, more)
  {
    if ReadList(NAME, ts).Some? {
      ReadListProper(NAME, ts);
    }
    if chosen.Named? {
      ListFits(NAME, ts, chosen.names, more);
    }
  }

  lemma SelectFits(ts: seq<Token>, s: Statement)
    requires Proper(ts) && WellFormed(s) && s.Select?
    ensures Fits(ts, StatementForm(s)) <==> IsKeyword(Head(ts), "SELECT") && ReadSelect(Tail(ts)) == Some(s)
  {
    ColumnsFits(Tail(ts), s.chosen, Then(From, Then(Name(s.table), WhereForm(s.where))));
    if ReadColumns(Tail(ts)).Some? {
      FromFits(ReadColumns(Tail(ts)).value.1, s.table, s.where);
    }
  }

  lemma UpdateFits(ts: seq<Token>, s: Statement)
    requires Proper(ts) && WellFormed(s) && s.Update?
    ensures Fits(ts, StatementForm(s)) <==> IsKeyword(Head(ts), "UPDATE") && ReadUpdate(Tail(ts)) == Some(s)
  {
    SetFits(Tail(Tail(ts)), s.values, s.where);
  }

  lemma SetFits(ts: seq<Token>, values: seq<Entry>, where: seq<Entry>)
    requires Proper(ts) && values != [] && EntriesOk(PAIR, values) && EntriesOk(PAIR, where)
    ensures Fits(ts, Then(Keyword("SET"), ListForm(PAIR, values, WhereForm(where))))
            <==> IsKeyword(Head(ts), "SET") && ReadList(PAIR, Tail(ts)).Some?
                 && ReadList(PAIR, Tail(ts)).value.0 == values
                 && ReadWhere(ReadList(PAIR, Tail(ts)).value.1) == Some(where)
  {
    ListFits(PAIR, Tail(ts), values, WhereForm(where));
    if ReadList(PAIR, Tail(ts)).Some? {
      ReadListProper(PAIR, Tail(ts));
      WhereFits(ReadList(PAIR, Tail(ts)).value.1, where);
    }
  }

  lemma DeleteFits(ts: seq<Token>, s: Statement)
    requires Proper(ts) && WellFormed(s) && s.Delete?
    ensures Fits(ts, StatementForm(s)) <==> IsKeyword(Head(ts), "DELETE") && ReadDelete(Tail(ts)) == Some(s)
  {
    var t2 := Tail(Tail(ts));
    WhereFits(Tail(t2), s.where);
    assert Fits(t2, Then(Name(s.table), WhereForm(s.where))) <==>
      t2 != [] && Matches(t2[0], Name(s.table)) && Fits(Tail(t2), WhereForm(s.where));
  }

  const COMMANDS := ["CREATE", "INSERT", "SELECT", "UPDATE", "DELETE"]

  // The first letter tells the commands apart.
  lemma FirstLetter(v: string, command: string)
    requires command in COMMANDS && SameWord(v, command)
    ensures v != "" && Upper(v[0]) == command[0]
  {
    assert Upper(v[0]) == Upper(command[0]);
  }

  // A word is at most one of the commands.
  lemma OneCommand(v: string, a: string, b: string)
    requires a in COMMANDS && b in COMMANDS && SameWord(v, a) && SameWord(v, b)
    ensures a == b
  {
    FirstLetter(v, a);
    FirstLetter(v, b);
  }

  // The word a statement starts with.
  function CommandOf(s: Statement): string {
    match s
    case Create(_, _) => "CREATE"
    case Insert(_, _) => "INSERT"
    case Select(_, _, _) => "SELECT"
    case Update(_, _, _) => "UPDATE"
    case Delete(_, _) => "DELETE"
  }

  // What the parser's methods for the five commands return.
  function ReadCommand(command: string, ts: seq<Token>): (r: Option<Statement>)
    requires command in COMMANDS
    ensures r.Some? ==> WellFormed(r.value) && CommandOf(r.value) == command
  {
    if command == "CREATE" then ReadCreate(ts)
    else if command == "INSERT" then ReadInsert(ts)
    else if command == "SELECT" then ReadSelect(ts)
    else if command == "UPDATE" then ReadUpdate(ts)
    else ReadDelete(ts)
  }

  // The first command of the list that the token is, in any case.
  function Which(t: Token, order: seq<string>): (r: Option<string>)
    ensures r.Some? ==> r.value in order && IsKeyword(t, r.value)
    ensures r.None? ==> forall c | c in order :: !IsKeyword(t, c)
  {
    if order == [] then None
    else if IsKeyword(t, order[0]) then Some(order[0])
    else Which(t, order[1..])
  }

  function ReadStatement(ts: seq<Token>): (r: Option<Statement>)
    ensures r.Some? ==> WellFormed(r.value)
  {
    match Which(Head(ts), COMMANDS)
    case None => None
    case Some(command) => ReadCommand(command, Tail(ts))
  }

  lemma CommandFits(ts: seq<Token>, s: Statement)
    requires Proper(ts) && WellFormed(s)
    ensures Fits(ts, StatementForm(s)) <==>
            IsKeyword(Head(ts), CommandOf(s)) && ReadCommand(CommandOf(s), Tail(ts)) == Some(s)
  {
    match s
    case Create(_, _) => CreateFits(ts, s);
    case Insert(_, _) => InsertFits(ts, s);
    case Select(_, _, _) => SelectFits(ts, s);
    case Update(_, _, _) => UpdateFits(ts, s);
    case Delete(_, _) => DeleteFits(ts, s);
  }

  ghost predicate AllCommands(order: seq<string>) {
    forall c :: c in order <==> c in COMMANDS
  }

  // In whatever order the commands are tried, the token is found to be the same one.
  lemma WhichIff(t: Token, order: seq<string>, c: string)
    requires AllCommands(order) && c in COMMANDS
    ensures Which(t, order) == Some(c) <==> IsKeyword(t, c)
  {
    if IsKeyword(t, c) {
      OneCommand(t.value, c, Which(t, order).value);
    }
  }

  lemma OrderIrrelevant(t: Token, order: seq<string>)
    requires AllCommands(order)
    ensures Which(t, order) == Which(t, COMMANDS)
  {
    if Which(t, order).Some? {
      WhichIff(t, COMMANDS, Which(t, order).value);
    }
  }

  // The parser's function returns a statement exactly if the whole token sequence derives it.
  lemma ReadIffDerives(ts: seq<Token>, s: Statement)
    requires Proper(ts)
    ensures ReadStatement(ts) == Some(s) <==> Derives(s, ts)
  {
    if WellFormed(s) {
      CommandFits(ts, s);
      WhichIff(Head(ts), COMMANDS, CommandOf(s));
    }
  }

  // No token sequence derives two statements.
  lemma DerivationUnique(ts: seq<Token>, s: Statement, s': Statement)
    requires Proper(ts) && Derives(s, ts) && Derives(s', ts)
    ensures s == s'
  {
    ReadIffDerives(ts, s);
    ReadIffDerives(ts, s');
  }

  lemma {:induction false} TokensProper(text: string, pos: nat)
    requires pos <= |text|
    ensures Proper(Tokens(text, pos))
    decreases |text| - pos
  {
    var (t, end) := Next(text, pos);
    if t.kind != END {
      TokensProper(text, end);
    }
  }

  // What a text is read as.
  function Meaning(text: string): Option<Statement> {
    ReadStatement(Tokens(text, 0))
  }

  // A text means a statement exactly if it spells a token sequence that derives it.
  lemma MeaningIffSpelled(text: string, s: Statement)
    ensures Meaning(text) == Some(s) <==> exists ts :: Spells(text, 0, ts) && Derives(s, ts)
  {
    var ts := Tokens(text, 0);
    TokensProper(text, 0);
    ReadIffDerives(ts, s);
    TokensIffSpells(text, 0, ts);
    if ts' :| Spells(text, 0, ts') && Derives(s, ts') {
      TokensIffSpells(text, 0, ts');
    }
  }
}
