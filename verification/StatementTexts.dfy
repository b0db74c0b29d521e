/** The five commands as they are typed: texts made of keywords, names and values, and the statements they mean. */
module StatementTexts {
  import opened Wrappers
  import opened Lexing
  import opened Grammar
  import opened LetterCase
  import opened TokenStreams

  predicate Letters(w: string) {
    w != "" && forall i | 0 <= i < |w| :: Letter(w[i])
  }

  // A name: letters and then digits, if any.
  ghost predicate IsName(w: string) {
    exists k :: 0 < k <= |w| && LettersThenDigits(w, k)
  }

  predicate LettersThenDigits(w: string, k: nat) {
    forall i | 0 <= i < |w| :: if i < k then Letter(w[i]) else 48 <= w[i] as int <= 57
  }

  predicate Digits(w: string) {
    w != "" && forall i | 0 <= i < |w| :: 48 <= w[i] as int <= 57
  }

  predicate Reads(text: string, f: Form) {
    Fits(Tokens(text, 0), f)
  }

  lemma WholeText(w: string, t: Token)
    requires Writes(w, t) && t != UNCLOSED
    ensures Tokens(w, 0) == [t]
  {
    assert w[0..|w|] == w;
    WrittenIsTokenAt(w, 0, |w|, t);
    TokensFrom(w, 0, t, |w|);
    NoTokens(w, |w|);
  }

  lemma WordText(w: string)
    requires IsName(w)
    ensures Tokens(w, 0) == [Token(Word, w)]
  {
    var k :| 0 < k <= |w| && LettersThenDigits(w, k);
    assert LettersUpTo(w, k);
    WholeText(w, Token(Word, w));
  }

  lemma NumberText(w: string)
    requires Digits(w)
    ensures Tokens(w, 0) == [Token(Number, w)]
  {
    WholeText(w, Token(Number, w));
  }

  lemma LiteralText(v: string)
    requires '"' !in v
    ensures Tokens("\"" + v + "\"", 0) == [Token(Literal, v)]
  {
    WholeText("\"" + v + "\"", Token(Literal, v));
  }

  // ------------------------------------------------------------------
  // Reading the first piece of a text

  lemma FirstFits(t: Token, ts: seq<Token>, p: Pattern, f: Form)
    requires Matches(t, p) && Fits(ts, f)
    ensures Fits([t] + ts, Then(p, f))
  {
    assert Tail([t] + ts) == ts;
  }

  // A token and a space.
  lemma PieceThenSpace(w: string, t: Token, p: Pattern, more: string, f: Form)
    requires Tokens(w, 0) == [t] && t != UNCLOSED && Matches(t, p) && Reads(more, f)
    ensures Reads(w + [' '] + more, Then(p, f))
  {
    SpaceSeparates(w, ' ', more);
    FirstFits(t, Tokens(more, 0), p, f);
  }

  predicate IsSymbol(c: char, kind: SymbolType) {
    match kind
    case OpenBracket => c == '('
    case CloseBracket => c == ')'
    case Any => c == '*'
    case Comma => c == ','
    case Equal => c == '='
  }

  // A token and a symbol.
  lemma PieceThenSymbol(w: string, t: Token, p: Pattern, c: char, kind: SymbolType, more: string, f: Form)
    requires Tokens(w, 0) == [t] && t != UNCLOSED && Matches(t, p) && Reads(more, f)
    requires IsSymbol(c, kind)
    ensures Reads(w + [c] + more, Then(p, Then(Symbol(kind), f)))
  {
    Separates(w, c, more);
    FirstFits(Single(c)[0], Tokens(more, 0), Symbol(kind), f);
    FirstFits(t, Single(c) + Tokens(more, 0), p, Then(Symbol(kind), f));
    Associated([t], Single(c), Tokens(more, 0));
  }

  lemma SymbolThen(c: char, kind: SymbolType, more: string, f: Form)
    requires IsSymbol(c, kind) && Reads(more, f)
    ensures Reads([c] + more, Then(Symbol(kind), f))
  {
    SeparatorFirst(c, more);
    FirstFits(Single(c)[0], Tokens(more, 0), Symbol(kind), f);
  }

  lemma SpaceThen(more: string, f: Form)
    requires Reads(more, f)
    ensures Reads([' '] + more, f)
  {
    SeparatorFirst(' ', more);
    assert Single(' ') + Tokens(more, 0) == Tokens(more, 0);
  }

  lemma KeywordMatches(w: string, word: string)
    requires Letters(word) && SameButCaseAll(w, word)
    ensures Tokens(w, 0) == [Token(Word, w)] && SameWord(w, word)
  {
    assert forall i | 0 <= i < |w| :: SameButCase(w[i], word[i]) && Letter(word[i]);
    assert LettersThenDigits(w, |w|);
    WordText(w);
    SameWordIff(w, word);
  }

  // A keyword in any case.
  lemma KeywordThen(w: string, word: string, more: string, f: Form)
    requires Letters(word) && SameButCaseAll(w, word) && Reads(more, f)
    ensures Reads(w + [' '] + more, Then(Keyword(word), f))
    ensures word == "FROM" ==> Reads(w + [' '] + more, Then(From, f))
  {
    KeywordMatches(w, word);
    PieceThenSpace(w, Token(Word, w), Keyword(word), more, f);
    if word == "FROM" {
      PieceThenSpace(w, Token(Word, w), From, more, f);
    }
  }

  lemma NameThen(name: string, more: string, f: Form)
    requires IsName(name) && Reads(more, f)
    ensures Reads(name + [' '] + more, Then(Name(name), f))
  {
    WordText(name);
    PieceThenSpace(name, Token(Word, name), Name(name), more, f);
  }

  lemma NameThenSymbol(name: string, c: char, kind: SymbolType, more: string, f: Form)
    requires IsName(name) && IsSymbol(c, kind) && Reads(more, f)
    ensures Reads(name + [c] + more, Then(Name(name), Then(Symbol(kind), f)))
  {
    WordText(name);
    PieceThenSymbol(name, Token(Word, name), Name(name), c, kind, more, f);
  }

  lemma NumberThenSymbol(number: string, c: char, kind: SymbolType, more: string, f: Form)
    requires Digits(number) && IsSymbol(c, kind) && Reads(more, f)
    ensures Reads(number + [c] + more, Then(Value(number), Then(Symbol(kind), f)))
  {
    NumberText(number);
    PieceThenSymbol(number, Token(Number, number), Value(number), c, kind, more, f);
  }

  lemma TextThenSymbol(v: string, c: char, kind: SymbolType, more: string, f: Form)
    requires '"' !in v && IsSymbol(c, kind) && Reads(more, f)
    ensures Reads("\"" + v + "\"" + [c] + more, Then(Value(v), Then(Symbol(kind), f)))
  {
    LiteralText(v);
    PieceThenSymbol("\"" + v + "\"", Token(Literal, v), Value(v), c, kind, more, f);
  }

  lemma LastNumber(number: string)
    requires Digits(number)
    ensures Reads(number, Then(Value(number), End))
  {
    NumberText(number);
    FirstFits(Token(Number, number), [], Value(number), End);
    assert [Token(Number, number)] + [] == [Token(Number, number)];
  }

  lemma LastName(name: string)
    requires IsName(name)
    ensures Reads(name, Then(Name(name), End))
  {
    WordText(name);
    FirstFits(Token(Word, name), [], Name(name), End);
    assert [Token(Word, name)] + [] == [Token(Word, name)];
  }

  lemma ReadsMeans(text: string, s: Statement)
    requires WellFormed(s) && Reads(text, StatementForm(s))
    ensures Meaning(text) == Some(s)
  {
    TokensProper(text, 0);
    ReadIffDerives(Tokens(text, 0), s);
  }

  // ------------------------------------------------------------------
  // Parts of the commands

  lemma TwoEntries(kind: EntryKind, a: Entry, b: Entry, more: Form)
    requires EntryOk(kind, a) && EntryOk(kind, b)
    ensures ListForm(kind, [a, b], more) == EntryForm(kind, a, Then(Symbol(Comma), EntryForm(kind, b, more)))
  {
    assert [a, b][1..] == [b];
  }

  lemma KeywordNameThen(w: string, word: string, name: string, more: string, f: Form)
    requires Letters(word) && SameButCaseAll(w, word) && IsName(name) && Reads(more, f)
    ensures Reads(w + [' '] + (name + [' '] + more), Then(Keyword(word), Then(Name(name), f)))
  {
    NameThen(name, more, f);
    KeywordThen(w, word, name + [' '] + more, Then(Name(name), f));
  }

  lemma FromNameThen(from: string, name: string, more: string, f: Form)
    requires SameButCaseAll(from, "FROM") && IsName(name) && Reads(more, f)
    ensures Reads(from + [' '] + (name + [' '] + more), Then(From, Then(Name(name), f)))
  {
    NameThen(name, more, f);
    KeywordThen(from, "FROM", name + [' '] + more, Then(Name(name), f));
  }

  lemma FromLast(from: string, name: string)
    requires SameButCaseAll(from, "FROM") && IsName(name)
    ensures Reads(from + [' '] + name, Then(From, Then(Name(name), End)))
  {
    LastName(name);
    KeywordThen(from, "FROM", name, Then(Name(name), End));
  }

  // The condition behind WHERE, up to the end.
  lemma WhereReads(where: string, key: string, number: string)
    requires SameButCaseAll(where, "WHERE") && IsName(key) && Digits(number)
    ensures Reads(where + [' '] + (key + ['='] + number), WhereForm([Two(key, number)]))
  {
    LastNumber(number);
    NameThenSymbol(key, '=', Equal, number, Then(Value(number), End));
    KeywordThen(where, "WHERE", key + ['='] + number, EntryForm(PAIR, Two(key, number), End));
  }

  lemma StarReads(select: string, more: string, f: Form)
    requires SameButCaseAll(select, "SELECT") && Reads(more, f)
    ensures Reads(select + [' '] + (['*'] + ([' '] + more)), Then(Keyword("SELECT"), Then(Symbol(Any), f)))
  {
    SpaceThen(more, f);
    SymbolThen('*', Any, [' '] + more, f);
    KeywordThen(select, "SELECT", ['*'] + ([' '] + more), Then(Symbol(Any), f));
  }

  lemma NamesRead(first: string, second: string, more: string, f: Form)
    requires IsName(first) && IsName(second) && Reads(more, f)
    ensures Reads(first + [','] + (second + [' '] + more), ListForm(NAME, [One(first), One(second)], f))
  {
    NameThen(second, more, f);
    NameThenSymbol(first, ',', Comma, second + [' '] + more, Then(Name(second), f));
    TwoEntries(NAME, One(first), One(second), f);
  }

  lemma ColumnReads(name: string, w: string, type': string, c: char, kind: SymbolType, more: string, f: Form)
    requires IsName(name) && Letters(type') && SameButCaseAll(w, type') && IsSymbol(c, kind) && Reads(more, f)
    ensures Reads(name + [' '] + (w + [c] + more), Then(Name(name), Then(Keyword(type'), Then(Symbol(kind), f))))
  {
    KeywordMatches(w, type');
    PieceThenSymbol(w, Token(Word, w), Keyword(type'), c, kind, more, f);
    NameThen(name, w + [c] + more, Then(Keyword(type'), Then(Symbol(kind), f)));
  }

  // first INT,second TEXT)
  lemma ColumnsRead(first: string, int': string, second: string, text': string)
    requires SameButCaseAll(int', "INT") && SameButCaseAll(text', "TEXT") && IsName(first) && IsName(second)
    ensures Reads(first + [' '] + (int' + [','] + (second + [' '] + (text' + [')'] + ""))),
                  ListForm(COLUMN, [Two(first, "INT"), Two(second, "TEXT")], Then(Symbol(CloseBracket), End)))
  {
    NoTokens("", 0);
    ColumnReads(second, text', "TEXT", ')', CloseBracket, "", End);
    ColumnReads(first, int', "INT", ',', Comma, second + [' '] + (text' + [')'] + ""),
                EntryForm(COLUMN, Two(second, "TEXT"), Then(Symbol(CloseBracket), End)));
    TwoEntries(COLUMN, Two(first, "INT"), Two(second, "TEXT"), Then(Symbol(CloseBracket), End));
  }

  // table(first INT,second TEXT)
  lemma TableReads(table: string, first: string, int': string, second: string, text': string)
    requires SameButCaseAll(int', "INT") && SameButCaseAll(text', "TEXT")
    requires IsName(table) && IsName(first) && IsName(second)
    ensures Reads(table + ['('] + (first + [' '] + (int' + [','] + (second + [' '] + (text' + [')'] + "")))),
                  Then(Name(table), Then(Symbol(OpenBracket),
                       ListForm(COLUMN, [Two(first, "INT"), Two(second, "TEXT")], Then(Symbol(CloseBracket), End)))))
  {
    ColumnsRead(first, int', second, text');
    NameThenSymbol(table, '(', OpenBracket, first + [' '] + (int' + [','] + (second + [' '] + (text' + [')'] + ""))),
                   ListForm(COLUMN, [Two(first, "INT"), Two(second, "TEXT")], Then(Symbol(CloseBracket), End)));
  }

  // (number,"text")
  lemma ValuesRead(number: string, text': string)
    requires Digits(number) && '"' !in text'
    ensures Reads(['('] + (number + [','] + ("\"" + text' + "\"" + [')'] + "")),
                  Then(Symbol(OpenBracket),
                       ListForm(VALUE, [One(number), One(text')], Then(Symbol(CloseBracket), End))))
  {
    var f := Then(Symbol(CloseBracket), End);
    NoTokens("", 0);
    TextThenSymbol(text', ')', CloseBracket, "", End);
    var rest := "\"" + text' + "\"" + [')'] + "";
    NumberThenSymbol(number, ',', Comma, rest, EntryForm(VALUE, One(text'), f));
    TwoEntries(VALUE, One(number), One(text'), f);
    SymbolThen('(', OpenBracket, number + [','] + rest, ListForm(VALUE, [One(number), One(text')], f));
  }

  // first="text",second=number
  lemma PairsRead(first: string, text': string, second: string, number: string, more: string, f: Form)
    requires IsName(first) && '"' !in text' && IsName(second) && Digits(number) && Reads(more, f)
    ensures Reads(first + ['='] + ("\"" + text' + "\"" + [','] + (second + ['='] + (number + [' '] + more))),
                  ListForm(PAIR, [Two(first, text'), Two(second, number)], f))
  {
    NumberText(number);
    PieceThenSpace(number, Token(Number, number), Value(number), more, f);
    NameThenSymbol(second, '=', Equal, number + [' '] + more, Then(Value(number), f));
    FirstPairReads(first, text', second + ['='] + (number + [' '] + more), EntryForm(PAIR, Two(second, number), f));
    TwoEntries(PAIR, Two(first, text'), Two(second, number), f);
  }

  lemma FirstPairReads(first: string, text': string, more: string, f: Form)
    requires IsName(first) && '"' !in text' && Reads(more, f)
    ensures Reads(first + ['='] + ("\"" + text' + "\"" + [','] + more),
                  EntryForm(PAIR, Two(first, text'), Then(Symbol(Comma), f)))
  {
    TextThenSymbol(text', ',', Comma, more, f);
    NameThenSymbol(first, '=', Equal, "\"" + text' + "\"" + [','] + more, Then(Value(text'), Then(Symbol(Comma), f)));
  }

  // SET first="text",second=number
  lemma SetReads(set': string, first: string, text': string, second: string, number: string, more: string, f: Form)
    requires SameButCaseAll(set', "SET") && IsName(first) && '"' !in text' && IsName(second) && Digits(number)
    requires Reads(more, f)
    ensures Reads(set' + [' '] + (first + ['='] + ("\"" + text' + "\"" + [',']
                    + (second + ['='] + (number + [' '] + more)))),
                  Then(Keyword("SET"), ListForm(PAIR, [Two(first, text'), Two(second, number)], f)))
  {
    PairsRead(first, text', second, number, more, f);
    KeywordThen(set', "SET", first + ['='] + ("\"" + text' + "\"" + [','] + (second + ['='] + (number + [' '] + more))),
                ListForm(PAIR, [Two(first, text'), Two(second, number)], f));
  }

  // ------------------------------------------------------------------
  // The commands, the keywords in any case

  // DELETE FROM table WHERE key=number
  lemma DeleteText(delete: string, from: string, table: string, where: string, key: string, number: string)
    requires SameButCaseAll(delete, "DELETE") && SameButCaseAll(from, "FROM") && SameButCaseAll(where, "WHERE")
    requires IsName(table) && IsName(key) && Digits(number)
    ensures Meaning(delete + " " + (from + " " + (table + " " + (where + " " + (key + "=" + number)))))
            == Some(Delete(table, [Two(key, number)]))
  {
    var rest, f := where + [' '] + (key + ['='] + number), WhereForm([Two(key, number)]);
    WhereReads(where, key, number);
    KeywordNameThen(from, "FROM", table, rest, f);
    rest := from + [' '] + (table + [' '] + rest);
    KeywordThen(delete, "DELETE", rest, Then(Keyword("FROM"), Then(Name(table), f)));
    ReadsMeans(delete + [' '] + rest, Delete(table, [Two(key, number)]));
  }

  // SELECT * FROM table WHERE key=number
  lemma SelectAllText(select: string, from: string, table: string, where: string, key: string, number: string)
    requires SameButCaseAll(select, "SELECT") && SameButCaseAll(from, "FROM") && SameButCaseAll(where, "WHERE")
    requires IsName(table) && IsName(key) && Digits(number)
    ensures Meaning(select + " " + ("*" + (" " + (from + " " + (table + " " + (where + " " + (key + "=" + number)))))))
            == Some(Select(All, table, [Two(key, number)]))
  {
    var rest, f := where + [' '] + (key + ['='] + number), WhereForm([Two(key, number)]);
    WhereReads(where, key, number);
    FromNameThen(from, table, rest, f);
    rest := from + [' '] + (table + [' '] + rest);
    StarReads(select, rest, Then(From, Then(Name(table), f)));
    ReadsMeans(select + [' '] + (['*'] + ([' '] + rest)), Select(All, table, [Two(key, number)]));
  }

  // SELECT first,second FROM table
  lemma SelectText(select: string, first: string, second: string, from: string, table: string)
    requires SameButCaseAll(select, "SELECT") && SameButCaseAll(from, "FROM")
    requires IsName(first) && IsName(second) && IsName(table)
    ensures Meaning(select + " " + (first + "," + (second + " " + (from + " " + table))))
            == Some(Select(Named([One(first), One(second)]), table, []))
  {
    var rest, f := from + [' '] + table, Then(From, Then(Name(table), End));
    FromLast(from, table);
    NamesRead(first, second, rest, f);
    rest := first + [','] + (second + [' '] + rest);
    KeywordThen(select, "SELECT", rest, ListForm(NAME, [One(first), One(second)], f));
    ReadsMeans(select + [' '] + rest, Select(Named([One(first), One(second)]), table, []));
  }

  // CREATE TABLE table(first INT,second TEXT)
  lemma CreateText(create: string, keyword: string, table: string, first: string, int': string, second: string,
                   text': string)
    requires SameButCaseAll(create, "CREATE") && SameButCaseAll(keyword, "TABLE")
    requires SameButCaseAll(int', "INT") && SameButCaseAll(text', "TEXT")
    requires IsName(table) && IsName(first) && IsName(second)
    ensures Meaning(create + " " + (keyword + " " + (table + "("
                    + (first + " " + (int' + "," + (second + " " + (text' + ")" + "")))))))
            == Some(Create(table, [Two(first, "INT"), Two(second, "TEXT")]))
  {
    var rest := table + ['('] + (first + [' '] + (int' + [','] + (second + [' '] + (text' + [')'] + ""))));
    var f := Then(Name(table), Then(Symbol(OpenBracket),
                  ListForm(COLUMN, [Two(first, "INT"), Two(second, "TEXT")], Then(Symbol(CloseBracket), End))));
    TableReads(table, first, int', second, text');
    KeywordThen(keyword, "TABLE", rest, f);
    KeywordThen(create, "CREATE", keyword + [' '] + rest, Then(Keyword("TABLE"), f));
    ReadsMeans(create + [' '] + (keyword + [' '] + rest), Create(table, [Two(first, "INT"), Two(second, "TEXT")]));
  }

  // INSERT INTO table VALUES (number,"text")
  lemma InsertText(insert: string, into: string, table: string, values: string, number: string, text': string)
    requires SameButCaseAll(insert, "INSERT") && SameButCaseAll(into, "INTO") && SameButCaseAll(values, "VALUES")
    requires IsName(table) && Digits(number) && '"' !in text'
    ensures Meaning(insert + " " + (into + " " + (table + " " + (values + " "
                    + ("(" + (number + "," + ("\"" + text' + "\"" + ")" + "")))))))
            == Some(Insert(table, [One(number), One(text')]))
  {
    var rest := ['('] + (number + [','] + ("\"" + text' + "\"" + [')'] + ""));
    var f := Then(Symbol(OpenBracket), ListForm(VALUE, [One(number), One(text')], Then(Symbol(CloseBracket), End)));
    ValuesRead(number, text');
    KeywordThen(values, "VALUES", rest, f);
    rest, f := values + [' '] + rest, Then(Keyword("VALUES"), f);
    KeywordNameThen(into, "INTO", table, rest, f);
    rest, f := into + [' '] + (table + [' '] + rest), Then(Keyword("INTO"), Then(Name(table), f));
    KeywordThen(insert, "INSERT", rest, f);
    ReadsMeans(insert + [' '] + rest, Insert(table, [One(number), One(text')]));
  }

  // UPDATE table SET first="text",second=number WHERE key=value
  lemma UpdateText(update: string, table: string, set': string, first: string, text': string, second: string,
                   number: string, where: string, key: string, value: string)
    requires SameButCaseAll(update, "UPDATE") && SameButCaseAll(set', "SET") && SameButCaseAll(where, "WHERE")
    requires IsName(table) && IsName(first) && IsName(second) && IsName(key)
    requires '"' !in text' && Digits(number) && Digits(value)
    ensures Meaning(update + " " + (table + " " + (set' + " "
                    + (first + "=" + ("\"" + text' + "\"" + "," + (second + "=" + (number + " "
                    + (where + " " + (key + "=" + value)))))))))
            == Some(Update(table, [Two(first, text'), Two(second, number)], [Two(key, value)]))
  {
    var rest, f := where + [' '] + (key + ['='] + value), WhereForm([Two(key, value)]);
    WhereReads(where, key, value);
    SetReads(set', first, text', second, number, rest, f);
    rest := set' + [' '] + (first + ['=']
            + ("\"" + text' + "\"" + [','] + (second + ['='] + (number + [' '] + rest))));
    f := Then(Keyword("SET"), ListForm(PAIR, [Two(first, text'), Two(second, number)], f));
    KeywordNameThen(update, "UPDATE", table, rest, f);
    ReadsMeans(update + [' '] + (table + [' '] + rest),
               Update(table, [Two(first, text'), Two(second, number)], [Two(key, value)]));
  }
}
