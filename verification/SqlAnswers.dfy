/** From the characters of a statement to what it does: what the words of a WHERE clause say and which rows are
    answered, and which row an INSERT adds. */
module SqlAnswers {
  import opened Machine
  import opened Comparison
  import opened Names
  import opened Decimal
  import opened Ast
  import opened Tokenizer
  import opened Grammar
  import opened TableText
  import opened TableIndex
  import opened SelectRows
  import opened InsertRow
  import opened SqlText
  import opened DatabaseTable
  import opened Optimizer
  import opened SqlEngine
  import EngineRuns

  // ---------------------------------------------------------------- signs

  /** What a comparison sign says about two numbers. */
  ghost predicate HoldsNumber(sign: string, a: int, b: int) {
    || (sign == "=" && a == b) || ((sign == "!=" || sign == "<>") && a != b)
    || (sign == "<" && a < b) || (sign == "<=" && a <= b)
    || (sign == ">" && b < a) || (sign == ">=" && b <= a)
  }

  /** And about two texts: where they first differ one ends, or has the smaller character. */
  ghost predicate HoldsText(sign: string, a: string, b: string) {
    || (sign == "=" && a == b) || ((sign == "!=" || sign == "<>") && a != b)
    || (sign == "<" && Before(a, b)) || (sign == "<=" && (Before(a, b) || a == b))
    || (sign == ">" && Before(b, a)) || (sign == ">=" && (Before(b, a) || a == b))
  }

  lemma SignNumber(op: CompareOperator, sign: string, a: int, b: int)
    requires Symbol(OperatorKey(op).kind, sign)
    ensures Matches(op, a, b) <==> HoldsNumber(sign, a, b)
  {
  }

  lemma SignText(op: CompareOperator, sign: string, a: string, b: string)
    requires Symbol(OperatorKey(op).kind, sign)
    ensures Matches(op, Order(a, b), 0) <==> HoldsText(sign, a, b)
  {
    OrderMeaning(a, b);
    SignNumber(op, sign, Order(a, b), 0);
  }

  // ---------------------------------------------------------------- literals

  ghost predicate QuotedText(literal: string) {
    |literal| >= 2 && literal[0] == '\'' && literal[|literal| - 1] == '\''
  }

  ghost function Unquoted(literal: string): string
    requires QuotedText(literal)
  {
    literal[1..|literal| - 1]
  }

  /** Both are numerals, and the numbers compare as the sign says. */
  ghost predicate AsNumbers(field: string, sign: string, literal: string) {
    exists v, w :: Denotes(field, v) && Denotes(literal, w) && HoldsNumber(sign, v, w)
  }

  /** The field satisfies a condition whose sign and literal are written like this: a quoted literal is compared as
      text, another one as a number. */
  ghost predicate Satisfies(field: string, sign: string, literal: string) {
    if QuotedText(literal) then HoldsText(sign, field, Unquoted(literal)) else AsNumbers(field, sign, literal)
  }

  /** On the id a quoted literal is taken as the number it spells. */
  ghost predicate SatisfiesId(field: string, sign: string, literal: string) {
    AsNumbers(field, sign, if QuotedText(literal) then Unquoted(literal) else literal)
  }

  /** The literal in the text `written` is the one the parser hands on. */
  ghost predicate WrittenLiteral(l: Literal, written: string) {
    if l.kind == StringLiteral then QuotedText(written) && Unquoted(written) == l.text
    else !QuotedText(written) && written == l.text
  }

  lemma NumbersCompare(field: string, filter: WhereClause, sign: string)
    requires filter.value.kind == NumberLiteral && Symbol(OperatorKey(filter.op).kind, sign)
    ensures Verdict(field, filter) == Some(true) <==> AsNumbers(field, sign, filter.value.text)
  {
    if v, w :| Denotes(field, v) && Denotes(filter.value.text, w) && HoldsNumber(sign, v, w) {
      IdIs(field, v);
      IdIs(filter.value.text, w);
      SignNumber(filter.op, sign, v, w);
    }
    if Verdict(field, filter) == Some(true) {
      SignNumber(filter.op, sign, IdOf(field), IdOf(filter.value.text));
      assert Denotes(field, IdOf(field)) && Denotes(filter.value.text, IdOf(filter.value.text));
    }
  }

  /** A field passes the filter exactly when it satisfies the condition as written. */
  lemma VerdictMeaning(field: string, filter: WhereClause, sign: string, written: string)
    requires Symbol(OperatorKey(filter.op).kind, sign) && WrittenLiteral(filter.value, written)
    ensures Verdict(field, filter) == Some(true) <==> Satisfies(field, sign, written)
    ensures Verdict(field, AsNumber(filter)) == Some(true) <==> SatisfiesId(field, sign, written)
  {
    if filter.value.kind == NumberLiteral {
      NumbersCompare(field, filter, sign);
    } else {
      SignText(filter.op, sign, field, filter.value.text);
    }
    NumbersCompare(field, AsNumber(filter), sign);
  }

  // ---------------------------------------------------------------- where they stand

  lemma FilterLast(q: SelectStatement) returns (before: seq<Key>)
    requires q.hasWhere
    ensures StatementKeys(Selecting(q)) == before + FilterKeys(true, q.filter)
  {
    before := [Plain(TokenType.Select)] + (ColumnKeys(q.columns) + [Plain(From), Word(q.table)]);
    Regroup([Plain(TokenType.Select)], ColumnKeys(q.columns), [Plain(From), Word(q.table)], FilterKeys(true, q.filter));
  }

  lemma Regroup<T>(a: seq<T>, b: seq<T>, c: seq<T>, d: seq<T>)
    ensures a + (b + (c + d)) == (a + (b + c)) + d
  {
  }

  lemma LastFour<T>(before: seq<T>, a: T, b: T, c: T, d: T, more: seq<T>)
    ensures var s, k := before + [a, b, c, d] + more, |before|;
      |s| == k + 4 + |more| && s[k] == a && s[k + 1] == b && s[k + 2] == c && s[k + 3] == d
    ensures var s, k := before + [a, b, c, d] + more, |before|; more != [] ==> s[k + 4] == more[0]
  {
  }

  /** The clause is what a SELECT ends with, but for a semicolon. */
  lemma FilterAt(ks: seq<Key>, q: SelectStatement) returns (k: nat)
    requires Writes(ks, Selecting(q)) && q.hasWhere
    ensures k + 4 <= |ks| <= k + 5
    ensures ks[k] == Plain(Where) && ks[k + 1] == Word(q.filter.column)
    ensures ks[k + 2] == OperatorKey(q.filter.op) && ks[k + 3] == LiteralKey(q.filter.value)
    ensures |ks| == k + 5 ==> ks[k + 4] == Plain(Semicolon)
  {
    var before := FilterLast(q);
    k := |before|;
    var more := if ks == StatementKeys(Selecting(q)) then [] else [Plain(Semicolon)];
    var f := FilterKeys(true, q.filter);
    assert ks == before + f + more;
    LastFour(before, f[0], f[1], f[2], f[3], more);
  }

  lemma LexemeAt(input: string, tokens: seq<Token>, i: nat)
    requires Lexes(input, 0, tokens) && i < |tokens|
    ensures Lexeme(tokens[i].kind, tokens[i].lexeme)
  {
    TokenAt(input, 0, tokens, i);
    assert Seal(true);
  }

  lemma KeyAt(tokens: seq<Token>, i: nat, kind: TokenType, text: string)
    requires i < |tokens| && Keys(tokens)[i] == Key(kind, text)
    ensures tokens[i].kind == kind && (HasText(kind) ==> tokens[i].lexeme == text)
  {
    assert Keys(tokens)[i] == KeyOf(tokens[i]);
  }

  lemma WhereAt(input: string, tokens: seq<Token>, i: nat)
    requires Lexes(input, 0, tokens) && i < |tokens| && Keys(tokens)[i] == Plain(Where)
    ensures SameName(Source(tokens[i]), "where")
  {
    KeyAt(tokens, i, Where, "");
    LexemeAt(input, tokens, i);
    assert Shut(true);
    KeywordWords(tokens[i].lexeme);
  }

  lemma NameAt(tokens: seq<Token>, i: nat, name: string)
    requires i < |tokens| && Keys(tokens)[i] == Word(name)
    ensures Source(tokens[i]) == name
  {
    KeyAt(tokens, i, TokenType.Identifier, name);
  }

  lemma SignAt(input: string, tokens: seq<Token>, i: nat, op: CompareOperator)
    requires Lexes(input, 0, tokens) && i < |tokens| && Keys(tokens)[i] == OperatorKey(op)
    ensures Symbol(OperatorKey(op).kind, Source(tokens[i]))
  {
    KeyAt(tokens, i, OperatorKey(op).kind, "");
    LexemeAt(input, tokens, i);
  }

  lemma LiteralAt(input: string, tokens: seq<Token>, i: nat, l: Literal)
    requires Lexes(input, 0, tokens) && i < |tokens| && Keys(tokens)[i] == LiteralKey(l)
    ensures WrittenLiteral(l, Source(tokens[i]))
  {
    KeyAt(tokens, i, LiteralKey(l).kind, l.text);
    LexemeAt(input, tokens, i);
    var written := Source(tokens[i]);
    if l.kind == StringLiteral {
      assert written[1..|written| - 1] == l.text;
    }
  }

  lemma EndAt(input: string, tokens: seq<Token>, i: nat)
    requires Lexes(input, 0, tokens) && i < |tokens| && Keys(tokens)[i] == Plain(Semicolon)
    ensures Source(tokens[i]) == ";"
  {
    KeyAt(tokens, i, Semicolon, "");
    LexemeAt(input, tokens, i);
  }

  /** In a text that means a SELECT with a condition, the words at `k` and after are WHERE, the column, a comparison
      sign and a literal, at the end but for a semicolon. */
  ghost predicate ConditionAt(tokens: seq<Token>, k: nat, filter: WhereClause) {
    && k + 4 <= |tokens| <= k + 5
    && SameName(Source(tokens[k]), "where") && Source(tokens[k + 1]) == filter.column
    && Symbol(OperatorKey(filter.op).kind, Source(tokens[k + 2])) && WrittenLiteral(filter.value, Source(tokens[k + 3]))
    && (|tokens| == k + 5 ==> Source(tokens[k + 4]) == ";")
  }

  lemma ConditionRead(input: string, tokens: seq<Token>, q: SelectStatement) returns (k: nat)
    requires Lexes(input, 0, tokens) && Writes(Keys(tokens), Selecting(q)) && q.hasWhere
    ensures ConditionAt(tokens, k, q.filter)
  {
    k := FilterAt(Keys(tokens), q);
    WhereAt(input, tokens, k);
    NameAt(tokens, k + 1, q.filter.column);
    SignAt(input, tokens, k + 2, q.filter.op);
    LiteralAt(input, tokens, k + 3, q.filter.value);
    if |tokens| == k + 5 {
      EndAt(input, tokens, k + 4);
    }
  }

  /** From the characters to the comparison: the last words of a SELECT with a condition are WHERE, a column, a sign
      and a literal, and a field passes the parsed filter exactly when it satisfies the sign and literal as written. */
  lemma FilterInWords(input: string, tokens: seq<Token>, q: SelectStatement) returns (k: nat)
    requires Lexes(input, 0, tokens) && Writes(Keys(tokens), Selecting(q)) && q.hasWhere
    ensures k + 4 <= |tokens| <= k + 5 && (|tokens| == k + 5 ==> Source(tokens[k + 4]) == ";")
    ensures SameName(Source(tokens[k]), "where") && Source(tokens[k + 1]) == q.filter.column
    ensures forall a, b :: Matches(q.filter.op, a, b) <==> HoldsNumber(Source(tokens[k + 2]), a, b)
    ensures forall field :: Verdict(field, q.filter) == Some(true) <==>
      Satisfies(field, Source(tokens[k + 2]), Source(tokens[k + 3]))
  {
    k := ConditionRead(input, tokens, q);
    var sign, written := Source(tokens[k + 2]), Source(tokens[k + 3]);
    forall a, b ensures Matches(q.filter.op, a, b) <==> HoldsNumber(sign, a, b) {
      SignNumber(q.filter.op, sign, a, b);
    }
    forall field ensures Verdict(field, q.filter) == Some(true) <==> Satisfies(field, sign, written) {
      VerdictMeaning(field, q.filter, sign, written);
    }
  }

  // ---------------------------------------------------------------- the rows in the answer

  /** `row` is a row of the table that satisfies the condition: as a number on the id, else as it is written. */
  ghost predicate Wanted(s: TableState, row: Row, column: string, sign: string, written: string) {
    && row in Rows(s.text)
    && exists at :: 0 <= at < |row.fields| && at < |s.columns| && FoundAt(s.columns, column, at)
         && if SameName(column, "id") then SatisfiesId(row.fields[at], sign, written)
            else Satisfies(row.fields[at], sign, written)
  }

  lemma PassedIsWanted(s: TableState, q: SelectStatement, row: Row, sign: string, written: string)
    requires AllWide(Rows(s.text), |s.columns|) && q.hasWhere
    requires Symbol(OperatorKey(q.filter.op).kind, sign) && WrittenLiteral(q.filter.value, written)
    ensures row in ScanResult(Rows(s.text), s.columns, true, FilterTaken(q)) <==>
      Wanted(s, row, q.filter.column, sign, written)
  {
    var at := ColumnAt(s.columns, q.filter.column);
    if at >= 0 {
      PassingMeaning(Rows(s.text), at, FilterTaken(q), row);
      if at < |row.fields| {
        VerdictMeaning(row.fields[at], q.filter, sign, written);
      }
    }
  }

  /** The answer lists these columns, and of these rows. */
  ghost predicate Lists(s: TableState, a: Answer, rows: seq<Row>, indices: seq<nat>) {
    && AllWide(rows, |s.columns|) && (forall i :: 0 <= i < |indices| ==> indices[i] < |s.columns|)
    && a.Answered? && a.output == StoredLine(Pick(s.columns, indices)) + Rendered(rows, indices, |s.columns|)
  }

  lemma AnswerLists(name: string, s: TableState, sql: string, s': TableState, a: Answer, q: SelectStatement)
    returns (rows: seq<Row>, indices: seq<nat>)
    requires Executes(name, s, sql, s', a) && Says(sql, Selecting(q)) && a.Answered?
    ensures Lists(s, a, rows, indices) && Returned(s, q.(columns := OptimizedList(q.columns)), rows, indices)
    ensures s' == s
  {
    var st :| Says(sql, st) && Does(name, s, Optimized(st), s', a);
    SaysOne(sql, st, Selecting(q));
    var better := q.(columns := OptimizedList(q.columns));
    assert SelectDoes(s, better, a);
    rows, indices :| Returned(s, better, rows, indices) && a == SelectAnswer(s, better, rows, indices);
  }

  ghost predicate InFileOrder(rows: seq<Row>) {
    forall i, j :: 0 <= i < j < |rows| ==> rows[i].offset < rows[j].offset
  }

  lemma {:induction false} PassingInOrder(rows: seq<Row>, column: nat, filter: WhereClause)
    requires InFileOrder(rows) && forall i :: 0 <= i < |rows| ==> column < |rows[i].fields|
    ensures InFileOrder(Passing(rows, column, filter))
  {
    if rows != [] {
      var rest := Passing(rows[1..], column, filter);
      PassingInOrder(rows[1..], column, filter);
      forall k | 0 <= k < |rest| ensures rows[0].offset < rest[k].offset {
        PassingMeaning(rows[1..], column, filter, rest[k]);
        assert rest[k] in rows[1..];
      }
    }
  }

  lemma TableInOrder(s: TableState)
    requires Sound(s)
    ensures InFileOrder(Rows(s.text))
  {
    TableRows(s.text, s.columns, s.idColumn, s.rowCount, s.nextId, s.contents);
    var rows := Rows(s.text);
    forall i, j | 0 <= i < j < |rows| ensures rows[i].offset < rows[j].offset {
      RowsLieInOrder(s.text, DataStart(s.text), j);
    }
  }

  /** On the id the rows come by ascending id, else in file order; either way each comes once. */
  ghost predicate Ordered(rows: seq<Row>, column: string, idColumn: nat) {
    if SameName(column, "id") then
      forall i, j, v, w ::
        0 <= i < j < |rows| && IdReads(rows[i], idColumn, v) && IdReads(rows[j], idColumn, w) ==> v < w
    else InFileOrder(rows)
  }

  ghost predicate IdReads(row: Row, idColumn: nat, v: int) {
    idColumn < |row.fields| && Denotes(row.fields[idColumn], v)
  }

  lemma IdsOrdered(rows: seq<Row>, width: nat, idColumn: nat)
    requires AscendingIds(rows, width, idColumn)
    ensures Ordered(rows, "id", idColumn)
  {
    forall i, j, v, w | 0 <= i < j < |rows| && IdReads(rows[i], idColumn, v) && IdReads(rows[j], idColumn, w)
      ensures v < w
    {
      IdIs(rows[i].fields[idColumn], v);
      IdIs(rows[j].fields[idColumn], w);
      assert Id(rows[i], idColumn) < Id(rows[j], idColumn);
    }
  }

  lemma ReturnedOrdered(s: TableState, q: SelectStatement, rows: seq<Row>, indices: seq<nat>)
    requires Sound(s) && Returned(s, q, rows, indices) && q.hasWhere
    ensures Ordered(rows, q.filter.column, s.idColumn)
  {
    if ById(q) {
      IdsOrdered(rows, |s.columns|, s.idColumn);
    } else {
      TableInOrder(s);
      var at := ColumnAt(s.columns, q.filter.column);
      if at >= 0 {
        PassingInOrder(Rows(s.text), at, q.filter);
      }
    }
  }

  lemma RowsWanted(s: TableState, q: SelectStatement, rows: seq<Row>, indices: seq<nat>, sign: string, written: string)
    requires Returned(s, q.(columns := OptimizedList(q.columns)), rows, indices) && q.hasWhere
    requires Symbol(OperatorKey(q.filter.op).kind, sign) && WrittenLiteral(q.filter.value, written)
    ensures forall row :: row in rows <==> Wanted(s, row, q.filter.column, sign, written)
  {
    forall row ensures row in rows <==> Wanted(s, row, q.filter.column, sign, written) {
      PassedIsWanted(s, q, row, sign, written);
      SameMembers(rows, ScanResult(Rows(s.text), s.columns, true, FilterTaken(q)), row);
    }
  }

  /** `rows` are the rows that satisfy the condition written at the end of the text, each once, by ascending id or in
      file order. */
  ghost predicate Answers(s: TableState, rows: seq<Row>, tokens: seq<Token>, k: nat) {
    && k + 4 <= |tokens| <= k + 5 && SameName(Source(tokens[k]), "where")
    && (forall row :: row in rows <==>
          Wanted(s, row, Source(tokens[k + 1]), Source(tokens[k + 2]), Source(tokens[k + 3])))
    && Ordered(rows, Source(tokens[k + 1]), s.idColumn)
  }

  lemma ReturnedAnswers(s: TableState, q: SelectStatement, rows: seq<Row>, indices: seq<nat>, tokens: seq<Token>,
                        k: nat)
    requires Sound(s) && Returned(s, q.(columns := OptimizedList(q.columns)), rows, indices) && q.hasWhere
    requires ConditionAt(tokens, k, q.filter)
    ensures Answers(s, rows, tokens, k)
  {
    RowsWanted(s, q, rows, indices, Source(tokens[k + 2]), Source(tokens[k + 3]));
    ReturnedOrdered(s, q.(columns := OptimizedList(q.columns)), rows, indices);
  }

  /** From the characters of the text to the rows in the answer: whenever a SELECT with a condition is answered, the
      answer lists exactly the rows whose field satisfies the sign and literal written at the end of the text. */
  lemma WhereAnswered(name: string, s: TableState, sql: string, s': TableState, a: Answer, tokens: seq<Token>,
                      q: SelectStatement) returns (k: nat, rows: seq<Row>, indices: seq<nat>)
    requires Sound(s) && Executes(name, s, sql, s', a) && a.Answered?
    requires Lexes(sql, 0, tokens) && Writes(Keys(tokens), Selecting(q)) && q.hasWhere
    ensures s' == s && Lists(s, a, rows, indices) && Answers(s, rows, tokens, k)
  {
    SaysIt(sql, Selecting(q));
    rows, indices := AnswerLists(name, s, sql, s', a, q);
    k := ConditionRead(sql, tokens, q);
    ReturnedAnswers(s, q, rows, indices, tokens, k);
  }

  lemma SameMembers<T>(a: seq<T>, b: seq<T>, x: T)
    requires multiset(a) == multiset(b)
    ensures x in a <==> x in b
  {
    assert x in a <==> x in multiset(a);
    assert x in b <==> x in multiset(b);
  }

  // ---------------------------------------------------------------- the row an INSERT adds

  /** Each value in its place: under its name, or in the order of the columns, with the id generated if it is not
      given. */
  ghost predicate InPlace(s: TableState, stmt: InsertStatement, row: seq<string>) {
    && |row| == |s.columns|
    && if stmt.columns.items != [] then PlacedByName(s.columns, s.idColumn, s.nextId, stmt, row)
       else row == InsertRow.Texts(stmt.values) || AroundId(s.idColumn, s.nextId, stmt.values, row)
  }

  lemma AddsInPlace(s: TableState, stmt: InsertStatement, row: seq<string>, id: int)
    requires Sound(s) && Proper(Inserting(stmt)) && Adds(s, stmt, row, id)
    ensures InPlace(s, stmt, row)
  {
    EngineRuns.SoundParts(s);
    RowWidth(s, stmt, row);
    RowMeaning(s.columns, s.idColumn, s.nextId, stmt, row);
  }

  lemma InsertedBy(name: string, s: TableState, sql: string, stmt: InsertStatement, s': TableState, a: Answer)
    returns (row: seq<string>, id: int)
    requires Executes(name, s, sql, s', a) && a.Answered? && Says(sql, Inserting(stmt))
    ensures SameName(stmt.table, name) && Adds(s, stmt, row, id) && s' == Grown(s, row, id)
    ensures a == Answered(InsertMessage(name, id), NO_STATS)
  {
    var st :| Says(sql, st) && Does(name, s, Optimized(st), s', a);
    SaysOne(sql, st, Inserting(stmt));
    assert InsertDoes(name, s, stmt, s', a);
    row, id :| Adds(s, stmt, row, id) && s' == Grown(s, row, id) && a == Answered(InsertMessage(name, id), NO_STATS);
  }

  lemma MeansProper(sql: string, st: Statement)
    requires Means(sql, st)
    ensures Proper(st)
  {
    var tokens :| Lexes(sql, 0, tokens) && Writes(Keys(tokens), st);
  }

  /** An INSERT that is answered adds one row to the file, with each value in its place, and names the id of that
      row. */
  lemma InsertAnswered(name: string, s: TableState, sql: string, stmt: InsertStatement, s': TableState, a: Answer)
    returns (row: seq<string>, id: int, idText: string)
    requires Sound(s) && Means(sql, Inserting(stmt)) && Roomy(s, sql)
    requires Executes(name, s, sql, s', a) && a.Answered?
    ensures Rows(s'.text) == Rows(s.text) + [Row(|s.text|, row)] && InPlace(s, stmt, row)
    ensures s.idColumn < |row| && Denotes(row[s.idColumn], id) && Denotes(idText, id)
    ensures a.output == "Inserted 1 row into " + name + " (id=" + idText + ")\n"
  {
    MeansProper(sql, Inserting(stmt));
    SaysIt(sql, Inserting(stmt));
    row, id := InsertedBy(name, s, sql, stmt, s', a);
    AddsInPlace(s, stmt, row, id);
    EngineRuns.InsertSound(name, s, sql, stmt, row, id);
    idText := Print(id);
    PrintDenotes(id);
  }
}
