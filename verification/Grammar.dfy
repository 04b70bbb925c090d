/** The SQL grammar twice: as a recursive-descent reading of token sequences, and as the token sequence
    each statement is written as.  The two agree. */
module Grammar {
  import opened Machine
  import opened Comparison
  import opened Names
  import opened Ast
  import opened Tokenizer

  /** What the parser looks at: the kind of a token, and its text where the text matters. */
  datatype Key = Key(kind: TokenType, text: string)

  predicate HasText(kind: TokenType) {
    kind == TokenType.Identifier || kind == StringToken || kind == Number
  }

  function KeyOf(t: Token): Key {
    Key(t.kind, if HasText(t.kind) then t.lexeme else "")
  }

  function Keys(tokens: seq<Token>): (ks: seq<Key>)
    ensures |ks| == |tokens| && forall i :: 0 <= i < |ks| ==> ks[i] == KeyOf(tokens[i])
  {
    seq(|tokens|, i requires 0 <= i < |tokens| => KeyOf(tokens[i]))
  }

  /** Only keys that come from tokens: no text where it does not matter. */
  ghost predicate Canonical(ks: seq<Key>) {
    forall i :: 0 <= i < |ks| ==> HasText(ks[i].kind) || ks[i].text == ""
  }

  function Plain(kind: TokenType): Key {
    Key(kind, "")
  }

  function Word(text: string): Key {
    Key(TokenType.Identifier, text)
  }

  predicate Starts(ks: seq<Key>, kind: TokenType) {
    ks != [] && ks[0].kind == kind
  }

  // ---------------------------------------------------------------- reading

  datatype Parsed<+T> = Parsed(value: T, rest: seq<Key>)

  /** Names separated by commas. */
  function NameList(ks: seq<Key>): Option<Parsed<seq<string>>> {
    if !Starts(ks, TokenType.Identifier) then None else NamesFrom([ks[0].text], ks[1..])
  }

  /** `items` have been read; the list goes on after a comma. */
  function NamesFrom(items: seq<string>, ks: seq<Key>): Option<Parsed<seq<string>>>
    decreases |ks|
  {
    if !Starts(ks, Comma) then Some(Parsed(items, ks))
    else if |ks| < 2 || ks[1].kind != TokenType.Identifier then None
    else NamesFrom(items + [ks[1].text], ks[2..])
  }

  function LiteralOf(k: Key): Option<Literal> {
    if k.kind == StringToken then Some(Literal(StringLiteral, k.text))
    else if k.kind == Number then Some(Literal(NumberLiteral, k.text))
    else None
  }

  function LiteralList(ks: seq<Key>): Option<Parsed<seq<Literal>>> {
    if ks == [] || LiteralOf(ks[0]).None? then None else LiteralsFrom([LiteralOf(ks[0]).value], ks[1..])
  }

  function LiteralsFrom(items: seq<Literal>, ks: seq<Key>): Option<Parsed<seq<Literal>>>
    decreases |ks|
  {
    if !Starts(ks, Comma) then Some(Parsed(items, ks))
    else if |ks| < 2 || LiteralOf(ks[1]).None? then None
    else LiteralsFrom(items + [LiteralOf(ks[1]).value], ks[2..])
  }

  function ColumnsOf(ks: seq<Key>): Option<Parsed<ColumnList>> {
    if Starts(ks, Star) then Some(Parsed(ColumnList([], true), ks[1..]))
    else
      var names := NameList(ks);
      if names.None? then None else Some(Parsed(ColumnList(names.value.value, false), names.value.rest))
  }

  function OperatorOf(kind: TokenType): Option<CompareOperator> {
    match kind
    case Equals => Some(CompareOperator.Equals)
    case NotEquals => Some(CompareOperator.NotEquals)
    case LessThan => Some(Less)
    case LessEqual => Some(LessOrEqual)
    case GreaterThan => Some(Greater)
    case GreaterEqual => Some(GreaterOrEqual)
    case _ => None
  }

  function FilterOf(ks: seq<Key>): Option<Parsed<WhereClause>> {
    if |ks| < 3 || ks[0].kind != TokenType.Identifier then None
    else if OperatorOf(ks[1].kind).None? || LiteralOf(ks[2]).None? then None
    else Some(Parsed(WhereClause(ks[0].text, OperatorOf(ks[1].kind).value, LiteralOf(ks[2]).value), ks[3..]))
  }

  /** What the filter of a statement without WHERE holds. */
  const NO_FILTER: WhereClause := WhereClause("", CompareOperator.Equals, Literal(StringLiteral, ""))

  function TailOf(table: string, columns: ColumnList, ks: seq<Key>): Option<Parsed<SelectStatement>> {
    if !Starts(ks, Where) then Some(Parsed(SelectStatement(table, columns, false, NO_FILTER), ks))
    else
      var filter := FilterOf(ks[1..]);
      if filter.None? then None
      else Some(Parsed(SelectStatement(table, columns, true, filter.value.value), filter.value.rest))
  }

  function SelectOf(ks: seq<Key>): Option<Parsed<SelectStatement>> {
    var columns := ColumnsOf(ks);
    if columns.None? then None
    else
      var rest := columns.value.rest;
      if |rest| < 2 || rest[0].kind != From || rest[1].kind != TokenType.Identifier then None
      else TailOf(rest[1].text, columns.value.value, rest[2..])
  }

  /** The optional column list of an INSERT. */
  function InsertColumnsOf(ks: seq<Key>): Option<Parsed<seq<string>>> {
    if !Starts(ks, LeftParen) then Some(Parsed([], ks))
    else
      var names := NameList(ks[1..]);
      if names.None? || !DistinctNames(names.value.value) || !Starts(names.value.rest, RightParen) then None
      else Some(Parsed(names.value.value, names.value.rest[1..]))
  }

  function ValuesOf(ks: seq<Key>): Option<Parsed<seq<Literal>>> {
    if |ks| < 2 || ks[0].kind != Values || ks[1].kind != LeftParen then None
    else
      var literals := LiteralList(ks[2..]);
      if literals.None? || !Starts(literals.value.rest, RightParen) then None
      else Some(Parsed(literals.value.value, literals.value.rest[1..]))
  }

  /** What follows the table name of an INSERT. */
  function RowOf(table: string, ks: seq<Key>): Option<Parsed<InsertStatement>> {
    var columns := InsertColumnsOf(ks);
    if columns.None? then None
    else
      var values := ValuesOf(columns.value.rest);
      if values.None? || (|columns.value.value| > 0 && |columns.value.value| != |values.value.value|) then None
      else Some(Parsed(InsertStatement(table, ColumnList(columns.value.value, false), values.value.value),
                       values.value.rest))
  }

  function InsertOf(ks: seq<Key>): Option<Parsed<InsertStatement>> {
    if |ks| < 2 || ks[0].kind != Into || ks[1].kind != TokenType.Identifier then None else RowOf(ks[1].text, ks[2..])
  }

  function BodyOf(ks: seq<Key>): Option<Parsed<Statement>> {
    if Starts(ks, TokenType.Select) then
      var s := SelectOf(ks[1..]);
      if s.None? then None else Some(Parsed(Selecting(s.value.value), s.value.rest))
    else if Starts(ks, TokenType.Insert) then
      var s := InsertOf(ks[1..]);
      if s.None? then None else Some(Parsed(Inserting(s.value.value), s.value.rest))
    else None
  }

  /** One statement, an optional semicolon, and nothing more. */
  function StatementOf(ks: seq<Key>): Option<Statement> {
    var body := BodyOf(ks);
    if body.None? then None
    else if body.value.rest == [] then Some(body.value.value)
    else if |body.value.rest| == 1 && body.value.rest[0].kind == Semicolon then Some(body.value.value)
    else None
  }

  // ---------------------------------------------------------------- writing

  function NameKeys(names: seq<string>): seq<Key> {
    if names == [] then []
    else if |names| == 1 then [Word(names[0])]
    else NameKeys(names[..|names| - 1]) + [Plain(Comma), Word(names[|names| - 1])]
  }

  function LiteralKey(l: Literal): Key {
    Key(if l.kind == StringLiteral then StringToken else Number, l.text)
  }

  function LiteralKeys(ls: seq<Literal>): seq<Key> {
    if ls == [] then []
    else if |ls| == 1 then [LiteralKey(ls[0])]
    else LiteralKeys(ls[..|ls| - 1]) + [Plain(Comma), LiteralKey(ls[|ls| - 1])]
  }

  function OperatorKey(op: CompareOperator): Key {
    match op
    case Equals => Plain(TokenType.Equals)
    case NotEquals => Plain(TokenType.NotEquals)
    case Less => Plain(LessThan)
    case LessOrEqual => Plain(LessEqual)
    case Greater => Plain(GreaterThan)
    case GreaterOrEqual => Plain(GreaterEqual)
  }

  function ColumnKeys(columns: ColumnList): seq<Key> {
    if columns.isStar then [Plain(Star)] else NameKeys(columns.items)
  }

  function FilterKeys(hasWhere: bool, filter: WhereClause): seq<Key> {
    if hasWhere then [Plain(Where), Word(filter.column), OperatorKey(filter.op), LiteralKey(filter.value)] else []
  }

  function SelectKeys(s: SelectStatement): seq<Key> {
    ColumnKeys(s.columns) + ([Plain(From), Word(s.table)] + FilterKeys(s.hasWhere, s.filter))
  }

  function InsertColumnKeys(names: seq<string>): seq<Key> {
    if names == [] then [] else [Plain(LeftParen)] + (NameKeys(names) + [Plain(RightParen)])
  }

  function ValueKeys(ls: seq<Literal>): seq<Key> {
    [Plain(Values), Plain(LeftParen)] + (LiteralKeys(ls) + [Plain(RightParen)])
  }

  function InsertKeys(s: InsertStatement): seq<Key> {
    [Plain(Into), Word(s.table)] + (InsertColumnKeys(s.columns.items) + ValueKeys(s.values))
  }

  function StatementKeys(s: Statement): seq<Key> {
    match s
    case Selecting(q) => [Plain(TokenType.Select)] + SelectKeys(q)
    case Inserting(q) => [Plain(TokenType.Insert)] + InsertKeys(q)
  }

  /** The statements the grammar has. */
  ghost predicate Proper(s: Statement) {
    match s
    case Selecting(q) =>
      && (if q.columns.isStar then q.columns.items == [] else q.columns.items != [])
      && (!q.hasWhere ==> q.filter == NO_FILTER)
    case Inserting(q) =>
      && !q.columns.isStar && q.values != [] && DistinctNames(q.columns.items)
      && (q.columns.items != [] ==> |q.columns.items| == |q.values|)
  }

  /** `ks` is the statement `s`, with or without a semicolon. */
  ghost predicate Writes(ks: seq<Key>, s: Statement) {
    Proper(s) && (ks == StatementKeys(s) || ks == StatementKeys(s) + [Plain(Semicolon)])
  }

  // ---------------------------------------------------------------- lists

  lemma NameKeysPush(names: seq<string>, name: string)
    requires names != []
    ensures NameKeys(names + [name]) == NameKeys(names) + [Plain(Comma), Word(name)]
  {
    assert (names + [name])[..|names|] == names;
  }

  lemma LiteralKeysPush(ls: seq<Literal>, l: Literal)
    requires ls != []
    ensures LiteralKeys(ls + [l]) == LiteralKeys(ls) + [Plain(Comma), LiteralKey(l)]
  {
    assert (ls + [l])[..|ls|] == ls;
  }

  lemma MovePair(done: seq<Key>, ks: seq<Key>)
    requires |ks| >= 2
    ensures done + ks == done + [ks[0], ks[1]] + ks[2..]
  {
  }

  lemma {:induction false} NamesSound(items: seq<string>, ks: seq<Key>)
    requires items != [] && Canonical(ks) && NamesFrom(items, ks).Some?
    ensures var p := NamesFrom(items, ks).value;
      && p.value != [] && NameKeys(items) + ks == NameKeys(p.value) + p.rest && |p.rest| <= |ks|
      && Canonical(p.rest) && !Starts(p.rest, Comma)
    decreases |ks|
  {
    if Starts(ks, Comma) {
      var more := items + [ks[1].text];
      NamesSound(more, ks[2..]);
      NameKeysPush(items, ks[1].text);
      MovePair(NameKeys(items), ks);
    }
  }

  lemma {:induction false} LiteralsSound(items: seq<Literal>, ks: seq<Key>)
    requires items != [] && Canonical(ks) && LiteralsFrom(items, ks).Some?
    ensures var p := LiteralsFrom(items, ks).value;
      && p.value != [] && LiteralKeys(items) + ks == LiteralKeys(p.value) + p.rest
      && Canonical(p.rest) && !Starts(p.rest, Comma)
    decreases |ks|
  {
    if Starts(ks, Comma) {
      var l := LiteralOf(ks[1]).value;
      var more := items + [l];
      LiteralsSound(more, ks[2..]);
      LiteralKeysPush(items, l);
      MovePair(LiteralKeys(items), ks);
    }
  }

  lemma DropPair(a: Key, b: Key, s: seq<Key>, rest: seq<Key>)
    ensures var ks := [a, b] + s + rest; |ks| >= 2 && ks[0] == a && ks[1] == b && ks[2..] == s + rest
  {
  }

  lemma TakeFirst<T>(items: seq<T>, more: seq<T>)
    requires more != []
    ensures items + [more[0]] + more[1..] == items + more
  {
  }

  /** Reading back the names `more`, of which the keys follow the names `items` already read. */
  lemma {:induction false} NamesComplete(items: seq<string>, more: seq<string>, rest: seq<Key>)
    requires items != [] && !Starts(rest, Comma)
    ensures NamesFrom(items, CommaNames(more) + rest) == Some(Parsed(items + more, rest))
    decreases |more|
  {
    if more == [] {
      assert CommaNames(more) + rest == rest && items + more == items;
    } else {
      DropPair(Plain(Comma), Word(more[0]), CommaNames(more[1..]), rest);
      NamesComplete(items + [more[0]], more[1..], rest);
      TakeFirst(items, more);
    }
  }

  function CommaNames(names: seq<string>): seq<Key> {
    if names == [] then [] else [Plain(Comma), Word(names[0])] + CommaNames(names[1..])
  }

  lemma {:induction false} CommaNamesPush(names: seq<string>, name: string)
    ensures CommaNames(names + [name]) == CommaNames(names) + [Plain(Comma), Word(name)]
  {
    if names == [] {
      assert (names + [name])[1..] == [];
    } else {
      assert (names + [name])[1..] == names[1..] + [name];
      CommaNamesPush(names[1..], name);
    }
  }

  lemma {:induction false} NameKeysFront(names: seq<string>)
    requires names != []
    ensures NameKeys(names) == [Word(names[0])] + CommaNames(names[1..])
  {
    if |names| == 1 {
      assert names[1..] == [];
    } else {
      var init, last := names[..|names| - 1], names[|names| - 1];
      NameKeysFront(init);
      assert names[1..] == init[1..] + [last];
      CommaNamesPush(init[1..], last);
    }
  }

  lemma NameListComplete(names: seq<string>, rest: seq<Key>)
    requires names != [] && !Starts(rest, Comma)
    ensures NameList(NameKeys(names) + rest) == Some(Parsed(names, rest))
  {
    NameKeysFront(names);
    var ks := NameKeys(names) + rest;
    assert ks[1..] == CommaNames(names[1..]) + rest;
    NamesComplete([names[0]], names[1..], rest);
    assert [names[0]] + names[1..] == names;
  }

  function CommaLiterals(ls: seq<Literal>): seq<Key> {
    if ls == [] then [] else [Plain(Comma), LiteralKey(ls[0])] + CommaLiterals(ls[1..])
  }

  lemma {:induction false} CommaLiteralsPush(ls: seq<Literal>, l: Literal)
    ensures CommaLiterals(ls + [l]) == CommaLiterals(ls) + [Plain(Comma), LiteralKey(l)]
  {
    if ls == [] {
      assert (ls + [l])[1..] == [];
    } else {
      assert (ls + [l])[1..] == ls[1..] + [l];
      CommaLiteralsPush(ls[1..], l);
    }
  }

  lemma {:induction false} LiteralKeysFront(ls: seq<Literal>)
    requires ls != []
    ensures LiteralKeys(ls) == [LiteralKey(ls[0])] + CommaLiterals(ls[1..])
  {
    if |ls| == 1 {
      assert ls[1..] == [];
    } else {
      var init, last := ls[..|ls| - 1], ls[|ls| - 1];
      LiteralKeysFront(init);
      assert ls[1..] == init[1..] + [last];
      CommaLiteralsPush(init[1..], last);
    }
  }

  lemma {:induction false} LiteralsComplete(items: seq<Literal>, more: seq<Literal>, rest: seq<Key>)
    requires items != [] && !Starts(rest, Comma)
    ensures LiteralsFrom(items, CommaLiterals(more) + rest) == Some(Parsed(items + more, rest))
    decreases |more|
  {
    if more == [] {
      assert CommaLiterals(more) + rest == rest && items + more == items;
    } else {
      DropPair(Plain(Comma), LiteralKey(more[0]), CommaLiterals(more[1..]), rest);
      LiteralsComplete(items + [more[0]], more[1..], rest);
      TakeFirst(items, more);
    }
  }

  lemma LiteralListComplete(ls: seq<Literal>, rest: seq<Key>)
    requires ls != [] && !Starts(rest, Comma)
    ensures LiteralList(LiteralKeys(ls) + rest) == Some(Parsed(ls, rest))
  {
    LiteralKeysFront(ls);
    var ks := LiteralKeys(ls) + rest;
    assert ks[1..] == CommaLiterals(ls[1..]) + rest;
    LiteralsComplete([ls[0]], ls[1..], rest);
    assert [ls[0]] + ls[1..] == ls;
  }

  // ---------------------------------------------------------------- what is read is what is written

  ghost predicate ProperColumns(c: ColumnList) {
    if c.isStar then c.items == [] else c.items != []
  }

  lemma NameListSound(ks: seq<Key>)
    requires Canonical(ks) && NameList(ks).Some?
    ensures var p := NameList(ks).value; p.value != [] && ks == NameKeys(p.value) + p.rest && Canonical(p.rest)
  {
    NamesSound([ks[0].text], ks[1..]);
    assert ks == [Word(ks[0].text)] + ks[1..];
  }

  lemma LiteralListSound(ks: seq<Key>)
    requires Canonical(ks) && LiteralList(ks).Some?
    ensures var p := LiteralList(ks).value; p.value != [] && ks == LiteralKeys(p.value) + p.rest && Canonical(p.rest)
  {
    var l := LiteralOf(ks[0]).value;
    LiteralsSound([l], ks[1..]);
    assert ks == [LiteralKey(l)] + ks[1..];
  }

  lemma ColumnsSound(ks: seq<Key>)
    requires Canonical(ks) && ColumnsOf(ks).Some?
    ensures var p := ColumnsOf(ks).value;
      ProperColumns(p.value) && ks == ColumnKeys(p.value) + p.rest && Canonical(p.rest)
  {
    if Starts(ks, Star) {
      assert ks == [Plain(Star)] + ks[1..];
    } else {
      NameListSound(ks);
    }
  }

  lemma FilterSound(ks: seq<Key>)
    requires Canonical(ks) && Starts(ks, Where) && FilterOf(ks[1..]).Some?
    ensures var p := FilterOf(ks[1..]).value; ks == FilterKeys(true, p.value) + p.rest && Canonical(p.rest)
  {
    var p := FilterOf(ks[1..]).value;
    assert ks[1..][1] == ks[2] && ks[1..][2] == ks[3] && ks[1..][3..] == ks[4..];
    assert ks == [ks[0], ks[1], ks[2], ks[3]] + ks[4..];
  }

  lemma TailSound(table: string, columns: ColumnList, ks: seq<Key>)
    requires Canonical(ks) && TailOf(table, columns, ks).Some?
    ensures var p := TailOf(table, columns, ks).value;
      && p.value.table == table && p.value.columns == columns && (!p.value.hasWhere ==> p.value.filter == NO_FILTER)
      && ks == FilterKeys(p.value.hasWhere, p.value.filter) + p.rest && Canonical(p.rest)
  {
    if Starts(ks, Where) {
      FilterSound(ks);
    }
  }

  lemma Parts4(a: seq<Key>, b: seq<Key>, c: seq<Key>, d: seq<Key>)
    ensures a + (b + (c + d)) == (a + (b + c)) + d
  {
  }

  lemma SelectParts(ks: seq<Key>, columns: Parsed<ColumnList>, tail: Parsed<SelectStatement>)
    requires ks == ColumnKeys(columns.value) + columns.rest && columns.value == tail.value.columns
    requires |columns.rest| >= 2 && columns.rest[0] == Plain(From) && columns.rest[1] == Word(tail.value.table)
    requires columns.rest[2..] == FilterKeys(tail.value.hasWhere, tail.value.filter) + tail.rest
    ensures ks == SelectKeys(tail.value) + tail.rest
  {
    var q, rest := tail.value, columns.rest;
    assert rest == [rest[0], rest[1]] + rest[2..];
    Parts4(ColumnKeys(columns.value), [rest[0], rest[1]], FilterKeys(q.hasWhere, q.filter), tail.rest);
  }

  lemma SelectSound(ks: seq<Key>)
    requires Canonical(ks) && SelectOf(ks).Some?
    ensures var p := SelectOf(ks).value;
      Proper(Selecting(p.value)) && ks == SelectKeys(p.value) + p.rest && Canonical(p.rest)
  {
    ColumnsSound(ks);
    var columns := ColumnsOf(ks).value;
    var rest := columns.rest;
    TailSound(rest[1].text, columns.value, rest[2..]);
    SelectParts(ks, columns, TailOf(rest[1].text, columns.value, rest[2..]).value);
  }

  lemma InsertColumnsSound(ks: seq<Key>)
    requires Canonical(ks) && InsertColumnsOf(ks).Some?
    ensures var p := InsertColumnsOf(ks).value;
      DistinctNames(p.value) && ks == InsertColumnKeys(p.value) + p.rest && Canonical(p.rest)
  {
    if Starts(ks, LeftParen) {
      NameListSound(ks[1..]);
      var names := NameList(ks[1..]).value;
      assert names.rest == [Plain(RightParen)] + names.rest[1..];
      Parts4([Plain(LeftParen)], NameKeys(names.value), [Plain(RightParen)], names.rest[1..]);
      assert ks == [Plain(LeftParen)] + ks[1..];
    }
  }

  lemma ValuesSound(ks: seq<Key>)
    requires Canonical(ks) && ValuesOf(ks).Some?
    ensures var p := ValuesOf(ks).value; p.value != [] && ks == ValueKeys(p.value) + p.rest && Canonical(p.rest)
  {
    LiteralListSound(ks[2..]);
    var literals := LiteralList(ks[2..]).value;
    assert literals.rest == [Plain(RightParen)] + literals.rest[1..];
    Parts4([Plain(Values), Plain(LeftParen)], LiteralKeys(literals.value), [Plain(RightParen)], literals.rest[1..]);
    assert ks == [Plain(Values), Plain(LeftParen)] + ks[2..];
  }

  lemma InsertSound(ks: seq<Key>)
    requires Canonical(ks) && InsertOf(ks).Some?
    ensures var p := InsertOf(ks).value;
      Proper(Inserting(p.value)) && ks == InsertKeys(p.value) + p.rest && Canonical(p.rest)
  {
    var columns := InsertColumnsOf(ks[2..]).value;
    var values := ValuesOf(columns.rest).value;
    InsertOpened(ks, columns, values);
    CanonicalTail(ks);
    InsertRestSound(ks[2..], columns, values);
    InsertParts(ks, columns, values);
  }

  lemma InsertOpened(ks: seq<Key>, columns: Parsed<seq<string>>, values: Parsed<seq<Literal>>)
    requires Canonical(ks) && InsertOf(ks).Some?
    requires InsertColumnsOf(ks[2..]) == Some(columns) && ValuesOf(columns.rest) == Some(values)
    ensures ks[0] == Plain(Into) && ks[1] == Word(ks[1].text)
    ensures columns.value != [] ==> |columns.value| == |values.value|
    ensures InsertOf(ks).value ==
      Parsed(InsertStatement(ks[1].text, ColumnList(columns.value, false), values.value), values.rest)
  {
  }

  lemma CanonicalTail(ks: seq<Key>)
    requires Canonical(ks) && |ks| >= 2
    ensures Canonical(ks[2..])
  {
  }

  lemma InsertRestSound(ks: seq<Key>, columns: Parsed<seq<string>>, values: Parsed<seq<Literal>>)
    requires Canonical(ks) && InsertColumnsOf(ks) == Some(columns) && ValuesOf(columns.rest) == Some(values)
    ensures ks == InsertColumnKeys(columns.value) + columns.rest
    ensures columns.rest == ValueKeys(values.value) + values.rest
    ensures DistinctNames(columns.value) && values.value != [] && Canonical(values.rest)
  {
    InsertColumnsSound(ks);
    ValuesSound(columns.rest);
  }

  lemma InsertParts(ks: seq<Key>, columns: Parsed<seq<string>>, values: Parsed<seq<Literal>>)
    requires |ks| >= 2 && ks[0] == Plain(Into) && ks[1] == Word(ks[1].text)
    requires ks[2..] == InsertColumnKeys(columns.value) + columns.rest
    requires columns.rest == ValueKeys(values.value) + values.rest
    ensures ks == InsertKeys(InsertStatement(ks[1].text, ColumnList(columns.value, false), values.value)) + values.rest
  {
    Parts4([ks[0], ks[1]], InsertColumnKeys(columns.value), ValueKeys(values.value), values.rest);
    assert ks == [ks[0], ks[1]] + ks[2..];
  }

  lemma BodySound(ks: seq<Key>)
    requires Canonical(ks) && BodyOf(ks).Some?
    ensures var p := BodyOf(ks).value; Proper(p.value) && ks == StatementKeys(p.value) + p.rest && Canonical(p.rest)
  {
    if Starts(ks, TokenType.Select) {
      SelectBodySound(ks, SelectOf(ks[1..]).value);
    } else {
      InsertBodySound(ks, InsertOf(ks[1..]).value);
    }
  }

  lemma SelectBodySound(ks: seq<Key>, p: Parsed<SelectStatement>)
    requires Canonical(ks) && Starts(ks, TokenType.Select) && SelectOf(ks[1..]) == Some(p)
    ensures Proper(Selecting(p.value)) && ks == StatementKeys(Selecting(p.value)) + p.rest && Canonical(p.rest)
  {
    SelectSound(ks[1..]);
    SelectHead(ks, p.value, p.rest);
  }

  lemma SelectHead(ks: seq<Key>, q: SelectStatement, rest: seq<Key>)
    requires ks != [] && ks[0] == Plain(TokenType.Select) && ks[1..] == SelectKeys(q) + rest
    ensures ks == StatementKeys(Selecting(q)) + rest
  {
    HeadBack(ks, SelectKeys(q), rest);
  }

  lemma InsertBodySound(ks: seq<Key>, p: Parsed<InsertStatement>)
    requires Canonical(ks) && Starts(ks, TokenType.Insert) && InsertOf(ks[1..]) == Some(p)
    ensures Proper(Inserting(p.value)) && ks == StatementKeys(Inserting(p.value)) + p.rest && Canonical(p.rest)
  {
    InsertSound(ks[1..]);
    InsertHead(ks, p.value, p.rest);
  }

  lemma InsertHead(ks: seq<Key>, q: InsertStatement, rest: seq<Key>)
    requires ks != [] && ks[0] == Plain(TokenType.Insert) && ks[1..] == InsertKeys(q) + rest
    ensures ks == StatementKeys(Inserting(q)) + rest
  {
    HeadBack(ks, InsertKeys(q), rest);
  }

  lemma HeadBack(ks: seq<Key>, a: seq<Key>, b: seq<Key>)
    requires ks != [] && ks[1..] == a + b
    ensures ks == [ks[0]] + a + b
  {
    assert ks == [ks[0]] + ks[1..];
  }

  lemma HeadTail(k: Key, a: seq<Key>, b: seq<Key>)
    ensures ([k] + a + b)[1..] == a + b && ([k] + a + b)[0] == k
  {
  }

  // ---------------------------------------------------------------- what is written is read back

  lemma ColumnsComplete(c: ColumnList, rest: seq<Key>)
    requires ProperColumns(c) && !Starts(rest, Comma)
    ensures ColumnsOf(ColumnKeys(c) + rest) == Some(Parsed(c, rest))
  {
    if c.isStar {
      assert (ColumnKeys(c) + rest)[1..] == rest;
    } else {
      NameListComplete(c.items, rest);
      NameKeysFront(c.items);
    }
  }

  lemma TailComplete(q: SelectStatement, rest: seq<Key>)
    requires !q.hasWhere ==> q.filter == NO_FILTER
    requires !Starts(rest, Where)
    ensures TailOf(q.table, q.columns, FilterKeys(q.hasWhere, q.filter) + rest) == Some(Parsed(q, rest))
  {
    var ks := FilterKeys(q.hasWhere, q.filter) + rest;
    if q.hasWhere {
      var f := ks[1..];
      assert f[0] == Word(q.filter.column) && f[1] == OperatorKey(q.filter.op) && f[2] == LiteralKey(q.filter.value)
        && f[3..] == rest;
    } else {
      assert ks == rest;
    }
  }

  lemma SelectComplete(q: SelectStatement, rest: seq<Key>)
    requires Proper(Selecting(q)) && !Starts(rest, Where)
    ensures SelectOf(SelectKeys(q) + rest) == Some(Parsed(q, rest))
  {
    var tail := FilterKeys(q.hasWhere, q.filter) + rest;
    var after := [Plain(From), Word(q.table)] + tail;
    Parts4(ColumnKeys(q.columns), [Plain(From), Word(q.table)], FilterKeys(q.hasWhere, q.filter), rest);
    ColumnsComplete(q.columns, after);
    assert after[2..] == tail;
    TailComplete(q, rest);
  }

  lemma InsertColumnsComplete(names: seq<string>, rest: seq<Key>)
    requires DistinctNames(names) && !Starts(rest, LeftParen)
    ensures InsertColumnsOf(InsertColumnKeys(names) + rest) == Some(Parsed(names, rest))
  {
    if names == [] {
      assert InsertColumnKeys(names) + rest == rest;
    } else {
      var after := [Plain(RightParen)] + rest;
      var ks := [Plain(LeftParen)] + (NameKeys(names) + after);
      Parts4([Plain(LeftParen)], NameKeys(names), [Plain(RightParen)], rest);
      NameListComplete(names, after);
      ListedColumns(ks, names, after);
      assert after[1..] == rest;
    }
  }

  lemma ListedColumns(ks: seq<Key>, names: seq<string>, after: seq<Key>)
    requires ks == [Plain(LeftParen)] + (NameKeys(names) + after) && DistinctNames(names) && Starts(after, RightParen)
    requires NameList(NameKeys(names) + after) == Some(Parsed(names, after))
    ensures InsertColumnsOf(ks) == Some(Parsed(names, after[1..]))
  {
    assert ks[1..] == NameKeys(names) + after;
  }

  lemma ValuesComplete(ls: seq<Literal>, rest: seq<Key>)
    requires ls != []
    ensures ValuesOf(ValueKeys(ls) + rest) == Some(Parsed(ls, rest))
  {
    var ks, after := ValueKeys(ls) + rest, [Plain(RightParen)] + rest;
    Parts4([Plain(Values), Plain(LeftParen)], LiteralKeys(ls), [Plain(RightParen)], rest);
    assert ks[2..] == LiteralKeys(ls) + after;
    LiteralListComplete(ls, after);
    assert after[1..] == rest;
  }

  lemma RowComplete(q: InsertStatement, rest: seq<Key>)
    requires Proper(Inserting(q))
    ensures RowOf(q.table, InsertColumnKeys(q.columns.items) + (ValueKeys(q.values) + rest)) == Some(Parsed(q, rest))
  {
    InsertColumnsComplete(q.columns.items, ValueKeys(q.values) + rest);
    ValuesComplete(q.values, rest);
  }

  lemma InsertComplete(q: InsertStatement, rest: seq<Key>)
    requires Proper(Inserting(q))
    ensures InsertOf(InsertKeys(q) + rest) == Some(Parsed(q, rest))
  {
    Parts4([Plain(Into), Word(q.table)], InsertColumnKeys(q.columns.items), ValueKeys(q.values), rest);
    RowComplete(q, rest);
    AfterTable(q.table, InsertColumnKeys(q.columns.items) + (ValueKeys(q.values) + rest));
  }

  lemma AfterTable(table: string, row: seq<Key>)
    ensures InsertOf([Plain(Into), Word(table)] + row) == RowOf(table, row)
  {
    assert ([Plain(Into), Word(table)] + row)[2..] == row;
  }

  lemma BodyComplete(s: Statement, rest: seq<Key>)
    requires Proper(s) && !Starts(rest, Where)
    ensures BodyOf(StatementKeys(s) + rest) == Some(Parsed(s, rest))
  {
    match s
    case Selecting(q) =>
      HeadTail(Plain(TokenType.Select), SelectKeys(q), rest);
      SelectComplete(q, rest);
      SelectBody(StatementKeys(s) + rest, q, rest);
    case Inserting(q) =>
      HeadTail(Plain(TokenType.Insert), InsertKeys(q), rest);
      InsertComplete(q, rest);
      InsertBody(StatementKeys(s) + rest, q, rest);
  }

  lemma SelectBody(ks: seq<Key>, q: SelectStatement, rest: seq<Key>)
    requires Starts(ks, TokenType.Select) && SelectOf(ks[1..]) == Some(Parsed(q, rest))
    ensures BodyOf(ks) == Some(Parsed(Selecting(q), rest))
  {
  }

  lemma InsertBody(ks: seq<Key>, q: InsertStatement, rest: seq<Key>)
    requires Starts(ks, TokenType.Insert) && InsertOf(ks[1..]) == Some(Parsed(q, rest))
    ensures BodyOf(ks) == Some(Parsed(Inserting(q), rest))
  {
  }

  lemma StatementFrom(ks: seq<Key>, s: Statement, rest: seq<Key>)
    requires BodyOf(ks) == Some(Parsed(s, rest)) && (rest == [] || rest == [Plain(Semicolon)])
    ensures StatementOf(ks) == Some(s)
  {
  }

  lemma AcceptsOnlyWritten(ks: seq<Key>, s: Statement)
    requires Canonical(ks) && StatementOf(ks) == Some(s)
    ensures Writes(ks, s)
  {
    BodySound(ks);
    WrittenWith(ks, s, BodyOf(ks).value.rest);
  }

  lemma WrittenWith(ks: seq<Key>, s: Statement, rest: seq<Key>)
    requires Proper(s) && ks == StatementKeys(s) + rest && Canonical(rest)
    requires rest == [] || (|rest| == 1 && rest[0].kind == Semicolon)
    ensures Writes(ks, s)
  {
    if rest == [] {
      NothingAfter(StatementKeys(s));
    } else {
      assert rest == [Plain(Semicolon)];
    }
  }

  lemma NothingAfter<T>(s: seq<T>)
    ensures s + [] == s
  {
  }

  lemma AcceptsAllWritten(ks: seq<Key>, s: Statement)
    requires Writes(ks, s)
    ensures StatementOf(ks) == Some(s)
  {
    if ks == StatementKeys(s) {
      BodyComplete(s, []);
      assert StatementKeys(s) + [] == ks;
      StatementFrom(ks, s, []);
    } else {
      BodyComplete(s, [Plain(Semicolon)]);
      StatementFrom(ks, s, [Plain(Semicolon)]);
    }
  }

  /** The parser accepts exactly the token sequences that write a statement, and returns that statement. */
  lemma ParsesIffWritten(ks: seq<Key>, s: Statement)
    requires Canonical(ks)
    ensures StatementOf(ks) == Some(s) <==> Writes(ks, s)
  {
    if StatementOf(ks) == Some(s) {
      AcceptsOnlyWritten(ks, s);
    }
    if Writes(ks, s) {
      AcceptsAllWritten(ks, s);
    }
  }

  /** No token sequence writes two statements. */
  lemma OneStatement(ks: seq<Key>, s: Statement, s': Statement)
    requires Writes(ks, s) && Writes(ks, s')
    ensures s == s'
  {
    AcceptsAllWritten(ks, s);
    AcceptsAllWritten(ks, s');
  }
}
