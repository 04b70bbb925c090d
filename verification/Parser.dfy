/** The parser object: a cursor over the tokens, advanced by recursive descent.  Every method reads what
    the grammar function of the same construct reads. */
module Parser {
  import opened Machine
  import opened Comparison
  import opened Names
  import opened Ast
  import opened Tokenizer
  import opened Grammar

  /** A token array ends with its only end token. */
  ghost predicate EofTerminated(tokens: seq<Token>) {
    && tokens != [] && tokens[|tokens| - 1].kind == Eof
    && forall i :: 0 <= i < |tokens| - 1 ==> tokens[i].kind != Eof
  }

  /** What was read is what the grammar function says. */
  ghost predicate Read<T>(spec: Option<Parsed<T>>, ok: bool, value: T, rest: seq<Key>) {
    if ok then spec == Some(Parsed(value, rest)) else spec == None
  }

  class Parser {
    const tokens: seq<Token>
    var current: nat

    ghost predicate Valid()
      reads this
    {
      EofTerminated(tokens) && current < |tokens|
    }

    /** What has not been read yet, without the end token. */
    ghost function Remaining(): seq<Key>
      requires Valid()
      reads this
    {
      Keys(tokens[current..|tokens| - 1])
    }

    constructor (tokens: seq<Token>)
      requires EofTerminated(tokens)
      ensures Valid() && this.tokens == tokens && Remaining() == Keys(tokens[..|tokens| - 1])
    {
      this.tokens, current := tokens, 0;
    }

    function Peek(): (t: Token)
      requires Valid()
      reads this
      ensures t.kind == Eof <==> Remaining() == []
      ensures t.kind != Eof ==> Remaining()[0] == KeyOf(t)
    {
      tokens[current]
    }

    /** Steps over one token; stays on the end token. */
    method Advance()
      requires Valid()
      modifies this`current
      ensures Valid()
      ensures old(Remaining()) != [] ==> current == old(current) + 1 && Remaining() == old(Remaining())[1..]
      ensures old(Remaining()) == [] ==> current == old(current)
    {
      if tokens[current].kind != Eof {
        current := current + 1;
      }
    }

    method MatchToken(kind: TokenType) returns (ok: bool)
      requires Valid() && kind != Eof
      modifies this`current
      ensures Valid() && (ok <==> Starts(old(Remaining()), kind))
      ensures ok ==> current == old(current) + 1 && Remaining() == old(Remaining())[1..]
      ensures ok ==> KeyOf(tokens[current - 1]) == old(Remaining())[0]
      ensures !ok ==> current == old(current)
    {
      if Peek().kind != kind {
        return false;
      }
      Advance();
      ok := true;
    }

    /** Consumes an identifier and returns its text. */
    method ConsumeName() returns (r: Option<string>)
      requires Valid()
      modifies this`current
      ensures Valid()
      ensures r.Some? <==> Starts(old(Remaining()), TokenType.Identifier)
      ensures r.Some? ==> old(Remaining())[0].text == r.value && Remaining() == old(Remaining())[1..]
      ensures r.None? ==> current == old(current)
    {
      var ok := MatchToken(TokenType.Identifier);
      r := if ok then Some(tokens[current - 1].lexeme) else None;
    }

    method ParseLiteral() returns (r: Option<Literal>)
      requires Valid()
      modifies this`current
      ensures Valid() && r == if old(Remaining()) == [] then None else LiteralOf(old(Remaining())[0])
      ensures r.Some? ==> Remaining() == old(Remaining())[1..]
      ensures r.None? ==> current == old(current)
    {
      var ok := MatchToken(StringToken);
      if ok {
        return Some(Literal(StringLiteral, tokens[current - 1].lexeme));
      }
      ok := MatchToken(Number);
      if ok {
        return Some(Literal(NumberLiteral, tokens[current - 1].lexeme));
      }
      r := None;
    }

    // -------------------------------------------------------------- SELECT

    /** Names separated by commas. */
    method ParseNames() returns (ok: bool, names: seq<string>)
      requires Valid()
      modifies this`current
      ensures Valid() && Read(NameList(old(Remaining())), ok, names, Remaining())
    {
      names := [];
      var more := true;
      NamesBegin(Remaining());
      while more
        invariant Valid() && (more || names != [])
        invariant NameList(old(Remaining())) ==
          if more then NamesAfterComma(names, Remaining()) else Some(Parsed(names, Remaining()))
        decreases |tokens| - current, more
      {
        var name := ConsumeName();
        if name.None? {
          return false, names;
        }
        names := names + [name.value];
        ghost var ks := Remaining();
        NamesGoOn(names, ks);
        more := MatchToken(Comma);
      }
      ok := true;
    }

    method ParseColumnList() returns (ok: bool, columns: ColumnList)
      requires Valid()
      modifies this`current
      ensures Valid() && Read(ColumnsOf(old(Remaining())), ok, columns, Remaining())
    {
      columns := ColumnList([], false);
      ok := MatchToken(Star);
      if ok {
        columns := ColumnList([], true);
        return;
      }
      var names;
      ok, names := ParseNames();
      columns := ColumnList(names, false);
    }

    method ParseCompareOperator() returns (r: Option<CompareOperator>)
      requires Valid()
      modifies this`current
      ensures Valid() && r == if old(Remaining()) == [] then None else OperatorOf(old(Remaining())[0].kind)
      ensures r.Some? ==> Remaining() == old(Remaining())[1..]
      ensures r.None? ==> current == old(current)
    {
      var ok := MatchToken(TokenType.Equals);
      if ok {
        return Some(CompareOperator.Equals);
      }
      ok := MatchToken(TokenType.NotEquals);
      if ok {
        return Some(CompareOperator.NotEquals);
      }
      r := ParseOrderOperator();
    }

    method ParseOrderOperator() returns (r: Option<CompareOperator>)
      requires Valid()
      requires !Starts(Remaining(), TokenType.Equals) && !Starts(Remaining(), TokenType.NotEquals)
      modifies this`current
      ensures Valid() && r == if old(Remaining()) == [] then None else OperatorOf(old(Remaining())[0].kind)
      ensures r.Some? ==> Remaining() == old(Remaining())[1..]
      ensures r.None? ==> current == old(current)
    {
      var ok := MatchToken(LessEqual);
      if ok {
        return Some(LessOrEqual);
      }
      ok := MatchToken(LessThan);
      if ok {
        return Some(Less);
      }
      ok := MatchToken(GreaterEqual);
      if ok {
        return Some(GreaterOrEqual);
      }
      ok := MatchToken(GreaterThan);
      r := if ok then Some(Greater) else None;
    }

    method ParseWhereClause() returns (ok: bool, filter: WhereClause)
      requires Valid()
      modifies this`current
      ensures Valid() && Read(FilterOf(old(Remaining())), ok, filter, Remaining())
    {
      ok, filter := false, NO_FILTER;
      var column := ConsumeName();
      if column.None? {
        return;
      }
      var op := ParseCompareOperator();
      if op.None? {
        return;
      }
      var value := ParseLiteral();
      if value.None? {
        return;
      }
      ok, filter := true, WhereClause(column.value, op.value, value.value);
    }

    method ParseSelect() returns (ok: bool, s: SelectStatement)
      requires Valid()
      modifies this`current
      ensures Valid() && Read(SelectOf(old(Remaining())), ok, s, Remaining())
    {
      var columns;
      s := SelectStatement("", ColumnList([], false), false, NO_FILTER);
      ok, columns := ParseColumnList();
      if !ok {
        return;
      }
      ok := MatchToken(From);
      if !ok {
        return;
      }
      var table := ConsumeName();
      if table.None? {
        ok := false;
        return;
      }
      ok, s := ParseSelectTail(table.value, columns);
    }

    method ParseSelectTail(table: string, columns: ColumnList) returns (ok: bool, s: SelectStatement)
      requires Valid()
      modifies this`current
      ensures Valid() && Read(TailOf(table, columns, old(Remaining())), ok, s, Remaining())
    {
      s := SelectStatement(table, columns, false, NO_FILTER);
      var hasWhere := MatchToken(Where);
      if !hasWhere {
        return true, s;
      }
      var filter;
      ok, filter := ParseWhereClause();
      s := SelectStatement(table, columns, true, filter);
    }

    // -------------------------------------------------------------- INSERT

    /** Names separated by commas, none of them twice. */
    method ParseInsertColumnList() returns (ok: bool, names: seq<string>)
      requires Valid()
      modifies this`current
      ensures Valid()
      ensures ok ==> NameList(old(Remaining())) == Some(Parsed(names, Remaining())) && DistinctNames(names)
      ensures !ok ==> NameList(old(Remaining())).None? || !DistinctNames(NameList(old(Remaining())).value.value)
    {
      names := [];
      var more := true;
      NamesBegin(Remaining());
      while more
        invariant Valid() && DistinctNames(names)
        invariant NameList(old(Remaining())) ==
          if more then NamesAfterComma(names, Remaining()) else Some(Parsed(names, Remaining()))
        decreases |tokens| - current, more
      {
        var name := ConsumeName();
        if name.None? {
          return false, names;
        }
        var repeated := Contains(names, name.value);
        ghost var ks := Remaining();
        if repeated {
          RepeatedName(names, name.value, ks);
          return false, names;
        }
        names := names + [name.value];
        NamesGoOn(names, ks);
        more := MatchToken(Comma);
      }
      ok := true;
    }

    method ParseLiterals() returns (ok: bool, values: seq<Literal>)
      requires Valid()
      modifies this`current
      ensures Valid() && Read(LiteralList(old(Remaining())), ok, values, Remaining())
    {
      values := [];
      var more := true;
      LiteralsBegin(Remaining());
      while more
        invariant Valid()
        invariant LiteralList(old(Remaining())) ==
          if more then LiteralsAfterComma(values, Remaining()) else Some(Parsed(values, Remaining()))
        decreases |tokens| - current, more
      {
        var literal := ParseLiteral();
        if literal.None? {
          return false, values;
        }
        values := values + [literal.value];
        ghost var ks := Remaining();
        LiteralsGoOn(values, ks);
        more := MatchToken(Comma);
      }
      ok := true;
    }

    method ParseOptionalColumns() returns (ok: bool, names: seq<string>)
      requires Valid()
      modifies this`current
      ensures Valid() && Read(InsertColumnsOf(old(Remaining())), ok, names, Remaining())
    {
      ok, names := true, [];
      var listed := MatchToken(LeftParen);
      if !listed {
        return;
      }
      ok, names := ParseInsertColumnList();
      if ok {
        ok := MatchToken(RightParen);
      }
    }

    method ParseValues() returns (ok: bool, values: seq<Literal>)
      requires Valid()
      modifies this`current
      ensures Valid() && Read(ValuesOf(old(Remaining())), ok, values, Remaining())
    {
      values := [];
      ok := MatchToken(Values);
      if !ok {
        return;
      }
      ok := MatchToken(LeftParen);
      if !ok {
        return;
      }
      ok, values := ParseLiterals();
      if ok {
        ok := MatchToken(RightParen);
      }
    }

    method ParseInsert() returns (ok: bool, s: InsertStatement)
      requires Valid()
      modifies this`current
      ensures Valid() && Read(InsertOf(old(Remaining())), ok, s, Remaining())
    {
      s := InsertStatement("", ColumnList([], false), []);
      ok := MatchToken(Into);
      if !ok {
        return;
      }
      var table := ConsumeName();
      if table.None? {
        ok := false;
        return;
      }
      ok, s := ParseRow(table.value);
    }

    method ParseRow(table: string) returns (ok: bool, s: InsertStatement)
      requires Valid()
      modifies this`current
      ensures Valid() && Read(RowOf(table, old(Remaining())), ok, s, Remaining())
    {
      s := InsertStatement(table, ColumnList([], false), []);
      var names, values;
      ok, names := ParseOptionalColumns();
      if !ok {
        return;
      }
      ok, values := ParseValues();
      if !ok {
        return;
      }
      if |names| > 0 && |names| != |values| {
        ok := false;
        return;
      }
      s := InsertStatement(table, ColumnList(names, false), values);
    }

    // -------------------------------------------------------------- statements

    method ParseBody() returns (ok: bool, s: Statement)
      requires Valid()
      modifies this`current
      ensures Valid() && Read(BodyOf(old(Remaining())), ok, s, Remaining())
    {
      s := Inserting(InsertStatement("", ColumnList([], false), []));
      ok := MatchToken(TokenType.Select);
      if ok {
        var q;
        ok, q := ParseSelect();
        return ok, Selecting(q);
      }
      ok := MatchToken(TokenType.Insert);
      if ok {
        var q;
        ok, q := ParseInsert();
        s := Inserting(q);
      }
    }
  }

  /** No statement is written like this. */
  ghost predicate Ungrammatical(ks: seq<Key>) {
    forall s {:trigger Writes(ks, s)} :: !Writes(ks, s)
  }

  /** `parse_statement`: accepts exactly the token sequences that write a statement. */
  method ParseStatement(tokens: seq<Token>) returns (r: Option<Statement>)
    requires EofTerminated(tokens)
    ensures r.Some? ==> Writes(Keys(tokens[..|tokens| - 1]), r.value)
    ensures r.None? ==> Ungrammatical(Keys(tokens[..|tokens| - 1]))
  {
    ghost var ks := Keys(tokens[..|tokens| - 1]);
    var parser := new Parser(tokens);
    var ok, s := parser.ParseBody();
    r := None;
    if ok {
      var semicolon := parser.MatchToken(Semicolon);
      if parser.Peek().kind == Eof {
        r := Some(s);
      }
    }
    assert r == StatementOf(ks);
    forall s' ensures StatementOf(ks) == Some(s') <==> Writes(ks, s') {
      ParsesIffWritten(ks, s');
    }
  }

  method Contains(items: seq<string>, name: string) returns (found: bool)
    ensures found <==> exists i :: 0 <= i < |items| && SameName(items[i], name)
  {
    for index := 0 to |items|
      invariant forall i :: 0 <= i < index ==> !SameName(items[i], name)
    {
      var same := CaseEqual(items[index], name);
      if same {
        return true;
      }
    }
    found := false;
  }

  // ---------------------------------------------------------------- lists, one item at a time

  /** The list `items`, a comma, and then `ks`; an empty list needs no comma. */
  function NamesAfterComma(items: seq<string>, ks: seq<Key>): Option<Parsed<seq<string>>> {
    if !Starts(ks, TokenType.Identifier) then None else NamesFrom(items + [ks[0].text], ks[1..])
  }

  function LiteralsAfterComma(items: seq<Literal>, ks: seq<Key>): Option<Parsed<seq<Literal>>> {
    if ks == [] || LiteralOf(ks[0]).None? then None else LiteralsFrom(items + [LiteralOf(ks[0]).value], ks[1..])
  }

  lemma NamesBegin(ks: seq<Key>)
    ensures NameList(ks) == NamesAfterComma([], ks)
  {
    if ks != [] {
      assert [] + [ks[0].text] == [ks[0].text];
    }
  }

  lemma LiteralsBegin(ks: seq<Key>)
    ensures LiteralList(ks) == LiteralsAfterComma([], ks)
  {
    if ks != [] && LiteralOf(ks[0]).Some? {
      assert [] + [LiteralOf(ks[0]).value] == [LiteralOf(ks[0]).value];
    }
  }

  lemma NamesGoOn(items: seq<string>, ks: seq<Key>)
    ensures NamesFrom(items, ks) ==
      if Starts(ks, Comma) then NamesAfterComma(items, ks[1..]) else Some(Parsed(items, ks))
  {
    if Starts(ks, Comma) && |ks| > 1 {
      assert ks[1..][0] == ks[1] && ks[1..][1..] == ks[2..];
    }
  }

  lemma LiteralsGoOn(items: seq<Literal>, ks: seq<Key>)
    ensures LiteralsFrom(items, ks) ==
      if Starts(ks, Comma) then LiteralsAfterComma(items, ks[1..]) else Some(Parsed(items, ks))
  {
    if Starts(ks, Comma) && |ks| > 1 {
      assert ks[1..][0] == ks[1] && ks[1..][1..] == ks[2..];
    }
  }

  lemma {:induction false} NamesKeepPrefix(items: seq<string>, ks: seq<Key>)
    requires NamesFrom(items, ks).Some?
    ensures items <= NamesFrom(items, ks).value.value
    decreases |ks|
  {
    if Starts(ks, Comma) {
      NamesKeepPrefix(items + [ks[1].text], ks[2..]);
    }
  }

  lemma RepeatedName(items: seq<string>, name: string, ks: seq<Key>)
    requires exists i :: 0 <= i < |items| && SameName(items[i], name)
    ensures NamesFrom(items + [name], ks).None? || !DistinctNames(NamesFrom(items + [name], ks).value.value)
  {
    if NamesFrom(items + [name], ks).Some? {
      NamesKeepPrefix(items + [name], ks);
      var all := NamesFrom(items + [name], ks).value.value;
      var i :| 0 <= i < |items| && SameName(items[i], name);
      assert all[i] == (items + [name])[i] && all[|items|] == (items + [name])[|items|];
    }
  }
}
