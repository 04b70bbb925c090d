/** SQL statements as they are written, word by word, and what the words of a WHERE clause say. */
module SqlWords {
  import opened Machine
  import opened Comparison
  import opened Names
  import opened Ast
  import CsvText
  import opened Tokenizer
  import opened Grammar
  import opened SqlText

  // ---------------------------------------------------------------- the text of a statement

  function Sign(op: CompareOperator): string {
    match op
    case Equals => "="
    case NotEquals => "!="
    case Less => "<"
    case LessOrEqual => "<="
    case Greater => ">"
    case GreaterOrEqual => ">="
  }

  function LiteralText(l: Literal): string {
    if l.kind == StringLiteral then "'" + l.text + "'" else l.text
  }

  function LiteralTexts(ls: seq<Literal>): (r: seq<string>)
    ensures |r| == |ls| && forall i :: 0 <= i < |r| ==> r[i] == LiteralText(ls[i])
  {
    seq(|ls|, i requires 0 <= i < |ls| => LiteralText(ls[i]))
  }

  /** Items with commas in between, and a blank after every word. */
  function Listing(items: seq<string>): string {
    if items == [] then ""
    else if |items| == 1 then items[0] + " "
    else Listing(items[..|items| - 1]) + (", " + (items[|items| - 1] + " "))
  }

  function WhereText(filter: WhereClause): string {
    ("WHERE " + (filter.column + " ")) + ((Sign(filter.op) + " ") + (LiteralText(filter.value) + " "))
  }

  function SelectText(q: SelectStatement): string {
    "SELECT " + ((if q.columns.isStar then "* " else Listing(q.columns.items))
                 + (("FROM " + (q.table + " ")) + (if q.hasWhere then WhereText(q.filter) else "")))
  }

  function InsertText(q: InsertStatement): string {
    "INSERT " + (("INTO " + (q.table + " "))
                 + ((if q.columns.items == [] then "" else "( " + (Listing(q.columns.items) + ") "))
                    + (("VALUES " + "( ") + (Listing(LiteralTexts(q.values)) + ") "))))
  }

  function StatementText(s: Statement): string {
    match s
    case Selecting(q) => SelectText(q)
    case Inserting(q) => InsertText(q)
  }

  // ---------------------------------------------------------------- it is the canonical text

  function Spelling(k: Key): string {
    Source(TokenOf(k)) + " "
  }

  function Spelled(ks: seq<Key>): string {
    if ks == [] then "" else Spelling(ks[0]) + Spelled(ks[1..])
  }

  lemma {:induction false} SpelledConcat(a: seq<Key>, b: seq<Key>)
    ensures Spelled(a + b) == Spelled(a) + Spelled(b)
  {
    if a == [] {
      assert a + b == b;
    } else {
      assert (a + b)[1..] == a[1..] + b;
      SpelledConcat(a[1..], b);
      CsvText.Reassociate(Spelling(a[0]), Spelled(a[1..]), Spelled(b));
    }
  }

  lemma SpelledOne(k: Key)
    ensures Spelled([k]) == Spelling(k)
  {
    assert [k][1..] == [];
    assert Spelling(k) + "" == Spelling(k);
  }

  lemma TokensSplit(ks: seq<Key>)
    requires ks != []
    ensures TokensOf(ks) == [TokenOf(ks[0])] + TokensOf(ks[1..])
  {
  }

  /** The text of some tokens placed from `position` on. */
  ghost predicate WrittenAs(tokens: seq<Token>, position: nat, text: string) {
    forall b {:trigger Shut(b)} :: Shut(b) ==> Written(Place(tokens, position)) == text
  }

  lemma WrittenNothing(position: nat)
    ensures WrittenAs([], position, "")
  {
  }

  lemma WrittenMore(t: Token, rest: seq<Token>, position: nat, text: string)
    requires WrittenAs(rest, position + |Source(t)| + 1, text)
    ensures WrittenAs([t] + rest, position, (Source(t) + " ") + text)
  {
    var placed := t.(position := position);
    var tail := Place(rest, position + |Source(t)| + 1);
    assert ([t] + rest)[1..] == rest;
    assert ([placed] + tail)[1..] == tail;
    assert Source(placed) == Source(t);
  }

  lemma {:induction false} TextIsSpelled(ks: seq<Key>, position: nat)
    ensures WrittenAs(TokensOf(ks), position, Spelled(ks))
    decreases |ks|
  {
    if ks == [] {
      WrittenNothing(position);
    } else {
      var t := TokenOf(ks[0]);
      TokensSplit(ks);
      TextIsSpelled(ks[1..], position + |Source(t)| + 1);
      WrittenMore(t, TokensOf(ks[1..]), position, Spelled(ks[1..]));
    }
  }

  /** The keys are written like this. */
  ghost predicate Spells(ks: seq<Key>, text: string) {
    forall b {:trigger Seal(b)} :: Seal(b) ==> Spelled(ks) == text
  }

  lemma SpellsBoth(a: seq<Key>, s: string, b: seq<Key>, t: string)
    requires Spells(a, s) && Spells(b, t)
    ensures Spells(a + b, s + t)
  {
    SpelledConcat(a, b);
  }

  lemma SpellsOne(k: Key, text: string)
    requires Spelling(k) == text
    ensures Spells([k], text)
  {
    SpelledOne(k);
  }

  lemma SpellsNothing()
    ensures Spells([], "")
  {
  }

  lemma SpellsPair(a: Key, s: string, b: Key, t: string)
    requires Spelling(a) == s && Spelling(b) == t
    ensures Spells([a, b], s + t)
  {
    SpellsOne(a, s);
    SpellsOne(b, t);
    SpellsBoth([a], s, [b], t);
    assert [a, b] == [a] + [b];
  }

  lemma SelectSpellings()
    ensures Spelling(Plain(TokenType.Select)) == "SELECT " && Spelling(Plain(From)) == "FROM "
    ensures Spelling(Plain(Star)) == "* "
  {
  }

  lemma WhereSpelling()
    ensures Spelling(Plain(Where)) == "WHERE "
  {
  }

  lemma InsertSpellings()
    ensures Spelling(Plain(TokenType.Insert)) == "INSERT " && Spelling(Plain(Into)) == "INTO "
    ensures Spelling(Plain(Values)) == "VALUES "
  {
  }

  lemma CommaSpelling()
    ensures Spelling(Plain(Comma)) == ", "
  {
  }

  lemma ParenthesisSpellings()
    ensures Spelling(Plain(LeftParen)) == "( " && Spelling(Plain(RightParen)) == ") "
  {
  }

  lemma OperatorSpelling(op: CompareOperator)
    ensures Spelling(OperatorKey(op)) == Sign(op) + " "
  {
  }

  lemma LiteralSpelling(l: Literal)
    ensures Spelling(LiteralKey(l)) == LiteralText(l) + " "
  {
  }

  lemma {:induction false} NamesSpelled(names: seq<string>)
    ensures Spells(NameKeys(names), Listing(names))
  {
    CommaSpelling();
    if names == [] {
      SpellsNothing();
    } else if |names| == 1 {
      SpellsOne(Word(names[0]), names[0] + " ");
    } else {
      var init, last := names[..|names| - 1], names[|names| - 1];
      NamesSpelled(init);
      SpellsPair(Plain(Comma), ", ", Word(last), last + " ");
      SpellsBoth(NameKeys(init), Listing(init), [Plain(Comma), Word(last)], ", " + (last + " "));
    }
  }

  lemma {:induction false} LiteralsSpelled(ls: seq<Literal>)
    ensures Spells(LiteralKeys(ls), Listing(LiteralTexts(ls)))
  {
    CommaSpelling();
    if ls == [] {
      SpellsNothing();
    } else if |ls| == 1 {
      LiteralSpelling(ls[0]);
      SpellsOne(LiteralKey(ls[0]), LiteralText(ls[0]) + " ");
    } else {
      var init, last := ls[..|ls| - 1], ls[|ls| - 1];
      LiteralsSpelled(init);
      LiteralSpelling(last);
      SpellsPair(Plain(Comma), ", ", LiteralKey(last), LiteralText(last) + " ");
      SpellsBoth(LiteralKeys(init), Listing(LiteralTexts(init)), [Plain(Comma), LiteralKey(last)],
                 ", " + (LiteralText(last) + " "));
      InitTexts(ls);
    }
  }

  lemma InitTexts(ls: seq<Literal>)
    requires ls != []
    ensures LiteralTexts(ls)[..|ls| - 1] == LiteralTexts(ls[..|ls| - 1])
  {
  }

  lemma FilterSpelled(filter: WhereClause)
    ensures Spells(FilterKeys(true, filter), WhereText(filter))
  {
    var where, column, op, value :=
      Plain(Where), Word(filter.column), OperatorKey(filter.op), LiteralKey(filter.value);
    WhereSpelling();
    OperatorSpelling(filter.op);
    LiteralSpelling(filter.value);
    SpellsPair(where, "WHERE ", column, filter.column + " ");
    SpellsPair(op, Sign(filter.op) + " ", value, LiteralText(filter.value) + " ");
    SpellsBoth([where, column], "WHERE " + (filter.column + " "), [op, value],
               (Sign(filter.op) + " ") + (LiteralText(filter.value) + " "));
    FourKeys(where, column, op, value);
  }

  lemma FourKeys(a: Key, b: Key, c: Key, d: Key)
    ensures [a, b, c, d] == [a, b] + [c, d]
  {
  }

  lemma FromSpelled(q: SelectStatement)
    ensures Spells([Plain(From), Word(q.table)] + FilterKeys(q.hasWhere, q.filter),
                   ("FROM " + (q.table + " ")) + (if q.hasWhere then WhereText(q.filter) else ""))
  {
    SelectSpellings();
    SpellsPair(Plain(From), "FROM ", Word(q.table), q.table + " ");
    if q.hasWhere {
      FilterSpelled(q.filter);
    } else {
      SpellsNothing();
    }
    SpellsBoth([Plain(From), Word(q.table)], "FROM " + (q.table + " "), FilterKeys(q.hasWhere, q.filter),
               if q.hasWhere then WhereText(q.filter) else "");
  }

  lemma ColumnsSpelled(list: ColumnList)
    ensures Spells(ColumnKeys(list), if list.isStar then "* " else Listing(list.items))
  {
    SelectSpellings();
    if list.isStar {
      SpellsOne(Plain(Star), "* ");
    } else {
      NamesSpelled(list.items);
    }
  }

  lemma SelectSpelled(q: SelectStatement)
    ensures Spells(StatementKeys(Selecting(q)), SelectText(q))
  {
    var columns, tail := ColumnKeys(q.columns), [Plain(From), Word(q.table)] + FilterKeys(q.hasWhere, q.filter);
    var listed := if q.columns.isStar then "* " else Listing(q.columns.items);
    var behind := ("FROM " + (q.table + " ")) + (if q.hasWhere then WhereText(q.filter) else "");
    SelectSpellings();
    ColumnsSpelled(q.columns);
    FromSpelled(q);
    SpellsBoth(columns, listed, tail, behind);
    SpellsOne(Plain(TokenType.Select), "SELECT ");
    SpellsBoth([Plain(TokenType.Select)], "SELECT ", columns + tail, listed + behind);
  }

  lemma ParenthesesSpelled(ks: seq<Key>, text: string)
    requires Spells(ks, text)
    ensures Spells([Plain(LeftParen)] + (ks + [Plain(RightParen)]), "( " + (text + ") "))
  {
    ParenthesisSpellings();
    SpellsOne(Plain(LeftParen), "( ");
    SpellsOne(Plain(RightParen), ") ");
    SpellsBoth(ks, text, [Plain(RightParen)], ") ");
    SpellsBoth([Plain(LeftParen)], "( ", ks + [Plain(RightParen)], text + ") ");
  }

  lemma ValuesSpelled(ls: seq<Literal>)
    ensures Spells(ValueKeys(ls), ("VALUES " + "( ") + (Listing(LiteralTexts(ls)) + ") "))
  {
    var inside, text := LiteralKeys(ls), Listing(LiteralTexts(ls));
    InsertSpellings();
    ParenthesisSpellings();
    SpellsPair(Plain(Values), "VALUES ", Plain(LeftParen), "( ");
    LiteralsSpelled(ls);
    SpellsOne(Plain(RightParen), ") ");
    SpellsBoth(inside, text, [Plain(RightParen)], ") ");
    SpellsBoth([Plain(Values), Plain(LeftParen)], "VALUES " + "( ", inside + [Plain(RightParen)], text + ") ");
  }

  lemma InsertColumnsSpelled(names: seq<string>)
    ensures Spells(InsertColumnKeys(names), if names == [] then "" else "( " + (Listing(names) + ") "))
  {
    if names == [] {
      SpellsNothing();
    } else {
      NamesSpelled(names);
      ParenthesesSpelled(NameKeys(names), Listing(names));
    }
  }

  lemma InsertSpelled(q: InsertStatement)
    ensures Spells(StatementKeys(Inserting(q)), InsertText(q))
  {
    var into, names, values := [Plain(Into), Word(q.table)], InsertColumnKeys(q.columns.items), ValueKeys(q.values);
    var listed := if q.columns.items == [] then "" else "( " + (Listing(q.columns.items) + ") ");
    var given := ("VALUES " + "( ") + (Listing(LiteralTexts(q.values)) + ") ");
    InsertSpellings();
    SpellsOne(Plain(TokenType.Insert), "INSERT ");
    SpellsPair(Plain(Into), "INTO ", Word(q.table), q.table + " ");
    InsertColumnsSpelled(q.columns.items);
    ValuesSpelled(q.values);
    SpellsBoth(names, listed, values, given);
    SpellsBoth(into, "INTO " + (q.table + " "), names + values, listed + given);
    SpellsBoth([Plain(TokenType.Insert)], "INSERT ", into + (names + values),
               ("INTO " + (q.table + " ")) + (listed + given));
  }

  lemma TextIs(s: Statement)
    ensures TextOf(StatementKeys(s)) == StatementText(s)
  {
    match s {
      case Selecting(q) => SelectSpelled(q);
      case Inserting(q) => InsertSpelled(q);
    }
    SpellsText(StatementKeys(s), StatementText(s));
  }

  lemma SpellsText(ks: seq<Key>, text: string)
    requires Spells(ks, text)
    ensures TextOf(ks) == text
  {
    TextIsSpelled(ks, 0);
    assert Seal(true) && Shut(true);
  }

  // ---------------------------------------------------------------- statements that can be written

  /** Letters, digits and underscores, no digit in front, and no keyword in whatever case. */
  ghost predicate NameText(name: string) {
    && name != "" && NameCodes(name) && !(48 <= name[0] as int <= 57)
    && !SameName(name, "select") && !SameName(name, "from") && !SameName(name, "where")
    && !SameName(name, "insert") && !SameName(name, "into") && !SameName(name, "values")
  }

  ghost predicate DigitCodes(text: string) {
    text != "" && forall i :: 0 <= i < |text| ==> 48 <= text[i] as int <= 57
  }

  /** A string without quotes in it, or digits behind an optional minus sign. */
  ghost predicate WritableLiteral(l: Literal) {
    if l.kind == StringLiteral then '\'' !in l.text
    else DigitCodes(l.text) || (l.text != "" && l.text[0] == '-' && DigitCodes(l.text[1..]))
  }

  ghost predicate AllNames(names: seq<string>) {
    forall i :: 0 <= i < |names| ==> NameText(names[i])
  }

  ghost predicate AllWritable(ls: seq<Literal>) {
    forall i :: 0 <= i < |ls| ==> WritableLiteral(ls[i])
  }

  ghost predicate Writable(s: Statement) {
    && Proper(s)
    && match s
       case Selecting(q) =>
         && NameText(q.table) && AllNames(q.columns.items)
         && (q.hasWhere ==> NameText(q.filter.column) && WritableLiteral(q.filter.value))
       case Inserting(q) => NameText(q.table) && AllNames(q.columns.items) && AllWritable(q.values)
  }

  lemma NameSpellable(name: string)
    requires NameText(name)
    ensures Spellable(Word(name))
  {
    KeywordWords(name);
  }

  lemma LiteralSpellable(l: Literal)
    requires WritableLiteral(l)
    ensures Spellable(LiteralKey(l))
  {
  }

  lemma PlainSpellable(kind: TokenType)
    requires !HasText(kind) && kind != Eof
    ensures Spellable(Plain(kind))
  {
  }

  lemma SpellableConcat(a: seq<Key>, b: seq<Key>)
    requires AllSpellable(a) && AllSpellable(b)
    ensures AllSpellable(a + b)
  {
  }

  lemma {:induction false} NamesSpellable(names: seq<string>)
    requires AllNames(names)
    ensures AllSpellable(NameKeys(names))
  {
    if names != [] {
      var init, last := names[..|names| - 1], names[|names| - 1];
      NameSpellable(last);
      if init != [] {
        NamesSpellable(init);
        PlainSpellable(Comma);
        SpellableConcat(NameKeys(init), [Plain(Comma), Word(last)]);
      }
    }
  }

  lemma {:induction false} LiteralsSpellable(ls: seq<Literal>)
    requires AllWritable(ls)
    ensures AllSpellable(LiteralKeys(ls))
  {
    if ls != [] {
      var init, last := ls[..|ls| - 1], ls[|ls| - 1];
      LiteralSpellable(last);
      if init != [] {
        LiteralsSpellable(init);
        PlainSpellable(Comma);
        SpellableConcat(LiteralKeys(init), [Plain(Comma), LiteralKey(last)]);
      }
    }
  }

  lemma SelectSpellable(q: SelectStatement)
    requires Writable(Selecting(q))
    ensures AllSpellable(StatementKeys(Selecting(q)))
  {
    var columns, from, filter := ColumnKeys(q.columns), [Plain(From), Word(q.table)], FilterKeys(q.hasWhere, q.filter);
    NameSpellable(q.table);
    PlainSpellable(From);
    PlainSpellable(TokenType.Select);
    if q.columns.isStar {
      PlainSpellable(Star);
    } else {
      NamesSpellable(q.columns.items);
    }
    if q.hasWhere {
      FilterSpellable(q.filter);
    }
    SpellableConcat(from, filter);
    SpellableConcat(columns, from + filter);
    SpellableConcat([Plain(TokenType.Select)], columns + (from + filter));
  }

  lemma FilterSpellable(filter: WhereClause)
    requires NameText(filter.column) && WritableLiteral(filter.value)
    ensures AllSpellable(FilterKeys(true, filter))
  {
    PlainSpellable(Where);
    NameSpellable(filter.column);
    PlainSpellable(OperatorKey(filter.op).kind);
    LiteralSpellable(filter.value);
  }

  lemma ParenthesesSpellable(ks: seq<Key>)
    requires AllSpellable(ks)
    ensures AllSpellable([Plain(LeftParen)] + (ks + [Plain(RightParen)]))
  {
    PlainSpellable(LeftParen);
    PlainSpellable(RightParen);
    SpellableConcat(ks, [Plain(RightParen)]);
    SpellableConcat([Plain(LeftParen)], ks + [Plain(RightParen)]);
  }

  lemma ValuesSpellable(ls: seq<Literal>)
    requires AllWritable(ls)
    ensures AllSpellable(ValueKeys(ls))
  {
    PlainSpellable(Values);
    LiteralsSpellable(ls);
    ParenthesesSpellable(LiteralKeys(ls));
    SpellableConcat([Plain(Values)], [Plain(LeftParen)] + (LiteralKeys(ls) + [Plain(RightParen)]));
    assert ValueKeys(ls) == [Plain(Values)] + ([Plain(LeftParen)] + (LiteralKeys(ls) + [Plain(RightParen)]));
  }

  lemma InsertSpellable(q: InsertStatement)
    requires Writable(Inserting(q))
    ensures AllSpellable(StatementKeys(Inserting(q)))
  {
    var into, names, values := [Plain(Into), Word(q.table)], InsertColumnKeys(q.columns.items), ValueKeys(q.values);
    PlainSpellable(TokenType.Insert);
    PlainSpellable(Into);
    NameSpellable(q.table);
    ValuesSpellable(q.values);
    if q.columns.items != [] {
      NamesSpellable(q.columns.items);
      ParenthesesSpellable(NameKeys(q.columns.items));
    }
    SpellableConcat(names, values);
    SpellableConcat(into, names + values);
    SpellableConcat([Plain(TokenType.Insert)], into + (names + values));
  }

  /** A statement whose names are words other than keywords, written as SQL, means that statement and no other. */
  lemma StatementMeans(s: Statement, s': Statement)
    requires Writable(s)
    ensures Means(StatementText(s), s') <==> s' == s
  {
    match s {
      case Selecting(q) => SelectSpellable(q);
      case Inserting(q) => InsertSpellable(q);
    }
    TextIs(s);
    PrintedMeans(s);
    if Means(StatementText(s), s') {
      MeansOne(StatementText(s), s, s');
    }
  }
}
