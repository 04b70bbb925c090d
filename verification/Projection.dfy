/** From the CSV text of a SELECT result to the columns and rows of the API's answer. */
module Projection {
  import opened Machine
  import opened Decimal
  import opened Names
  import opened CsvText
  import opened TableText
  import opened Tokenizer
  import opened Ast
  import opened SelectRows
  import opened Optimizer
  import opened Json
  import opened JsonText

  /** A buffer that grows by doubling. */
  class StringBuilder {
    var data: array<char>
    var length: nat

    ghost predicate Valid()
      reads this
    {
      length < data.Length
    }

    ghost function Text(): string
      requires Valid()
      reads this, data
    {
      data[..length]
    }

    constructor (capacity: nat)
      requires capacity > 0
      ensures Valid() && Text() == "" && fresh(data)
    {
      data := new char[capacity];
      length := 0;
    }

    /** Makes room for `additional` characters and a terminator. */
    method Reserve(additional: nat)
      requires Valid()
      modifies this`data
      ensures Valid() && Text() == old(Text()) && length + additional < data.Length
      ensures data == old(data) || fresh(data)
    {
      var required := length + additional + 1;
      if required <= data.Length {
        return;
      }
      var capacity := data.Length;
      while capacity < required
        invariant capacity >= data.Length
        decreases required - capacity
      {
        capacity := capacity * 2;
      }
      var larger := new char[capacity];
      forall i | 0 <= i < length {
        larger[i] := data[i];
      }
      data := larger;
    }

    method Append(text: string)
      requires Valid()
      modifies this, data
      ensures Valid() && Text() == old(Text()) + text && (data == old(data) || fresh(data))
    {
      Reserve(|text|);
      ghost var before := Text();
      for i := 0 to |text|
        invariant Valid() && length + (|text| - i) < data.Length && Text() == before + text[..i]
        invariant data == old(data) || fresh(data)
      {
        data[length] := text[i];
        length := length + 1;
        assert data[..length] == before + text[..i] + [text[i]];
      }
      assert text[..|text|] == text;
    }
  }

  // ---------------------------------------------------------------- reading the CSV text

  predicate OnlyNames(line: string) {
    forall i :: 0 <= i < |line| ==> WordChar(line[i]) || line[i] == ','
  }

  predicate SomeName(line: string) {
    exists i :: 0 <= i < |line| && WordChar(line[i])
  }

  /** A header line of identifiers. */
  predicate IdentifierHeader(line: string) {
    OnlyNames(line) && SomeName(line)
  }

  ghost predicate AllNameCodes(names: seq<string>) {
    forall i :: 0 <= i < |names| ==> NameCodes(names[i])
  }

  ghost predicate SomeNotEmpty(names: seq<string>) {
    exists i :: 0 <= i < |names| && names[i] != ""
  }

  /** Names of such characters only, not all of them empty. */
  ghost predicate Identifiers(names: seq<string>) {
    AllNameCodes(names) && SomeNotEmpty(names)
  }

  lemma HeaderOfOne(name: string)
    requires ',' !in name
    ensures OnlyNames(name) <==> NameCodes(name)
    ensures OnlyNames(name) ==> (SomeName(name) <==> name != "")
  {
    if name != "" && OnlyNames(name) {
      assert WordChar(name[0]);
    }
  }

  lemma HeaderConcat(a: string, b: string)
    ensures OnlyNames(a + "," + b) <==> OnlyNames(a) && OnlyNames(b)
    ensures SomeName(a + "," + b) <==> SomeName(a) || SomeName(b)
  {
    var s := a + "," + b;
    assert forall i :: 0 <= i < |a| ==> s[i] == a[i];
    assert forall i :: 0 <= i < |b| ==> s[|a| + 1 + i] == b[i];
  }

  lemma NamesSplit(names: seq<string>)
    requires names != []
    ensures AllNameCodes(names) <==> NameCodes(names[0]) && AllNameCodes(names[1..])
    ensures SomeNotEmpty(names) <==> names[0] != "" || SomeNotEmpty(names[1..])
  {
    assert names == [names[0]] + names[1..];
  }

  lemma {:induction false} HeaderOfJoin(names: seq<string>)
    requires names != [] && forall i :: 0 <= i < |names| ==> ',' !in names[i]
    ensures OnlyNames(Join(names)) <==> AllNameCodes(names)
    ensures OnlyNames(Join(names)) ==> (SomeName(Join(names)) <==> SomeNotEmpty(names))
  {
    HeaderOfOne(names[0]);
    if |names| > 1 {
      HeaderOfJoin(names[1..]);
      HeaderConcat(names[0], Join(names[1..]));
      NamesSplit(names);
    }
  }

  /** A header passes the check if and only if its names consist of letters, digits and underscores and are not all
      empty. */
  lemma HeaderIff(names: seq<string>)
    requires names != [] && forall i :: 0 <= i < |names| ==> ',' !in names[i]
    ensures IdentifierHeader(Join(names)) <==> Identifiers(names)
  {
    HeaderOfJoin(names);
  }

  /** In particular every list of SQL names passes it. */
  lemma WordsPass(names: seq<string>)
    requires names != [] && forall i :: 0 <= i < |names| ==> WordShape(names[i])
    ensures Identifiers(names) && IdentifierHeader(Join(names))
  {
    forall i | 0 <= i < |names| ensures ',' !in names[i] && NameCodes(names[i]) {
      assert WordShape(names[i]);
    }
    assert names[0] != "";
    HeaderIff(names);
  }

  method IsIdentifierHeader(line: string) returns (ok: bool)
    ensures ok <==> IdentifierHeader(line)
    ensures ok <==> Identifiers(Fields(line))
  {
    HeaderIff(Fields(line));
    var sawName := false;
    for index := 0 to |line|
      invariant forall i :: 0 <= i < index ==> WordChar(line[i]) || line[i] == ','
      invariant sawName <==> exists i :: 0 <= i < index && WordChar(line[i])
    {
      if WordChar(line[index]) {
        sawName := true;
        continue;
      }
      if line[index] == ',' {
        continue;
      }
      return false;
    }
    ok := sawName;
  }

  method CountCsvFields(line: string) returns (count: nat)
    ensures count == if line == "" then 0 else |Fields(line)|
  {
    count := 1;
    if line == "" {
      return 0;
    }
    for index := 0 to |line|
      invariant count == FieldCount(line[..index])
    {
      assert line[..index + 1][..|line[..index + 1]| - 1] == line[..index];
      if line[index] == ',' {
        count := count + 1;
      }
    }
    assert line[..|line|] == line;
    FieldCountIs(line, Fields(line));
  }

  /** The first `n` fields; missing ones are empty. */
  function Padded(fields: seq<string>, n: nat): (r: seq<string>)
    ensures |r| == n && forall i :: 0 <= i < n ==> r[i] == if i < |fields| then fields[i] else ""
  {
    seq(n, i requires 0 <= i < n => if i < |fields| then fields[i] else "")
  }

  /** `fill_csv_field_refs`: one scan that stops after `n` fields. */
  method FillFields(line: string, n: nat) returns (fields: seq<string>)
    ensures fields == Padded(Fields(line), n)
  {
    fields := [];
    var start, index := 0, 0;
    while index <= |line| && |fields| < n
      invariant 0 <= start <= |line| + 1 && start <= index <= |line| + 1 && |fields| <= n
      invariant start <= |line| ==>
        index <= |line| && ',' !in line[start..index] && Fields(line) == fields + Fields(line[start..])
      invariant start == |line| + 1 ==> Fields(line) == fields
      decreases |line| + 1 - index
    {
      if index == |line| || line[index] == ',' {
        NextField(line, fields, start, index);
        fields := fields + [line[start..index]];
        start := index + 1;
      }
      index := index + 1;
    }
    FieldsRead(line, fields, start, index, n);
    while |fields| < n
      invariant |fields| <= n && fields == Padded(Fields(line), |fields|)
    {
      fields := fields + [""];
    }
  }

  /** The field that ends at `index`. */
  lemma NextField(line: string, fields: seq<string>, start: nat, index: nat)
    requires start <= index <= |line| && Fields(line) == fields + Fields(line[start..]) && ',' !in line[start..index]
    requires index == |line| || line[index] == ','
    ensures index < |line| ==> Fields(line) == fields + [line[start..index]] + Fields(line[index + 1..])
    ensures index == |line| ==> Fields(line) == fields + [line[start..index]]
  {
    var rest, first := line[start..], line[start..index];
    if index == |line| {
      assert rest == first && SplitsInto(rest, [first]);
      SplitUnique(rest, Fields(rest), [first]);
    } else {
      assert rest[..index - start + 1] == first + "," && rest[index - start + 1..] == line[index + 1..];
      assert Join([first]) == first;
      FieldsSoFar(rest, [first], index - start + 1);
      assert fields + ([first] + Fields(line[index + 1..])) == fields + [first] + Fields(line[index + 1..]);
    }
  }

  lemma FieldsRead(line: string, fields: seq<string>, start: nat, index: nat, n: nat)
    requires start <= |line| + 1 && start <= index <= |line| + 1 && |fields| <= n
    requires index == |line| + 1 || |fields| == n
    requires start <= |line| ==> Fields(line) == fields + Fields(line[start..]) && index <= |line|
    requires start == |line| + 1 ==> Fields(line) == fields
    ensures fields == Padded(Fields(line), |fields|)
  {
  }

  // ---------------------------------------------------------------- the JSON text

  /** Strings as JSON values. */
  ghost function Texts(items: seq<string>): (vs: seq<JsonValue>)
    ensures |vs| == |items| && forall i :: 0 <= i < |vs| ==> vs[i] == Text(items[i])
  {
    seq(|items|, i requires 0 <= i < |items| => Text(items[i]))
  }

  /** One row as the members of an object: each value under the name of its column. */
  ghost function RowMembers(columns: seq<string>, values: seq<string>): (ms: seq<Member>)
    requires |columns| == |values|
    ensures |ms| == |columns| && forall i :: 0 <= i < |ms| ==> ms[i] == Member(columns[i], Text(values[i]))
  {
    seq(|columns|, i requires 0 <= i < |columns| => Member(columns[i], Text(values[i])))
  }

  ghost predicate AllFit(rows: seq<seq<string>>, width: nat) {
    forall i :: 0 <= i < |rows| ==> |rows[i]| == width
  }

  ghost function RowObjects(columns: seq<string>, rows: seq<seq<string>>): (vs: seq<JsonValue>)
    requires AllFit(rows, |columns|)
    ensures |vs| == |rows| && forall i :: 0 <= i < |vs| ==> vs[i] == Object(RowMembers(columns, rows[i]))
  {
    seq(|rows|, i requires 0 <= i < |rows| => Object(RowMembers(columns, rows[i])))
  }

  /** A table as the members it contributes to the answer. */
  ghost function TableMembers(columns: seq<string>, rows: seq<seq<string>>): seq<Member>
    requires AllFit(rows, |columns|)
  {
    [Member("columns", Array(Texts(columns))), Member("rows", Array(RowObjects(columns, rows))),
     Member("rowCount", JsonValue.Number(|rows|))]
  }

  ghost function TableValue(columns: seq<string>, rows: seq<seq<string>>): JsonValue
    requires AllFit(rows, |columns|)
  {
    Object(TableMembers(columns, rows))
  }

  // ---------------------------------------------------------------- writing it

  const NO_TABLE: string := "\"columns\":[],\"rows\":[],\"rowCount\":0"

  method AppendQuoted(builder: StringBuilder, s: string)
    requires builder.Valid()
    modifies builder, builder.data
    ensures builder.Valid() && builder.Text() == old(builder.Text()) + Show(Text(s))
    ensures builder.data == old(builder.data) || fresh(builder.data)
  {
    var escaped := JsonEscape(s);
    builder.Append("\"");
    builder.Append(escaped);
    builder.Append("\"");
    Three(old(builder.Text()), "\"", escaped, "\"");
  }

  lemma Three(base: string, a: string, b: string, c: string)
    ensures base + a + b + c == base + (a + b + c)
  {
  }

  method AppendComma(builder: StringBuilder, needed: bool)
    requires builder.Valid()
    modifies builder, builder.data
    ensures builder.Valid() && builder.Text() == old(builder.Text()) + (if needed then "," else "")
    ensures builder.data == old(builder.data) || fresh(builder.data)
  {
    if needed {
      builder.Append(",");
    } else {
      assert builder.Text() + "" == builder.Text();
    }
  }

  /** The next item of an array, after the items already written behind `before`. */
  lemma NextItem(before: string, text: string, items: seq<JsonValue>, v: JsonValue)
    requires text == before + ShowItems(items)
    ensures text + (if items != [] then "," else "") + Show(v) == before + ShowItems(items + [v])
  {
    ShowItemsPush(items, v);
    Three(before, ShowItems(items), if items != [] then "," else "", Show(v));
  }

  lemma NextMember(before: string, text: string, members: seq<Member>, m: Member)
    requires text == before + ShowMembers(members)
    ensures text + (if members != [] then "," else "") + ShowMember(m) == before + ShowMembers(members + [m])
  {
    ShowMembersPush(members, m);
    Three(before, ShowMembers(members), if members != [] then "," else "", ShowMember(m));
  }

  method AppendColumns(builder: StringBuilder, columns: seq<string>)
    requires builder.Valid()
    modifies builder, builder.data
    ensures builder.Valid() && builder.Text() == old(builder.Text()) + ShowItems(Texts(columns))
    ensures builder.data == old(builder.data) || fresh(builder.data)
  {
    ghost var before := builder.Text();
    for index := 0 to |columns|
      invariant builder.Valid() && builder.Text() == before + ShowItems(Texts(columns)[..index])
      invariant builder.data == old(builder.data) || fresh(builder.data)
    {
      ghost var items := Texts(columns)[..index];
      assert Texts(columns)[..index + 1] == items + [Text(columns[index])];
      NextItem(before, builder.Text(), items, Text(columns[index]));
      AppendComma(builder, index > 0);
      AppendQuoted(builder, columns[index]);
    }
    assert Texts(columns)[..|columns|] == Texts(columns);
  }

  method AppendMember(builder: StringBuilder, column: string, value: string)
    requires builder.Valid()
    modifies builder, builder.data
    ensures builder.Valid() && builder.Text() == old(builder.Text()) + ShowMember(Member(column, Text(value)))
    ensures builder.data == old(builder.data) || fresh(builder.data)
  {
    AppendQuoted(builder, column);
    builder.Append(":");
    AppendQuoted(builder, value);
    Three(old(builder.Text()), Quoted(column), ":", Quoted(value));
  }

  method AppendMembers(builder: StringBuilder, columns: seq<string>, values: seq<string>)
    requires builder.Valid() && |columns| == |values|
    modifies builder, builder.data
    ensures builder.Valid() && builder.Text() == old(builder.Text()) + ShowMembers(RowMembers(columns, values))
    ensures builder.data == old(builder.data) || fresh(builder.data)
  {
    ghost var before, members := builder.Text(), RowMembers(columns, values);
    for index := 0 to |columns|
      invariant builder.Valid() && builder.Text() == before + ShowMembers(members[..index])
      invariant builder.data == old(builder.data) || fresh(builder.data)
    {
      assert members[..index + 1] == members[..index] + [members[index]];
      NextMember(before, builder.Text(), members[..index], members[index]);
      AppendComma(builder, index > 0);
      AppendMember(builder, columns[index], values[index]);
    }
    assert members[..|columns|] == members;
  }

  method AppendObject(builder: StringBuilder, first: bool, columns: seq<string>, values: seq<string>)
    requires builder.Valid() && |columns| == |values|
    modifies builder, builder.data
    ensures builder.Valid()
    ensures builder.Text() ==
      old(builder.Text()) + (if first then "" else ",") + Show(Object(RowMembers(columns, values)))
    ensures builder.data == old(builder.data) || fresh(builder.data)
  {
    AppendComma(builder, !first);
    ghost var before := builder.Text();
    builder.Append("{");
    AppendMembers(builder, columns, values);
    builder.Append("}");
    Three(before, "{", ShowMembers(RowMembers(columns, values)), "}");
  }

  // ---------------------------------------------------------------- the projection

  /** The rows behind the header line, each cut or padded to the number of columns. */
  ghost function RowsOf(lines: seq<Row>, width: nat): (rows: seq<seq<string>>)
    ensures |rows| == |lines| && forall i :: 0 <= i < |rows| ==> rows[i] == Padded(lines[i].fields, width)
  {
    seq(|lines|, i requires 0 <= i < |lines| => Padded(lines[i].fields, width))
  }

  ghost function Header(csv: string): string {
    Trim(csv[..DataStart(csv)])
  }

  /** The members the projection adds to the answer: the table in the CSV text, or an empty one. */
  ghost function Projected(csv: string): seq<Member> {
    if IdentifierHeader(Header(csv)) then TableMembers(Columns(csv), RowsOf(Rows(csv), |Columns(csv)|))
    else TableMembers([], [])
  }

  /** The text with braces around it reads as one object with these members, and as nothing else. */
  ghost predicate ReadsAsMembers(text: string, members: seq<Member>) {
    ReadsOnlyAs("{" + text + "}", Object(members))
  }

  lemma ShownMembersRead(members: seq<Member>)
    ensures ReadsAsMembers(ShowMembers(members), members)
  {
    ShownReadsOnly(Object(members));
  }

  /** Writes the objects of all lines from `start` on; returns how many. */
  method AppendRows(builder: StringBuilder, csv: string, columns: seq<string>, start: nat) returns (count: nat)
    requires builder.Valid() && start <= |csv|
    modifies builder, builder.data
    ensures builder.Valid() && count == |RowsFrom(csv, start)|
    ensures builder.Text() ==
      old(builder.Text()) + ShowItems(RowObjects(columns, RowsOf(RowsFrom(csv, start), |columns|)))
    ensures builder.data == old(builder.data) || fresh(builder.data)
  {
    var cursor := start;
    count := 0;
    ghost var before, all, done := builder.Text(), RowsFrom(csv, start), [];
    WritingStarts(before, columns, all);
    while cursor < |csv|
      invariant cursor <= |csv| && builder.Valid() && count == |done|
      invariant Writing(builder.Text(), before, columns, all, done, RowsFrom(csv, cursor))
      invariant builder.data == old(builder.data) || fresh(builder.data)
      decreases |csv| - cursor
    {
      LineByLine(csv, cursor);
      var end := LineEnd(csv, cursor);
      var line := TrimNewline(csv[cursor..end]);
      count, done := AppendLine(builder, line, columns, count, cursor, before, all, done, RowsFrom(csv, end));
      cursor := end;
    }
    WritingEnds(builder.Text(), before, columns, all, done);
  }

  /** The row in a line, if it is not blank. */
  ghost function RowIn(line: string, pos: nat): seq<Row> {
    if line == "" then [] else [Row(pos, Fields(line))]
  }

  /** Writes the object of one line, if it is not blank. */
  method AppendLine(builder: StringBuilder, line: string, columns: seq<string>, count: nat, ghost pos: nat,
                    ghost before: string, ghost all: seq<Row>, ghost done: seq<Row>, ghost rest: seq<Row>)
    returns (count': nat, ghost done': seq<Row>)
    requires builder.Valid() && count == |done|
    requires Writing(builder.Text(), before, columns, all, done, RowIn(line, pos) + rest)
    modifies builder, builder.data
    ensures builder.Valid() && (builder.data == old(builder.data) || fresh(builder.data))
    ensures count' == |done'| && Writing(builder.Text(), before, columns, all, done', rest)
  {
    count', done' := count, done;
    if line == "" {
      assert RowIn(line, pos) + rest == rest;
      return;
    }
    var values := FillFields(line, |columns|);
    ghost var text, row := builder.Text(), Row(pos, Fields(line));
    AppendObject(builder, count == 0, columns, values);
    WritingPush(text, before, columns, all, done, row, rest);
    done', count' := done + [row], count + 1;
  }

  lemma LineByLine(csv: string, pos: nat)
    requires pos < |csv|
    ensures RowsFrom(csv, pos) == RowIn(Trim(csv[pos..LineEnd(csv, pos)]), pos) + RowsFrom(csv, LineEnd(csv, pos))
  {
  }

  /** After `before`, `text` holds the objects of the lines `done`; the lines `rest` are to come. */
  ghost predicate Writing(text: string, before: string, columns: seq<string>, all: seq<Row>, done: seq<Row>,
                          rest: seq<Row>) {
    forall b {:trigger Seal(b)} :: Seal(b) ==>
      all == done + rest && text == before + ShowItems(RowObjects(columns, RowsOf(done, |columns|)))
  }

  lemma WritingStarts(before: string, columns: seq<string>, all: seq<Row>)
    ensures Writing(before, before, columns, all, [], all)
  {
    assert before + "" == before;
  }

  lemma WritingPush(text: string, before: string, columns: seq<string>, all: seq<Row>, done: seq<Row>, row: Row,
                    rest: seq<Row>)
    requires Writing(text, before, columns, all, done, [row] + rest)
    ensures Writing(text + (if done == [] then "" else ",")
      + Show(Object(RowMembers(columns, Padded(row.fields, |columns|)))),
                    before, columns, all, done + [row], rest)
  {
    assert Seal(true);
    ObjectsPush(columns, done, row);
    NextItem(before, text, RowObjects(columns, RowsOf(done, |columns|)),
             Object(RowMembers(columns, Padded(row.fields, |columns|))));
    Json.Reassociate(done, [row], rest);
  }

  lemma WritingEnds(text: string, before: string, columns: seq<string>, all: seq<Row>, done: seq<Row>)
    requires Writing(text, before, columns, all, done, [])
    ensures done == all && text == before + ShowItems(RowObjects(columns, RowsOf(all, |columns|)))
  {
    assert Seal(true);
    assert done + [] == done;
  }

  lemma ObjectsPush(columns: seq<string>, done: seq<Row>, row: Row)
    ensures RowObjects(columns, RowsOf(done + [row], |columns|))
      == RowObjects(columns, RowsOf(done, |columns|)) + [Object(RowMembers(columns, Padded(row.fields, |columns|)))]
  {
  }

  /** `append_table_projection_json`: what is added reads as the table in the CSV text. */
  method AppendTableProjection(builder: StringBuilder, csv: string)
    requires builder.Valid()
    modifies builder, builder.data
    ensures builder.Valid() && builder.Text() == old(builder.Text()) + ShowMembers(Projected(csv))
    ensures ReadsAsMembers(builder.Text()[|old(builder.Text())|..], Projected(csv))
    ensures builder.data == old(builder.data) || fresh(builder.data)
  {
    ghost var before := builder.Text();
    var end := LineEnd(csv, 0);
    var header := TrimNewline(csv[..end]);
    var identifiers := IsIdentifierHeader(header);
    if identifiers {
      AppendTable(builder, csv, header, end);
    } else {
      builder.Append(NO_TABLE);
      EmptyTable();
    }
    ShownMembersRead(Projected(csv));
    assert builder.Text()[|before|..] == ShowMembers(Projected(csv));
  }

  /** Writes the columns, rows and row count of a CSV text with the given header line. */
  method AppendTable(builder: StringBuilder, csv: string, header: string, start: nat)
    requires builder.Valid() && start == DataStart(csv) && header == Header(csv) && header != ""
    modifies builder, builder.data
    ensures builder.Valid()
    ensures builder.Text() ==
      old(builder.Text()) + ShowMembers(TableMembers(Columns(csv), RowsOf(Rows(csv), |Columns(csv)|)))
    ensures builder.data == old(builder.data) || fresh(builder.data)
  {
    ghost var before := builder.Text();
    var n := CountCsvFields(header);
    var columns := FillFields(header, n);
    assert columns == Columns(csv);
    builder.Append("\"columns\":[");
    AppendColumns(builder, columns);
    builder.Append("],\"rows\":[");
    var rows := AppendRows(builder, csv, columns, start);
    builder.Append("],\"rowCount\":");
    builder.Append(PrintNat(rows));
    TableShown(before, columns, RowsOf(Rows(csv), |columns|));
  }

  predicate Plain(s: string) {
    forall i :: 0 <= i < |s| ==> s[i] as int >= 0x20 && s[i] != '"' && s[i] != '\\'
  }

  lemma {:induction false} PlainEscaped(s: string)
    requires Plain(s)
    ensures Escaped(s) == s
  {
    if s != "" {
      PlainEscaped(s[1..]);
    }
  }

  /** An array under a plain name, piece by piece. */
  lemma ArrayMember(name: string, items: seq<JsonValue>)
    requires Plain(name)
    ensures "\"" + name + "\":[" + ShowItems(items) + "]" == ShowMember(Member(name, Array(items)))
  {
    PlainEscaped(name);
    assert "\":[" == "\"" + ":" + "[";
  }

  lemma NumberMember(name: string, n: nat)
    requires Plain(name)
    ensures "\"" + name + "\":" + PrintNat(n) == ShowMember(Member(name, JsonValue.Number(n)))
  {
    PlainEscaped(name);
    assert "\":" == "\"" + ":";
  }

  lemma ThreeShown(a: Member, b: Member, c: Member)
    ensures ShowMembers([a, b, c]) == ShowMember(a) + ("," + (ShowMember(b) + ("," + ShowMember(c))))
  {
    assert [a, b, c][1..] == [b, c] && [b, c][1..] == [c] && [c][1..] == [];
    assert ShowMembers([c]) == ShowMember(c);
    assert ShowMembers([b, c]) == ShowMember(b) + ("," + ShowMember(c));
  }

  lemma Pieces(t: string, a: string, x: string, e: string, b: string, y: string, c: string, z: string)
    ensures t + a + x + (e + "," + b) + y + (e + "," + c) + z
      == t + ((a + x + e) + ("," + ((b + y + e) + ("," + (c + z)))))
  {
    Three(t, a, x, e);
    var t' := t + a + x + e;
    assert t + a + x + (e + "," + b) + y == t' + "," + b + y;
    assert t' + "," + b + y + (e + "," + c) + z == t' + ("," + ((b + y + e) + ("," + (c + z))));
    assert t' == t + (a + x + e);
  }

  lemma Literals()
    ensures "]" + "," + "\"rows\":[" == "],\"rows\":[" && "]" + "," + "\"rowCount\":" == "],\"rowCount\":"
  {
  }

  lemma NameTexts()
    ensures "\"" + "columns" + "\":[" == "\"columns\":[" && "\"" + "rows" + "\":[" == "\"rows\":["
    ensures "\"" + "rowCount" + "\":" == "\"rowCount\":"
  {
  }

  /** The text of a table, given the texts of its three members. */
  lemma TablePieces(t: string, x: string, y: string, z: string, a: string, b: string, c: string)
    requires a == "\"columns\":[" + x + "]" && b == "\"rows\":[" + y + "]" && c == "\"rowCount\":" + z
    ensures t + "\"columns\":[" + x + "],\"rows\":[" + y + "],\"rowCount\":" + z == t + (a + ("," + (b + ("," + c))))
  {
    Pieces(t, "\"columns\":[", x, "]", "\"rows\":[", y, "\"rowCount\":", z);
    Literals();
  }

  lemma ColumnsText(items: seq<JsonValue>)
    ensures ShowMember(Member("columns", Array(items))) == "\"columns\":[" + ShowItems(items) + "]"
  {
    NameTexts();
    ArrayMember("columns", items);
  }

  lemma RowsText(items: seq<JsonValue>)
    ensures ShowMember(Member("rows", Array(items))) == "\"rows\":[" + ShowItems(items) + "]"
  {
    NameTexts();
    ArrayMember("rows", items);
  }

  lemma CountText(n: nat)
    ensures ShowMember(Member("rowCount", JsonValue.Number(n))) == "\"rowCount\":" + PrintNat(n)
  {
    NameTexts();
    NumberMember("rowCount", n);
  }

  /** The pieces of a table, put together. */
  lemma TableShown(before: string, columns: seq<string>, rows: seq<seq<string>>)
    requires AllFit(rows, |columns|)
    ensures before + "\"columns\":[" + ShowItems(Texts(columns)) + "],\"rows\":[" + ShowItems(RowObjects(columns, rows))
      + "],\"rowCount\":" + PrintNat(|rows|) == before + ShowMembers(TableMembers(columns, rows))
  {
    var xs, ys, n := Texts(columns), RowObjects(columns, rows), |rows|;
    ColumnsText(xs);
    RowsText(ys);
    CountText(n);
    var a, b, c := Member("columns", Array(xs)), Member("rows", Array(ys)), Member("rowCount", JsonValue.Number(n));
    ThreeShown(a, b, c);
    TablePieces(before, ShowItems(xs), ShowItems(ys), PrintNat(n), ShowMember(a), ShowMember(b), ShowMember(c));
  }

  lemma EmptyPieces()
    ensures "" + "\"columns\":[" + "" + "],\"rows\":[" + "" + "],\"rowCount\":" + "0" == NO_TABLE
  {
  }

  lemma EmptyTable()
    ensures NO_TABLE == ShowMembers(TableMembers([], []))
  {
    TableShown("", [], []);
    EmptyPieces();
    NothingBefore(ShowMembers(TableMembers([], [])));
  }

  lemma NothingBefore(s: string)
    ensures "" + s == s
  {
  }

  // ---------------------------------------------------------------- one table, character by character

  /** Quotes around a text that needs no escapes. */
  function InQuotes(s: string): string {
    "\"" + s + "\""
  }

  lemma PlainQuoted(s: string)
    requires Plain(s)
    ensures Quoted(s) == InQuotes(s)
  {
    PlainEscaped(s);
  }

  lemma OneItem(a: JsonValue)
    ensures ShowItems([a]) == Show(a)
  {
    ShowItemsPush([], a);
    assert [] + [a] == [a];
    assert "" + "" + Show(a) == Show(a);
  }

  lemma TwoItems(a: JsonValue, b: JsonValue)
    ensures ShowItems([a, b]) == Show(a) + "," + Show(b)
  {
    OneItem(a);
    ShowItemsPush([a], b);
    assert [a] + [b] == [a, b];
  }

  lemma TwoMembers(a: Member, b: Member)
    ensures ShowMembers([a, b]) == ShowMember(a) + "," + ShowMember(b)
  {
    ShowMembersPush([], a);
    assert [] + [a] == [a];
    assert "" + "" + ShowMember(a) == ShowMember(a);
    ShowMembersPush([a], b);
    assert [a] + [b] == [a, b];
  }

  lemma PairShown(name: string, value: string)
    requires Plain(name) && Plain(value)
    ensures ShowMember(Member(name, Text(value))) == InQuotes(name) + ":" + InQuotes(value)
  {
    PlainQuoted(name);
    PlainQuoted(value);
  }

  lemma TwoColumnsShown(a: string, b: string)
    requires Plain(a) && Plain(b)
    ensures ShowItems(Texts([a, b])) == InQuotes(a) + "," + InQuotes(b)
  {
    PlainQuoted(a);
    PlainQuoted(b);
    assert Texts([a, b]) == [Text(a), Text(b)];
    TwoItems(Text(a), Text(b));
  }

  lemma RowShown(columns: seq<string>, values: seq<string>)
    requires |values| == |columns|
    ensures AllFit([values], |columns|)
    ensures ShowItems(RowObjects(columns, [values])) == "{" + ShowMembers(RowMembers(columns, values)) + "}"
  {
    assert RowObjects(columns, [values]) == [Object(RowMembers(columns, values))];
    OneItem(Object(RowMembers(columns, values)));
  }

  lemma TwoValuesShown(a: string, b: string, x: string, y: string)
    requires Plain(a) && Plain(b) && Plain(x) && Plain(y)
    ensures ShowMembers(RowMembers([a, b], [x, y]))
      == (InQuotes(a) + ":" + InQuotes(x)) + "," + (InQuotes(b) + ":" + InQuotes(y))
  {
    assert RowMembers([a, b], [x, y]) == [Member(a, Text(x)), Member(b, Text(y))];
    PairShown(a, x);
    PairShown(b, y);
    TwoMembers(Member(a, Text(x)), Member(b, Text(y)));
  }

  /** A table with two columns and one row, as it is written. */
  lemma SmallTableShown(a: string, b: string, x: string, y: string)
    requires Plain(a) && Plain(b) && Plain(x) && Plain(y)
    ensures AllFit([[x, y]], |[a, b]|)
    ensures ShowMembers(TableMembers([a, b], [[x, y]]))
      == "\"columns\":[" + (InQuotes(a) + "," + InQuotes(b)) + "],\"rows\":["
         + ("{" + ((InQuotes(a) + ":" + InQuotes(x)) + "," + (InQuotes(b) + ":" + InQuotes(y))) + "}")
         + "],\"rowCount\":" + "1"
  {
    RowShown([a, b], [x, y]);
    TwoColumnsShown(a, b);
    TwoValuesShown(a, b, x, y);
    TableShown("", [a, b], [[x, y]]);
    NothingBefore(ShowMembers(TableMembers([a, b], [[x, y]])));
    NothingBefore("\"columns\":[");
    assert PrintNat(1) == "1";
  }

  // ---------------------------------------------------------------- engine output in, rows out

  /** The output lines of a SELECT: header and rows. */
  ghost function Output(columns: seq<string>, rows: seq<seq<string>>): string {
    if rows == [] then StoredLine(columns) else Output(columns, rows[..|rows| - 1]) + StoredLine(rows[|rows| - 1])
  }

  /** The rows whose output line is not blank. */
  ghost function Visible(rows: seq<seq<string>>): seq<seq<string>> {
    if rows == [] then []
    else Visible(rows[..|rows| - 1]) + (if Join(rows[|rows| - 1]) == "" then [] else [rows[|rows| - 1]])
  }

  ghost predicate AllStorable(values: seq<string>) {
    forall i :: 0 <= i < |values| ==> Storable(values[i])
  }

  /** What a SELECT can return: storable values, as many in every row as there are columns. */
  ghost predicate GoodOutput(columns: seq<string>, rows: seq<seq<string>>) {
    && columns != [] && AllStorable(columns)
    && forall i :: 0 <= i < |rows| ==> |rows[i]| == |columns| && AllStorable(rows[i])
  }

  /** The header of an output is its column names, whatever they are. */
  lemma {:induction false} OutputHeader(columns: seq<string>, rows: seq<seq<string>>)
    requires columns != [] && AllStorable(columns)
    ensures Terminated(Output(columns, rows)) && Header(Output(columns, rows)) == Join(columns)
    decreases |rows|
  {
    if rows == [] {
      var csv := StoredLine(columns);
      JoinStorable(columns);
      EndOfLine(csv, 0);
      TrimBody(Join(columns));
      assert csv[..|csv|] == csv;
    } else {
      var init, last := rows[..|rows| - 1], rows[|rows| - 1];
      OutputHeader(columns, init);
      HeaderStays(Output(columns, init), StoredLine(last));
    }
  }

  lemma HeaderStays(text: string, line: string)
    requires Terminated(text) && line != "" && line[|line| - 1] == '\n'
    ensures Terminated(text + line) && Header(text + line) == Header(text)
  {
    LineEndAppend(text, line, 0);
    assert (text + line)[0..DataStart(text)] == (text + line)[..DataStart(text)];
    assert text[0..DataStart(text)] == text[..DataStart(text)];
  }

  lemma HeaderReads(columns: seq<string>)
    requires columns != [] && Join(columns) != "" && AllStorable(columns)
    ensures var csv := StoredLine(columns);
      DataStart(csv) == |csv| && Header(csv) == Join(columns) && Columns(csv) == columns && Rows(csv) == []
  {
    var csv := StoredLine(columns);
    JoinStorable(columns);
    assert csv[0..] == Join(columns) + "\n";
    LastLine(csv, 0, Join(columns));
    TrimBody(Join(columns));
    assert csv[..|csv|] == csv;
    SplitOfJoin(columns);
  }

  /** A blank output line adds no row. */
  lemma BlankAdds(text: string)
    requires Terminated(text)
    ensures Rows(text + "\n") == Rows(text) && Columns(text + "\n") == Columns(text) && Terminated(text + "\n")
    ensures Header(text + "\n") == Header(text)
  {
    var whole := text + "\n";
    LineEndAppend(text, "\n", 0);
    RowsAppend(text, "\n", DataStart(text));
    EndOfLine(whole, |text|);
    assert whole[|text|..] == "" + "\n";
    TrimBody("");
    assert whole[|text|..|whole|] == whole[|text|..];
    assert RowsFrom(whole, |whole|) == [];
  }

  /** Reading the output back line by line. */
  lemma {:induction false} OutputReads(columns: seq<string>, rows: seq<seq<string>>)
    requires GoodOutput(columns, rows) && Join(columns) != ""
    ensures var csv := Output(columns, rows);
      && Terminated(csv) && Header(csv) == Join(columns) && Columns(csv) == columns
      && |Rows(csv)| == |Visible(rows)|
      && forall i :: 0 <= i < |Rows(csv)| ==> Rows(csv)[i].fields == Visible(rows)[i]
    decreases |rows|
  {
    if rows == [] {
      HeaderReads(columns);
    } else {
      var init, last := rows[..|rows| - 1], rows[|rows| - 1];
      OutputReads(columns, init);
      var text := Output(columns, init);
      if Join(last) == "" {
        assert StoredLine(last) == "\n";
        BlankAdds(text);
      } else {
        AppendAddsRow(text, last);
        LineEndAppend(text, StoredLine(last), 0);
      }
    }
  }

  lemma {:induction false} VisibleFits(rows: seq<seq<string>>, width: nat)
    requires AllFit(rows, width)
    ensures AllFit(Visible(rows), width)
    decreases |rows|
  {
    if rows != [] {
      VisibleFits(rows[..|rows| - 1], width);
    }
  }

  /** No output line is blank. */
  ghost predicate NoneBlank(rows: seq<seq<string>>) {
    forall i :: 0 <= i < |rows| ==> Join(rows[i]) != ""
  }

  lemma NoneBlankLast(rows: seq<seq<string>>)
    requires rows != []
    ensures var n := |rows| - 1;
      && rows == rows[..n] + [rows[n]]
      && (NoneBlank(rows) <==> NoneBlank(rows[..n]) && Join(rows[n]) != "")
  {
    var n := |rows| - 1;
    if NoneBlank(rows[..n]) && Join(rows[n]) != "" {
      forall i | 0 <= i < |rows| ensures Join(rows[i]) != "" {
        assert i < n ==> rows[..n][i] == rows[i];
      }
    }
    if NoneBlank(rows) {
      assert forall i :: 0 <= i < n ==> rows[..n][i] == rows[i];
    }
  }

  /** All rows are visible, or some are lost. */
  lemma {:induction false} VisibleAll(rows: seq<seq<string>>)
    ensures if NoneBlank(rows) then Visible(rows) == rows else |Visible(rows)| < |rows|
    decreases |rows|
  {
    if rows != [] {
      VisibleAll(rows[..|rows| - 1]);
      NoneBlankLast(rows);
    }
  }

  lemma PaddedSame(fields: seq<string>)
    ensures Padded(fields, |fields|) == fields
  {
  }

  /** The projection of a SELECT's output.  When its column names are identifiers, it reads as its columns and its
      rows in order, except that blank lines are lost: all rows are there exactly when no output line is blank.  When
      they are not, it reads as an empty table. */
  lemma ProjectionRecovers(columns: seq<string>, rows: seq<seq<string>>)
    requires GoodOutput(columns, rows)
    ensures AllFit(Visible(rows), |columns|)
    ensures var shown := if Identifiers(columns) then TableMembers(columns, Visible(rows)) else TableMembers([], []);
      && Projected(Output(columns, rows)) == shown
      && ReadsAsMembers(ShowMembers(Projected(Output(columns, rows))), shown)
    ensures Visible(rows) == rows <==> NoneBlank(rows)
    ensures |Visible(rows)| == |rows| <==> NoneBlank(rows)
  {
    var csv := Output(columns, rows);
    VisibleFits(rows, |columns|);
    VisibleAll(rows);
    OutputHeader(columns, rows);
    HeaderIff(columns);
    if Identifiers(columns) {
      OutputReads(columns, rows);
      VisibleRead(Rows(csv), Visible(rows), |columns|);
    }
    ShownMembersRead(Projected(csv));
  }

  lemma VisibleRead(lines: seq<Row>, rows: seq<seq<string>>, width: nat)
    requires |lines| == |rows| && AllFit(rows, width) && forall i :: 0 <= i < |lines| ==> lines[i].fields == rows[i]
    ensures RowsOf(lines, width) == rows
  {
    forall i | 0 <= i < |rows| ensures RowsOf(lines, width)[i] == rows[i] {
      PaddedSame(rows[i]);
    }
  }

  /** With two or more columns no output line is blank. */
  lemma WideRowsVisible(values: seq<string>)
    requires |values| >= 2
    ensures Join(values) != ""
  {
  }

  /** The chosen fields of each row. */
  ghost function Picked(rows: seq<Row>, indices: seq<nat>, width: nat): (r: seq<seq<string>>)
    requires AllWide(rows, width) && forall i :: 0 <= i < |indices| ==> indices[i] < width
    ensures |r| == |rows| && forall i :: 0 <= i < |r| ==> r[i] == Pick(rows[i].fields, indices)
  {
    seq(|rows|, i requires 0 <= i < |rows| => Pick(rows[i].fields, indices))
  }

  lemma {:induction false} RenderedIsOutput(columns: seq<string>, rows: seq<Row>, indices: seq<nat>)
    requires AllWide(rows, |columns|) && forall i :: 0 <= i < |indices| ==> indices[i] < |columns|
    ensures StoredLine(Pick(columns, indices)) + Rendered(rows, indices, |columns|)
      == Output(Pick(columns, indices), Picked(rows, indices, |columns|))
    decreases |rows|
  {
    if rows == [] {
      assert StoredLine(Pick(columns, indices)) + "" == StoredLine(Pick(columns, indices));
    } else {
      var init, last := rows[..|rows| - 1], rows[|rows| - 1];
      RenderedIsOutput(columns, init, indices);
      var picked := Picked(rows, indices, |columns|);
      assert picked[..|rows| - 1] == Picked(init, indices, |columns|);
      Json.Reassociate(StoredLine(Pick(columns, indices)), Rendered(init, indices, |columns|),
                       StoredLine(Pick(last.fields, indices)));
    }
  }

  /** What is read determines columns and rows. */
  lemma TableOne(columns: seq<string>, rows: seq<seq<string>>, columns': seq<string>, rows': seq<seq<string>>)
    requires AllFit(rows, |columns|) && AllFit(rows', |columns'|)
    requires TableMembers(columns, rows) == TableMembers(columns', rows')
    ensures columns == columns' && rows == rows'
  {
    var ms, ms' := TableMembers(columns, rows), TableMembers(columns', rows');
    assert ms[0].value.items == Texts(columns) && ms'[0].value.items == Texts(columns');
    SameTexts(columns, columns');
    assert ms[1].value.items == RowObjects(columns, rows) && ms'[1].value.items == RowObjects(columns', rows');
    forall i | 0 <= i < |rows| ensures rows[i] == rows'[i] {
      assert RowObjects(columns, rows)[i].members == RowObjects(columns', rows')[i].members;
      SameMembers(columns, rows[i], rows'[i]);
    }
  }

  lemma SameTexts(a: seq<string>, b: seq<string>)
    requires Texts(a) == Texts(b)
    ensures a == b
  {
    forall i | 0 <= i < |a| ensures i < |b| && a[i] == b[i] {
      assert Texts(a)[i] == Texts(b)[i];
    }
  }

  lemma SameMembers(columns: seq<string>, a: seq<string>, b: seq<string>)
    requires |a| == |b| == |columns| && RowMembers(columns, a) == RowMembers(columns, b)
    ensures a == b
  {
    forall i | 0 <= i < |a| ensures a[i] == b[i] {
      assert RowMembers(columns, a)[i] == RowMembers(columns, b)[i];
    }
  }

  /** A SELECT over two or more columns is answered with exactly its columns and rows, in order, and the number of
      matched rows, when the column names are letters, digits and underscores, and with an empty table otherwise. */
  lemma SelectAnswered(columns: seq<string>, rows: seq<Row>, indices: seq<nat>)
    requires AllWide(rows, |columns|) && (forall i :: 0 <= i < |indices| ==> indices[i] < |columns|) && |indices| >= 2
    requires GoodOutput(Pick(columns, indices), Picked(rows, indices, |columns|))
    ensures AllFit(Picked(rows, indices, |columns|), |Pick(columns, indices)|)
    ensures var csv := StoredLine(Pick(columns, indices)) + Rendered(rows, indices, |columns|);
      ReadsAsMembers(ShowMembers(Projected(csv)),
                     if Identifiers(Pick(columns, indices))
                     then TableMembers(Pick(columns, indices), Picked(rows, indices, |columns|))
                     else TableMembers([], []))
  {
    var picked := Picked(rows, indices, |columns|);
    RenderedIsOutput(columns, rows, indices);
    forall i | 0 <= i < |picked| ensures Join(picked[i]) != "" {
      WideRowsVisible(picked[i]);
    }
    ProjectionRecovers(Pick(columns, indices), picked);
  }

  // ---------------------------------------------------------------- rows as objects

  /** `value` is what every member of that name says, and there is one. */
  ghost predicate OnlyValue(members: seq<Member>, name: string, value: JsonValue) {
    && (exists i :: 0 <= i < |members| && members[i] == Member(name, value))
    && forall i :: 0 <= i < |members| && members[i].name == name ==> members[i].value == value
  }

  /** Looking a column up by its name gives the value of the row in that column. */
  ghost predicate ByName(columns: seq<string>, values: seq<string>) {
    |values| == |columns| ==>
      forall i :: 0 <= i < |columns| ==> OnlyValue(RowMembers(columns, values), columns[i], Text(values[i]))
  }

  /** All values empty but the one in column `i`. */
  ghost function OneMarked(width: nat, i: nat): (values: seq<string>)
    ensures |values| == width && forall j :: 0 <= j < width ==> values[j] == if j == i then "x" else ""
  {
    seq(width, j => if j == i then "x" else "")
  }

  lemma DistinctByName(columns: seq<string>, values: seq<string>)
    requires NoRepeats(columns)
    ensures ByName(columns, values)
  {
    if |values| == |columns| {
      var ms := RowMembers(columns, values);
      forall i | 0 <= i < |columns| ensures OnlyValue(ms, columns[i], Text(values[i])) {
        assert ms[i] == Member(columns[i], Text(values[i]));
      }
    }
  }

  /** Every row can be read back by column name if and only if no two columns have the same name. */
  lemma ByNameIff(columns: seq<string>)
    ensures (forall values :: ByName(columns, values)) <==> NoRepeats(columns)
  {
    if NoRepeats(columns) {
      forall values ensures ByName(columns, values) {
        DistinctByName(columns, values);
      }
    } else {
      var i, j :| 0 <= i < j < |columns| && columns[i] == columns[j];
      var values := OneMarked(|columns|, i);
      assert RowMembers(columns, values)[j] == Member(columns[i], Text(""));
      assert !OnlyValue(RowMembers(columns, values), columns[i], Text(values[i]));
      assert !ByName(columns, values);
    }
  }

  /** The rows of a SELECT can be read by column name if and only if it names its columns or no two columns of the
      table have the same name. */
  lemma SelectByNameIff(columns: seq<string>, list: ColumnList, indices: seq<nat>)
    requires Projects(columns, OptimizedList(list), indices)
    ensures (forall values :: ByName(Pick(columns, indices), values)) <==> !list.isStar || NoRepeats(columns)
  {
    OutputColumns(columns, list, indices);
    ByNameIff(Pick(columns, indices));
  }

  /** Two rows that give objects with the same members, in whatever order, are the same row. */
  ghost predicate OrderFree(columns: seq<string>, a: seq<string>, b: seq<string>) {
    |a| == |columns| && |b| == |columns| && multiset(RowMembers(columns, a)) == multiset(RowMembers(columns, b)) ==>
      a == b
  }

  lemma DistinctOrderFree(columns: seq<string>, a: seq<string>, b: seq<string>)
    requires NoRepeats(columns)
    ensures OrderFree(columns, a, b)
  {
    if |a| == |columns| && |b| == |columns| && multiset(RowMembers(columns, a)) == multiset(RowMembers(columns, b)) {
      forall i | 0 <= i < |columns| ensures a[i] == b[i] {
        assert RowMembers(columns, a)[i] in multiset(RowMembers(columns, b));
        var j :| 0 <= j < |columns| && RowMembers(columns, b)[j] == RowMembers(columns, a)[i];
        assert columns[j] == columns[i];
      }
    }
  }

  lemma SwappedMembers(columns: seq<string>, i: nat, j: nat)
    requires i < j < |columns| && columns[i] == columns[j]
    ensures multiset(RowMembers(columns, OneMarked(|columns|, i)))
      == multiset(RowMembers(columns, OneMarked(|columns|, j)))
  {
    var a, b := RowMembers(columns, OneMarked(|columns|, i)), RowMembers(columns, OneMarked(|columns|, j));
    assert b == a[i := a[j]][j := a[i]];
  }

  /** The objects of the rows, taken as unordered collections, determine the rows if and only if no two
      columns have the same name. */
  lemma OrderFreeIff(columns: seq<string>)
    ensures (forall a, b :: OrderFree(columns, a, b)) <==> NoRepeats(columns)
  {
    if NoRepeats(columns) {
      forall a, b ensures OrderFree(columns, a, b) {
        DistinctOrderFree(columns, a, b);
      }
    } else {
      var i, j :| 0 <= i < j < |columns| && columns[i] == columns[j];
      var a, b := OneMarked(|columns|, i), OneMarked(|columns|, j);
      SwappedMembers(columns, i, j);
      assert a[i] != b[i];
      assert !OrderFree(columns, a, b);
    }
  }
}
