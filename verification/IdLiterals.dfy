/** When a SELECT by id gives the same answer through the index as by a scan: exactly when its literal is a
    number that fits in 32 bits.  The scan compares a string literal as text, the index always as a number. */
module IdLiterals {
  import opened Machine
  import opened Comparison
  import opened Names
  import opened Decimal
  import opened Ast
  import opened CsvText
  import opened TableText
  import opened TableIndex
  import opened SelectRows
  import opened DatabaseTable

  /** What the scan answers, up to order; none when it fails. */
  ghost function ScanOutcome(rows: seq<Row>, columns: seq<string>, filter: WhereClause): Option<multiset<Row>>
    requires AllWide(rows, |columns|)
  {
    if Decidable(rows, columns, true, filter) then Some(multiset(ScanResult(rows, columns, true, filter))) else None
  }

  /** What the index answers, up to order; none when it fails. */
  ghost function IndexOutcome(rows: seq<Row>, columns: seq<string>, filter: WhereClause): Option<multiset<Row>>
    requires AllWide(rows, |columns|)
  {
    if IsId(filter.value.text) then Some(multiset(ScanResult(rows, columns, true, AsNumber(filter)))) else None
  }

  /** What a caller can check: a number literal that fits in 32 bits. */
  ghost predicate IntegerLiteral(value: Literal) {
    value.kind == NumberLiteral && IsId(value.text)
  }

  // ---------------------------------------------------------------- fields that sort below a literal

  function Tabs(n: nat): (s: string)
    ensures |s| == n && forall i :: 0 <= i < n ==> s[i] == '\t'
  {
    seq(n, i => '\t')
  }

  /** No character of a numeral sorts below a tab, and the last one sorts above. */
  lemma NumeralChars(text: string, v: int)
    requires Denotes(text, v)
    ensures text != "" && text[|text| - 1] > '\t' && forall i :: 0 <= i < |text| ==> text[i] >= '\t'
  {
    var b: nat, s: string, d: string :| Numeral(text, b, s, d) && Signed(s, d) == v;
    assert |text[b..]| == |s| + |d|;
    forall i | b <= i < |text| ensures text[i] > '\t' {
      assert text[b..][i - b] == (s + d)[i - b];
    }
  }

  /** Enough tabs in front make any text sort below a numeral. */
  lemma {:induction false} TabsFirst(n: nat, s: string, text: string)
    requires 0 < |text| <= n && text[|text| - 1] > '\t' && forall i :: 0 <= i < |text| ==> text[i] >= '\t'
    ensures Order(Tabs(n) + s, text) < 0
    decreases n
  {
    var field := Tabs(n) + s;
    assert field[0] == '\t';
    if text[0] == '\t' {
      assert field[1..] == Tabs(n - 1) + s;
      TabsFirst(n - 1, s, text[1..]);
    }
  }

  /** Tabs in front do not change what a text denotes. */
  lemma TabsDenote(n: nat, text: string, v: int)
    requires Denotes(text, v)
    ensures Denotes(Tabs(n) + text, v)
  {
    var b: nat, s: string, d: string :| Numeral(text, b, s, d) && Signed(s, d) == v;
    assert (Tabs(n) + text)[n + b..] == text[b..];
    assert Numeral(Tabs(n) + text, n + b, s, d);
  }

  lemma DigitsStorable(s: string)
    requires AllDigits(s)
    ensures Storable(s) && Storable("-" + s)
  {
  }

  lemma TabsStorable(n: nat, v: int)
    ensures Storable(Tabs(n) + Print(v))
  {
    DigitsStorable(PrintNat(if v < 0 then -v else v));
  }

  ghost function Pow10(k: nat): nat {
    if k == 0 then 1 else 10 * Pow10(k - 1)
  }

  lemma {:induction false} PrintNatShort(n: nat, k: nat)
    requires n < Pow10(k) && k > 0
    ensures |PrintNat(n)| <= k
  {
    if n >= 10 {
      PrintNatShort(n / 10, k - 1);
    }
  }

  /** A printed 32-bit integer has at most eleven characters. */
  lemma PrintShort(v: int)
    requires INT32_MIN <= v <= INT32_MAX
    ensures |Print(v)| <= 11
  {
    assert Pow10(5) == 100000;
    assert Pow10(8) == 1000 * Pow10(5);
    assert Pow10(10) == 100 * Pow10(8);
    PrintNatShort(if v < 0 then -v else v, 10);
  }

  // ---------------------------------------------------------------- a field that sorts above the largest integers

  /** The first decimal digit. */
  ghost function Lead(v: nat): nat {
    if v < 10 then v else Lead(v / 10)
  }

  lemma {:induction false} LeadingNine(d: string)
    requires d != "" && AllDigits(d) && d[0] == '9'
    ensures Value(d) >= 9 && Lead(Value(d)) == 9
  {
    var n := |d| - 1;
    if n == 0 {
      assert d[..n] == "";
    } else {
      LeadingNine(d[..n]);
      assert Value(d) / 10 == Value(d[..n]);
    }
  }

  lemma LeadOfLargest(v: nat)
    requires INT32_MAX - 1 <= v <= INT32_MAX
    ensures Lead(v) == 2
  {
    assert Lead(v) == Lead(214748364) == Lead(21474836) == Lead(2147483);
    assert Lead(2147483) == Lead(214748) == Lead(21474) == Lead(2147);
    assert Lead(2147) == Lead(214) == Lead(21) == Lead(2);
  }

  lemma NoLeadingNine(s: string, d: string)
    requires d != "" && AllDigits(d) && INT32_MAX - 1 <= Signed(s, d) <= INT32_MAX
    ensures s != "-" && d[0] != '9'
  {
    LeadOfLargest(Signed(s, d));
    if d[0] == '9' {
      LeadingNine(d);
    }
  }

  lemma FirstBelowNine(text: string, b: nat, s: string, d: string)
    requires Numeral(text, b, s, d) && s != "-" && d[0] != '9'
    ensures text != "" && text[0] < '9'
  {
    assert |text[b..]| == |s| + |d|;
    assert text[b..][0] == (s + d)[0] && text[b..][0] == text[b];
  }

  lemma NineDenotes()
    ensures Denotes("9", 9) && Storable("9")
  {
    assert Print(9) == "9";
    PrintDenotes(9);
  }

  /** The text "9" sorts above the numerals of the two largest integers. */
  lemma NineAbove(text: string, v: int)
    requires Denotes(text, v) && v >= INT32_MAX - 1
    ensures Order("9", text) > 0
  {
    var b: nat, s: string, d: string :| Numeral(text, b, s, d) && Signed(s, d) == v;
    NoLeadingNine(s, d);
    FirstBelowNine(text, b, s, d);
  }

  // ---------------------------------------------------------------- one field

  /** What the index makes of a field with an integer: compare numbers. */
  ghost predicate SameVerdict(field: string, filter: WhereClause)
    requires IsId(filter.value.text)
  {
    IsId(field) ==> Verdict(field, filter) == Some(Matches(filter.op, IdOf(field), IdOf(filter.value.text)))
  }

  /** The operators that a field sorting below the literal, but denoting the same number, decides wrongly. */
  predicate WrongBelow(op: CompareOperator) {
    op == Equals || op == NotEquals || op == Less || op == GreaterOrEqual
  }

  lemma DiffersBelow(filter: WhereClause, v: int) returns (field: string)
    requires IsId(filter.value.text) && filter.value.kind == StringLiteral && INT32_MIN <= v <= INT32_MAX
    requires v == if WrongBelow(filter.op) then IdOf(filter.value.text) else IdOf(filter.value.text) + 1
    ensures Denotes(field, v) && Storable(field) && |field| <= |filter.value.text| + 11 && !SameVerdict(field, filter)
  {
    var text := filter.value.text;
    field := Tabs(|text|) + Print(v);
    NumeralChars(text, IdOf(text));
    TabsFirst(|text|, Print(v), text);
    PrintDenotes(v);
    TabsDenote(|text|, Print(v), v);
    TabsStorable(|text|, v);
    PrintShort(v);
    IdIs(field, v);
  }

  lemma DiffersAbove(filter: WhereClause, field: string, v: int)
    requires IsId(filter.value.text) && filter.value.kind == StringLiteral && !WrongBelow(filter.op)
    requires Denotes(field, v) && v <= IdOf(filter.value.text) && Order(field, filter.value.text) > 0
    ensures !SameVerdict(field, filter)
  {
    IdIs(field, v);
  }

  /** For a string literal there is always a field on which text order and number order differ. */
  lemma SomeFieldDiffers(filter: WhereClause) returns (field: string, v: int)
    requires IsId(filter.value.text) && filter.value.kind == StringLiteral
    ensures Denotes(field, v) && Storable(field) && |field| <= |filter.value.text| + 11 && !SameVerdict(field, filter)
    ensures IdOf(filter.value.text) < INT32_MAX ==> v < INT32_MAX
  {
    var k := IdOf(filter.value.text);
    if WrongBelow(filter.op) {
      v := k;
      field := DiffersBelow(filter, k);
    } else if k < INT32_MAX - 1 {
      v := k + 1;
      field := DiffersBelow(filter, k + 1);
    } else {
      v, field := 9, "9";
      NineDenotes();
      NineAbove(filter.value.text, k);
      DiffersAbove(filter, field, v);
    }
  }

  /** Scan and index take every field the same way exactly when the literal is a number. */
  lemma FieldsAgreeIff(filter: WhereClause)
    requires IsId(filter.value.text)
    ensures (forall field :: SameVerdict(field, filter)) <==> filter.value.kind == NumberLiteral
  {
    if filter.value.kind == StringLiteral {
      var field, v := SomeFieldDiffers(filter);
    }
  }

  // ---------------------------------------------------------------- whole tables

  /** Rows an index can be built for, in a table with an id column. */
  ghost predicate IsTable(columns: seq<string>, idColumn: int, rows: seq<Row>) {
    0 <= idColumn < |columns| && FoundAt(columns, "id", idColumn) && Indexable(rows, |columns|, idColumn)
  }

  /** On this table scan and index give the same answer. */
  ghost predicate RowsAgree(columns: seq<string>, idColumn: int, rows: seq<Row>, filter: WhereClause) {
    IsTable(columns, idColumn, rows) ==>
      AllWide(rows, |columns|) && ScanOutcome(rows, columns, filter) == IndexOutcome(rows, columns, filter)
  }

  lemma IntegerAgrees(columns: seq<string>, idColumn: int, rows: seq<Row>, filter: WhereClause)
    requires SameName(filter.column, "id") && IntegerLiteral(filter.value)
    ensures RowsAgree(columns, idColumn, rows, filter)
  {
    if IsTable(columns, idColumn, rows) {
      SameColumn(columns, "id", filter.column, idColumn);
      assert forall i :: 0 <= i < |rows| ==> GoodRow(rows[i], |columns|, idColumn);
      assert AsNumber(filter) == filter;
    }
  }

  lemma OnlyColumn(name: string)
    requires SameName(name, "id")
    ensures ColumnAt(["id"], name) == 0 && FoundAt(["id"], "id", 0)
  {
  }

  /** A table with one row, on whose field scan and index differ. */
  lemma OneRowDiffers(row: Row, field: string, filter: WhereClause)
    requires SameName(filter.column, "id") && IsId(filter.value.text) && filter.value.kind == StringLiteral
    requires row.fields == [field] && IsId(field) && !SameVerdict(field, filter)
    ensures AllWide([row], 1) && ScanOutcome([row], ["id"], filter) != IndexOutcome([row], ["id"], filter)
  {
    OnlyColumn(filter.column);
    IdVerdict(row, 1, 0, AsNumber(filter), IdOf(filter.value.text));
    assert [row][1..] == [];
    assert multiset([row])[row] == 1;
    OnePassing(row, filter);
    OnePassing(row, AsNumber(filter));
  }

  lemma OnePassing(row: Row, filter: WhereClause)
    requires |row.fields| == 1
    ensures Passing([row], 0, filter) == if Verdict(row.fields[0], filter) == Some(true) then [row] else []
  {
    assert [row][1..] == [];
  }

  lemma NoRowsDiffer(filter: WhereClause)
    requires !IsId(filter.value.text)
    ensures ScanOutcome([], ["id"], filter) != IndexOutcome([], ["id"], filter)
  {
  }

  /** On all tables scan and index give the same answer if and only if the literal is a 32-bit integer. */
  lemma RowsAgreeIff(filter: WhereClause)
    requires SameName(filter.column, "id")
    ensures (forall columns, idColumn, rows :: RowsAgree(columns, idColumn, rows, filter)) <==>
      IntegerLiteral(filter.value)
  {
    if IntegerLiteral(filter.value) {
      forall columns, idColumn, rows ensures RowsAgree(columns, idColumn, rows, filter) {
        IntegerAgrees(columns, idColumn, rows, filter);
      }
    } else if IsId(filter.value.text) {
      var field, v := SomeFieldDiffers(filter);
      var row := Row(3, [field]);
      IdIs(field, v);
      OnlyColumn(filter.column);
      OneRowDiffers(row, field, filter);
      assert GoodRow(row, 1, 0);
      assert !RowsAgree(["id"], 0, [row], filter);
    } else {
      OnlyColumn(filter.column);
      NoRowsDiffer(filter);
      assert !RowsAgree(["id"], 0, [], filter);
    }
  }

  // ---------------------------------------------------------------- whole files

  /** On a table whose file and index agree, scan and index give the same answer. */
  ghost predicate FileAgrees(text: string, columns: seq<string>, idColumn: int, rowCount: int, nextId: int,
                             m: map<int, int>, filter: WhereClause) {
    Consistent(text, columns, idColumn, rowCount, nextId, m) && idColumn >= 0 ==>
      && AllWide(Rows(text), |columns|)
      && ScanOutcome(Rows(text), columns, filter) == IndexOutcome(Rows(text), columns, filter)
  }

  lemma FileIsTable(text: string, columns: seq<string>, idColumn: int, rowCount: int, nextId: int, m: map<int, int>)
    requires Consistent(text, columns, idColumn, rowCount, nextId, m) && idColumn >= 0
    ensures IsTable(columns, idColumn, Rows(text))
  {
    assert Seal(true);
  }

  const ID_TABLE := "id\n"

  /** A table file with no rows. */
  lemma EmptyFile()
    ensures Rows(ID_TABLE) == [] && Columns(ID_TABLE) == ["id"] && Terminated(ID_TABLE) && LinesFit(ID_TABLE, 0)
  {
    assert ID_TABLE[0..] == "id" + "\n";
    LastLine(ID_TABLE, 0, "id");
    TrimBody("id");
    assert ID_TABLE[..3] == "id" + "\n";
    SplitOfJoin(["id"]);
  }

  lemma EmptyIsConsistent()
    ensures Consistent(ID_TABLE, ["id"], 0, 0, 1, map[]) && Terminated(ID_TABLE)
  {
    EmptyFile();
    OnlyColumn("id");
    AgreesEmpty(1, 0);
  }

  /** A table file with one row that holds `field`. */
  lemma OneRowFile(field: string, v: int) returns (text: string, nextId: int, m: map<int, int>)
    requires Denotes(field, v) && v < INT32_MAX && Storable(field) && |field| < LINE_LIMIT
    ensures Consistent(text, ["id"], 0, 1, nextId, m) && Rows(text) == [Row(|ID_TABLE|, [field])]
  {
    text := ID_TABLE + StoredLine([field]);
    nextId, m := if v >= 1 then v + 1 else 1, map[v := |ID_TABLE|];
    EmptyFile();
    EmptyIsConsistent();
    if Denotes(field, INT32_MAX) {
      DenotesOne(field, v, INT32_MAX);
    }
    AppendKeeps(ID_TABLE, ["id"], 0, 0, 1, map[], [field], v);
    assert map[][v := |ID_TABLE|] == m;
  }

  /** A literal that is short enough to be told apart within the line buffers, and below the largest id. */
  ghost predicate WithinLimits(text: string) {
    |text| <= LINE_LIMIT - 12 && !Denotes(text, INT32_MAX)
  }

  lemma SomeFileDiffers(filter: WhereClause)
    returns (text: string, rowCount: int, nextId: int, m: map<int, int>)
    requires SameName(filter.column, "id") && WithinLimits(filter.value.text) && !IntegerLiteral(filter.value)
    ensures !FileAgrees(text, ["id"], 0, rowCount, nextId, m, filter)
  {
    if IsId(filter.value.text) {
      var field, v := SomeFieldDiffers(filter);
      rowCount := 1;
      text, nextId, m := OneRowFile(field, v);
      IdIs(field, v);
      OneRowDiffers(Row(|ID_TABLE|, [field]), field, filter);
    } else {
      text, rowCount, nextId, m := ID_TABLE, 0, 1, map[];
      EmptyFile();
      EmptyIsConsistent();
      NoRowsDiffer(filter);
    }
  }

  /** The same for files: over all tables whose file and index agree, a scan and the index give the same answer
      to a filter on the id if and only if its literal is a 32-bit integer. */
  lemma FilesAgreeIff(filter: WhereClause)
    requires SameName(filter.column, "id") && WithinLimits(filter.value.text)
    ensures (forall text, columns, idColumn, rowCount, nextId, m ::
              FileAgrees(text, columns, idColumn, rowCount, nextId, m, filter)) <==> IntegerLiteral(filter.value)
  {
    if IntegerLiteral(filter.value) {
      forall text, columns, idColumn, rowCount, nextId, m
        ensures FileAgrees(text, columns, idColumn, rowCount, nextId, m, filter)
      {
        if Consistent(text, columns, idColumn, rowCount, nextId, m) && idColumn >= 0 {
          FileIsTable(text, columns, idColumn, rowCount, nextId, m);
          IntegerAgrees(columns, idColumn, Rows(text), filter);
        }
      }
    } else {
      var text, rowCount, nextId, m := SomeFileDiffers(filter);
    }
  }
}
