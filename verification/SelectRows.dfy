/** Which rows a SELECT is meant to return, and in which order an index returns them. */
module SelectRows {
  import opened Machine
  import opened Comparison
  import opened Names
  import opened Decimal
  import opened Ast
  import opened CsvText
  import opened TableText
  import opened TreeShape
  import opened RangeVisit
  import opened TableIndex

  // ---------------------------------------------------------------- filtering

  /** Byte order of two strings, as `strcmp` sees it: negative, zero or positive. */
  function Order(a: string, b: string): int {
    if a == "" && b == "" then 0
    else if a == "" then -1
    else if b == "" then 1
    else if a[0] != b[0] then a[0] as int - b[0] as int
    else Order(a[1..], b[1..])
  }

  /** `a` comes before `b`: where they first differ `a` ends, or has the smaller character. */
  ghost predicate Before(a: string, b: string) {
    exists k :: DifferAt(a, b, k)
  }

  ghost predicate DifferAt(a: string, b: string, k: nat) {
    && k <= |a| && k < |b| && a[..k] == b[..k]
    && (k == |a| || a[k] < b[k])
  }

  lemma DifferLater(a: string, b: string, k: nat)
    requires a != "" && b != "" && a[0] == b[0]
    ensures DifferAt(a[1..], b[1..], k) <==> DifferAt(a, b, k + 1)
  {
    if k + 1 <= |a| && k + 1 <= |b| {
      assert a[..k + 1] == [a[0]] + a[1..][..k] && b[..k + 1] == [b[0]] + b[1..][..k];
    }
    if DifferAt(a, b, k + 1) {
      assert a[1..][..k] == a[..k + 1][1..] && b[1..][..k] == b[..k + 1][1..];
    }
  }

  lemma DifferHere(a: string, b: string, k: nat)
    requires a != "" && b != "" && DifferAt(a, b, k)
    ensures if k == 0 then a[0] < b[0] else a[0] == b[0]
  {
    assert k > 0 ==> a[..k][0] == b[..k][0];
  }

  lemma BeforeTails(a: string, b: string)
    requires a != "" && b != "" && a[0] == b[0]
    ensures Before(a, b) <==> Before(a[1..], b[1..])
  {
    if k: nat :| DifferAt(a, b, k) {
      DifferHere(a, b, k);
      DifferLater(a, b, k - 1);
    }
    if k: nat :| DifferAt(a[1..], b[1..], k) {
      DifferLater(a, b, k);
    }
  }

  lemma BeforeHeads(a: string, b: string)
    requires a != "" && b != "" && a[0] != b[0]
    ensures Before(a, b) <==> a[0] < b[0]
  {
    if k: nat :| DifferAt(a, b, k) {
      DifferHere(a, b, k);
    }
    if a[0] < b[0] {
      assert DifferAt(a, b, 0);
    }
  }

  lemma BeforeEmpty(a: string)
    ensures !Before(a, "") && (Before("", a) <==> a != "")
  {
    if a != "" {
      assert DifferAt("", a, 0);
    }
  }

  /** The order is that of the first difference, a text comes after its own prefixes, and only equal texts are
      equal. */
  lemma {:induction false} OrderMeaning(a: string, b: string)
    ensures Order(a, b) < 0 <==> Before(a, b)
    ensures Order(a, b) > 0 <==> Before(b, a)
    ensures Order(a, b) == 0 <==> a == b
  {
    if a == "" || b == "" {
      BeforeEmpty(a);
      BeforeEmpty(b);
    } else if a[0] != b[0] {
      BeforeHeads(a, b);
      BeforeHeads(b, a);
    } else {
      OrderMeaning(a[1..], b[1..]);
      BeforeTails(a, b);
      BeforeTails(b, a);
      assert a == [a[0]] + a[1..] && b == [b[0]] + b[1..];
    }
  }

  lemma OrderSwapped(a: string, b: string)
    ensures Order(a, b) < 0 <==> Order(b, a) > 0
    ensures Order(a, b) == 0 <==> Order(b, a) == 0
  {
    OrderMeaning(a, b);
    OrderMeaning(b, a);
  }

  /** What each operator says about two texts. */
  ghost predicate TextsCompare(op: CompareOperator, a: string, b: string) {
    match op
    case Equals => a == b
    case NotEquals => a != b
    case Less => Before(a, b)
    case LessOrEqual => Before(a, b) || a == b
    case Greater => Before(b, a)
    case GreaterOrEqual => Before(b, a) || a == b
  }

  lemma TextMeaning(op: CompareOperator, a: string, b: string)
    ensures Matches(op, Order(a, b), 0) <==> TextsCompare(op, a, b)
  {
    OrderMeaning(a, b);
  }

  /** The answer of a filter on one field: none when a number was asked for and there is none. */
  ghost function Verdict(field: string, filter: WhereClause): Option<bool> {
    if filter.value.kind == NumberLiteral then
      if IsId(field) && IsId(filter.value.text)
      then Some(Matches(filter.op, IdOf(field), IdOf(filter.value.text)))
      else None
    else Some(Matches(filter.op, Order(field, filter.value.text), 0))
  }

  /** The same filter with its literal taken as a number. */
  function AsNumber(filter: WhereClause): WhereClause {
    filter.(value := Literal(NumberLiteral, filter.value.text))
  }

  /** The rows whose field in `column` passes the filter, in the given order. */
  ghost function Passing(rows: seq<Row>, column: nat, filter: WhereClause): seq<Row>
    requires forall i :: 0 <= i < |rows| ==> column < |rows[i].fields|
  {
    if rows == [] then []
    else
      (if Verdict(rows[0].fields[column], filter) == Some(true) then [rows[0]] else [])
      + Passing(rows[1..], column, filter)
  }

  lemma {:induction false} PassingConcat(a: seq<Row>, b: seq<Row>, column: nat, filter: WhereClause)
    requires forall i :: 0 <= i < |a| ==> column < |a[i].fields|
    requires forall i :: 0 <= i < |b| ==> column < |b[i].fields|
    ensures forall i :: 0 <= i < |a + b| ==> column < |(a + b)[i].fields|
    ensures Passing(a + b, column, filter) == Passing(a, column, filter) + Passing(b, column, filter)
  {
    if a == [] {
      assert a + b == b;
    } else {
      assert (a + b)[1..] == a[1..] + b;
      PassingConcat(a[1..], b, column, filter);
      Reassociate(if Verdict(a[0].fields[column], filter) == Some(true) then [a[0]] else [],
                  Passing(a[1..], column, filter), Passing(b, column, filter));
    }
  }

  /** A row passes exactly when it is one of the rows and its field satisfies the filter. */
  lemma {:induction false} PassingMeaning(rows: seq<Row>, column: nat, filter: WhereClause, row: Row)
    requires forall i :: 0 <= i < |rows| ==> column < |rows[i].fields|
    ensures row in Passing(rows, column, filter) <==>
      row in rows && column < |row.fields| && Verdict(row.fields[column], filter) == Some(true)
  {
    if rows != [] {
      PassingMeaning(rows[1..], column, filter, row);
      assert rows == [rows[0]] + rows[1..];
    }
  }

  lemma {:induction false} PassingDistinct(rows: seq<Row>, column: nat, filter: WhereClause)
    requires forall i :: 0 <= i < |rows| ==> column < |rows[i].fields|
    requires NoRepeats(rows)
    ensures NoRepeats(Passing(rows, column, filter))
  {
    if rows != [] {
      var rest := Passing(rows[1..], column, filter);
      PassingDistinct(rows[1..], column, filter);
      PassingMeaning(rows[1..], column, filter, rows[0]);
      assert rows[0] !in rows[1..];
    }
  }

  // ---------------------------------------------------------------- sequences without repetition

  ghost predicate NoRepeats<T(!new)>(s: seq<T>) {
    forall i, j :: 0 <= i < j < |s| ==> s[i] != s[j]
  }

  lemma {:induction false} NoRepeatsOnce<T(!new)>(s: seq<T>, x: T)
    requires NoRepeats(s)
    ensures multiset(s)[x] == if x in s then 1 else 0
  {
    if s != [] {
      NoRepeatsOnce(s[1..], x);
      assert s == [s[0]] + s[1..];
      assert multiset(s) == multiset{s[0]} + multiset(s[1..]);
    }
  }

  /** Two repetition-free sequences of the same elements are permutations of each other. */
  lemma SameElements<T(!new)>(a: seq<T>, b: seq<T>)
    requires NoRepeats(a) && NoRepeats(b) && forall x :: x in a <==> x in b
    ensures multiset(a) == multiset(b)
  {
    forall x ensures multiset(a)[x] == multiset(b)[x] {
      NoRepeatsOnce(a, x);
      NoRepeatsOnce(b, x);
    }
  }

  // ---------------------------------------------------------------- output

  /** The chosen columns, in the chosen order. */
  function Pick(fields: seq<string>, indices: seq<nat>): (r: seq<string>)
    requires forall i :: 0 <= i < |indices| ==> indices[i] < |fields|
    ensures |r| == |indices| && forall i :: 0 <= i < |r| ==> r[i] == fields[indices[i]]
  {
    seq(|indices|, i requires 0 <= i < |indices| => fields[indices[i]])
  }

  /** The output lines of some rows. */
  ghost function Rendered(rows: seq<Row>, indices: seq<nat>, width: nat): string
    requires forall i :: 0 <= i < |indices| ==> indices[i] < width
    requires forall i :: 0 <= i < |rows| ==> |rows[i].fields| == width
  {
    if rows == [] then ""
    else Rendered(rows[..|rows| - 1], indices, width) + StoredLine(Pick(rows[|rows| - 1].fields, indices))
  }

  lemma RenderedPush(rows: seq<Row>, row: Row, indices: seq<nat>, width: nat)
    requires forall i :: 0 <= i < |indices| ==> indices[i] < width
    requires forall i :: 0 <= i < |rows| ==> |rows[i].fields| == width
    requires |row.fields| == width
    ensures Rendered(rows + [row], indices, width)
      == Rendered(rows, indices, width) + StoredLine(Pick(row.fields, indices))
  {
    assert (rows + [row])[..|rows|] == rows;
  }

  /** `write_csv_projection`: one output line. */
  method WriteProjection(output: string, fields: seq<string>, indices: seq<nat>) returns (output': string)
    requires forall i :: 0 <= i < |indices| ==> indices[i] < |fields|
    ensures output' == output + StoredLine(Pick(fields, indices))
  {
    ghost var picked := Pick(fields, indices);
    output' := output;
    for index := 0 to |indices|
      invariant output' == output + Join(picked[..index])
    {
      assert picked[..index + 1] == picked[..index] + [picked[index]];
      if index > 0 {
        JoinPush(picked[..index], picked[index]);
        output' := output' + ",";
      }
      output' := output' + fields[indices[index]];
    }
    assert picked[..|indices|] == picked;
    output' := output' + "\n";
  }

  /** The columns a SELECT list stands for. */
  ghost predicate Projects(columns: seq<string>, list: ColumnList, indices: seq<nat>) {
    && (forall i :: 0 <= i < |indices| ==> indices[i] < |columns|)
    && if list.isStar then |indices| == |columns| && forall i :: 0 <= i < |indices| ==> indices[i] == i
       else |indices| == |list.items| && forall i :: 0 <= i < |indices| ==> FoundAt(columns, list.items[i], indices[i])
  }

  lemma ProjectsAt(columns: seq<string>, list: ColumnList, indices: seq<nat>, i: nat)
    requires Projects(columns, list, indices) && !list.isStar && i < |list.items|
    ensures i < |indices| && FoundAt(columns, list.items[i], indices[i])
  {
  }

  /** `build_output_indices`: fails on a column the table does not have. */
  method BuildOutputIndices(columns: seq<string>, list: ColumnList) returns (ok: bool, indices: seq<nat>)
    ensures ok <==> exists p :: Projects(columns, list, p)
    ensures ok ==> Projects(columns, list, indices)
  {
    indices := [];
    if list.isStar {
      for index := 0 to |columns|
        invariant |indices| == index && forall i :: 0 <= i < index ==> indices[i] == i
      {
        indices := indices + [index];
      }
      assert Projects(columns, list, indices);
      return true, indices;
    }
    for index := 0 to |list.items|
      invariant |indices| == index
      invariant forall i :: 0 <= i < index ==> indices[i] < |columns| && FoundAt(columns, list.items[i], indices[i])
    {
      var column := FindColumn(columns, list.items[index]);
      if column < 0 {
        forall p ensures !Projects(columns, list, p) {
          if Projects(columns, list, p) {
            ProjectsAt(columns, list, p, index);
          }
        }
        return false, indices;
      }
      indices := indices + [column];
    }
    assert Projects(columns, list, indices);
    ok := true;
  }

  // ---------------------------------------------------------------- the scan

  /** The answer of the whole WHERE clause on a row; none is an error. */
  ghost function RowVerdict(row: Row, columns: seq<string>, hasWhere: bool, filter: WhereClause): Option<bool>
    requires |row.fields| == |columns|
  {
    if !hasWhere then Some(true)
    else
      var at := ColumnAt(columns, filter.column);
      if at < 0 then None else Verdict(row.fields[at], filter)
  }

  ghost predicate AllWide(rows: seq<Row>, width: nat) {
    forall i :: 0 <= i < |rows| ==> |rows[i].fields| == width
  }

  /** The WHERE clause makes sense on every row. */
  ghost predicate Decidable(rows: seq<Row>, columns: seq<string>, hasWhere: bool, filter: WhereClause)
    requires AllWide(rows, |columns|)
  {
    forall i :: 0 <= i < |rows| ==> RowVerdict(rows[i], columns, hasWhere, filter).Some?
  }

  /** What a scan returns: the rows that satisfy the WHERE clause, in file order. */
  ghost function ScanResult(rows: seq<Row>, columns: seq<string>, hasWhere: bool, filter: WhereClause): seq<Row>
    requires AllWide(rows, |columns|)
  {
    if !hasWhere then rows
    else
      var at := ColumnAt(columns, filter.column);
      if at < 0 then [] else Passing(rows, at, filter)
  }

  lemma ScanResultPush(rows: seq<Row>, row: Row, columns: seq<string>, hasWhere: bool, filter: WhereClause)
    requires AllWide(rows, |columns|) && |row.fields| == |columns|
    ensures AllWide(rows + [row], |columns|)
    ensures ScanResult(rows + [row], columns, hasWhere, filter) == ScanResult(rows, columns, hasWhere, filter)
      + (if RowVerdict(row, columns, hasWhere, filter) == Some(true) then [row] else [])
  {
    if hasWhere && ColumnAt(columns, filter.column) >= 0 {
      PassingConcat(rows, [row], ColumnAt(columns, filter.column), filter);
      assert [row][1..] == [];
    }
  }

  /** `row_matches_filter`, with its error as `None`. */
  method RowMatches(fields: seq<string>, columns: seq<string>, hasWhere: bool, filter: WhereClause)
    returns (r: Option<bool>)
    requires |fields| == |columns|
    ensures r == RowVerdict(Row(0, fields), columns, hasWhere, filter)
    ensures hasWhere && r.Some? && filter.value.kind == StringLiteral ==>
      exists at :: 0 <= at < |columns| && FoundAt(columns, filter.column, at)
        && r.value == TextsCompare(filter.op, fields[at], filter.value.text)
  {
    if !hasWhere {
      return Some(true);
    }
    var column := FindColumn(columns, filter.column);
    SameColumn(columns, filter.column, filter.column, column);
    if column < 0 {
      return None;
    }
    if filter.value.kind == NumberLiteral {
      var left := ParseIntStrict(fields[column]);
      var right := ParseIntStrict(filter.value.text);
      if left.None? || right.None? {
        return None;
      }
      IdIs(fields[column], left.value);
      IdIs(filter.value.text, right.value);
      var comparison := (if left.value > right.value then 1 else 0) - (if left.value < right.value then 1 else 0);
      return Some(Matches(filter.op, comparison, 0));
    }
    r := Some(Matches(filter.op, Order(fields[column], filter.value.text), 0));
    TextMeaning(filter.op, fields[column], filter.value.text);
  }

  /** Of `all` rows, `done` have been scanned without error and `rest` are to come. */
  ghost predicate Scanning(all: seq<Row>, done: seq<Row>, rest: seq<Row>, columns: seq<string>, hasWhere: bool,
                           filter: WhereClause, indices: seq<nat>, header: string, output: string, passed: seq<Row>)
    requires forall i :: 0 <= i < |indices| ==> indices[i] < |columns|
  {
    forall b {:trigger Seal(b)} :: Seal(b) ==>
      && all == done + rest && AllWide(all, |columns|) && AllWide(done, |columns|) && AllWide(passed, |columns|)
      && Decidable(done, columns, hasWhere, filter)
      && passed == ScanResult(done, columns, hasWhere, filter)
      && output == header + Rendered(passed, indices, |columns|)
  }

  lemma ScanStarts(all: seq<Row>, columns: seq<string>, hasWhere: bool, filter: WhereClause, indices: seq<nat>,
                   header: string)
    requires AllWide(all, |columns|) && forall i :: 0 <= i < |indices| ==> indices[i] < |columns|
    ensures Scanning(all, [], all, columns, hasWhere, filter, indices, header, header, [])
  {
  }

  lemma ScanRowWide(all: seq<Row>, done: seq<Row>, row: Row, rest: seq<Row>, columns: seq<string>, hasWhere: bool,
                    filter: WhereClause, indices: seq<nat>, header: string, output: string, passed: seq<Row>)
    requires forall i :: 0 <= i < |indices| ==> indices[i] < |columns|
    requires Scanning(all, done, [row] + rest, columns, hasWhere, filter, indices, header, output, passed)
    ensures |row.fields| == |columns|
  {
    assert Seal(true);
    assert all[|done|] == row;
  }

  lemma DecidablePush(rows: seq<Row>, row: Row, columns: seq<string>, hasWhere: bool, filter: WhereClause)
    requires AllWide(rows, |columns|) && Decidable(rows, columns, hasWhere, filter)
    requires |row.fields| == |columns| && RowVerdict(row, columns, hasWhere, filter).Some?
    ensures AllWide(rows + [row], |columns|) && Decidable(rows + [row], columns, hasWhere, filter)
  {
  }

  /** The next row passes: it is written. */
  lemma ScanHit(all: seq<Row>, done: seq<Row>, row: Row, rest: seq<Row>, columns: seq<string>, hasWhere: bool,
                filter: WhereClause, indices: seq<nat>, header: string, output: string, passed: seq<Row>)
    requires forall i :: 0 <= i < |indices| ==> indices[i] < |columns|
    requires Scanning(all, done, [row] + rest, columns, hasWhere, filter, indices, header, output, passed)
    requires |row.fields| == |columns| && RowVerdict(row, columns, hasWhere, filter) == Some(true)
    ensures Scanning(all, done + [row], rest, columns, hasWhere, filter, indices, header,
                     output + StoredLine(Pick(row.fields, indices)), passed + [row])
  {
    assert Seal(true);
    Reassociate(done, [row], rest);
    DecidablePush(done, row, columns, hasWhere, filter);
    ScanResultPush(done, row, columns, hasWhere, filter);
    RenderedPush(passed, row, indices, |columns|);
    Reassociate(header, Rendered(passed, indices, |columns|), StoredLine(Pick(row.fields, indices)));
  }

  /** The next row does not pass: nothing is written. */
  lemma ScanMiss(all: seq<Row>, done: seq<Row>, row: Row, rest: seq<Row>, columns: seq<string>, hasWhere: bool,
                 filter: WhereClause, indices: seq<nat>, header: string, output: string, passed: seq<Row>)
    requires forall i :: 0 <= i < |indices| ==> indices[i] < |columns|
    requires Scanning(all, done, [row] + rest, columns, hasWhere, filter, indices, header, output, passed)
    requires |row.fields| == |columns| && RowVerdict(row, columns, hasWhere, filter) == Some(false)
    ensures Scanning(all, done + [row], rest, columns, hasWhere, filter, indices, header, output, passed)
  {
    assert Seal(true);
    Reassociate(done, [row], rest);
    DecidablePush(done, row, columns, hasWhere, filter);
    ScanResultPush(done, row, columns, hasWhere, filter);
  }

  lemma ScanStuck(all: seq<Row>, done: seq<Row>, row: Row, rest: seq<Row>, columns: seq<string>, hasWhere: bool,
                  filter: WhereClause, indices: seq<nat>, header: string, output: string, passed: seq<Row>)
    requires forall i :: 0 <= i < |indices| ==> indices[i] < |columns|
    requires Scanning(all, done, [row] + rest, columns, hasWhere, filter, indices, header, output, passed)
    requires |row.fields| == |columns| && RowVerdict(row, columns, hasWhere, filter).None?
    ensures AllWide(all, |columns|) && !Decidable(all, columns, hasWhere, filter)
  {
    assert Seal(true);
    assert all[|done|] == row;
  }

  lemma ScanEnds(all: seq<Row>, done: seq<Row>, columns: seq<string>, hasWhere: bool, filter: WhereClause,
                 indices: seq<nat>, header: string, output: string, passed: seq<Row>)
    requires forall i :: 0 <= i < |indices| ==> indices[i] < |columns|
    requires Scanning(all, done, [], columns, hasWhere, filter, indices, header, output, passed)
    ensures AllWide(all, |columns|) && Decidable(all, columns, hasWhere, filter) && AllWide(passed, |columns|)
    ensures done == all && passed == ScanResult(all, columns, hasWhere, filter)
    ensures output == header + Rendered(passed, indices, |columns|)
  {
    assert Seal(true);
    assert done + [] == done;
  }

  // ---------------------------------------------------------------- rows through the index

  /** `found` are the rows the index entries `es` point at, in that order. */
  ghost predicate PointsAt(es: seq<Entry>, found: seq<Row>, rows: seq<Row>, width: nat, idColumn: nat) {
    && |found| == |es|
    && forall i :: 0 <= i < |es| ==>
         && found[i] in rows && GoodRow(found[i], width, idColumn)
         && Id(found[i], idColumn) == es[i].key && found[i].offset == es[i].value
  }

  /** After `header`, `output` holds the lines of the rows `found` that `es` point at. */
  ghost predicate Emitted(es: seq<Entry>, found: seq<Row>, rows: seq<Row>, width: nat, idColumn: nat, indices: seq<nat>,
                          header: string, output: string)
    requires forall i :: 0 <= i < |indices| ==> indices[i] < width
  {
    forall b {:trigger Seal(b)} :: Seal(b) ==>
      PointsAt(es, found, rows, width, idColumn) && output == header + Rendered(found, indices, width)
  }

  lemma EmittedNothing(rows: seq<Row>, width: nat, idColumn: nat, indices: seq<nat>, header: string)
    requires forall i :: 0 <= i < |indices| ==> indices[i] < width
    ensures Emitted([], [], rows, width, idColumn, indices, header, header)
  {
  }

  lemma EmittedPush(es: seq<Entry>, i: nat, found: seq<Row>, row: Row, rows: seq<Row>, width: nat, idColumn: nat,
                    indices: seq<nat>, header: string, output: string)
    requires i < |es| && forall k :: 0 <= k < |indices| ==> indices[k] < width
    requires Emitted(es[..i], found, rows, width, idColumn, indices, header, output)
    requires row in rows && GoodRow(row, width, idColumn) && Id(row, idColumn) == es[i].key && row.offset == es[i].value
    ensures Emitted(es[..i + 1], found + [row], rows, width, idColumn, indices, header,
                    output + StoredLine(Pick(row.fields, indices)))
  {
    assert Seal(true);
    assert es[..i + 1] == es[..i] + [es[i]];
    RenderedPush(found, row, indices, width);
    Reassociate(header, Rendered(found, indices, width), StoredLine(Pick(row.fields, indices)));
  }

  lemma EmittedAll(es: seq<Entry>, found: seq<Row>, rows: seq<Row>, width: nat, idColumn: nat, indices: seq<nat>,
                   header: string, output: string)
    requires forall i :: 0 <= i < |indices| ==> indices[i] < width
    requires Emitted(es, found, rows, width, idColumn, indices, header, output)
    ensures PointsAt(es, found, rows, width, idColumn) && output == header + Rendered(found, indices, width)
  {
    assert Seal(true);
  }

  /** The callback of an indexed SELECT: the row read at the entry's offset has the right number of fields. */
  function Readable(text: string, width: nat, offset: int): bool {
    0 <= offset < |text| && FieldCount(Trim(text[offset..ReadEnd(text, offset)])) == width
  }

  ghost predicate AllReadable(es: seq<Entry>, text: string, width: nat) {
    forall i :: 0 <= i < |es| ==> Readable(text, width, es[i].value)
  }

  ghost predicate AllInMap(es: seq<Entry>, m: map<int, int>) {
    forall i :: 0 <= i < |es| ==> es[i].key in m && m[es[i].key] == es[i].value
  }

  function RowCheck(text: string, width: nat): Callback {
    (calls: seq<Entry>) => |calls| > 0 && Readable(text, width, calls[|calls| - 1].value)
  }

  lemma RefusedCall(selection: seq<Entry>, visit: Callback, calls: seq<Entry>)
    requires Visited(selection, visit, calls, false)
    ensures 0 < |calls| <= |selection| && calls[|calls| - 1] == selection[|calls| - 1] && !visit(calls)
  {
  }

  /** No callback refuses: the visit goes through. */
  lemma VisitSucceeds(selection: seq<Entry>, text: string, width: nat, calls: seq<Entry>, ok: bool)
    requires Visited(selection, RowCheck(text, width), calls, ok)
    requires AllReadable(selection, text, width)
    ensures ok && calls == selection
  {
    if !ok {
      RefusedCall(selection, RowCheck(text, width), calls);
    }
  }

  ghost predicate AscendingIds(rows: seq<Row>, width: nat, idColumn: nat) {
    && AllGood(rows, width, idColumn)
    && forall i, j :: 0 <= i < j < |rows| ==> Id(rows[i], idColumn) < Id(rows[j], idColumn)
  }

  lemma DistinctOffsets(rows: seq<Row>)
    requires forall i, j :: 0 <= i < j < |rows| ==> rows[i].offset < rows[j].offset
    ensures NoRepeats(rows)
  {
  }

  /** A numeric filter on the id column compares ids. */
  lemma IdVerdict(row: Row, width: nat, idColumn: nat, filter: WhereClause, key: int)
    requires GoodRow(row, width, idColumn) && filter.value.kind == NumberLiteral && Denotes(filter.value.text, key)
    ensures Verdict(row.fields[idColumn], filter) == Some(Matches(filter.op, Id(row, idColumn), key))
  {
    IdIs(filter.value.text, key);
  }

  /** The index entry of a row. */
  lemma EntryOfRow(es: seq<Entry>, rows: seq<Row>, m: map<int, int>, width: nat, idColumn: nat, row: Row)
    returns (i: nat)
    requires Ascending(es) && m == Contents(es) && Agrees(m, rows, width, idColumn) && row in rows
    ensures GoodRow(row, width, idColumn) && i < |es| && es[i].key == Id(row, idColumn)
  {
    var n :| 0 <= n < |rows| && rows[n] == row;
    assert GoodRow(rows[n], width, idColumn);
    ContentsRepresents(es);
    assert HasKey(es, Id(row, idColumn));
    i :| 0 <= i < |es| && es[i].key == Id(row, idColumn);
  }

  /** A row the scan passes is found through the index. */
  lemma PassedIsFound(es: seq<Entry>, found: seq<Row>, rows: seq<Row>, m: map<int, int>, width: nat, idColumn: nat,
                      filter: WhereClause, key: int, row: Row)
    requires Ascending(es) && m == Contents(es) && Agrees(m, rows, width, idColumn) && Indexable(rows, width, idColumn)
    requires PointsAt(Select(es, filter.op, key), found, rows, width, idColumn)
    requires filter.value.kind == NumberLiteral && Denotes(filter.value.text, key)
    requires row in rows && idColumn < |row.fields| && Verdict(row.fields[idColumn], filter) == Some(true)
    ensures row in found
  {
    var sel := Select(es, filter.op, key);
    var i := EntryOfRow(es, rows, m, width, idColumn, row);
    IdVerdict(row, width, idColumn, filter, key);
    SelectionMeaning(es, filter.op, key);
    assert es[i] in sel;
    var j :| 0 <= j < |sel| && sel[j] == es[i];
    SameIdSameRow(rows, row, found[j], width, idColumn);
    assert found[j] == row;
  }

  /** A row found through the index passes the scan. */
  lemma FoundIsPassed(es: seq<Entry>, found: seq<Row>, rows: seq<Row>, width: nat, idColumn: nat, filter: WhereClause,
                      key: int, row: Row)
    requires Ascending(es) && PointsAt(Select(es, filter.op, key), found, rows, width, idColumn)
    requires filter.value.kind == NumberLiteral && Denotes(filter.value.text, key)
    requires row in found
    ensures row in rows && idColumn < |row.fields| && Verdict(row.fields[idColumn], filter) == Some(true)
  {
    var sel := Select(es, filter.op, key);
    var j :| 0 <= j < |found| && found[j] == row;
    SelectionMeaning(es, filter.op, key);
    assert sel[j] in sel;
    IdVerdict(row, width, idColumn, filter, key);
  }

  /** Taken as a number, the filter passes exactly the rows whose id compares that way with its literal. */
  lemma NumberMeaning(rows: seq<Row>, width: nat, idColumn: nat, filter: WhereClause, row: Row)
    requires AllGood(rows, width, idColumn) && IsId(filter.value.text) && idColumn < width
    ensures forall i :: 0 <= i < |rows| ==> idColumn < |rows[i].fields|
    ensures row in Passing(rows, idColumn, AsNumber(filter)) <==>
      row in rows && GoodRow(row, width, idColumn) && Matches(filter.op, Id(row, idColumn), IdOf(filter.value.text))
  {
    PassingMeaning(rows, idColumn, AsNumber(filter), row);
    if row in rows {
      var i :| 0 <= i < |rows| && rows[i] == row;
      IdVerdict(row, width, idColumn, AsNumber(filter), IdOf(filter.value.text));
    }
  }

  lemma FoundRow(es: seq<Entry>, found: seq<Row>, rows: seq<Row>, m: map<int, int>, width: nat, idColumn: nat,
                 filter: WhereClause, key: int, row: Row)
    requires Ascending(es) && m == Contents(es) && Agrees(m, rows, width, idColumn) && Indexable(rows, width, idColumn)
    requires PointsAt(Select(es, filter.op, key), found, rows, width, idColumn)
    requires filter.value.kind == NumberLiteral && Denotes(filter.value.text, key)
    ensures row in found <==> row in Passing(rows, idColumn, filter)
  {
    PassingMeaning(rows, idColumn, filter, row);
    if row in found {
      FoundIsPassed(es, found, rows, width, idColumn, filter, key, row);
    }
    if row in Passing(rows, idColumn, filter) {
      PassedIsFound(es, found, rows, m, width, idColumn, filter, key, row);
    }
  }

  lemma SameIdSameRow(rows: seq<Row>, a: Row, b: Row, width: nat, idColumn: nat)
    requires Indexable(rows, width, idColumn) && a in rows && b in rows
    requires GoodRow(a, width, idColumn) && GoodRow(b, width, idColumn) && Id(a, idColumn) == Id(b, idColumn)
    ensures a == b
  {
    var i :| 0 <= i < |rows| && rows[i] == a;
    var j :| 0 <= j < |rows| && rows[j] == b;
  }

  lemma FoundAscending(sel: seq<Entry>, found: seq<Row>, rows: seq<Row>, width: nat, idColumn: nat)
    requires Ascending(sel) && PointsAt(sel, found, rows, width, idColumn)
    ensures AscendingIds(found, width, idColumn) && NoRepeats(found)
  {
    forall i, j | 0 <= i < j < |found| ensures found[i] != found[j] {
      assert Id(found[i], idColumn) < Id(found[j], idColumn);
    }
  }

  /** `found` is a permutation of the rows the scan passes. */
  ghost predicate SameRowsAsScan(found: seq<Row>, rows: seq<Row>, width: nat, column: nat, filter: WhereClause) {
    && (forall i :: 0 <= i < |rows| ==> |rows[i].fields| == width) && column < width
    && multiset(found) == multiset(Passing(rows, column, filter)) && |found| == |Passing(rows, column, filter)|
  }

  /** Indexed SELECT refines the scan: the same rows, reordered by ascending id. */
  lemma IndexRefinesScan(es: seq<Entry>, found: seq<Row>, rows: seq<Row>, m: map<int, int>, width: nat, idColumn: nat,
                         filter: WhereClause, key: int)
    requires Ascending(es) && m == Contents(es) && Agrees(m, rows, width, idColumn) && Indexable(rows, width, idColumn)
    requires forall i, j :: 0 <= i < j < |rows| ==> rows[i].offset < rows[j].offset
    requires PointsAt(Select(es, filter.op, key), found, rows, width, idColumn)
    requires filter.value.kind == NumberLiteral && Denotes(filter.value.text, key)
    requires idColumn < width
    ensures AscendingIds(found, width, idColumn) && SameRowsAsScan(found, rows, width, idColumn, filter)
  {
    SelectionMeaning(es, filter.op, key);
    FoundAscending(Select(es, filter.op, key), found, rows, width, idColumn);
    DistinctOffsets(rows);
    PassingDistinct(rows, idColumn, filter);
    forall row ensures row in found <==> row in Passing(rows, idColumn, filter) {
      FoundRow(es, found, rows, m, width, idColumn, filter, key, row);
    }
    SameElements(found, Passing(rows, idColumn, filter));
    assert |found| == |multiset(found)| == |multiset(Passing(rows, idColumn, filter))|;
  }
}
