/** From the columns and values of an INSERT to a row in table order. */
module InsertRow {
  import opened Machine
  import opened Names
  import opened Decimal
  import opened Ast
  import opened TableIndex

  /** The last of the first `n` names that stands for column `j`; a later one overrides an earlier one. */
  ghost function LastFor(columns: seq<string>, names: seq<string>, n: nat, j: nat): (i: int)
    requires n <= |names|
    ensures -1 <= i < n
    ensures i >= 0 ==> FoundAt(columns, names[i], j)
    ensures forall k :: i < k < n ==> !FoundAt(columns, names[k], j)
  {
    if n == 0 then -1
    else if FoundAt(columns, names[n - 1], j) then n - 1
    else LastFor(columns, names, n - 1, j)
  }

  ghost predicate Known(columns: seq<string>, name: string) {
    exists j :: 0 <= j < |columns| && SameName(columns[j], name)
  }

  /** A value for every column, in table order. */
  ghost predicate AllGiven(columns: seq<string>, stmt: InsertStatement, row: seq<string>) {
    |stmt.values| == |columns| == |row| && forall j :: 0 <= j < |row| ==> row[j] == stmt.values[j].text
  }

  /** Column `j` of a row whose id is generated. */
  ghost function CellAround(values: seq<Literal>, idColumn: nat, nextId: int, j: nat): string
    requires idColumn <= |values| && j <= |values|
  {
    if j < idColumn then values[j].text else if j == idColumn then Print(nextId) else values[j - 1].text
  }

  /** A value for every column but the id. */
  ghost predicate IdOmitted(columns: seq<string>, idColumn: nat, nextId: int, stmt: InsertStatement, row: seq<string>) {
    && idColumn < |columns| && |stmt.values| == |columns| - 1 && |row| == |columns|
    && forall j :: 0 <= j < |row| ==> row[j] == CellAround(stmt.values, idColumn, nextId, j)
  }

  /** Values by column name; only the id may be missing. */
  ghost predicate ByName(columns: seq<string>, idColumn: nat, nextId: int, stmt: InsertStatement, row: seq<string>) {
    var names := stmt.columns.items;
    && |names| == |stmt.values| && |row| == |columns|
    && (forall i :: 0 <= i < |names| ==> Known(columns, names[i]))
    && forall j :: 0 <= j < |row| ==>
         var i := LastFor(columns, names, |names|, j);
         if i >= 0 then row[j] == stmt.values[i].text else j == idColumn && row[j] == Print(nextId)
  }

  /** `row` is the row the statement asks for. */
  ghost predicate RowFor(columns: seq<string>, idColumn: nat, nextId: int, stmt: InsertStatement, row: seq<string>) {
    if stmt.columns.items == [] then AllGiven(columns, stmt, row) || IdOmitted(columns, idColumn, nextId, stmt, row)
    else ByName(columns, idColumn, nextId, stmt, row)
  }

  /** A statement asks for at most one row. */
  lemma RowForOne(columns: seq<string>, idColumn: nat, nextId: int, stmt: InsertStatement, row: seq<string>,
                  row': seq<string>)
    requires RowFor(columns, idColumn, nextId, stmt, row) && RowFor(columns, idColumn, nextId, stmt, row')
    ensures row == row'
  {
    assert |row| == |row'|;
    forall j | 0 <= j < |row| ensures row[j] == row'[j] {
    }
  }

  // ---------------------------------------------------------------- what the statement says about each column

  /** The values as they are written, in order. */
  ghost function Texts(values: seq<Literal>): (r: seq<string>)
    ensures |r| == |values| && forall i :: 0 <= i < |r| ==> r[i] == values[i].text
  {
    seq(|values|, i requires 0 <= i < |values| => values[i].text)
  }

  /** Without the generated id the row is the list of values, in order. */
  ghost predicate AroundId(idColumn: nat, nextId: int, values: seq<Literal>, row: seq<string>) {
    idColumn < |row| && row[idColumn] == Print(nextId) && row[..idColumn] + row[idColumn + 1..] == Texts(values)
  }

  lemma WithoutOne<T>(row: seq<T>, i: nat, j: nat)
    requires i < |row| && j < |row| - 1
    ensures (row[..i] + row[i + 1..])[j] == row[if j < i then j else j + 1]
  {
  }

  lemma OmittedIsAround(columns: seq<string>, idColumn: nat, nextId: int, stmt: InsertStatement, row: seq<string>)
    requires IdOmitted(columns, idColumn, nextId, stmt, row)
    ensures AroundId(idColumn, nextId, stmt.values, row)
  {
    var rest := row[..idColumn] + row[idColumn + 1..];
    forall j | 0 <= j < |rest| ensures rest[j] == stmt.values[j].text {
      WithoutOne(row, idColumn, j);
    }
  }

  lemma AroundCell(idColumn: nat, nextId: int, values: seq<Literal>, row: seq<string>, j: nat)
    requires AroundId(idColumn, nextId, values, row) && j < |row|
    ensures |values| == |row| - 1 && row[j] == CellAround(values, idColumn, nextId, j)
  {
    assert |row[..idColumn] + row[idColumn + 1..]| == |row| - 1;
    if j < idColumn {
      WithoutOne(row, idColumn, j);
    } else if j > idColumn {
      WithoutOne(row, idColumn, j - 1);
    }
  }

  lemma AroundIsOmitted(columns: seq<string>, idColumn: nat, nextId: int, stmt: InsertStatement, row: seq<string>)
    requires |row| == |columns| && AroundId(idColumn, nextId, stmt.values, row)
    ensures IdOmitted(columns, idColumn, nextId, stmt, row)
  {
    AroundCell(idColumn, nextId, stmt.values, row, 0);
    forall j | 0 <= j < |row| ensures row[j] == CellAround(stmt.values, idColumn, nextId, j) {
      AroundCell(idColumn, nextId, stmt.values, row, j);
    }
  }

  /** The `i`-th name finds a column, and there stands the `i`-th value. */
  ghost predicate Placed(columns: seq<string>, stmt: InsertStatement, row: seq<string>, i: nat)
    requires |stmt.columns.items| == |stmt.values| && |row| == |columns| && i < |stmt.values|
  {
    exists j :: 0 <= j < |columns| && FoundAt(columns, stmt.columns.items[i], j) && row[j] == stmt.values[i].text
  }

  ghost predicate Named(columns: seq<string>, names: seq<string>, j: nat) {
    exists i :: 0 <= i < |names| && FoundAt(columns, names[i], j)
  }

  /** Each named column gets the value of its name; the only column not named may be the id, which is generated. */
  ghost predicate PlacedByName(columns: seq<string>, idColumn: nat, nextId: int, stmt: InsertStatement,
                               row: seq<string>) {
    && |stmt.columns.items| == |stmt.values| && |row| == |columns|
    && (forall i :: 0 <= i < |stmt.values| ==> Placed(columns, stmt, row, i))
    && (forall j :: 0 <= j < |columns| && !Named(columns, stmt.columns.items, j) ==>
          j == idColumn && row[j] == Print(nextId))
  }

  lemma OneName(columns: seq<string>, names: seq<string>, i: nat, k: nat, j: nat)
    requires DistinctNames(names) && i < |names| && k < |names| && j < |columns|
    requires FoundAt(columns, names[i], j) && FoundAt(columns, names[k], j)
    ensures i == k
  {
  }

  lemma LastIsOnly(columns: seq<string>, names: seq<string>, i: nat, j: nat)
    requires DistinctNames(names) && i < |names| && j < |columns| && FoundAt(columns, names[i], j)
    ensures LastFor(columns, names, |names|, j) == i
  {
    var last := LastFor(columns, names, |names|, j);
    assert last >= i;
    OneName(columns, names, i, last, j);
  }

  lemma KnownFound(columns: seq<string>, name: string) returns (j: int)
    requires Known(columns, name)
    ensures 0 <= j < |columns| && FoundAt(columns, name, j)
  {
    j := ColumnAt(columns, name);
  }

  lemma ByNamePlaces(columns: seq<string>, idColumn: nat, nextId: int, stmt: InsertStatement, row: seq<string>)
    requires DistinctNames(stmt.columns.items) && ByName(columns, idColumn, nextId, stmt, row)
    ensures PlacedByName(columns, idColumn, nextId, stmt, row)
  {
    var names := stmt.columns.items;
    forall i | 0 <= i < |names| ensures Placed(columns, stmt, row, i) {
      var j := KnownFound(columns, names[i]);
      LastIsOnly(columns, names, i, j);
    }
    forall j | 0 <= j < |columns| && !Named(columns, names, j) ensures j == idColumn && row[j] == Print(nextId) {
      assert LastFor(columns, names, |names|, j) == -1;
    }
  }

  lemma PlacedCell(columns: seq<string>, idColumn: nat, nextId: int, stmt: InsertStatement, row: seq<string>, j: nat)
    requires DistinctNames(stmt.columns.items) && PlacedByName(columns, idColumn, nextId, stmt, row) && j < |columns|
    ensures var i := LastFor(columns, stmt.columns.items, |stmt.columns.items|, j);
      if i >= 0 then row[j] == stmt.values[i].text else j == idColumn && row[j] == Print(nextId)
  {
    var names := stmt.columns.items;
    var i := LastFor(columns, names, |names|, j);
    if i >= 0 {
      assert Placed(columns, stmt, row, i);
    } else {
      assert !Named(columns, names, j);
    }
  }

  lemma PlacesByName(columns: seq<string>, idColumn: nat, nextId: int, stmt: InsertStatement, row: seq<string>)
    requires DistinctNames(stmt.columns.items) && PlacedByName(columns, idColumn, nextId, stmt, row)
    ensures ByName(columns, idColumn, nextId, stmt, row)
  {
    var names := stmt.columns.items;
    forall i | 0 <= i < |names| ensures Known(columns, names[i]) {
      assert Placed(columns, stmt, row, i);
    }
    forall j | 0 <= j < |row|
      ensures var i := LastFor(columns, names, |names|, j);
        if i >= 0 then row[j] == stmt.values[i].text else j == idColumn && row[j] == Print(nextId)
    {
      PlacedCell(columns, idColumn, nextId, stmt, row, j);
    }
  }

  /** The row an INSERT asks for.  With names: under each name its value, a missing id generated.  Without: the values
      in order, all of them or all but the generated id. */
  lemma RowMeaning(columns: seq<string>, idColumn: nat, nextId: int, stmt: InsertStatement, row: seq<string>)
    requires idColumn < |columns| && |row| == |columns| && DistinctNames(stmt.columns.items)
    ensures stmt.columns.items != [] ==>
      (RowFor(columns, idColumn, nextId, stmt, row) <==> PlacedByName(columns, idColumn, nextId, stmt, row))
    ensures stmt.columns.items == [] ==>
      (RowFor(columns, idColumn, nextId, stmt, row) <==>
        row == Texts(stmt.values) || AroundId(idColumn, nextId, stmt.values, row))
  {
    if stmt.columns.items == [] {
      if IdOmitted(columns, idColumn, nextId, stmt, row) {
        OmittedIsAround(columns, idColumn, nextId, stmt, row);
      } else if AroundId(idColumn, nextId, stmt.values, row) {
        AroundIsOmitted(columns, idColumn, nextId, stmt, row);
      }
    } else if ByName(columns, idColumn, nextId, stmt, row) {
      ByNamePlaces(columns, idColumn, nextId, stmt, row);
    } else if PlacedByName(columns, idColumn, nextId, stmt, row) {
      PlacesByName(columns, idColumn, nextId, stmt, row);
    }
  }

  // ---------------------------------------------------------------- building the row

  method PlaceAll(columns: seq<string>, stmt: InsertStatement) returns (row: seq<string>)
    requires |stmt.values| == |columns|
    ensures AllGiven(columns, stmt, row)
  {
    row := [];
    for index := 0 to |columns|
      invariant |row| == index && forall j :: 0 <= j < index ==> row[j] == stmt.values[j].text
    {
      row := row + [stmt.values[index].text];
    }
  }

  method PlaceAroundId(columns: seq<string>, idColumn: nat, nextId: int, stmt: InsertStatement)
    returns (row: seq<string>)
    requires |stmt.values| == |columns| - 1 && idColumn < |columns|
    ensures IdOmitted(columns, idColumn, nextId, stmt, row)
  {
    row := [];
    var valueIndex := 0;
    for index := 0 to |columns|
      invariant |row| == index && valueIndex == if index <= idColumn then index else index - 1
      invariant forall j :: 0 <= j < index ==> row[j] == CellAround(stmt.values, idColumn, nextId, j)
    {
      if index == idColumn {
        row := row + [Print(nextId)];
        continue;
      }
      row := row + [stmt.values[valueIndex].text];
      valueIndex := valueIndex + 1;
    }
  }

  /** Puts each named value into its column; fails on an unknown name. */
  method Distribute(columns: seq<string>, stmt: InsertStatement) returns (ok: bool, cells: seq<Option<string>>)
    requires |stmt.columns.items| == |stmt.values|
    ensures ok <==> forall i :: 0 <= i < |stmt.columns.items| ==> Known(columns, stmt.columns.items[i])
    ensures ok ==> |cells| == |columns| && forall j :: 0 <= j < |cells| ==>
      var i := LastFor(columns, stmt.columns.items, |stmt.columns.items|, j);
      cells[j] == if i >= 0 then Some(stmt.values[i].text) else None
  {
    var names := stmt.columns.items;
    cells := seq(|columns|, _ => None);
    for index := 0 to |names|
      invariant |cells| == |columns| && forall i :: 0 <= i < index ==> Known(columns, names[i])
      invariant forall j :: 0 <= j < |cells| ==>
        var i := LastFor(columns, names, index, j); cells[j] == if i >= 0 then Some(stmt.values[i].text) else None
    {
      var column := FindColumn(columns, names[index]);
      if column < 0 {
        assert !Known(columns, names[index]);
        return false, cells;
      }
      assert SameName(columns[column], names[index]);
      forall j | 0 <= j < |columns| ensures FoundAt(columns, names[index], j) <==> j == column {
      }
      cells := cells[column := Some(stmt.values[index].text)];
    }
    ok := true;
  }

  /** Fills in the id and checks that nothing else is missing. */
  method Complete(columns: seq<string>, idColumn: nat, nextId: int, cells: seq<Option<string>>)
    returns (ok: bool, row: seq<string>)
    requires |cells| == |columns| && idColumn < |columns|
    ensures ok <==> forall j :: 0 <= j < |cells| ==> cells[j].Some? || j == idColumn
    ensures ok ==> |row| == |columns| && forall j :: 0 <= j < |row| ==>
      row[j] == if cells[j].Some? then cells[j].value else Print(nextId)
  {
    var filled := cells;
    if cells[idColumn].None? {
      filled := filled[idColumn := Some(Print(nextId))];
    }
    row := [];
    for index := 0 to |columns|
      invariant |row| == index && forall j :: 0 <= j < index ==> filled[j].Some? && row[j] == filled[j].value
    {
      if filled[index].None? {
        assert cells[index].None? && index != idColumn;
        return false, row;
      }
      row := row + [filled[index].value];
    }
    ok := true;
    forall j | 0 <= j < |cells| ensures cells[j].Some? || j == idColumn {
      assert filled[j].Some?;
    }
  }

  /** `build_insert_row`: the row the statement asks for and its id, or an error. */
  method BuildInsertRow(columns: seq<string>, idColumn: nat, nextId: int, stmt: InsertStatement)
    returns (ok: bool, row: seq<string>, id: int)
    requires idColumn < |columns|
    ensures ok ==> RowFor(columns, idColumn, nextId, stmt, row) && |row| == |columns| && Denotes(row[idColumn], id)
    ensures ok && stmt.columns.items == [] ==>
      row == Texts(stmt.values) || AroundId(idColumn, nextId, stmt.values, row)
    ensures ok && stmt.columns.items != [] && DistinctNames(stmt.columns.items) ==>
      PlacedByName(columns, idColumn, nextId, stmt, row)
    ensures !ok ==> forall r :: RowFor(columns, idColumn, nextId, stmt, r) ==> !IsId(r[idColumn])
  {
    row, id := [], nextId;
    ok, row := PlaceValues(columns, idColumn, nextId, stmt);
    if !ok {
      return;
    }
    var parsed := ParseIntStrict(row[idColumn]);
    if parsed.None? {
      forall r | RowFor(columns, idColumn, nextId, stmt, r) ensures !IsId(r[idColumn]) {
        RowForOne(columns, idColumn, nextId, stmt, row, r);
      }
      return false, row, id;
    }
    id := parsed.value;
    if DistinctNames(stmt.columns.items) {
      RowMeaning(columns, idColumn, nextId, stmt, row);
    }
  }

  method PlaceValues(columns: seq<string>, idColumn: nat, nextId: int, stmt: InsertStatement)
    returns (ok: bool, row: seq<string>)
    requires idColumn < |columns|
    ensures ok ==> RowFor(columns, idColumn, nextId, stmt, row) && |row| == |columns|
    ensures !ok ==> forall r :: !RowFor(columns, idColumn, nextId, stmt, r)
  {
    ok, row := true, [];
    if |stmt.columns.items| == 0 {
      if |stmt.values| == |columns| {
        row := PlaceAll(columns, stmt);
      } else if |stmt.values| == |columns| - 1 {
        row := PlaceAroundId(columns, idColumn, nextId, stmt);
      } else {
        ok := false;
      }
      return;
    }
    if |stmt.columns.items| != |stmt.values| {
      return false, row;
    }
    var cells;
    ok, cells := Distribute(columns, stmt);
    if ok {
      ok, row := Complete(columns, idColumn, nextId, cells);
    }
  }
}
