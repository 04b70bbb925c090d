/** When an index map and the rows of a table file agree. */
module TableIndex {
  import opened Machine
  import opened Decimal
  import opened TableText

  // ---------------------------------------------------------------- ids

  ghost predicate IsId(text: string) {
    exists v :: Denotes(text, v)
  }

  /** The integer an id field denotes. */
  ghost function IdOf(text: string): (v: int)
    requires IsId(text)
    ensures Denotes(text, v)
  {
    var v :| Denotes(text, v);
    v
  }

  lemma IdIs(text: string, v: int)
    requires Denotes(text, v)
    ensures IsId(text) && IdOf(text) == v
  {
    DenotesOne(text, v, IdOf(text));
  }

  /** A row with the right number of fields and an integer id. */
  ghost predicate GoodRow(row: Row, width: nat, idColumn: nat) {
    |row.fields| == width && idColumn < width && IsId(row.fields[idColumn])
  }

  ghost function Id(row: Row, idColumn: nat): int
    requires idColumn < |row.fields| && IsId(row.fields[idColumn])
  {
    IdOf(row.fields[idColumn])
  }

  ghost predicate AllGood(rows: seq<Row>, width: nat, idColumn: nat) {
    forall i :: 0 <= i < |rows| ==> GoodRow(rows[i], width, idColumn)
  }

  /** Rows an index can be built for: all good, no id twice. */
  ghost predicate Indexable(rows: seq<Row>, width: nat, idColumn: nat) {
    && AllGood(rows, width, idColumn)
    && forall i, j :: 0 <= i < j < |rows| ==> Id(rows[i], idColumn) != Id(rows[j], idColumn)
  }

  // ---------------------------------------------------------------- agreement

  /** The index knows exactly the ids of the rows, each with the offset of its row. */
  ghost predicate Agrees(m: map<int, int>, rows: seq<Row>, width: nat, idColumn: nat) {
    && AllGood(rows, width, idColumn)
    && (forall i :: 0 <= i < |rows| ==> Id(rows[i], idColumn) in m && m[Id(rows[i], idColumn)] == rows[i].offset)
    && (forall k :: k in m ==> exists i :: 0 <= i < |rows| && Id(rows[i], idColumn) == k)
  }

  lemma AgreesEmpty(width: nat, idColumn: nat)
    ensures Agrees(map[], [], width, idColumn)
  {
  }

  /** Adding a row with a new id on both sides keeps the agreement. */
  lemma AgreesPush(m: map<int, int>, rows: seq<Row>, row: Row, width: nat, idColumn: nat)
    requires Agrees(m, rows, width, idColumn) && GoodRow(row, width, idColumn) && Id(row, idColumn) !in m
    ensures Agrees(m[Id(row, idColumn) := row.offset], rows + [row], width, idColumn)
    ensures Indexable(rows, width, idColumn) ==> Indexable(rows + [row], width, idColumn)
  {
    var m', rows' := m[Id(row, idColumn) := row.offset], rows + [row];
    forall k | k in m' ensures exists i :: 0 <= i < |rows'| && Id(rows'[i], idColumn) == k {
      if k == Id(row, idColumn) {
        assert rows'[|rows|] == row;
      } else {
        var i :| 0 <= i < |rows| && Id(rows[i], idColumn) == k;
        assert rows'[i] == rows[i];
      }
    }
  }

  /** A row whose id the index already knows repeats the id of an earlier row. */
  lemma RepeatedId(m: map<int, int>, rows: seq<Row>, row: Row, rest: seq<Row>, width: nat, idColumn: nat)
    requires Agrees(m, rows, width, idColumn) && GoodRow(row, width, idColumn) && Id(row, idColumn) in m
    ensures !Indexable(rows + [row] + rest, width, idColumn)
  {
    var all := rows + [row] + rest;
    var i :| 0 <= i < |rows| && Id(rows[i], idColumn) == Id(row, idColumn);
    assert all[i] == rows[i] && all[|rows|] == row;
  }

  lemma BadRow(rows: seq<Row>, row: Row, rest: seq<Row>, width: nat, idColumn: nat)
    requires !GoodRow(row, width, idColumn)
    ensures !Indexable(rows + [row] + rest, width, idColumn)
  {
    assert (rows + [row] + rest)[|rows|] == row;
  }

  // ---------------------------------------------------------------- indexing row by row

  /** Of `all` rows, `done` have been entered into the map and `rest` are still to come. */
  ghost predicate Progress(all: seq<Row>, done: seq<Row>, rest: seq<Row>, m: map<int, int>, width: nat, idColumn: nat) {
    forall b {:trigger Seal(b)} :: Seal(b) ==>
      && all == done + rest && Agrees(m, done, width, idColumn) && Indexable(done, width, idColumn) && |m| == |done|
  }

  lemma ProgressStarts(all: seq<Row>, width: nat, idColumn: nat)
    ensures Progress(all, [], all, map[], width, idColumn)
  {
    AgreesEmpty(width, idColumn);
  }

  /** No id is the largest 32-bit integer: the next id is one more than the largest. */
  ghost predicate IdsBelowLimit(rows: seq<Row>, idColumn: nat) {
    forall i :: 0 <= i < |rows| && idColumn < |rows[i].fields| ==> !Denotes(rows[i].fields[idColumn], INT32_MAX)
  }

  lemma ProgressRow(all: seq<Row>, done: seq<Row>, row: Row, rest: seq<Row>, m: map<int, int>, width: nat,
                    idColumn: nat)
    requires Progress(all, done, [row] + rest, m, width, idColumn) && IdsBelowLimit(all, idColumn)
    ensures idColumn < |row.fields| ==> !Denotes(row.fields[idColumn], INT32_MAX)
  {
    assert Seal(true);
    assert all[|done|] == row;
  }

  lemma ProgressPush(all: seq<Row>, done: seq<Row>, row: Row, rest: seq<Row>, m: map<int, int>, width: nat,
                     idColumn: nat)
    requires Progress(all, done, [row] + rest, m, width, idColumn) && GoodRow(row, width, idColumn)
    requires Id(row, idColumn) !in m
    ensures Progress(all, done + [row], rest, m[Id(row, idColumn) := row.offset], width, idColumn)
  {
    assert Seal(true);
    AgreesPush(m, done, row, width, idColumn);
    assert done + ([row] + rest) == done + [row] + rest;
  }

  /** A row that cannot be entered means that no index can be built at all. */
  lemma ProgressStuck(all: seq<Row>, done: seq<Row>, row: Row, rest: seq<Row>, m: map<int, int>, width: nat,
                      idColumn: nat)
    requires Progress(all, done, [row] + rest, m, width, idColumn)
    requires !(GoodRow(row, width, idColumn) && Id(row, idColumn) !in m)
    ensures !Indexable(all, width, idColumn)
  {
    assert Seal(true);
    assert all == done + [row] + rest;
    if GoodRow(row, width, idColumn) {
      RepeatedId(m, done, row, rest, width, idColumn);
    } else {
      BadRow(done, row, rest, width, idColumn);
    }
  }

  lemma ProgressEnds(all: seq<Row>, done: seq<Row>, m: map<int, int>, width: nat, idColumn: nat)
    requires Progress(all, done, [], m, width, idColumn)
    ensures Agrees(m, all, width, idColumn) && Indexable(all, width, idColumn) && |m| == |all|
  {
    assert Seal(true);
    assert done + [] == done;
  }

  // ---------------------------------------------------------------- the next id

  /** Above every key, and no larger than need be: this is the id handed out next. */
  ghost predicate IsNext(m: map<int, int>, n: int) {
    n >= 1 && (forall k :: k in m ==> k < n) && (n > 1 ==> n - 1 in m)
  }

  /** The map determines the next id, so a rebuild arrives at the same one. */
  lemma NextIsUnique(m: map<int, int>, n: int, n': int)
    requires IsNext(m, n) && IsNext(m, n')
    ensures n == n'
  {
  }

  /** Counting on after an insertion gives the next id of the larger map. */
  lemma NextAfter(m: map<int, int>, n: int, id: int, offset: int)
    requires IsNext(m, n)
    ensures IsNext(m[id := offset], if id >= n then id + 1 else n)
    ensures n !in m
  {
  }
}
