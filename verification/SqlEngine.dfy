/** The engine over one table: from SQL text to the answer and the new state of the table. */
module SqlEngine {
  import opened Machine
  import opened Names
  import opened Decimal
  import opened Ast
  import opened CsvText
  import opened TableText
  import opened TableIndex
  import opened SelectRows
  import opened InsertRow
  import opened DatabaseTable
  import opened SqlText
  import opened Optimizer

  // ---------------------------------------------------------------- what a statement does to a table

  /** A table as a value. */
  datatype TableState = TableState(text: string, columns: seq<string>, idColumn: nat, rowCount: int, nextId: int,
                                   contents: map<int, int>)

  /** What the caller gets: the captured output and the statistics, or an error. */
  datatype Answer = Failed | Answered(output: string, stats: QueryStats)

  /** File and index agree, and the file can be appended to. */
  ghost predicate Sound(s: TableState) {
    Consistent(s.text, s.columns, s.idColumn, s.rowCount, s.nextId, s.contents) && Terminated(s.text)
  }

  const NO_STATS := QueryStats(false, 0, 0)

  /** The message of an INSERT. */
  function InsertMessage(name: string, id: int): string {
    "Inserted 1 row into " + name + " (id=" + Print(id) + ")\n"
  }

  /** The table with one more row. */
  ghost function Grown(s: TableState, row: seq<string>, id: int): TableState {
    TableState(s.text + StoredLine(row), s.columns, s.idColumn, s.rowCount + 1,
               if id >= s.nextId then id + 1 else s.nextId, s.contents[id := |s.text|])
  }

  /** `row` can be added by the statement, and its id is `id`. */
  ghost predicate Adds(s: TableState, stmt: InsertStatement, row: seq<string>, id: int) {
    Insertable(s.columns, s.idColumn, s.nextId, stmt, s.contents, row) && Denotes(row[s.idColumn], id)
  }

  ghost predicate InsertDoes(name: string, s: TableState, stmt: InsertStatement, s': TableState, a: Answer) {
    if exists row, id :: Adds(s, stmt, row, id)
    then exists row, id ::
      Adds(s, stmt, row, id) && s' == Grown(s, row, id) && a == Answered(InsertMessage(name, id), NO_STATS)
    else s' == s && a == Failed
  }

  /** The rows and columns a SELECT returns: through the index in ascending order of ids, else in file order. */
  ghost predicate Returned(s: TableState, q: SelectStatement, rows: seq<Row>, indices: seq<nat>) {
    && AllWide(Rows(s.text), |s.columns|) && AllWide(rows, |s.columns|)
    && Projects(s.columns, q.columns, indices) && Answerable(Rows(s.text), s.columns, q)
    && SamePassed(rows, Rows(s.text), s.columns, q)
    && if ById(q) then AscendingIds(rows, |s.columns|, s.idColumn)
       else rows == ScanResult(Rows(s.text), s.columns, q.hasWhere, q.filter)
  }

  ghost function SelectAnswer(s: TableState, q: SelectStatement, rows: seq<Row>, indices: seq<nat>): Answer
    requires Returned(s, q, rows, indices)
  {
    Answered(StoredLine(Pick(s.columns, indices)) + Rendered(rows, indices, |s.columns|),
             QueryStats(ById(q), if ById(q) then |rows| else |Rows(s.text)|, |rows|))
  }

  ghost predicate SelectDoes(s: TableState, q: SelectStatement, a: Answer) {
    if exists rows, indices :: Returned(s, q, rows, indices)
    then exists rows, indices :: Returned(s, q, rows, indices) && a == SelectAnswer(s, q, rows, indices)
    else a == Failed
  }

  /** A statement for the table `name`; a statement for any other table finds no file and fails. */
  ghost predicate Does(name: string, s: TableState, st: Statement, s': TableState, a: Answer) {
    match st
    case Inserting(stmt) =>
      if SameName(stmt.table, name) then InsertDoes(name, s, stmt, s', a) else s' == s && a == Failed
    case Selecting(q) =>
      s' == s && if SameName(q.table, name) then SelectDoes(s, q, a) else a == Failed
  }

  /** The text means the statement. */
  ghost predicate Says(sql: string, st: Statement) {
    forall b {:trigger Shut(b)} :: Shut(b) ==> Means(sql, st)
  }

  lemma SaysOne(sql: string, st: Statement, st': Statement)
    requires Says(sql, st) && Says(sql, st')
    ensures st == st'
  {
    assert Shut(true);
    MeansOne(sql, st, st');
  }

  lemma SaysNothing(sql: string)
    requires Meaningless(sql)
    ensures forall st :: !Says(sql, st)
  {
    assert Shut(true);
  }

  lemma SaysIt(sql: string, st: Statement)
    ensures Says(sql, st) <==> Means(sql, st)
  {
    assert Shut(true);
  }

  /** The text `sql` turns `s` into `s'` and is answered with `a`. */
  ghost predicate Executes(name: string, s: TableState, sql: string, s': TableState, a: Answer) {
    if exists st :: Says(sql, st)
    then exists st :: Says(sql, st) && Does(name, s, Optimized(st), s', a)
    else s' == s && a == Failed
  }

  /** The rows that an INSERT may add fit the line buffers and leave room for the next id. */
  ghost predicate Roomy(s: TableState, sql: string) {
    forall stmt, row :: Says(sql, Inserting(stmt)) && RowFor(s.columns, s.idColumn, s.nextId, stmt, row) ==>
      Fits(s.text, row, s.idColumn)
  }

  // ---------------------------------------------------------------- one outcome only

  lemma AddsOne(s: TableState, stmt: InsertStatement, row: seq<string>, id: int, row': seq<string>, id': int)
    requires Adds(s, stmt, row, id) && Adds(s, stmt, row', id')
    ensures row == row' && id == id'
  {
    RowForOne(s.columns, s.idColumn, s.nextId, stmt, row, row');
    DenotesOne(row[s.idColumn], id, id');
  }

  lemma ProjectsOne(columns: seq<string>, list: ColumnList, a: seq<nat>, b: seq<nat>)
    requires Projects(columns, list, a) && Projects(columns, list, b)
    ensures a == b
  {
    forall i | 0 <= i < |a| ensures a[i] == b[i] {
      if !list.isStar {
        ProjectsAt(columns, list, a, i);
        ProjectsAt(columns, list, b, i);
      }
    }
  }

  /** The first of ascending rows has the least id. */
  lemma LeastFirst(a: seq<Row>, b: seq<Row>, width: nat, idColumn: nat)
    requires AscendingIds(a, width, idColumn) && AscendingIds(b, width, idColumn) && a != [] && b != []
    requires a[0] in b && b[0] in a
    ensures a[0] == b[0]
  {
    var i :| 0 <= i < |b| && b[i] == a[0];
    var j :| 0 <= j < |a| && a[j] == b[0];
    assert GoodRow(a[0], width, idColumn) && GoodRow(b[0], width, idColumn);
  }

  lemma TailAscends(a: seq<Row>, width: nat, idColumn: nat)
    requires AscendingIds(a, width, idColumn) && a != []
    ensures AscendingIds(a[1..], width, idColumn)
  {
    assert forall i :: 0 <= i < |a[1..]| ==> a[1..][i] == a[i + 1];
    assert forall i :: 0 <= i < |a| ==> GoodRow(a[i], width, idColumn);
  }

  lemma SameTails<T>(a: seq<T>, b: seq<T>)
    requires a != [] && b != [] && a[0] == b[0] && multiset(a) == multiset(b)
    ensures multiset(a[1..]) == multiset(b[1..])
  {
    assert a == [a[0]] + a[1..] && b == [b[0]] + b[1..];
    assert multiset(a[1..]) == multiset(a) - multiset{a[0]};
    assert multiset(b[1..]) == multiset(b) - multiset{b[0]};
  }

  lemma SameSize<T>(a: seq<T>, b: seq<T>)
    requires multiset(a) == multiset(b)
    ensures |a| == |b| && (a != [] ==> a[0] in b && b[0] in a)
  {
    assert |a| == |multiset(a)| == |multiset(b)| == |b|;
    if a != [] {
      assert a[0] in multiset(b) && b[0] in multiset(a);
    }
  }

  /** Rows can be put into ascending order in one way only. */
  lemma {:induction false} SortedOne(a: seq<Row>, b: seq<Row>, width: nat, idColumn: nat)
    requires AscendingIds(a, width, idColumn) && AscendingIds(b, width, idColumn) && multiset(a) == multiset(b)
    ensures a == b
    decreases |a|
  {
    SameSize(a, b);
    if a != [] {
      LeastFirst(a, b, width, idColumn);
      TailAscends(a, width, idColumn);
      TailAscends(b, width, idColumn);
      SameTails(a, b);
      SortedOne(a[1..], b[1..], width, idColumn);
      assert a == [a[0]] + a[1..] && b == [b[0]] + b[1..];
    }
  }

  lemma ReturnedOne(s: TableState, q: SelectStatement, rows: seq<Row>, indices: seq<nat>, rows': seq<Row>,
                    indices': seq<nat>)
    requires Returned(s, q, rows, indices) && Returned(s, q, rows', indices')
    ensures rows == rows' && indices == indices'
  {
    ProjectsOne(s.columns, q.columns, indices, indices');
    if ById(q) {
      SortedOne(rows, rows', |s.columns|, s.idColumn);
    }
  }

  lemma InsertOne(name: string, s: TableState, stmt: InsertStatement, s1: TableState, a1: Answer, s2: TableState,
                  a2: Answer)
    requires InsertDoes(name, s, stmt, s1, a1) && InsertDoes(name, s, stmt, s2, a2)
    ensures s1 == s2 && a1 == a2
  {
    if exists row, id :: Adds(s, stmt, row, id) {
      var row, id :| Adds(s, stmt, row, id) && s1 == Grown(s, row, id)
        && a1 == Answered(InsertMessage(name, id), NO_STATS);
      var row', id' :| Adds(s, stmt, row', id') && s2 == Grown(s, row', id')
        && a2 == Answered(InsertMessage(name, id'), NO_STATS);
      AddsOne(s, stmt, row, id, row', id');
    }
  }

  lemma SelectOne(s: TableState, q: SelectStatement, a1: Answer, a2: Answer)
    requires SelectDoes(s, q, a1) && SelectDoes(s, q, a2)
    ensures a1 == a2
  {
    if exists rows, indices :: Returned(s, q, rows, indices) {
      var rows, indices :| Returned(s, q, rows, indices) && a1 == SelectAnswer(s, q, rows, indices);
      var rows', indices' :| Returned(s, q, rows', indices') && a2 == SelectAnswer(s, q, rows', indices');
      ReturnedOne(s, q, rows, indices, rows', indices');
    }
  }

  lemma DoesOne(name: string, s: TableState, st: Statement, s1: TableState, a1: Answer, s2: TableState, a2: Answer)
    requires Does(name, s, st, s1, a1) && Does(name, s, st, s2, a2)
    ensures s1 == s2 && a1 == a2
  {
    match st
    case Inserting(stmt) =>
      if SameName(stmt.table, name) {
        InsertOne(name, s, stmt, s1, a1, s2, a2);
      }
    case Selecting(q) =>
      if SameName(q.table, name) {
        SelectOne(s, q, a1, a2);
      }
  }

  /** The answer to a text and the table it leaves are determined by the text and the table it found. */
  lemma ExecutesOne(name: string, s: TableState, sql: string, s1: TableState, a1: Answer, s2: TableState, a2: Answer)
    requires Executes(name, s, sql, s1, a1) && Executes(name, s, sql, s2, a2)
    ensures s1 == s2 && a1 == a2
  {
    if exists st :: Says(sql, st) {
      var st :| Says(sql, st) && Does(name, s, Optimized(st), s1, a1);
      var st' :| Says(sql, st') && Does(name, s, Optimized(st'), s2, a2);
      SaysOne(sql, st, st');
      DoesOne(name, s, Optimized(st), s1, a1, s2, a2);
    }
  }

  // ---------------------------------------------------------------- the engine

  lemma SameBooks(text: string, columns: seq<string>, idColumn: int, m: map<int, int>, rowCount: int, nextId: int,
                  rowCount': int, nextId': int)
    requires Consistent(text, columns, idColumn, rowCount, nextId, m)
    requires Consistent(text, columns, idColumn, rowCount', nextId', m)
    ensures rowCount == rowCount' && nextId == nextId'
  {
    assert Seal(true);
    NextIsUnique(m, nextId, nextId');
  }

  lemma AddsParts(s: TableState, stmt: InsertStatement, row: seq<string>, id: int)
    requires Adds(s, stmt, row, id)
    ensures id !in s.contents && forall i :: 0 <= i < |row| ==> Storable(row[i])
  {
    IdIs(row[s.idColumn], id);
  }

  /** A sound table stays sound when a fitting row is added. */
  lemma GrownSound(s: TableState, row: seq<string>, id: int)
    requires Sound(s) && |row| == |s.columns| && Fits(s.text, row, s.idColumn)
    requires Denotes(row[s.idColumn], id) && id !in s.contents && forall i :: 0 <= i < |row| ==> Storable(row[i])
    ensures Sound(Grown(s, row, id)) && Rows(Grown(s, row, id).text) == Rows(s.text) + [Row(|s.text|, row)]
  {
    AppendKeeps(s.text, s.columns, s.idColumn, s.rowCount, s.nextId, s.contents, row, id);
  }

  lemma RowWidth(s: TableState, stmt: InsertStatement, row: seq<string>)
    requires RowFor(s.columns, s.idColumn, s.nextId, stmt, row)
    ensures |row| == |s.columns|
  {
  }

  lemma InsertDone(name: string, s: TableState, stmt: InsertStatement, row: seq<string>, id: int, s': TableState,
                   a: Answer)
    requires Adds(s, stmt, row, id) && s' == Grown(s, row, id) && a == Answered(InsertMessage(name, id), NO_STATS)
    ensures InsertDoes(name, s, stmt, s', a)
  {
  }

  lemma InsertRefused(name: string, s: TableState, stmt: InsertStatement)
    requires forall row :: !Insertable(s.columns, s.idColumn, s.nextId, stmt, s.contents, row)
    ensures InsertDoes(name, s, stmt, s, Failed)
  {
  }

  class Engine {
    const name: string
    const table: DatabaseTable

    constructor (name: string, table: DatabaseTable)
      ensures this.name == name && this.table == table
    {
      this.name, this.table := name, table;
    }

    ghost predicate Valid()
      reads this, table, table.data, table.index, table.index.file
    {
      table.Valid() && Terminated(table.data.text)
    }

    ghost function State(): TableState
      requires Valid()
      reads this, table, table.data, table.index, table.index.file
    {
      TableState(table.data.text, table.columns, table.idColumn, table.rowCount, table.nextId, table.index.contents)
    }

    method RunInsert(stmt: InsertStatement) returns (a: Answer)
      requires Valid()
      requires forall row :: RowFor(table.columns, table.idColumn, table.nextId, stmt, row) ==>
        Fits(table.data.text, row, table.idColumn)
      modifies table`rowCount, table`nextId, table.data, table.index, table.index.file
      ensures Valid() && InsertDoes(name, old(State()), stmt, State(), a)
    {
      ghost var s := State();
      var ok, id;
      ghost var row;
      ok, id, row := table.ExecuteInsert(stmt);
      if !ok {
        SameBooks(s.text, s.columns, s.idColumn, s.contents, s.rowCount, s.nextId, table.rowCount, table.nextId);
        InsertRefused(name, s, stmt);
        return Failed;
      }
      RowWidth(s, stmt, row);
      AddsParts(s, stmt, row, id);
      GrownSound(s, row, id);
      SameBooks(table.data.text, s.columns, s.idColumn, table.index.contents, table.rowCount, table.nextId,
                Grown(s, row, id).rowCount, Grown(s, row, id).nextId);
      a := Answered(InsertMessage(name, id), NO_STATS);
      InsertDone(name, s, stmt, row, id, State(), a);
    }

    method RunSelect(q: SelectStatement) returns (a: Answer)
      requires Valid()
      modifies table.index.file`pos
      ensures Valid() && State() == old(State()) && SelectDoes(State(), q, a)
    {
      var ok, output, stats, indices;
      ghost var rows;
      ok, output, stats, rows, indices := table.ExecuteSelect(q);
      if !ok {
        return Failed;
      }
      assert Returned(State(), q, rows, indices);
      a := Answered(output, stats);
    }

    /** `execute_statement`. */
    method RunStatement(st: Statement) returns (a: Answer)
      requires Valid()
      requires st.Inserting? ==> forall row :: RowFor(table.columns, table.idColumn, table.nextId, st.insert, row) ==>
        Fits(table.data.text, row, table.idColumn)
      modifies table`rowCount, table`nextId, table.data, table.index, table.index.file
      ensures Valid() && Does(name, old(State()), st, State(), a)
    {
      var here := CaseEqual(if st.Inserting? then st.insert.table else st.select.table, name);
      if !here {
        return Failed;
      }
      if st.Inserting? {
        a := RunInsert(st.insert);
      } else {
        a := RunSelect(st.select);
      }
    }

    /** `sql_engine_execute_sql`: tokenize, parse, optimize, execute. */
    method Execute(sql: string) returns (a: Answer)
      requires Valid() && Roomy(State(), sql)
      modifies table`rowCount, table`nextId, table.data, table.index, table.index.file
      ensures Valid() && Executes(name, old(State()), sql, State(), a)
    {
      ghost var s := State();
      var st := Compile(sql);
      if st.None? {
        SaysNothing(sql);
        return Failed;
      }
      SaysIt(sql, st.value);
      var better := Optimize(st.value);
      a := RunStatement(better);
    }
  }
}
