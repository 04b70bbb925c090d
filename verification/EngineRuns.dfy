/** Whole histories of statements on one table: a row that was inserted is found by its id ever after, also
    when the statements come from concurrent callers. */
module EngineRuns {
  import opened Machine
  import opened Comparison
  import opened Names
  import opened Decimal
  import opened Ast
  import opened TableText
  import opened TableIndex
  import opened SelectRows
  import opened DatabaseTable
  import opened Optimizer
  import opened SqlEngine
  import DbApi

  // ---------------------------------------------------------------- one statement

  lemma SoundParts(s: TableState)
    requires Sound(s)
    ensures s.idColumn < |s.columns| && AllWide(Rows(s.text), |s.columns|) && FoundAt(s.columns, "id", s.idColumn)
    ensures Indexable(Rows(s.text), |s.columns|, s.idColumn)
    ensures Agrees(s.contents, Rows(s.text), |s.columns|, s.idColumn)
  {
    assert Seal(true);
  }

  /** The outcome of a statement once its meaning is known. */
  lemma MeansDoes(name: string, s: TableState, sql: string, s': TableState, a: Answer, st: Statement, t: TableState,
                  b: Answer)
    requires Executes(name, s, sql, s', a) && Says(sql, st) && Does(name, s, Optimized(st), t, b)
    ensures s' == t && a == b
  {
    ExecutesOne(name, s, sql, s', a, t, b);
  }

  /** An INSERT that can add a row adds it. */
  lemma InsertRuns(name: string, s: TableState, sql: string, s': TableState, a: Answer, stmt: InsertStatement,
                   row: seq<string>, id: int)
    requires Executes(name, s, sql, s', a) && Says(sql, Inserting(stmt)) && SameName(stmt.table, name)
    requires Adds(s, stmt, row, id)
    ensures s' == Grown(s, row, id) && a == Answered(InsertMessage(name, id), NO_STATS)
  {
    InsertDone(name, s, stmt, row, id, Grown(s, row, id), Answered(InsertMessage(name, id), NO_STATS));
    MeansDoes(name, s, sql, s', a, Inserting(stmt), Grown(s, row, id), Answered(InsertMessage(name, id), NO_STATS));
  }

  /** Rows are only ever added, at the end. */
  ghost predicate Extends(s: TableState, t: TableState) {
    forall b {:trigger Seal(b)} :: Seal(b) ==>
      t.columns == s.columns && t.idColumn == s.idColumn && Rows(s.text) <= Rows(t.text)
  }

  lemma ExtendsMore(s: TableState, t: TableState, u: TableState)
    requires Extends(s, t) && Extends(t, u)
    ensures Extends(s, u)
  {
    assert Seal(true);
  }

  lemma ExtendsSelf(s: TableState)
    ensures Extends(s, s)
  {
  }

  lemma ExtendsOpen(s: TableState, t: TableState)
    requires Extends(s, t)
    ensures t.columns == s.columns && t.idColumn == s.idColumn && Rows(s.text) <= Rows(t.text)
  {
    assert Seal(true);
  }

  lemma InsertSound(name: string, s: TableState, sql: string, stmt: InsertStatement, row: seq<string>, id: int)
    requires Sound(s) && Roomy(s, sql) && Says(sql, Inserting(stmt)) && Adds(s, stmt, row, id)
    ensures Sound(Grown(s, row, id)) && Extends(s, Grown(s, row, id))
    ensures Rows(Grown(s, row, id).text) == Rows(s.text) + [Row(|s.text|, row)]
  {
    SoundParts(s);
    RowWidth(s, stmt, row);
    AddsParts(s, stmt, row, id);
    GrownSound(s, row, id);
  }

  /** A statement keeps file and index in agreement. */
  lemma StepSound(name: string, s: TableState, sql: string, s': TableState, a: Answer)
    requires Sound(s) && Roomy(s, sql) && Executes(name, s, sql, s', a)
    ensures Sound(s') && Extends(s, s')
  {
    ExtendsSelf(s);
    if s' != s {
      var st :| Says(sql, st) && Does(name, s, Optimized(st), s', a);
      var row, id :| Adds(s, st.insert, row, id) && s' == Grown(s, row, id);
      InsertSound(name, s, sql, st.insert, row, id);
    }
  }

  // ---------------------------------------------------------------- looking a row up by its id

  /** The filter asks for the row with id `key`. */
  ghost predicate LooksUp(q: SelectStatement, key: int) {
    ById(q) && q.filter.op == Equals && Denotes(q.filter.value.text, key)
  }

  lemma OnlyHit(s: TableState, q: SelectStatement, key: int, row: Row, other: Row)
    requires Sound(s) && LooksUp(q, key) && row in Rows(s.text) && GoodRow(row, |s.columns|, s.idColumn)
    requires Id(row, s.idColumn) == key
    ensures AllWide(Rows(s.text), |s.columns|) && s.idColumn < |s.columns|
    ensures other in Passing(Rows(s.text), s.idColumn, AsNumber(q.filter)) <==> other == row
  {
    SoundParts(s);
    IdIs(q.filter.value.text, key);
    NumberMeaning(Rows(s.text), |s.columns|, s.idColumn, q.filter, other);
    if other in Passing(Rows(s.text), s.idColumn, AsNumber(q.filter)) {
      SameIdSameRow(Rows(s.text), row, other, |s.columns|, s.idColumn);
    }
  }

  lemma RowsDistinct(s: TableState)
    requires Sound(s)
    ensures NoRepeats(Rows(s.text))
  {
    SoundParts(s);
  }

  /** The filter passes exactly the one row with that id. */
  lemma OneHit(s: TableState, q: SelectStatement, key: int, row: Row)
    requires Sound(s) && LooksUp(q, key) && row in Rows(s.text) && GoodRow(row, |s.columns|, s.idColumn)
    requires Id(row, s.idColumn) == key
    ensures AllWide(Rows(s.text), |s.columns|) && SamePassed([row], Rows(s.text), s.columns, q)
  {
    SoundParts(s);
    var passing := Passing(Rows(s.text), s.idColumn, AsNumber(q.filter));
    RowsDistinct(s);
    PassingDistinct(Rows(s.text), s.idColumn, AsNumber(q.filter));
    forall other ensures other in [row] <==> other in passing {
      OnlyHit(s, q, key, row, other);
    }
    SameElements([row], passing);
    SameColumn(s.columns, "id", q.filter.column, s.idColumn);
  }

  lemma NoHit(s: TableState, q: SelectStatement, key: int)
    requires Sound(s) && LooksUp(q, key) && key !in s.contents
    ensures AllWide(Rows(s.text), |s.columns|) && SamePassed([], Rows(s.text), s.columns, q)
  {
    SoundParts(s);
    IdIs(q.filter.value.text, key);
    var passing := Passing(Rows(s.text), s.idColumn, AsNumber(q.filter));
    RowsDistinct(s);
    PassingDistinct(Rows(s.text), s.idColumn, AsNumber(q.filter));
    forall other ensures other in [] <==> other in passing {
      NumberMeaning(Rows(s.text), |s.columns|, s.idColumn, q.filter, other);
    }
    SameElements([], passing);
    SameColumn(s.columns, "id", q.filter.column, s.idColumn);
  }

  /** The table has a row with that id: it is what the lookup returns. */
  lemma LookupReturns(s: TableState, q: SelectStatement, key: int, row: Row, indices: seq<nat>)
    requires Sound(s) && LooksUp(q, key) && row in Rows(s.text) && GoodRow(row, |s.columns|, s.idColumn)
    requires Id(row, s.idColumn) == key && Projects(s.columns, q.columns, indices)
    ensures Returned(s, q, [row], indices)
  {
    SoundParts(s);
    OneHit(s, q, key, row);
    IdIs(q.filter.value.text, key);
  }

  lemma MissReturns(s: TableState, q: SelectStatement, key: int, indices: seq<nat>)
    requires Sound(s) && LooksUp(q, key) && key !in s.contents && Projects(s.columns, q.columns, indices)
    ensures Returned(s, q, [], indices)
  {
    SoundParts(s);
    NoHit(s, q, key);
    IdIs(q.filter.value.text, key);
  }

  lemma SelectRuns(name: string, s: TableState, sql: string, s': TableState, a: Answer, q: SelectStatement,
                   rows: seq<Row>, indices: seq<nat>)
    requires Executes(name, s, sql, s', a) && Says(sql, Selecting(q)) && SameName(q.table, name)
    requires Returned(s, q.(columns := OptimizedList(q.columns)), rows, indices)
    ensures s' == s && a == SelectAnswer(s, q.(columns := OptimizedList(q.columns)), rows, indices)
  {
    var better := q.(columns := OptimizedList(q.columns));
    MeansDoes(name, s, sql, s', a, Selecting(q), s, SelectAnswer(s, better, rows, indices));
  }

  /** What the lookup of a stored row is answered with: the header and the row. */
  ghost function Found(columns: seq<string>, fields: seq<string>, indices: seq<nat>): Answer
    requires |fields| == |columns| && forall i :: 0 <= i < |indices| ==> indices[i] < |columns|
  {
    Answered(StoredLine(Pick(columns, indices)) + StoredLine(Pick(fields, indices)), QueryStats(true, 1, 1))
  }

  lemma OneRendered(row: Row, indices: seq<nat>, width: nat)
    requires |row.fields| == width && forall i :: 0 <= i < |indices| ==> indices[i] < width
    ensures Rendered([row], indices, width) == StoredLine(Pick(row.fields, indices))
  {
    RenderedPush([], row, indices, width);
    assert [] + [row] == [row];
    assert "" + StoredLine(Pick(row.fields, indices)) == StoredLine(Pick(row.fields, indices));
  }

  /** `SELECT ... WHERE id = key` returns exactly the stored row with that id. */
  lemma LookupFinds(name: string, s: TableState, sql: string, s': TableState, a: Answer, q: SelectStatement, key: int,
                    row: Row, indices: seq<nat>)
    requires Sound(s) && Executes(name, s, sql, s', a)
    requires Says(sql, Selecting(q)) && SameName(q.table, name) && LooksUp(q, key)
    requires row in Rows(s.text) && s.idColumn < |row.fields| && Denotes(row.fields[s.idColumn], key)
    requires Projects(s.columns, OptimizedList(q.columns), indices)
    ensures |row.fields| == |s.columns| && s' == s && a == Found(s.columns, row.fields, indices)
  {
    SoundParts(s);
    IdIs(row.fields[s.idColumn], key);
    LookupReturns(s, q.(columns := OptimizedList(q.columns)), key, row, indices);
    SelectRuns(name, s, sql, s', a, q, [row], indices);
    OneRendered(row, indices, |s.columns|);
  }

  lemma NoMore(text: string)
    ensures text + "" == text
  {
  }

  /** Without a row of that id it returns the header alone. */
  lemma LookupMisses(name: string, s: TableState, sql: string, s': TableState, a: Answer, q: SelectStatement, key: int,
                     indices: seq<nat>)
    requires Sound(s) && Executes(name, s, sql, s', a)
    requires Says(sql, Selecting(q)) && SameName(q.table, name) && LooksUp(q, key)
    requires key !in s.contents && Projects(s.columns, OptimizedList(q.columns), indices)
    ensures s' == s && a == Answered(StoredLine(Pick(s.columns, indices)), QueryStats(true, 0, 0))
  {
    MissReturns(s, q.(columns := OptimizedList(q.columns)), key, indices);
    SelectRuns(name, s, sql, s', a, q, [], indices);
    NoMore(StoredLine(Pick(s.columns, indices)));
  }

  // ---------------------------------------------------------------- histories

  /** A statement that was run: its caller, text and answer. */
  type Commit = DbApi.Commit<Answer>

  /** One statement that has been run. */
  ghost predicate RanAt(name: string, s: TableState, c: Commit, s': TableState) {
    forall b {:trigger Seal(b)} :: Seal(b) ==> Executes(name, s, c.sql, s', c.answer)
  }

  ghost predicate StepRan(name: string, log: seq<Commit>, tables: seq<TableState>, j: nat) {
    j < |log| && j + 1 < |tables| && RanAt(name, tables[j], log[j], tables[j + 1])
  }

  /** The statements of `log` were run one after the other: `tables[j]` is the table before statement `j`. */
  ghost predicate Ran(name: string, log: seq<Commit>, tables: seq<TableState>) {
    |tables| == |log| + 1 && forall j :: 0 <= j < |log| ==> StepRan(name, log, tables, j)
  }

  ghost predicate HasRoom(s: TableState, c: Commit) {
    forall b {:trigger Seal(b)} :: Seal(b) ==> Roomy(s, c.sql)
  }

  ghost predicate StepRoomy(log: seq<Commit>, tables: seq<TableState>, j: nat) {
    j < |log| && j < |tables| && HasRoom(tables[j], log[j])
  }

  /** Every row that was to be added fitted. */
  ghost predicate AllRoomy(log: seq<Commit>, tables: seq<TableState>) {
    forall j :: 0 <= j < |log| ==> StepRoomy(log, tables, j)
  }

  /** File and index of `t` agree, and it has all the rows of `s` where they were. */
  ghost predicate Grows(s: TableState, t: TableState) {
    forall b {:trigger Shut(b)} :: Shut(b) ==> Sound(t) && Extends(s, t)
  }

  lemma GrowsParts(s: TableState, t: TableState)
    requires Grows(s, t)
    ensures Sound(t) && Extends(s, t)
  {
    assert Shut(true);
  }

  lemma GrowsSelf(s: TableState)
    requires Sound(s)
    ensures Grows(s, s)
  {
    ExtendsSelf(s);
  }

  lemma GrowsStep(name: string, r: TableState, s: TableState, c: Commit, s': TableState)
    requires Grows(r, s) && RanAt(name, s, c, s') && HasRoom(s, c)
    ensures Grows(r, s') && Grows(s, s') && Grows(s', s')
  {
    GrowsParts(r, s);
    assert Seal(true);
    StepSound(name, s, c.sql, s', c.answer);
    ExtendsMore(r, s, s');
    GrowsSelf(s');
  }

  lemma StepParts(name: string, log: seq<Commit>, tables: seq<TableState>, j: nat)
    requires Ran(name, log, tables) && AllRoomy(log, tables) && j < |log|
    ensures RanAt(name, tables[j], log[j], tables[j + 1]) && HasRoom(tables[j], log[j])
  {
    assert StepRan(name, log, tables, j) && StepRoomy(log, tables, j);
  }

  lemma GrowsNext(name: string, log: seq<Commit>, tables: seq<TableState>, i: nat, k: nat)
    requires Ran(name, log, tables) && AllRoomy(log, tables) && i <= k < |log| && Grows(tables[i], tables[k])
    ensures Grows(tables[i], tables[k + 1]) && Grows(tables[k + 1], tables[k + 1])
  {
    StepParts(name, log, tables, k);
    GrowsStep(name, tables[i], tables[k], log[k], tables[k + 1]);
  }

  /** After any statements file and index still agree, and every row is where it was. */
  lemma {:induction false} HistoryGrows(name: string, log: seq<Commit>, tables: seq<TableState>, i: nat, j: nat)
    requires Ran(name, log, tables) && AllRoomy(log, tables) && i <= j <= |log| && Grows(tables[i], tables[i])
    ensures Grows(tables[i], tables[j])
    decreases j - i
  {
    if i < j {
      HistoryGrows(name, log, tables, i, j - 1);
      GrowsNext(name, log, tables, i, j - 1);
    }
  }

  lemma LastIn<T>(a: seq<T>, x: T, b: seq<T>)
    requires a + [x] <= b
    ensures x in b
  {
    assert b[|a|] == (a + [x])[|a|];
  }

  /** The statement `c`, run on the table `s`, is an INSERT that can add `row` under the id `key`. */
  ghost predicate Inserts(name: string, s: TableState, c: Commit, row: seq<string>, key: int) {
    forall b {:trigger Seal(b)} :: Seal(b) ==>
      exists stmt :: Says(c.sql, Inserting(stmt)) && SameName(stmt.table, name) && Adds(s, stmt, row, key)
  }

  /** The statement `c` is `SELECT ... WHERE id = key`, and its list stands for the columns at `indices`. */
  ghost predicate Looks(name: string, columns: seq<string>, c: Commit, key: int, indices: seq<nat>) {
    && (forall i :: 0 <= i < |indices| ==> indices[i] < |columns|)
    && forall b {:trigger Seal(b)} :: Seal(b) ==>
         exists q :: Says(c.sql, Selecting(q)) && SameName(q.table, name) && LooksUp(q, key)
           && Projects(columns, OptimizedList(q.columns), indices)
  }

  /** The row an INSERT adds is in every table that extends the new one. */
  lemma InsertedStays(name: string, s: TableState, c: Commit, s': TableState, t: TableState, row: seq<string>, key: int)
    requires Grows(s, s) && RanAt(name, s, c, s') && HasRoom(s, c) && Grows(s', t) && Inserts(name, s, c, row, key)
    ensures Row(|s.text|, row) in Rows(t.text) && |row| == |s.columns| && s.idColumn < |row|
    ensures Denotes(row[s.idColumn], key) && c.answer == Answered(InsertMessage(name, key), NO_STATS)
  {
    GrowsParts(s, s);
    GrowsParts(s', t);
    assert Seal(true);
    var stmt :| Says(c.sql, Inserting(stmt)) && SameName(stmt.table, name) && Adds(s, stmt, row, key);
    RowWidth(s, stmt, row);
    InsertRuns(name, s, c.sql, s', c.answer, stmt, row, key);
    InsertSound(name, s, c.sql, stmt, row, key);
    LastIn(Rows(s.text), Row(|s.text|, row), Rows(t.text));
  }

  lemma LookupAt(name: string, s: TableState, c: Commit, s': TableState, key: int, row: Row, indices: seq<nat>)
    requires Sound(s) && RanAt(name, s, c, s') && Looks(name, s.columns, c, key, indices)
    requires row in Rows(s.text) && |row.fields| == |s.columns| && s.idColumn < |row.fields|
    requires Denotes(row.fields[s.idColumn], key)
    ensures c.answer == Found(s.columns, row.fields, indices)
  {
    assert Seal(true);
    var q :| Says(c.sql, Selecting(q)) && SameName(q.table, name) && LooksUp(q, key)
      && Projects(s.columns, OptimizedList(q.columns), indices);
    LookupFinds(name, s, c.sql, s', c.answer, q, key, row, indices);
  }

  lemma GrowsAfter(name: string, log: seq<Commit>, tables: seq<TableState>, i: nat, j: nat)
    requires Ran(name, log, tables) && AllRoomy(log, tables) && i < j <= |log| && Grows(tables[i], tables[i])
    ensures Grows(tables[i + 1], tables[j])
  {
    GrowsNext(name, log, tables, i, i);
    HistoryGrows(name, log, tables, i + 1, j);
  }

  /** The row inserted by statement `i` is there when statement `j` is run. */
  lemma InsertedThere(name: string, log: seq<Commit>, tables: seq<TableState>, i: nat, j: nat, row: seq<string>,
                      key: int)
    requires Ran(name, log, tables) && AllRoomy(log, tables) && i < j < |log| && Grows(tables[i], tables[i])
    requires Inserts(name, tables[i], log[i], row, key)
    ensures Row(|tables[i].text|, row) in Rows(tables[j].text) && |row| == |tables[i].columns|
    ensures tables[i].idColumn < |row|
    ensures Denotes(row[tables[i].idColumn], key) && log[i].answer == Answered(InsertMessage(name, key), NO_STATS)
  {
    StepParts(name, log, tables, i);
    GrowsAfter(name, log, tables, i, j);
    InsertedStays(name, tables[i], log[i], tables[i + 1], tables[j], row, key);
  }

  lemma HistoryParts(name: string, log: seq<Commit>, tables: seq<TableState>, j: nat)
    requires Ran(name, log, tables) && AllRoomy(log, tables) && Sound(tables[0]) && j <= |log|
    ensures Sound(tables[j]) && Grows(tables[j], tables[j])
    ensures tables[j].columns == tables[0].columns && tables[j].idColumn == tables[0].idColumn
  {
    GrowsSelf(tables[0]);
    HistoryGrows(name, log, tables, 0, j);
    GrowsParts(tables[0], tables[j]);
    GrowsSelf(tables[j]);
    ExtendsOpen(tables[0], tables[j]);
  }

  /** Insert, then look up: whatever statements come before and in between, a later `SELECT ... WHERE id = key`
      returns exactly the row that was stored under `key`. */
  lemma InsertThenLookup(name: string, log: seq<Commit>, tables: seq<TableState>, i: nat, j: nat, row: seq<string>,
                         key: int, indices: seq<nat>)
    requires Ran(name, log, tables) && AllRoomy(log, tables) && Sound(tables[0]) && i < j < |log|
    requires Inserts(name, tables[i], log[i], row, key) && Looks(name, tables[0].columns, log[j], key, indices)
    ensures |row| == |tables[0].columns|
    ensures log[i].answer == Answered(InsertMessage(name, key), NO_STATS)
    ensures log[j].answer == Found(tables[0].columns, row, indices)
  {
    HistoryParts(name, log, tables, i);
    HistoryParts(name, log, tables, j);
    InsertedThere(name, log, tables, i, j, row, key);
    StepParts(name, log, tables, j);
    LookupAt(name, tables[j], log[j], tables[j + 1], key, Row(|tables[i].text|, row), indices);
  }

  // ---------------------------------------------------------------- concurrent callers

  lemma SelectHasAnswer(s: TableState, q: SelectStatement) returns (a: Answer)
    ensures SelectDoes(s, q, a)
  {
    a := Failed;
    if rows, indices :| Returned(s, q, rows, indices) {
      a := SelectAnswer(s, q, rows, indices);
    }
  }

  lemma InsertHasAnswer(name: string, s: TableState, stmt: InsertStatement) returns (s': TableState, a: Answer)
    ensures InsertDoes(name, s, stmt, s', a)
  {
    s', a := s, Failed;
    if row, id :| Adds(s, stmt, row, id) {
      s', a := Grown(s, row, id), Answered(InsertMessage(name, id), NO_STATS);
    }
  }

  /** Every text has an outcome. */
  lemma HasOutcome(name: string, s: TableState, sql: string) returns (s': TableState, a: Answer)
    ensures Executes(name, s, sql, s', a)
  {
    s', a := s, Failed;
    if st :| Says(sql, st) {
      var better := Optimized(st);
      if better.Inserting? && SameName(better.insert.table, name) {
        s', a := InsertHasAnswer(name, s, better.insert);
      } else if better.Selecting? && SameName(better.select.table, name) {
        a := SelectHasAnswer(s, better.select);
      }
      assert Does(name, s, better, s', a);
    }
  }

  lemma SomeOutcome(name: string, s: TableState, sql: string)
    ensures exists s', a :: Executes(name, s, sql, s', a)
  {
    var s', a := HasOutcome(name, s, sql);
  }

  /** A call in the engine: its text, and its answer once it has one. */
  datatype Session = Session(sql: string, answer: Option<Answer>)

  ghost function Turn(name: string, s: TableState, l: Session): (r: (TableState, Session))
    ensures r.1.answer.Some? && Executes(name, s, l.sql, r.0, r.1.answer.value)
  {
    SomeOutcome(name, s, l.sql);
    var s', a :| Executes(name, s, l.sql, s', a);
    (s', Session(l.sql, Some(a)))
  }

  /** The engine over one table, as the lock sees it. */
  ghost function TableEngine(name: string): DbApi.Engine<TableState, Session, Answer> {
    DbApi.Engine(sql => Session(sql, None), (s, l) => Turn(name, s, l), (l: Session) => l.answer.Some?,
                 (l: Session) => if l.answer.Some? then l.answer.value else Failed)
  }

  lemma EngineExecutes(name: string, s: TableState, c: Commit, s': TableState)
    requires DbApi.Executes(TableEngine(name), s, c.sql, c.answer, s')
    ensures RanAt(name, s, c, s')
  {
    var e := TableEngine(name);
    var n: nat :| var (t, l) := DbApi.RunSteps(e, s, e.start(c.sql), n);
      t == s' && e.finished(l) && e.result(l) == c.answer;
    var (s1, l1) := e.step(s, e.start(c.sql));
    assert n > 0 && DbApi.RunSteps(e, s, e.start(c.sql), n) == DbApi.RunSteps(e, s1, l1, n - 1);
  }

  lemma RanMore(name: string, log: seq<Commit>, tables: seq<TableState>, c: Commit, t: TableState)
    requires Ran(name, log, tables) && RanAt(name, tables[|log|], c, t)
    ensures Ran(name, log + [c], tables + [t])
  {
    forall j | 0 <= j < |log + [c]| ensures StepRan(name, log + [c], tables + [t], j) {
      assert j < |log| ==> StepRan(name, log, tables, j);
    }
  }

  lemma SerialLast(name: string, s: TableState, log: seq<Commit>, t: TableState) returns (u: TableState)
    requires log != [] && DbApi.Serial(TableEngine(name), s, log, t)
    ensures DbApi.Serial(TableEngine(name), s, log[..|log| - 1], u) && RanAt(name, u, log[|log| - 1], t)
  {
    var last := log[|log| - 1];
    u :| DbApi.Serial(TableEngine(name), s, log[..|log| - 1], u)
      && DbApi.Executes(TableEngine(name), u, last.sql, last.answer, t);
    EngineExecutes(name, u, last, t);
  }

  lemma LastSplit<T>(s: seq<T>)
    requires s != []
    ensures s == s[..|s| - 1] + [s[|s| - 1]]
  {
  }

  /** Statements run one by one are a history. */
  lemma {:induction false} SerialIsHistory(name: string, s: TableState, log: seq<Commit>, t: TableState)
    returns (tables: seq<TableState>)
    requires DbApi.Serial(TableEngine(name), s, log, t)
    ensures Ran(name, log, tables) && tables[0] == s && tables[|log|] == t
    decreases |log|
  {
    if log == [] {
      tables := [s];
    } else {
      var n := |log| - 1;
      var u := SerialLast(name, s, log, t);
      var before := SerialIsHistory(name, s, log[..n], u);
      RanMore(name, log[..n], before, log[n], t);
      LastSplit(log);
      tables := before + [t];
    }
  }

  /** The lock turns any interleaving of callers into a history of their statements in lock order, so what holds
      of histories holds of concurrent callers: a lookup that gets the lock after an insertion returns exactly the
      inserted row. */
  lemma ConcurrentLookup(name: string, s: TableState, trace: seq<DbApi.Api<TableState, Session, Answer>>, k: nat)
    returns (tables: seq<TableState>)
    requires DbApi.Run(TableEngine(name), s, trace) && k < |trace| && trace[k].holder == None && Sound(s)
    ensures Ran(name, trace[k].log, tables) && tables[0] == s && tables[|trace[k].log|] == trace[k].shared
    ensures AllRoomy(trace[k].log, tables) ==> forall i: nat, j: nat, row, key, indices ::
      i < j < |trace[k].log| && Inserts(name, tables[i], trace[k].log[i], row, key)
      && Looks(name, s.columns, trace[k].log[j], key, indices) ==>
        |row| == |s.columns| && trace[k].log[j].answer == Found(s.columns, row, indices)
  {
    DbApi.Serializable(TableEngine(name), s, trace, k);
    var log := trace[k].log;
    tables := SerialIsHistory(name, s, log, trace[k].shared);
    if AllRoomy(log, tables) {
      forall i: nat, j: nat, row, key, indices | i < j < |log| && Inserts(name, tables[i], log[i], row, key)
        && Looks(name, s.columns, log[j], key, indices)
        ensures |row| == |s.columns| && log[j].answer == Found(s.columns, row, indices)
      {
        InsertThenLookup(name, log, tables, i, j, row, key, indices);
      }
    }
  }
}
