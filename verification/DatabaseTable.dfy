/** A table: its text file, and the B+ tree that maps ids to row offsets. */
module DatabaseTable {
  import opened Machine
  import opened Comparison
  import opened Names
  import opened Decimal
  import opened Ast
  import opened CsvText
  import opened TableText
  import opened TableIndex
  import opened SelectRows
  import opened InsertRow
  import opened TreeShape
  import opened IndexFile
  import opened IndexInvariant
  import opened RangeVisit
  import opened BPlusTree

  /** File offsets are 64-bit. */
  const TEXT_LIMIT: int := 0x4000_0000_0000_0000

  class TextFile {
    var text: string

    constructor (text: string)
      ensures this.text == text
    {
      this.text := text;
    }

    /** Appends in place. */
    method Append(more: string)
      modifies this
      ensures text == old(text) + more
    {
      text := text + more;
    }
  }

  ghost predicate HasIdColumn(text: string, at: int) {
    text != "" && at >= 0 && FoundAt(Columns(text), "id", at)
  }

  lemma OneIdColumn(text: string)
    ensures forall at, at' :: HasIdColumn(text, at) && HasIdColumn(text, at') ==> at == at'
  {
  }

  /** The index and the table file agree. */
  ghost predicate InStep(text: string, m: map<int, int>, idColumn: int) {
    && 0 <= idColumn < |Columns(text)|
    && Indexable(Rows(text), |Columns(text)|, idColumn) && Agrees(m, Rows(text), |Columns(text)|, idColumn)
  }

  /** The index file looks up to date: its header counts as many keys as the table has rows, and the table is no
      newer. */
  ghost predicate LooksCurrent(bytes: seq<byte>, text: string, tableNewer: bool) {
    AcceptableHeader(bytes) && StoredKeys(bytes) == |Rows(text)| > 0 && !tableNewer
  }

  /** An index that is older than its table, empty, or of another size than the table is never taken over as it is. */
  lemma StaleIsRebuilt(bytes: seq<byte>, text: string, tableNewer: bool)
    ensures tableNewer || Rows(text) == [] || (AcceptableHeader(bytes) && StoredKeys(bytes) != |Rows(text)|) ==>
      !LooksCurrent(bytes, text, tableNewer)
  {
  }

  /** What the schema line says. */
  ghost predicate SchemaOf(text: string, columns: seq<string>, idColumn: int) {
    && text != "" && |text| < TEXT_LIMIT && LinesFit(text, 0)
    && columns == Columns(text) && idColumn >= 0 && FoundAt(columns, "id", idColumn)
  }

  /** What the catalogue knows about a table is right: the index agrees with the rows of the file. */
  ghost predicate Consistent(text: string, columns: seq<string>, idColumn: int, rowCount: int, nextId: int,
                             m: map<int, int>) {
    forall b {:trigger Seal(b)} :: Seal(b) ==> ConsistentParts(text, columns, idColumn, rowCount, nextId, m)
  }

  ghost predicate ConsistentParts(text: string, columns: seq<string>, idColumn: int, rowCount: int, nextId: int,
                                  m: map<int, int>) {
    && SchemaOf(text, columns, idColumn)
    && Indexable(Rows(text), |columns|, idColumn) && Agrees(m, Rows(text), |columns|, idColumn)
    && rowCount == |Rows(text)| && IsNext(m, nextId)
  }

  class DatabaseTable {
    const data: TextFile
    var index: BPlusTree
    var columns: seq<string>
    var idColumn: int
    var nextId: int
    var rowCount: int

    ghost predicate Valid()
      reads this, data, index, index.file
    {
      && index.Valid() && 0 <= idColumn < |columns|
      && Consistent(data.text, columns, idColumn, rowCount, nextId, index.contents)
    }

    constructor (data: TextFile, index: BPlusTree)
      ensures this.data == data && this.index == index
    {
      this.data, this.index := data, index;
      columns, idColumn, nextId, rowCount := [], -1, 1, 0;
    }

    // -------------------------------------------------------------- building the index

    /** Indexes one non-blank line that starts at `offset`. */
    method IndexLine(line: string, offset: int64) returns (ok: bool)
      requires index.Valid() && 0 <= idColumn < |columns|
      requires idColumn < |Fields(line)| ==> !Denotes(Fields(line)[idColumn], INT32_MAX)
      modifies index, index.file
      ensures index.Valid()
      ensures var row := Row(offset, Fields(line));
        && (ok <==> GoodRow(row, |columns|, idColumn) && Id(row, idColumn) !in old(index.contents))
        && (ok ==> index.contents == old(index.contents)[Id(row, idColumn) := offset as int])
    {
      var fields := SplitCsvLine(line);
      SplitUnique(line, fields, Fields(line));
      if |fields| != |columns| {
        return false;
      }
      var id := ParseIntStrict(fields[idColumn]);
      if id.None? {
        return false;
      }
      IdIs(fields[idColumn], id.value);
      ok := index.Insert(id.value, offset);
    }

    /** Indexes the row in a non-blank line; `rest` are the rows behind it. */
    method IndexRow(line: string, offset: int64, ghost all: seq<Row>, ghost done: seq<Row>, ghost rest: seq<Row>)
      returns (ok: bool)
      requires index.Valid() && 0 <= idColumn < |columns| && IdsBelowLimit(all, idColumn)
      requires Progress(all, done, [Row(offset, Fields(line))] + rest, index.contents, |columns|, idColumn)
      modifies index, index.file
      ensures index.Valid()
      ensures ok ==> Progress(all, done + [Row(offset, Fields(line))], rest, index.contents, |columns|, idColumn)
      ensures !ok ==> !Indexable(all, |columns|, idColumn)
    {
      ghost var row, m := Row(offset, Fields(line)), index.contents;
      ProgressRow(all, done, row, rest, m, |columns|, idColumn);
      ok := IndexLine(line, offset);
      if ok {
        ProgressPush(all, done, row, rest, m, |columns|, idColumn);
      } else {
        ProgressStuck(all, done, row, rest, m, |columns|, idColumn);
      }
    }

    /** Reads the line at `offset` and indexes the row in it, if there is one. */
    method IndexNext(offset: nat, ghost all: seq<Row>, ghost done: seq<Row>)
      returns (ok: bool, pos: nat, ghost done': seq<Row>)
      requires index.Valid() && 0 <= idColumn < |columns| && IdsBelowLimit(all, idColumn)
      requires offset < |data.text| < TEXT_LIMIT && LinesFit(data.text, offset)
      requires Progress(all, done, RowsFrom(data.text, offset), index.contents, |columns|, idColumn)
      modifies index, index.file
      ensures index.Valid() && offset < pos <= |data.text| && LinesFit(data.text, pos)
      ensures ok ==> Progress(all, done', RowsFrom(data.text, pos), index.contents, |columns|, idColumn)
      ensures !ok ==> !Indexable(all, |columns|, idColumn)
    {
      NextLine(data.text, offset);
      pos := ReadEnd(data.text, offset);
      var line := TrimNewline(data.text[offset..pos]);
      ok, done' := true, done;
      if line == "" {
        BlankNext(data.text, offset);
      } else {
        ok := IndexRow(line, offset, all, done, RowsFrom(data.text, pos));
        done' := done + [Row(offset, Fields(line))];
      }
    }

    /** Reads the file from `start` to its end and indexes every row. */
    method BuildIndex(start: nat) returns (ok: bool)
      requires index.Valid() && index.contents == map[] && 0 <= idColumn < |columns|
      requires start <= |data.text| < TEXT_LIMIT && LinesFit(data.text, start)
      requires IdsBelowLimit(RowsFrom(data.text, start), idColumn)
      modifies this`rowCount, this`nextId, index, index.file
      ensures index.Valid()
      ensures ok <==> Indexable(RowsFrom(data.text, start), |columns|, idColumn)
      ensures ok ==> Agrees(index.contents, RowsFrom(data.text, start), |columns|, idColumn)
      ensures ok ==> rowCount == |RowsFrom(data.text, start)| && IsNext(index.contents, nextId)
    {
      ghost var all, done := RowsFrom(data.text, start), [];
      var pos := start;
      ok := true;
      ProgressStarts(all, |columns|, idColumn);
      while pos < |data.text|
        invariant index.Valid() && pos <= |data.text| && LinesFit(data.text, pos)
        invariant Progress(all, done, RowsFrom(data.text, pos), index.contents, |columns|, idColumn)
        decreases |data.text| - pos
      {
        ok, pos, done := IndexNext(pos, all, done);
        if !ok {
          return;
        }
      }
      ProgressEnds(all, done, index.contents, |columns|, idColumn);
      rowCount := index.Size();
      nextId := index.NextId();
      ok := true;
    }

    // -------------------------------------------------------------- loading

    /** Reads the schema line. */
    method LoadSchema() returns (ok: bool, start: nat)
      requires |data.text| < TEXT_LIMIT && LinesFit(data.text, 0)
      modifies this`columns, this`idColumn
      ensures ok <==> exists at :: HasIdColumn(data.text, at)
      ensures ok ==> SchemaOf(data.text, columns, idColumn) && start == DataStart(data.text)
    {
      start := 0;
      if data.text == "" {
        return false, start;
      }
      start := ReadEnd(data.text, 0);
      assert data.text[0..start] == data.text[..start];
      var line := TrimNewline(data.text[..start]);
      columns := SplitCsvLine(line);
      SplitUnique(line, columns, Columns(data.text));
      idColumn := FindColumn(columns, "id");
      ok := idColumn >= 0;
      assert ok ==> HasIdColumn(data.text, idColumn);
    }

    /** Counts the non-blank lines from `start` on. */
    method CountTableRows(start: nat) returns (n: nat)
      requires start <= |data.text| && LinesFit(data.text, start)
      ensures n == |RowsFrom(data.text, start)|
    {
      var pos := start;
      n := 0;
      while pos < |data.text|
        invariant pos <= |data.text| && LinesFit(data.text, pos)
        invariant n + |RowsFrom(data.text, pos)| == |RowsFrom(data.text, start)|
        decreases |data.text| - pos
      {
        NextLine(data.text, pos);
        var end := ReadEnd(data.text, pos);
        var line := TrimNewline(data.text[pos..end]);
        if line != "" {
          n := n + 1;
        }
        pos := end;
      }
    }

    /** Throws the index file away and builds a new one from the table file. */
    method RebuildIndex(start: nat) returns (ok: bool)
      requires SchemaOf(data.text, columns, idColumn) && start == DataStart(data.text)
      requires IdsBelowLimit(Rows(data.text), idColumn)
      modifies this`index, this`rowCount, this`nextId
      ensures fresh(index) && fresh(index.file)
      ensures ok <==> Indexable(Rows(data.text), |columns|, idColumn)
      ensures ok ==> Valid()
    {
      var file := new IndexFile();
      var tree := BPlusTree.Open(file, None, 0);
      index := tree.value;
      ok := BuildIndex(start);
    }

    /** Takes over the index found on disk, or rebuilds it. */
    method ChooseIndex(start: nat, tableNewer: bool) returns (ok: bool)
      requires SchemaOf(data.text, columns, idColumn) && start == DataStart(data.text)
      requires IdsBelowLimit(Rows(data.text), idColumn)
      requires index.keyCount == |Rows(data.text)| > 0 && !tableNewer ==>
        index.Valid() && InStep(data.text, index.contents, idColumn)
      modifies this`index, this`rowCount, this`nextId
      ensures index == old(index) || (fresh(index) && fresh(index.file))
      ensures ok <==> Indexable(Rows(data.text), |columns|, idColumn)
      ensures ok ==> Valid()
    {
      var rows := CountTableRows(start);
      var keys := index.Size();
      if keys == 0 || keys != rows || tableNewer {
        ok := RebuildIndex(start);
      } else {
        rowCount := rows;
        nextId := index.NextId();
        ok := true;
      }
    }

    /** Opens a table.  An index that looks up to date is reused; that it then holds a tree that agrees with the
        file, `shape`, is assumed here.  Any other is rebuilt, whatever its pages hold. */
    static method Load(data: TextFile, indexFile: IndexFile, tableNewer: bool, ghost shape: Option<Tree>,
                       ghost height: nat)
      returns (r: Option<DatabaseTable>)
      requires |data.text| < TEXT_LIMIT && LinesFit(data.text, 0)
      requires forall at :: HasIdColumn(data.text, at) ==> IdsBelowLimit(Rows(data.text), at)
      requires LooksCurrent(indexFile.bytes, data.text, tableNewer) ==>
        && indexFile.Valid() && Held(shape, height, indexFile.header, indexFile.pages)
        && forall at :: HasIdColumn(data.text, at) ==> InStep(data.text, Contents(EntriesOf(shape)), at)
      modifies indexFile
      ensures r.Some? <==>
        && (old(indexFile.bytes) == [] || AcceptableHeader(old(indexFile.bytes)))
        && exists at :: HasIdColumn(data.text, at) && Indexable(Rows(data.text), |Columns(data.text)|, at)
      ensures r.Some? ==> fresh(r.value) && r.value.data == data && r.value.Valid()
    {
      r := None;
      var tree := BPlusTree.Open(indexFile, shape, height);
      if tree.Err? {
        return;
      }
      var table := new DatabaseTable(data, tree.value);
      var ok, start := table.LoadSchema();
      if !ok {
        return;
      }
      assert HasIdColumn(data.text, table.idColumn);
      OneIdColumn(data.text);
      ok := table.ChooseIndex(start, tableNewer);
      if ok {
        r := Some(table);
      }
    }

    // -------------------------------------------------------------- INSERT

    /** Appends a row to the table file and returns where it starts. */
    method AppendRow(values: seq<string>) returns (offset: nat)
      requires values != []
      modifies data
      ensures data.text == old(data.text) + StoredLine(values) && offset == |old(data.text)|
    {
      ghost var before := data.text;
      offset := |data.text|;
      for index := 0 to |values|
        invariant data.text == before + Join(values[..index])
      {
        assert values[..index + 1] == values[..index] + [values[index]];
        if index > 0 {
          JoinPush(values[..index], values[index]);
          data.Append(",");
        }
        data.Append(values[index]);
      }
      assert values[..|values|] == values;
      data.Append("\n");
    }

    /** Inserts one row: file and index change together, or nothing changes. */
    method ExecuteInsert(stmt: InsertStatement) returns (ok: bool, id: int, ghost row: seq<string>)
      requires Valid() && Terminated(data.text)
      requires forall r :: RowFor(columns, idColumn, nextId, stmt, r) ==> Fits(data.text, r, idColumn)
      modifies this`rowCount, this`nextId, data, index, index.file
      ensures Valid() && Terminated(data.text)
      ensures ok <==> exists r :: Insertable(columns, idColumn, old(nextId), stmt, old(index.contents), r)
      ensures ok ==>
        Insertable(columns, idColumn, old(nextId), stmt, old(index.contents), row) && Denotes(row[idColumn], id)
      ensures ok ==> Rows(data.text) == old(Rows(data.text)) + [Row(|old(data.text)|, row)]
      ensures ok ==> data.text == old(data.text) + StoredLine(row)
      ensures ok ==> index.contents == old(index.contents)[id := |old(data.text)|]
      ensures !ok ==> data.text == old(data.text) && index.contents == old(index.contents) && nextId == old(nextId)
    {
      var values;
      ok, values, id := CheckRow(stmt);
      row := values;
      if ok {
        StoreRow(values, id);
      }
    }

    /** Everything an INSERT checks before it writes. */
    method CheckRow(stmt: InsertStatement) returns (ok: bool, values: seq<string>, id: int)
      requires Valid()
      modifies index.file`pos
      ensures Valid() && (ok <==> exists r :: Insertable(columns, idColumn, nextId, stmt, index.contents, r))
      ensures ok ==> Insertable(columns, idColumn, nextId, stmt, index.contents, values)
      ensures ok ==>
        |values| == |columns| && Denotes(values[idColumn], id) && id !in index.contents && INT32_MIN <= id <= INT32_MAX
    {
      ok, values, id := BuildInsertRow(columns, idColumn, nextId, stmt);
      if !ok {
        return;
      }
      var found, value := index.Search(id);
      if found {
        ok := false;
      } else {
        ok := AllStorable(values);
      }
      InsertDecided(columns, idColumn, nextId, stmt, index.contents, values, id, ok);
    }

    method StoreRow(values: seq<string>, id: int)
      requires Valid() && Terminated(data.text) && |values| == |columns| && INT32_MIN <= id <= INT32_MAX
      requires Fits(data.text, values, idColumn) && Denotes(values[idColumn], id) && id !in index.contents
      requires forall i :: 0 <= i < |values| ==> Storable(values[i])
      modifies this`rowCount, this`nextId, data, index, index.file
      ensures Valid() && Terminated(data.text)
      ensures Rows(data.text) == old(Rows(data.text)) + [Row(|old(data.text)|, values)]
      ensures data.text == old(data.text) + StoredLine(values)
      ensures index.contents == old(index.contents)[id := |old(data.text)|]
    {
      AppendKeeps(data.text, columns, idColumn, rowCount, nextId, index.contents, values, id);
      var offset := AppendRow(values);
      var added := index.Insert(id, offset);
      rowCount := rowCount + 1;
      if id >= nextId {
        nextId := id + 1;
      }
    }

    static method AllStorable(values: seq<string>) returns (ok: bool)
      ensures ok <==> forall i :: 0 <= i < |values| ==> Storable(values[i])
    {
      for index := 0 to |values|
        invariant forall i :: 0 <= i < index ==> Storable(values[i])
      {
        if ',' in values[index] || '\n' in values[index] || '\r' in values[index] {
          return false;
        }
      }
      ok := true;
    }

    // -------------------------------------------------------------- SELECT

    /** Reads the row that starts at `offset` and writes its chosen columns. */
    method EmitRowAt(offset: int, indices: seq<nat>, output: string) returns (output': string, ghost row: Row)
      requires forall i :: 0 <= i < |indices| ==> indices[i] < |columns|
      requires Readable(data.text, |columns|, offset)
      ensures row == Row(offset, Fields(Trim(data.text[offset..ReadEnd(data.text, offset)])))
      ensures |row.fields| == |columns|
      ensures output' == output + StoredLine(Pick(row.fields, indices))
    {
      var line := TrimNewline(data.text[offset..ReadEnd(data.text, offset)]);
      var fields := SplitCsvLine(line);
      SplitUnique(line, fields, Fields(line));
      FieldCountIs(line, fields);
      row := Row(offset, fields);
      output' := WriteProjection(output, fields, indices);
    }

    /** `execute_indexed_select`: the rows found through the index, by ascending id. */
    method IndexedSelect(filter: WhereClause, indices: seq<nat>)
      returns (ok: bool, output: string, stats: QueryStats, ghost found: seq<Row>)
      requires Valid() && forall i :: 0 <= i < |indices| ==> indices[i] < |columns|
      modifies index.file`pos
      ensures Valid() && (ok <==> IsId(filter.value.text))
      ensures ok ==> AscendingIds(found, |columns|, idColumn) && stats == QueryStats(true, |found|, |found|)
      ensures ok ==> output == StoredLine(Pick(columns, indices)) + Rendered(found, indices, |columns|)
      ensures ok ==> SameRowsAsScan(found, Rows(data.text), |columns|, idColumn, AsNumber(filter))
    {
      output, stats, found := "", QueryStats(true, 0, 0), [];
      var key := ParseIntStrict(filter.value.text);
      ok := key.Some?;
      if ok {
        output, stats, found := SelectByKey(filter, key.value, indices);
      }
    }

    /** Visits the index and writes the header and the rows it points at. */
    method SelectByKey(filter: WhereClause, key: int32, indices: seq<nat>)
      returns (output: string, stats: QueryStats, ghost found: seq<Row>)
      requires Valid() && Denotes(filter.value.text, key) && forall i :: 0 <= i < |indices| ==> indices[i] < |columns|
      modifies index.file`pos
      ensures Valid() && AscendingIds(found, |columns|, idColumn) && stats == QueryStats(true, |found|, |found|)
      ensures output == StoredLine(Pick(columns, indices)) + Rendered(found, indices, |columns|)
      ensures SameRowsAsScan(found, Rows(data.text), |columns|, idColumn, AsNumber(filter))
    {
      var ok, calls;
      ghost var es;
      ok, calls, es := SelectEntries(filter.op, key);
      var header := WriteProjection("", columns, indices);
      assert header == StoredLine(Pick(columns, indices));
      output, found := EmitSelected(calls, indices, header, es, filter, key);
      stats := QueryStats(true, |calls|, |calls|);
    }

    method EmitSelected(calls: seq<Entry>, indices: seq<nat>, header: string, ghost es: seq<Entry>,
                        ghost filter: WhereClause, ghost key: int)
      returns (output: string, ghost found: seq<Row>)
      requires Valid() && forall i :: 0 <= i < |indices| ==> indices[i] < |columns|
      requires Ascending(es) && index.contents == Contents(es) && calls == Select(es, filter.op, key)
      requires AllInMap(calls, index.contents) && Denotes(filter.value.text, key)
      ensures |found| == |calls| && AscendingIds(found, |columns|, idColumn)
      ensures output == header + Rendered(found, indices, |columns|)
      ensures SameRowsAsScan(found, Rows(data.text), |columns|, idColumn, AsNumber(filter))
    {
      output, found := EmitCalls(calls, indices, header);
      FoundIsRight(data.text, columns, idColumn, rowCount, nextId, index.contents, es, found, filter, key);
    }

    /** Visits the index; the callback reads each row and never has to refuse. */
    method SelectEntries(op: CompareOperator, key: int32) returns (ok: bool, calls: seq<Entry>, ghost es: seq<Entry>)
      requires Valid()
      modifies index.file`pos
      ensures Valid() && ok && Ascending(es) && index.contents == Contents(es) && calls == Select(es, op, key)
      ensures AllInMap(calls, index.contents)
    {
      es := EntriesOf(index.shape);
      index.Meaning();
      ok, calls := index.Visit(op, key, RowCheck(data.text, |columns|));
      SelectionReadable(data.text, columns, idColumn, rowCount, nextId, index.contents, es, op, key);
      ghost var sel := Select(es, op, key);
      VisitSucceeds(sel, data.text, |columns|, calls, ok);
    }

    /** Writes the rows of all calls, in order. */
    method EmitCalls(calls: seq<Entry>, indices: seq<nat>, header: string)
      returns (output: string, ghost found: seq<Row>)
      requires Valid() && forall i :: 0 <= i < |indices| ==> indices[i] < |columns|
      requires AllInMap(calls, index.contents)
      ensures PointsAt(calls, found, Rows(data.text), |columns|, idColumn)
      ensures output == header + Rendered(found, indices, |columns|)
    {
      output, found := header, [];
      ghost var row;
      EmittedNothing(Rows(data.text), |columns|, idColumn, indices, header);
      for n := 0 to |calls|
        invariant Emitted(calls[..n], found, Rows(data.text), |columns|, idColumn, indices, header, output)
      {
        EntryRow(data.text, columns, idColumn, rowCount, nextId, index.contents, calls[n].key);
        ghost var before := output;
        output, row := EmitRowAt(calls[n].value, indices, output);
        EmittedPush(calls, n, found, row, Rows(data.text), |columns|, idColumn, indices, header, before);
        found := found + [row];
      }
      assert calls[..|calls|] == calls;
      EmittedAll(calls, found, Rows(data.text), |columns|, idColumn, indices, header, output);
    }

    /** Scans a non-blank line; `rest` are the rows behind it. */
    method ScanLine(line: string, ghost pos: nat, hasWhere: bool, filter: WhereClause, indices: seq<nat>,
                    output: string, ghost all: seq<Row>, ghost done: seq<Row>, ghost rest: seq<Row>,
                    ghost header: string, ghost passed: seq<Row>)
      returns (ok: bool, output': string, matched: nat, ghost passed': seq<Row>)
      requires forall i :: 0 <= i < |indices| ==> indices[i] < |columns|
      requires Scanning(all, done, [Row(pos, Fields(line))] + rest, columns, hasWhere, filter, indices, header, output,
                        passed)
      ensures ok ==> Scanning(all, done + [Row(pos, Fields(line))], rest, columns, hasWhere, filter, indices, header,
                              output', passed')
      ensures ok ==> |passed'| == |passed| + matched
      ensures !ok ==> AllWide(all, |columns|) && !Decidable(all, columns, hasWhere, filter)
    {
      var fields := SplitCsvLine(line);
      SplitUnique(line, fields, Fields(line));
      ghost var row := Row(pos, fields);
      passed' := passed;
      ScanRowWide(all, done, row, rest, columns, hasWhere, filter, indices, header, output, passed);
      ok, output', matched := ScanFields(fields, hasWhere, filter, indices, output);
      if !ok {
        ScanStuck(all, done, row, rest, columns, hasWhere, filter, indices, header, output, passed);
      } else if matched == 1 {
        ScanHit(all, done, row, rest, columns, hasWhere, filter, indices, header, output, passed);
        passed' := passed + [row];
      } else {
        ScanMiss(all, done, row, rest, columns, hasWhere, filter, indices, header, output, passed);
      }
    }

    /** Scans the line at `pos`: writes it if it matches, fails if the filter makes no sense on it. */
    method ScanNext(pos: nat, hasWhere: bool, filter: WhereClause, indices: seq<nat>, output: string,
                    ghost all: seq<Row>, ghost done: seq<Row>, ghost header: string, ghost passed: seq<Row>)
      returns (ok: bool, next: nat, output': string, scanned: nat, matched: nat, ghost done': seq<Row>,
               ghost passed': seq<Row>)
      requires pos < |data.text| && LinesFit(data.text, pos)
      requires forall i :: 0 <= i < |indices| ==> indices[i] < |columns|
      requires Scanning(all, done, RowsFrom(data.text, pos), columns, hasWhere, filter, indices, header, output, passed)
      ensures pos < next <= |data.text| && LinesFit(data.text, next)
      ensures ok ==> Scanning(all, done', RowsFrom(data.text, next), columns, hasWhere, filter, indices, header,
                              output', passed')
      ensures ok ==> |done'| == |done| + scanned && |passed'| == |passed| + matched
      ensures !ok ==> AllWide(all, |columns|) && !Decidable(all, columns, hasWhere, filter)
    {
      NextLine(data.text, pos);
      next := ReadEnd(data.text, pos);
      var line := TrimNewline(data.text[pos..next]);
      ok, output', scanned, matched, done', passed' := true, output, 0, 0, done, passed;
      if line == "" {
        BlankNext(data.text, pos);
      } else {
        ghost var rest := RowsFrom(data.text, next);
        ok, output', matched, passed' :=
          ScanLine(line, pos, hasWhere, filter, indices, output, all, done, rest, header, passed);
        scanned, done' := 1, done + [Row(pos, Fields(line))];
      }
    }

    method ScanFields(fields: seq<string>, hasWhere: bool, filter: WhereClause, indices: seq<nat>, output: string)
      returns (ok: bool, output': string, matched: nat)
      requires |fields| == |columns| && forall i :: 0 <= i < |indices| ==> indices[i] < |columns|
      ensures matched <= 1
      ensures forall offset ::
        RowVerdict(Row(offset, fields), columns, hasWhere, filter) == (if ok then Some(matched == 1) else None)
      ensures output' == if matched == 1 then output + StoredLine(Pick(fields, indices)) else output
    {
      output', matched := output, 0;
      var matches := RowMatches(fields, columns, hasWhere, filter);
      ok := matches.Some?;
      if ok && matches.value {
        output' := WriteProjection(output, fields, indices);
        matched := 1;
      }
    }

    /** `execute_linear_select`: every row, in file order, through the filter. */
    method LinearSelect(hasWhere: bool, filter: WhereClause, indices: seq<nat>)
      returns (ok: bool, output: string, stats: QueryStats, ghost passed: seq<Row>)
      requires Valid() && forall i :: 0 <= i < |indices| ==> indices[i] < |columns|
      ensures AllWide(Rows(data.text), |columns|) && (ok <==> Decidable(Rows(data.text), columns, hasWhere, filter))
      ensures ok ==> passed == ScanResult(Rows(data.text), columns, hasWhere, filter) && AllWide(passed, |columns|)
      ensures ok ==> output == StoredLine(Pick(columns, indices)) + Rendered(passed, indices, |columns|)
      ensures ok ==> stats == QueryStats(false, |Rows(data.text)|, |passed|)
    {
      TableRows(data.text, columns, idColumn, rowCount, nextId, index.contents);
      var start := ReadEnd(data.text, 0);
      output := WriteProjection("", columns, indices);
      assert output == StoredLine(Pick(columns, indices));
      ok, output, stats, passed := ScanFrom(start, hasWhere, filter, indices, output);
    }

    /** Scans all lines from `start` on. */
    method ScanFrom(start: nat, hasWhere: bool, filter: WhereClause, indices: seq<nat>, header: string)
      returns (ok: bool, output: string, stats: QueryStats, ghost passed: seq<Row>)
      requires start <= |data.text| && LinesFit(data.text, start) && AllWide(RowsFrom(data.text, start), |columns|)
      requires forall i :: 0 <= i < |indices| ==> indices[i] < |columns|
      ensures ok <==> Decidable(RowsFrom(data.text, start), columns, hasWhere, filter)
      ensures ok ==>
        passed == ScanResult(RowsFrom(data.text, start), columns, hasWhere, filter) && AllWide(passed, |columns|)
      ensures ok ==> output == header + Rendered(passed, indices, |columns|)
      ensures ok ==> stats == QueryStats(false, |RowsFrom(data.text, start)|, |passed|)
    {
      ghost var all, done := RowsFrom(data.text, start), [];
      var pos := start;
      var scanned, matched := 0, 0;
      output, passed, stats := header, [], QueryStats(false, 0, 0);
      ScanStarts(all, columns, hasWhere, filter, indices, header);
      while pos < |data.text|
        invariant pos <= |data.text| && LinesFit(data.text, pos) && scanned == |done| && matched == |passed|
        invariant Scanning(all, done, RowsFrom(data.text, pos), columns, hasWhere, filter, indices, header, output,
                           passed)
        decreases |data.text| - pos
      {
        var seen, hit;
        ok, pos, output, seen, hit, done, passed :=
          ScanNext(pos, hasWhere, filter, indices, output, all, done, header, passed);
        if !ok {
          return;
        }
        scanned, matched := scanned + seen, matched + hit;
      }
      ScanEnds(all, done, columns, hasWhere, filter, indices, header, output, passed);
      stats := QueryStats(false, scanned, matched);
      ok := true;
    }

    /** `database_execute_select`: through the index when the filter is on the id, by a scan otherwise. */
    method ExecuteSelect(stmt: SelectStatement)
      returns (ok: bool, output: string, stats: QueryStats, ghost rows: seq<Row>, indices: seq<nat>)
      requires Valid()
      modifies index.file`pos
      ensures Valid() && data.text == old(data.text) && AllWide(Rows(data.text), |columns|)
      ensures ok <==> (exists p :: Projects(columns, stmt.columns, p)) && Answerable(Rows(data.text), columns, stmt)
      ensures ok ==> Projects(columns, stmt.columns, indices) && AllWide(rows, |columns|)
      ensures ok ==> output == StoredLine(Pick(columns, indices)) + Rendered(rows, indices, |columns|)
      ensures ok ==> SamePassed(rows, Rows(data.text), columns, stmt)
      ensures ok ==> stats.usedIndex == ById(stmt) && stats.matched == |rows|
      ensures ok && stats.usedIndex ==> AscendingIds(rows, |columns|, idColumn) && stats.scanned == stats.matched
      ensures ok && !stats.usedIndex ==>
        rows == ScanResult(Rows(data.text), columns, stmt.hasWhere, stmt.filter) && stats.scanned == |Rows(data.text)|
    {
      TableRows(data.text, columns, idColumn, rowCount, nextId, index.contents);
      output, stats, rows := "", QueryStats(false, 0, 0), [];
      ok, indices := BuildOutputIndices(columns, stmt.columns);
      if !ok {
        return;
      }
      var byId := CaseEqual(stmt.filter.column, "id");
      if stmt.hasWhere && byId && idColumn >= 0 {
        ok, output, stats, rows := IndexedSelect(stmt.filter, indices);
        if ok {
          IdFilter(data.text, columns, idColumn, rowCount, nextId, index.contents, stmt, rows);
        }
      } else {
        ok, output, stats, rows := LinearSelect(stmt.hasWhere, stmt.filter, indices);
      }
    }
  }

  /** The filter is on the id, so that the index answers it. */
  predicate ById(stmt: SelectStatement) {
    stmt.hasWhere && SameName(stmt.filter.column, "id")
  }

  /** The filter makes sense: for the index its literal must be an integer, for the scan every row must decide it. */
  ghost predicate Answerable(all: seq<Row>, columns: seq<string>, stmt: SelectStatement)
    requires AllWide(all, |columns|)
  {
    if ById(stmt) then IsId(stmt.filter.value.text) else Decidable(all, columns, stmt.hasWhere, stmt.filter)
  }

  /** The filter as it is taken: the index compares numbers, whatever kind of literal was written. */
  function FilterTaken(stmt: SelectStatement): WhereClause {
    if ById(stmt) then AsNumber(stmt.filter) else stmt.filter
  }

  /** `rows` are, up to order, the rows of the table that satisfy the filter. */
  ghost predicate SamePassed(rows: seq<Row>, all: seq<Row>, columns: seq<string>, stmt: SelectStatement)
    requires AllWide(all, |columns|)
  {
    multiset(rows) == multiset(ScanResult(all, columns, stmt.hasWhere, FilterTaken(stmt)))
  }

  lemma TableRows(text: string, columns: seq<string>, idColumn: int, rowCount: int, nextId: int, m: map<int, int>)
    requires Consistent(text, columns, idColumn, rowCount, nextId, m) && idColumn >= 0
    ensures text != "" && columns != [] && columns == Columns(text) && AllWide(Rows(text), |columns|)
    ensures ReadEnd(text, 0) == DataStart(text) && LinesFit(text, DataStart(text))
    ensures FoundAt(columns, "id", idColumn)
  {
    assert Seal(true);
    DataLinesFit(text);
  }

  /** A filter on the id: the rows the index gives are those the table has for it. */
  lemma IdFilter(text: string, columns: seq<string>, idColumn: int, rowCount: int, nextId: int, m: map<int, int>,
                 stmt: SelectStatement, rows: seq<Row>)
    requires Consistent(text, columns, idColumn, rowCount, nextId, m) && 0 <= idColumn < |columns| && ById(stmt)
    requires SameRowsAsScan(rows, Rows(text), |columns|, idColumn, AsNumber(stmt.filter))
    ensures AllWide(Rows(text), |columns|) && SamePassed(rows, Rows(text), columns, stmt)
  {
    TableRows(text, columns, idColumn, rowCount, nextId, m);
    SameColumn(columns, "id", stmt.filter.column, idColumn);
  }

  datatype QueryStats = QueryStats(usedIndex: bool, scanned: nat, matched: nat)

  lemma KeyedRow(rows: seq<Row>, m: map<int, int>, key: int, width: nat, idColumn: nat) returns (i: nat)
    requires Agrees(m, rows, width, idColumn) && key in m
    ensures i < |rows| && GoodRow(rows[i], width, idColumn) && Id(rows[i], idColumn) == key && rows[i].offset == m[key]
  {
    i :| 0 <= i < |rows| && Id(rows[i], idColumn) == key;
    assert GoodRow(rows[i], width, idColumn);
  }

  lemma RowReadable(text: string, row: Row, width: nat)
    requires RowAt(text, row) && |row.fields| == width
    ensures Readable(text, width, row.offset)
    ensures row == Row(row.offset, Fields(Trim(text[row.offset..ReadEnd(text, row.offset)])))
  {
    RowReads(text, row);
    FieldCountIs(Trim(text[row.offset..ReadEnd(text, row.offset)]), row.fields);
  }

  /** The offset an index entry holds is where the row with that id starts. */
  lemma EntryRow(text: string, columns: seq<string>, idColumn: int, rowCount: int, nextId: int, m: map<int, int>,
                 key: int)
    requires Consistent(text, columns, idColumn, rowCount, nextId, m) && key in m && idColumn >= 0
    ensures Readable(text, |columns|, m[key])
    ensures var row := Row(m[key], Fields(Trim(text[m[key]..ReadEnd(text, m[key])])));
      row in Rows(text) && GoodRow(row, |columns|, idColumn) && Id(row, idColumn) == key
  {
    assert Seal(true);
    var i := KeyedRow(Rows(text), m, key, |columns|, idColumn);
    DataLinesFit(text);
    RowsLieInOrder(text, DataStart(text), i);
    RowReadable(text, Rows(text)[i], |columns|);
  }

  lemma DataLinesFit(text: string)
    requires text != "" && LinesFit(text, 0)
    ensures LinesFit(text, DataStart(text))
    ensures var pos := DataStart(text); pos > 0 && (pos == |text| || text[pos - 1] == '\n')
  {
  }

  lemma SelectedInMap(es: seq<Entry>, m: map<int, int>, op: CompareOperator, key: int)
    requires Ascending(es) && m == Contents(es)
    ensures AllInMap(Select(es, op, key), m)
  {
    var sel := Select(es, op, key);
    SelectionMeaning(es, op, key);
    ContentsRepresents(es);
    forall i | 0 <= i < |sel| ensures sel[i].key in m && m[sel[i].key] == sel[i].value {
      assert sel[i] in sel && sel[i] in es;
    }
  }

  lemma SelectionReadable(text: string, columns: seq<string>, idColumn: int, rowCount: int, nextId: int,
                          m: map<int, int>, es: seq<Entry>, op: CompareOperator, key: int)
    requires Consistent(text, columns, idColumn, rowCount, nextId, m) && Ascending(es) && m == Contents(es)
    requires idColumn >= 0
    ensures AllReadable(Select(es, op, key), text, |columns|) && AllInMap(Select(es, op, key), m)
  {
    var sel := Select(es, op, key);
    SelectedInMap(es, m, op, key);
    forall i | 0 <= i < |sel| ensures Readable(text, |columns|, sel[i].value) {
      EntryRow(text, columns, idColumn, rowCount, nextId, m, sel[i].key);
    }
  }

  lemma FoundIsRight(text: string, columns: seq<string>, idColumn: int, rowCount: int, nextId: int, m: map<int, int>,
                     es: seq<Entry>, found: seq<Row>, filter: WhereClause, key: int)
    requires Consistent(text, columns, idColumn, rowCount, nextId, m) && Ascending(es) && m == Contents(es)
    requires idColumn >= 0
    requires PointsAt(Select(es, filter.op, key), found, Rows(text), |columns|, idColumn)
    requires Denotes(filter.value.text, key)
    ensures AscendingIds(found, |columns|, idColumn)
    ensures SameRowsAsScan(found, Rows(text), |columns|, idColumn, AsNumber(filter))
  {
    assert Seal(true);
    var rows := Rows(text);
    DataLinesFit(text);
    forall i, j | 0 <= i < j < |rows| ensures rows[i].offset < rows[j].offset {
      RowsLieInOrder(text, DataStart(text), j);
    }
    IndexRefinesScan(es, found, rows, m, |columns|, idColumn, AsNumber(filter), key);
  }

  /** The row can be stored: its line fits the buffers and its id leaves room for the next one. */
  ghost predicate Fits(text: string, row: seq<string>, idColumn: nat) {
    && |StoredLine(row)| <= LINE_LIMIT && |text| + |StoredLine(row)| < TEXT_LIMIT
    && idColumn < |row| && !Denotes(row[idColumn], INT32_MAX)
  }

  /** The row an INSERT adds: complete, with a new integer id and storable values. */
  ghost predicate Insertable(columns: seq<string>, idColumn: nat, nextId: int, stmt: InsertStatement, m: map<int, int>,
                             row: seq<string>) {
    && RowFor(columns, idColumn, nextId, stmt, row) && idColumn < |row|
    && IsId(row[idColumn]) && IdOf(row[idColumn]) !in m
    && forall i :: 0 <= i < |row| ==> Storable(row[i])
  }

  /** The checks of an INSERT decide whether there is a row to add. */
  lemma InsertDecided(columns: seq<string>, idColumn: nat, nextId: int, stmt: InsertStatement, m: map<int, int>,
                      row: seq<string>, id: int, ok: bool)
    requires RowFor(columns, idColumn, nextId, stmt, row) && idColumn < |row| && Denotes(row[idColumn], id)
    requires ok <==> id !in m && forall i :: 0 <= i < |row| ==> Storable(row[i])
    ensures ok <==> exists r :: Insertable(columns, idColumn, nextId, stmt, m, r)
    ensures ok ==> Insertable(columns, idColumn, nextId, stmt, m, row)
  {
    IdIs(row[idColumn], id);
    assert ok ==> Insertable(columns, idColumn, nextId, stmt, m, row);
    if r :| Insertable(columns, idColumn, nextId, stmt, m, r) {
      RowForOne(columns, idColumn, nextId, stmt, r, row);
    }
  }

  /** An id is a non-empty text, so a stored row is never blank. */
  lemma {:induction false} JoinNotEmpty(values: seq<string>, i: nat)
    requires i < |values| && values[i] != ""
    ensures Join(values) != ""
  {
    if |values| > 1 && i > 0 {
      JoinNotEmpty(values[1..], i - 1);
    }
  }

  lemma IdNotEmpty(text: string, v: int)
    requires Denotes(text, v)
    ensures text != ""
  {
    var b: nat, s: string, d: string :| Numeral(text, b, s, d) && Signed(s, d) == v;
    assert |text[b..]| == |s| + |d|;
  }

  /** Appending an acceptable row to the file and entering it into the map keeps the table consistent. */
  lemma AppendKeeps(text: string, columns: seq<string>, idColumn: int, rowCount: int, nextId: int, m: map<int, int>,
                    row: seq<string>, id: int)
    requires Consistent(text, columns, idColumn, rowCount, nextId, m) && Terminated(text)
    requires 0 <= idColumn && |row| == |columns| && Fits(text, row, idColumn) && Denotes(row[idColumn], id) && id !in m
    requires forall i :: 0 <= i < |row| ==> Storable(row[i])
    ensures var whole := text + StoredLine(row);
      && Consistent(whole, columns, idColumn, rowCount + 1, if id >= nextId then id + 1 else nextId, m[id := |text|])
      && Terminated(whole) && Rows(whole) == Rows(text) + [Row(|text|, row)]
  {
    assert Seal(true);
    IdIs(row[idColumn], id);
    IdNotEmpty(row[idColumn], id);
    JoinNotEmpty(row, idColumn);
    AppendAddsRow(text, row);
    AgreesPush(m, Rows(text), Row(|text|, row), |columns|, idColumn);
    NextAfter(m, nextId, id, |text|);
  }
}
