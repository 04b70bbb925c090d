/** The lines and rows of a table file, and what appending a line does to them. */
module TableText {
  import opened CsvText

  // ---------------------------------------------------------------- lines

  /** Where the line starting at `pos` ends, newline included. */
  function LineEnd(text: string, pos: nat): (end: nat)
    requires pos <= |text|
    ensures pos <= end <= |text| && (pos < |text| ==> pos < end)
    ensures forall i :: pos <= i < end - 1 ==> text[i] != '\n'
    ensures end < |text| ==> text[end - 1] == '\n'
    decreases |text| - pos
  {
    if pos == |text| then pos
    else if text[pos] == '\n' then pos + 1
    else LineEnd(text, pos + 1)
  }

  /** Where a read of one line into a bounded buffer stops. */
  function ReadEnd(text: string, pos: nat): (end: nat)
    requires pos <= |text|
    ensures pos <= end <= |text| && (pos < |text| ==> pos < end)
  {
    if LineEnd(text, pos) - pos <= LINE_LIMIT then LineEnd(text, pos) else pos + LINE_LIMIT
  }

  /** Every line from `pos` on fits the line buffers. */
  ghost predicate LinesFit(text: string, pos: nat)
    requires pos <= |text|
    decreases |text| - pos
  {
    pos == |text| || (LineEnd(text, pos) - pos <= LINE_LIMIT && LinesFit(text, LineEnd(text, pos)))
  }

  predicate EndsLine(c: char) {
    c == '\n' || c == '\r'
  }

  /** A line without its line end characters. */
  function Trim(line: string): (r: string) {
    if line != "" && EndsLine(line[|line| - 1]) then Trim(line[..|line| - 1]) else line
  }

  /** `trim_newline`: cuts line end characters off the end, all of them and nothing else. */
  method TrimNewline(buffer: string) returns (line: string)
    ensures line <= buffer && (forall i :: |line| <= i < |buffer| ==> EndsLine(buffer[i]))
    ensures line == "" || !EndsLine(line[|line| - 1])
    ensures line == Trim(buffer)
  {
    line := buffer;
    while |line| > 0 && EndsLine(line[|line| - 1])
      invariant line <= buffer && Trim(line) == Trim(buffer)
      invariant forall i :: |line| <= i < |buffer| ==> EndsLine(buffer[i])
    {
      line := line[..|line| - 1];
    }
  }

  lemma TrimBody(body: string)
    requires '\n' !in body && '\r' !in body
    ensures Trim(body + "\n") == body
  {
    assert (body + "\n")[..|body|] == body;
  }

  // ---------------------------------------------------------------- rows

  /** A stored row: where its line starts, and its fields. */
  datatype Row = Row(offset: int, fields: seq<string>)

  /** The row of the line at `pos`; blank lines hold none. */
  ghost function RowsAt(text: string, pos: nat): seq<Row>
    requires pos <= |text|
  {
    var line := Trim(text[pos..LineEnd(text, pos)]);
    if line == "" then [] else [Row(pos, Fields(line))]
  }

  /** The rows of all lines from `pos` on. */
  ghost function RowsFrom(text: string, pos: nat): seq<Row>
    requires pos <= |text|
    decreases |text| - pos
  {
    if pos == |text| then [] else RowsAt(text, pos) + RowsFrom(text, LineEnd(text, pos))
  }

  /** What one bounded read and trim sees of a file whose lines fit the buffer. */
  lemma NextLine(text: string, pos: nat)
    requires pos < |text| && LinesFit(text, pos)
    ensures var end := ReadEnd(text, pos);
      && LinesFit(text, end)
      && RowsFrom(text, pos) ==
           (if Trim(text[pos..end]) == "" then [] else [Row(pos, Fields(Trim(text[pos..end])))]) + RowsFrom(text, end)
  {
  }

  /** A blank line adds no row. */
  lemma BlankNext(text: string, pos: nat)
    requires pos < |text| && LinesFit(text, pos) && Trim(text[pos..ReadEnd(text, pos)]) == ""
    ensures RowsFrom(text, pos) == RowsFrom(text, ReadEnd(text, pos))
  {
    NextLine(text, pos);
  }

  /** The first line holds the column names, the others the rows. */
  function DataStart(text: string): (pos: nat)
    ensures pos <= |text|
  {
    LineEnd(text, 0)
  }

  ghost function Columns(text: string): seq<string> {
    Fields(Trim(text[..DataStart(text)]))
  }

  ghost function Rows(text: string): seq<Row> {
    RowsFrom(text, DataStart(text))
  }

  /** The offset of a row is the start of its line. */
  ghost predicate RowAt(text: string, row: Row) {
    && 0 <= row.offset < |text| && Trim(text[row.offset..LineEnd(text, row.offset)]) != ""
    && row.fields == Fields(Trim(text[row.offset..LineEnd(text, row.offset)]))
    && LineEnd(text, row.offset) - row.offset <= LINE_LIMIT
    && (row.offset == 0 || text[row.offset - 1] == '\n')
  }

  /** The row of the line at `pos`, if the line is not blank. */
  lemma RowHere(text: string, pos: nat)
    requires pos < |text| && LinesFit(text, pos) && (pos == 0 || text[pos - 1] == '\n')
    ensures forall i :: 0 <= i < |RowsAt(text, pos)| ==> RowAt(text, RowsAt(text, pos)[i])
    ensures forall i :: 0 <= i < |RowsAt(text, pos)| ==> RowsAt(text, pos)[i].offset == pos
    ensures |RowsAt(text, pos)| <= 1
  {
  }

  /** What holds of the first rows and of the rest holds of both together. */
  lemma OrderJoined(here: seq<Row>, rest: seq<Row>, pos: int, k: nat)
    requires k < |rest| && |here| <= 1 && forall i :: 0 <= i < |here| ==> here[i].offset == pos
    requires pos < rest[k].offset && forall j :: 0 <= j < k ==> rest[j].offset < rest[k].offset
    ensures (here + rest)[|here| + k] == rest[k]
    ensures forall j :: 0 <= j < |here| + k ==> (here + rest)[j].offset < rest[k].offset
  {
    forall j | 0 <= j < |here| + k ensures (here + rest)[j].offset < rest[k].offset {
      assert j >= |here| ==> (here + rest)[j] == rest[j - |here|];
    }
  }

  /** Rows lie at ascending offsets, each at the start of its line. */
  lemma {:induction false} RowsLieInOrder(text: string, pos: nat, i: nat)
    requires pos <= |text| && LinesFit(text, pos) && (pos == 0 || pos == |text| || text[pos - 1] == '\n')
    requires i < |RowsFrom(text, pos)|
    ensures var rows := RowsFrom(text, pos);
      && RowAt(text, rows[i]) && pos <= rows[i].offset
      && forall j :: 0 <= j < i ==> rows[j].offset < rows[i].offset
    decreases |text| - pos
  {
    var end, here := LineEnd(text, pos), RowsAt(text, pos);
    RowHere(text, pos);
    if i >= |here| {
      RowsLieInOrder(text, end, i - |here|);
      OrderJoined(here, RowsFrom(text, end), pos, i - |here|);
    }
  }

  /** Reading at the offset of a row gives its fields. */
  lemma RowReads(text: string, row: Row)
    requires RowAt(text, row)
    ensures row == Row(row.offset, Fields(Trim(text[row.offset..ReadEnd(text, row.offset)])))
  {
  }

  // ---------------------------------------------------------------- line ends

  /** The same text with a carriage return before every newline. */
  function WithReturns(text: string): string {
    if text == "" then "" else (if text[0] == '\n' then "\r\n" else [text[0]]) + WithReturns(text[1..])
  }

  lemma {:induction false} ReturnsConcat(a: string, b: string)
    ensures WithReturns(a + b) == WithReturns(a) + WithReturns(b)
  {
    if a == "" {
      assert a + b == b;
    } else {
      assert (a + b)[1..] == a[1..] + b;
      ReturnsConcat(a[1..], b);
      Reassociate(if a[0] == '\n' then "\r\n" else [a[0]], WithReturns(a[1..]), WithReturns(b));
    }
  }

  lemma {:induction false} NoReturns(s: string)
    requires '\n' !in s
    ensures WithReturns(s) == s
  {
    if s != "" {
      NoReturns(s[1..]);
      assert s == [s[0]] + s[1..];
    }
  }

  lemma LineEndIs(text: string, pos: nat, end: nat)
    requires pos < end <= |text| && (end == |text| || text[end - 1] == '\n')
    requires forall i :: pos <= i < end - 1 ==> text[i] != '\n'
    ensures LineEnd(text, pos) == end
  {
  }

  /** One line, its newline included if it has one. */
  ghost predicate IsLine(line: string) {
    line != "" && '\n' !in line[..|line| - 1]
  }

  lemma TrimReturns(body: string)
    ensures Trim(body + "\n") == Trim(body) && Trim(body + "\r\n") == Trim(body)
  {
    assert (body + "\r\n")[..|body| + 1] == body + "\r";
    assert (body + "\r")[..|body|] == body && (body + "\n")[..|body|] == body;
  }

  lemma LineReturns(line: string)
    requires IsLine(line)
    ensures WithReturns(line) != "" && IsLine(WithReturns(line)) && Trim(WithReturns(line)) == Trim(line)
    ensures line[|line| - 1] == '\n' ==> WithReturns(line)[|WithReturns(line)| - 1] == '\n'
  {
    var body, last := line[..|line| - 1], line[|line| - 1];
    assert line == body + [last];
    NoReturns(body);
    ReturnsConcat(body, [last]);
    if last == '\n' {
      TrimReturns(body);
      assert WithReturns([last]) == "\r\n";
      assert (body + "\r\n")[..|body| + 1] == body + "\r";
    } else {
      NoReturns([last]);
    }
  }

  lemma LineAt(text: string, pos: nat)
    requires pos < |text|
    ensures var end := LineEnd(text, pos);
      IsLine(text[pos..end]) && (end < |text| ==> text[pos..end][end - pos - 1] == '\n')
  {
    var line := text[pos..LineEnd(text, pos)];
    forall i | 0 <= i < |line| - 1 ensures line[i] != '\n' {
      assert line[i] == text[pos + i];
    }
  }

  /** A line between two pieces of text ends where it ends by itself. */
  lemma LineInside(before: string, line: string, behind: string)
    requires IsLine(line) && (behind == "" || line[|line| - 1] == '\n')
    ensures LineEnd(before + line + behind, |before|) == |before + line|
    ensures (before + line + behind)[|before|..|before + line|] == line
  {
    var text := before + line + behind;
    forall i | |before| <= i < |before + line| - 1 ensures text[i] != '\n' {
      assert text[i] == line[..|line| - 1][i - |before|];
    }
    LineEndIs(text, |before|, |before + line|);
  }

  lemma ReturnsEmpty(s: string)
    ensures WithReturns(s) == "" <==> s == ""
  {
  }

  /** The line at `pos` and the line it becomes have the same text but for the line end. */
  lemma LineKept(text: string, pos: nat)
    requires pos < |text|
    ensures var end, t, p := LineEnd(text, pos), WithReturns(text), |WithReturns(text[..pos])|;
      && p < |t| && LineEnd(t, p) == |WithReturns(text[..end])|
      && Trim(t[p..LineEnd(t, p)]) == Trim(text[pos..end])
  {
    var end := LineEnd(text, pos);
    var before, line, behind := text[..pos], text[pos..end], text[end..];
    assert text == before + line + behind && text[..end] == before + line;
    ReturnsConcat(before + line, behind);
    ReturnsConcat(before, line);
    LineAt(text, pos);
    LineReturns(line);
    ReturnsEmpty(behind);
    LineInside(WithReturns(before), WithReturns(line), WithReturns(behind));
  }

  ghost predicate SameFields(a: seq<Row>, b: seq<Row>) {
    |a| == |b| && forall i :: 0 <= i < |a| ==> a[i].fields == b[i].fields
  }

  lemma SameFieldsConcat(a: seq<Row>, b: seq<Row>, c: seq<Row>, d: seq<Row>)
    requires SameFields(a, b) && SameFields(c, d)
    ensures SameFields(a + c, b + d)
  {
  }

  lemma RowKept(text: string, pos: nat)
    requires pos < |text|
    ensures var t, p, q := WithReturns(text), |WithReturns(text[..pos])|, |WithReturns(text[..LineEnd(text, pos)])|;
      p <= |t| && q <= |t| &&
      (SameFields(RowsFrom(t, q), RowsFrom(text, LineEnd(text, pos))) ==>
         SameFields(RowsFrom(t, p), RowsFrom(text, pos)))
  {
    LineKept(text, pos);
    var t, p, end := WithReturns(text), |WithReturns(text[..pos])|, LineEnd(text, pos);
    assert SameFields(RowsAt(t, p), RowsAt(text, pos));
    if SameFields(RowsFrom(t, LineEnd(t, p)), RowsFrom(text, end)) {
      SameFieldsConcat(RowsAt(t, p), RowsAt(text, pos), RowsFrom(t, LineEnd(t, p)), RowsFrom(text, end));
    }
  }

  lemma {:induction false} RowsKept(text: string, pos: nat)
    requires pos <= |text|
    ensures |WithReturns(text[..pos])| <= |WithReturns(text)|
    ensures SameFields(RowsFrom(WithReturns(text), |WithReturns(text[..pos])|), RowsFrom(text, pos))
    decreases |text| - pos
  {
    if pos < |text| {
      RowKept(text, pos);
      RowsKept(text, LineEnd(text, pos));
    } else {
      assert text[..pos] == text;
    }
  }

  /** Line ends of either kind are read alike: the same columns, and the same fields in every row. */
  lemma ReturnsIgnored(text: string)
    ensures Columns(WithReturns(text)) == Columns(text)
    ensures SameFields(Rows(WithReturns(text)), Rows(text))
  {
    var end, t := DataStart(text), WithReturns(text);
    if text != "" {
      LineKept(text, 0);
      assert text[..0] == "" && text[0..end] == text[..end];
      assert t[0..DataStart(t)] == t[..DataStart(t)];
    }
    RowsKept(text, end);
  }

  // ---------------------------------------------------------------- appending

  /** The text ends with a newline, so that what is appended starts a new line. */
  predicate Terminated(text: string) {
    text != "" && text[|text| - 1] == '\n'
  }

  lemma {:induction false} LineEndAppend(text: string, more: string, pos: nat)
    requires Terminated(text) && pos < |text|
    ensures LineEnd(text + more, pos) == LineEnd(text, pos)
    ensures (text + more)[pos..LineEnd(text, pos)] == text[pos..LineEnd(text, pos)]
    decreases |text| - pos
  {
    if text[pos] != '\n' {
      LineEndAppend(text, more, pos + 1);
    }
  }

  lemma {:induction false} RowsAppend(text: string, more: string, pos: nat)
    requires Terminated(text) && pos <= |text|
    ensures RowsFrom(text + more, pos) == RowsFrom(text, pos) + RowsFrom(text + more, |text|)
    decreases |text| - pos
  {
    if pos < |text| {
      LineEndAppend(text, more, pos);
      RowsAppend(text, more, LineEnd(text, pos));
      Reassociate(RowsAt(text, pos), RowsFrom(text, LineEnd(text, pos)), RowsFrom(text + more, |text|));
    }
  }

  lemma {:induction false} LinesFitAppend(text: string, more: string, pos: nat)
    requires Terminated(text) && pos <= |text| && LinesFit(text, pos)
    requires LinesFit(text + more, |text|)
    ensures LinesFit(text + more, pos)
    decreases |text| - pos
  {
    if pos < |text| {
      LineEndAppend(text, more, pos);
      LinesFitAppend(text, more, LineEnd(text, pos));
    }
  }

  lemma {:induction false} EndOfLine(text: string, pos: nat)
    requires pos < |text| && text[|text| - 1] == '\n' && forall i :: pos <= i < |text| - 1 ==> text[i] != '\n'
    ensures LineEnd(text, pos) == |text|
    decreases |text| - pos
  {
    if pos < |text| - 1 {
      EndOfLine(text, pos + 1);
    }
  }

  /** The line INSERT appends. */
  function StoredLine(values: seq<string>): string {
    Join(values) + "\n"
  }

  lemma LastLine(text: string, pos: nat, body: string)
    requires pos <= |text| && text[pos..] == body + "\n"
    requires '\n' !in body && '\r' !in body && body != ""
    ensures LineEnd(text, pos) == |text|
    ensures RowsFrom(text, pos) == [Row(pos, Fields(body))]
    ensures |body| + 1 <= LINE_LIMIT ==> LinesFit(text, pos)
  {
    assert text[pos..][|body|] == '\n' && |text| == pos + |body| + 1;
    forall i | pos <= i < |text| - 1 ensures text[i] != '\n' {
      assert text[pos..][i - pos] == body[i - pos];
    }
    EndOfLine(text, pos);
    TrimBody(body);
    assert text[pos..|text|] == text[pos..];
    assert RowsAt(text, pos) == [Row(pos, Fields(body))];
    assert RowsFrom(text, |text|) == [];
    assert LinesFit(text, |text|);
  }

  /** Appending a stored line to a terminated file adds exactly one row, at the old end of the file;
      columns, earlier rows and their offsets stay. */
  lemma AppendAddsRow(text: string, values: seq<string>)
    requires Terminated(text) && values != [] && Join(values) != ""
    requires forall i :: 0 <= i < |values| ==> Storable(values[i])
    ensures var whole := text + StoredLine(values);
      && Rows(whole) == Rows(text) + [Row(|text|, values)] && Columns(whole) == Columns(text)
      && Terminated(whole)
      && (LinesFit(text, 0) && |StoredLine(values)| <= LINE_LIMIT ==> LinesFit(whole, 0))
  {
    var line := StoredLine(values);
    JoinStorable(values);
    SplitOfJoin(values);
    assert (text + line)[|text|..] == line;
    LastLine(text + line, |text|, Join(values));
    LineEndAppend(text, line, 0);
    RowsAppend(text, line, DataStart(text));
    if LinesFit(text, 0) && |line| <= LINE_LIMIT {
      LinesFitAppend(text, line, 0);
    }
  }

  lemma {:induction false} RowsStartLines(text: string, pos: nat, i: nat)
    requires pos <= |text| && (pos == |text| || (pos > 0 && text[pos - 1] == '\n')) && i < |RowsFrom(text, pos)|
    ensures var row := RowsFrom(text, pos)[i]; 0 < row.offset < |text| && text[row.offset - 1] == '\n'
    decreases |text| - pos
  {
    if i >= |RowsAt(text, pos)| {
      RowsStartLines(text, LineEnd(text, pos), i - |RowsAt(text, pos)|);
    }
  }

  lemma RowStartsLine(text: string, rows: seq<Row>, row: Row)
    requires text != "" && Rows(text) == rows + [row]
    ensures 0 < row.offset < |text| && text[row.offset - 1] == '\n'
  {
    RowsStartLines(text, DataStart(text), |rows|);
  }

  /** An append adds the row it was meant to add exactly when the file ended in a newline before. */
  lemma AppendIffTerminated(text: string, values: seq<string>)
    requires text != "" && values != [] && Join(values) != ""
    requires forall i :: 0 <= i < |values| ==> Storable(values[i])
    ensures Rows(text + StoredLine(values)) == Rows(text) + [Row(|text|, values)] <==> Terminated(text)
  {
    if Terminated(text) {
      AppendAddsRow(text, values);
    } else if Rows(text + StoredLine(values)) == Rows(text) + [Row(|text|, values)] {
      RowStartsLine(text + StoredLine(values), Rows(text), Row(|text|, values));
    }
  }

  /** Without the final newline the new line is glued to the last one. */
  lemma GluedRow()
    ensures Rows("id,name\n1,a" + StoredLine(["2", "b"])) == [Row(8, ["1", "a2", "b"])]
  {
    var text := "id,name\n1,a2,b\n";
    assert "id,name\n1,a" + StoredLine(["2", "b"]) == text by {
      assert ["2", "b"][1..] == ["b"];
      assert Join(["2", "b"]) == "2,b";
    }
    assert text == "id,name\n" + "1,a2,b\n";
    EndOfLine("id,name\n", 0);
    LineEndAppend("id,name\n", "1,a2,b\n", 0);
    assert text[8..] == "1,a2,b" + "\n";
    LastLine(text, 8, "1,a2,b");
    GluedFields();
  }

  lemma GluedFields()
    ensures Fields("1,a2,b") == ["1", "a2", "b"]
  {
    var values := ["1", "a2", "b"];
    assert values[1..] == ["a2", "b"] && values[1..][1..] == ["b"];
    assert Join(values) == "1" + "," + ("a2" + "," + "b");
    SplitOfJoin(values);
    assert "1" + "," + ("a2" + "," + "b") == "1,a2,b";
  }
}
