/** A table file as text: lines, fields, and the rows a reader sees. */
module CsvText {
  /** A read of one line takes at most this many characters: the line buffers hold one more for the terminator. */
  const LINE_LIMIT: nat := 8191

  // ---------------------------------------------------------------- fields

  /** Fields with commas in between. */
  function Join(fields: seq<string>): string {
    if fields == [] then ""
    else if |fields| == 1 then fields[0]
    else fields[0] + "," + Join(fields[1..])
  }

  /** A value that can be stored in a field. */
  predicate Storable(value: string) {
    ',' !in value && '\n' !in value && '\r' !in value
  }

  /** By ASCII code: no comma, newline or carriage return. */
  lemma StorableCodes(value: string)
    ensures Storable(value) <==> forall i :: 0 <= i < |value| ==> value[i] as int !in [44, 10, 13]
  {
  }

  /** `fields` is what splitting `line` at its commas means. */
  ghost predicate SplitsInto(line: string, fields: seq<string>) {
    fields != [] && (forall i :: 0 <= i < |fields| ==> ',' !in fields[i]) && Join(fields) == line
  }

  /** Where the first field ends. */
  lemma FirstComma(line: string, fields: seq<string>)
    requires SplitsInto(line, fields)
    ensures |fields| == 1 ==> fields[0] == line
    ensures |fields| > 1 ==> |fields[0]| < |line| && line[|fields[0]|] == ','
    ensures |fields[0]| <= |line| && line[..|fields[0]|] == fields[0]
    ensures forall i :: 0 <= i < |fields[0]| ==> line[i] != ','
    ensures |fields| > 1 ==> SplitsInto(line[|fields[0]| + 1..], fields[1..])
  {
  }

  /** A line splits in one way only. */
  lemma {:induction false} SplitUnique(line: string, a: seq<string>, b: seq<string>)
    requires SplitsInto(line, a) && SplitsInto(line, b)
    ensures a == b
    decreases |line|
  {
    FirstComma(line, a);
    FirstComma(line, b);
    assert |a[0]| == |b[0]|;
    if |a| > 1 && |b| > 1 {
      SplitUnique(line[|a[0]| + 1..], a[1..], b[1..]);
      assert a == [a[0]] + a[1..] && b == [b[0]] + b[1..];
    }
  }

  lemma {:induction false} JoinPush(fields: seq<string>, last: string)
    requires fields != []
    ensures Join(fields + [last]) == Join(fields) + "," + last
  {
    if |fields| == 1 {
      assert (fields + [last])[1..] == [last];
    } else {
      assert (fields + [last])[1..] == fields[1..] + [last];
      JoinPush(fields[1..], last);
    }
  }

  /** `split_csv_line`: one scan with a field start and a cursor. */
  method SplitCsvLine(line: string) returns (fields: seq<string>)
    ensures SplitsInto(line, fields)
  {
    var start, cursor := 0, 0;
    fields := [];
    while true
      invariant 0 <= start <= cursor <= |line| && ',' !in line[start..cursor]
      invariant forall i :: 0 <= i < |fields| ==> ',' !in fields[i]
      invariant if fields == [] then start == 0 else 0 < start && line[..start] == Join(fields) + ","
      decreases |line| - cursor
    {
      if cursor < |line| && line[cursor] != ',' {
        cursor := cursor + 1;
        continue;
      }
      FieldDone(line, fields, start, cursor);
      fields := fields + [line[start..cursor]];
      if cursor == |line| {
        assert line[..cursor] == line;
        break;
      }
      assert line[..cursor + 1] == line[..cursor] + ",";
      start := cursor + 1;
      cursor := start;
    }
  }

  lemma FieldDone(line: string, fields: seq<string>, start: nat, cursor: nat)
    requires start <= cursor <= |line|
    requires if fields == [] then start == 0 else line[..start] == Join(fields) + ","
    ensures line[..cursor] == Join(fields + [line[start..cursor]])
  {
    assert line[..cursor] == line[..start] + line[start..cursor];
    if fields != [] {
      JoinPush(fields, line[start..cursor]);
    }
  }

  /** The fields of a line: exists and is unique. */
  ghost function Fields(line: string): (fields: seq<string>)
    ensures SplitsInto(line, fields)
  {
    SomeSplit(line);
    var fields :| SplitsInto(line, fields);
    fields
  }

  lemma {:induction false} SomeSplit(line: string)
    ensures exists fields :: SplitsInto(line, fields)
  {
    if line == "" {
      assert SplitsInto(line, [""]);
    } else {
      var init, last := line[..|line| - 1], line[|line| - 1];
      SomeSplit(init);
      var fields :| SplitsInto(init, fields);
      if last == ',' {
        JoinPush(fields, "");
        assert SplitsInto(line, fields + [""]);
      } else {
        var head, tail := fields[..|fields| - 1], fields[|fields| - 1];
        assert fields == head + [tail];
        LastLonger(head, tail, last);
        assert SplitsInto(line, head + [tail + [last]]);
      }
    }
  }

  lemma LastLonger(init: seq<string>, last: string, c: char)
    ensures Join(init + [last + [c]]) == Join(init + [last]) + [c]
  {
    if init == [] {
      assert init + [last] == [last] && init + [last + [c]] == [last + [c]];
    } else {
      JoinPush(init, last);
      JoinPush(init, last + [c]);
      Reassociate(Join(init) + ",", last, [c]);
    }
  }

  lemma Reassociate<T>(a: seq<T>, b: seq<T>, c: seq<T>)
    ensures a + (b + c) == (a + b) + c
  {
  }

  /** What is joined from storable values splits into the same values. */
  lemma SplitOfJoin(values: seq<string>)
    requires values != [] && forall i :: 0 <= i < |values| ==> ',' !in values[i]
    ensures Fields(Join(values)) == values
  {
    SplitUnique(Join(values), Fields(Join(values)), values);
  }

  lemma {:induction false} JoinStorable(values: seq<string>)
    requires forall i :: 0 <= i < |values| ==> Storable(values[i])
    ensures '\n' !in Join(values) && '\r' !in Join(values)
  {
    if |values| > 1 {
      JoinStorable(values[1..]);
    }
  }

  // ---------------------------------------------------------------- counting fields

  /** One more than the number of commas. */
  function FieldCount(line: string): nat {
    if line == "" then 1 else FieldCount(line[..|line| - 1]) + (if line[|line| - 1] == ',' then 1 else 0)
  }

  lemma {:induction false} FieldCountConcat(a: string, b: string)
    ensures FieldCount(a + b) == FieldCount(a) + FieldCount(b) - 1
  {
    if b == "" {
      assert a + b == a;
    } else {
      assert (a + b)[..|a + b| - 1] == a + b[..|b| - 1];
      FieldCountConcat(a, b[..|b| - 1]);
    }
  }

  lemma {:induction false} NoComma(s: string)
    requires ',' !in s
    ensures FieldCount(s) == 1
  {
    if s != "" {
      NoComma(s[..|s| - 1]);
    }
  }

  /** A line has as many fields as commas, and one more. */
  lemma {:induction false} FieldCountIs(line: string, fields: seq<string>)
    requires SplitsInto(line, fields)
    ensures |fields| == FieldCount(line)
    decreases |fields|
  {
    NoComma(fields[0]);
    if |fields| > 1 {
      var rest := Join(fields[1..]);
      FieldCountIs(rest, fields[1..]);
      FieldCountConcat(fields[0] + ",", rest);
      FieldCountConcat(fields[0], ",");
      NoComma("");
      assert ","[..0] == "";
    }
  }

  lemma {:induction false} JoinConcat(a: seq<string>, b: seq<string>)
    requires a != [] && b != []
    ensures Join(a + b) == Join(a) + "," + Join(b)
  {
    if |b| == 1 {
      JoinPush(a, b[0]);
      assert b == [b[0]];
    } else {
      var init, last := b[..|b| - 1], b[|b| - 1];
      JoinConcat(a, init);
      JoinPush(a + init, last);
      JoinPush(init, last);
      assert b == init + [last] && a + b == a + init + [last];
      Reassociate4(Join(a) + ",", Join(init), ",", last);
    }
  }

  lemma Reassociate4(a: string, b: string, c: string, d: string)
    ensures a + b + c + d == a + (b + c + d)
  {
  }

  /** Some fields have been read up to a comma: the rest of the line holds the other fields. */
  lemma FieldsSoFar(line: string, done: seq<string>, start: nat)
    requires start <= |line| && forall i :: 0 <= i < |done| ==> ',' !in done[i]
    requires if done == [] then start == 0 else line[..start] == Join(done) + ","
    ensures Fields(line) == done + Fields(line[start..])
  {
    var rest := Fields(line[start..]);
    assert line == line[..start] + line[start..];
    if done == [] {
      assert line[0..] == line && done + rest == rest;
    } else {
      JoinConcat(done, rest);
      SplitUnique(line, Fields(line), done + rest);
    }
  }
}
