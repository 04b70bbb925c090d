/** JSON strings as the API writes and reads them. */
module Json {
  import opened Machine
  import opened Names
  import opened Decimal

  // ---------------------------------------------------------------- string bodies, RFC 8259 section 7

  function HexDigit(d: int): char
    requires 0 <= d < 16
  {
    if d < 10 then (d + '0' as int) as char else (d - 10 + 'a' as int) as char
  }

  predicate IsHex(c: char) {
    '0' <= c <= '9' || 'a' <= c <= 'f' || 'A' <= c <= 'F'
  }

  function HexValue(c: char): (v: int)
    requires IsHex(c)
    ensures 0 <= v < 16
  {
    if c <= '9' then c as int - '0' as int
    else if c <= 'F' then c as int - 'A' as int + 10
    else c as int - 'a' as int + 10
  }

  /** The characters that stand for another one after a backslash. */
  function ShortEscape(c: char): Option<char> {
    match c
    case '"' => Some('"')
    case '\\' => Some('\\')
    case '/' => Some('/')
    case 'b' => Some(8 as char)
    case 'f' => Some(12 as char)
    case 'n' => Some('\n')
    case 'r' => Some('\r')
    case 't' => Some('\t')
    case _ => None
  }

  /** `unit` is one legal unit of a string body, standing for the character `c`. */
  ghost predicate Unit(unit: string, c: char) {
    || (unit == [c] && c as int >= 0x20 && c != '"' && c != '\\')
    || (|unit| == 2 && unit[0] == '\\' && ShortEscape(unit[1]) == Some(c))
    || (|unit| == 6 && unit[0] == '\\' && unit[1] == 'u' && (forall i :: 2 <= i < 6 ==> IsHex(unit[i]))
        && c as int == ((HexValue(unit[2]) * 16 + HexValue(unit[3])) * 16 + HexValue(unit[4])) * 16 + HexValue(unit[5]))
  }

  ghost predicate IsUnit(unit: string, c: char) {
    forall b {:trigger Seal(b)} :: Seal(b) ==> Unit(unit, c)
  }

  /** `body` is a legal string body that decodes to `text`. */
  ghost predicate Decodes(body: string, text: string)
    decreases |text|
  {
    if text == "" then body == ""
    else exists n :: 0 < n <= |body| && IsUnit(body[..n], text[0]) && Decodes(body[n..], text[1..])
  }

  lemma SameUnit(a: string, b: string, rest: string, rest': string, c: char, c': char)
    requires IsUnit(a, c) && IsUnit(b, c') && a + rest == b + rest'
    ensures a == b && c == c'
  {
    assert Seal(true);
    assert (a + rest)[0] == a[0] && (b + rest')[0] == b[0];
    if |a| > 1 && |b| > 1 {
      assert (a + rest)[1] == a[1] && (b + rest')[1] == b[1];
    }
    assert |a| == |b|;
    assert (a + rest)[..|a|] == a && (b + rest')[..|b|] == b;
  }

  lemma FirstUnit(body: string, text: string) returns (unit: string, rest: string)
    requires Decodes(body, text) && text != ""
    ensures body == unit + rest && |unit| > 0 && IsUnit(unit, text[0]) && Decodes(rest, text[1..])
  {
    var n :| 0 < n <= |body| && IsUnit(body[..n], text[0]) && Decodes(body[n..], text[1..]);
    unit, rest := body[..n], body[n..];
  }

  lemma NoBody(body: string, text: string)
    requires Decodes(body, text)
    ensures body == "" <==> text == ""
  {
    if text != "" {
      var unit, rest := FirstUnit(body, text);
    }
  }

  lemma HeadTail(s: string)
    requires s != ""
    ensures s == [s[0]] + s[1..]
  {
  }

  /** A body decodes to one text only. */
  lemma {:induction false} DecodesOne(body: string, text: string, text': string)
    requires Decodes(body, text) && Decodes(body, text')
    ensures text == text'
    decreases |text|
  {
    NoBody(body, text);
    NoBody(body, text');
    if text != "" {
      var a, rest := FirstUnit(body, text);
      var b, rest' := FirstUnit(body, text');
      SameUnit(a, b, rest, rest', text[0], text'[0]);
      SameRest(a, rest, rest');
      DecodesOne(rest, text[1..], text'[1..]);
      HeadTail(text);
      HeadTail(text');
    }
  }

  lemma SameRest(a: string, rest: string, rest': string)
    requires a + rest == a + rest'
    ensures rest == rest'
  {
    assert rest == (a + rest)[|a|..] && rest' == (a + rest')[|a|..];
  }

  lemma DecodesUnit(unit: string, c: char, body: string, text: string)
    requires IsUnit(unit, c) && Decodes(body, text)
    ensures Decodes(unit + body, [c] + text)
  {
    assert Seal(true);
    var whole, n := unit + body, |unit|;
    assert whole[..n] == unit && whole[n..] == body && ([c] + text)[1..] == text;
    assert 0 < n <= |whole| && IsUnit(whole[..n], ([c] + text)[0]) && Decodes(whole[n..], ([c] + text)[1..]);
  }

  // ---------------------------------------------------------------- escaping

  /** What one character becomes. */
  function EscapeOf(c: char): (e: string)
    ensures 1 <= |e| <= 6
  {
    if c == '"' || c == '\\' then ['\\', c]
    else if c == '\n' then "\\n"
    else if c == '\r' then "\\r"
    else if c == '\t' then "\\t"
    else if c as int < 0x20 then "\\u00" + [HexDigit(c as int / 16), HexDigit(c as int % 16)]
    else [c]
  }

  function Escaped(text: string): string {
    if text == "" then "" else EscapeOf(text[0]) + Escaped(text[1..])
  }

  lemma HexRoundTrip(d: int)
    requires 0 <= d < 16
    ensures IsHex(HexDigit(d)) && HexValue(HexDigit(d)) == d
  {
  }

  lemma EscapeIsUnit(c: char)
    ensures IsUnit(EscapeOf(c), c)
  {
    if c as int < 0x20 {
      HexRoundTrip(c as int / 16);
      HexRoundTrip(c as int % 16);
      HexRoundTrip(0);
    }
  }

  /** Every text is escaped into a legal JSON string body that decodes to it, at most six times as long. */
  lemma {:induction false} EscapedDecodes(text: string)
    ensures Decodes(Escaped(text), text) && |Escaped(text)| <= 6 * |text|
  {
    if text != "" {
      EscapeIsUnit(text[0]);
      EscapedDecodes(text[1..]);
      DecodesUnit(EscapeOf(text[0]), text[0], Escaped(text[1..]), text[1..]);
      assert text == [text[0]] + text[1..];
    }
  }

  lemma {:induction false} EscapedPush(text: string, c: char)
    ensures Escaped(text + [c]) == Escaped(text) + EscapeOf(c)
  {
    if text == "" {
      assert ("" + [c])[1..] == "";
    } else {
      assert (text + [c])[1..] == text[1..] + [c];
      EscapedPush(text[1..], c);
    }
  }

  /** Copies `unit` into `buffer` at `at`. */
  method Put(buffer: array<char>, at: nat, unit: string) returns (end: nat)
    requires at + |unit| <= buffer.Length
    modifies buffer
    ensures end == at + |unit| && buffer[..end] == old(buffer[..at]) + unit
  {
    ghost var before := buffer[..at];
    end := at;
    for i := 0 to |unit|
      invariant end == at + i && buffer[..end] == before + unit[..i]
    {
      buffer[end] := unit[i];
      end := end + 1;
      assert buffer[..end] == buffer[..at + i] + [unit[i]];
    }
    assert unit[..|unit|] == unit;
  }

  /** `json_escape`: fills a buffer of six slots per character. */
  method JsonEscape(text: string) returns (escaped: string)
    ensures escaped == Escaped(text)
    ensures Decodes(escaped, text) && |escaped| <= 6 * |text|
  {
    var buffer := new char[6 * |text| + 1];
    var out := 0;
    for index := 0 to |text|
      invariant 0 <= out <= 6 * index && buffer[..out] == Escaped(text[..index])
    {
      assert text[..index + 1] == text[..index] + [text[index]];
      EscapedPush(text[..index], text[index]);
      out := Put(buffer, out, EscapeOf(text[index]));
    }
    assert text[..|text|] == text;
    escaped := buffer[..out];
    EscapedDecodes(text);
  }

  // ---------------------------------------------------------------- reading the "sql" field

  /** What a backslash and a character are read as. */
  function Unescape(c: char): char {
    if c == 'n' then '\n' else if c == 'r' then '\r' else if c == 't' then '\t' else c
  }

  /** Reads a string body up to its closing quote; none when it is never closed. */
  ghost function ReadBody(body: string): Option<string>
    decreases |body|
  {
    if body == "" then None
    else if body[0] == '"' then Some("")
    else if body[0] == '\\' && |body| > 1 then Prepend(Unescape(body[1]), ReadBody(body[2..]))
    else Prepend(body[0], ReadBody(body[1..]))
  }

  ghost function Prepend(c: char, r: Option<string>): Option<string> {
    if r.None? then None else Some([c] + r.value)
  }

  ghost function PrependAll(s: string, r: Option<string>): Option<string> {
    if r.None? then None else Some(s + r.value)
  }

  method ReadStringBody(body: string, start: nat) returns (r: Option<string>)
    requires start <= |body|
    ensures r == ReadBody(body[start..])
  {
    var cursor, out := start, "";
    PrependNothing(ReadBody(body[start..]));
    while cursor < |body|
      invariant start <= cursor <= |body|
      invariant ReadBody(body[start..]) == PrependAll(out, ReadBody(body[cursor..]))
      decreases |body| - cursor
    {
      ghost var here := body[cursor..];
      var current := body[cursor];
      cursor := cursor + 1;
      if current == '"' {
        assert out + "" == out;
        return Some(out);
      }
      if current == '\\' && cursor < |body| {
        current := Unescape(body[cursor]);
        cursor := cursor + 1;
        assert here[2..] == body[cursor..];
      } else {
        assert here[1..] == body[cursor..];
      }
      PrependMore(out, current, ReadBody(body[cursor..]));
      out := out + [current];
    }
    r := None;
  }

  lemma PrependNothing(r: Option<string>)
    ensures PrependAll("", r) == r
  {
    if r.Some? {
      assert "" + r.value == r.value;
    }
  }

  lemma PrependMore(s: string, c: char, r: Option<string>)
    ensures PrependAll(s, Prepend(c, r)) == PrependAll(s + [c], r)
  {
    if r.Some? {
      assert s + ([c] + r.value) == s + [c] + r.value;
    }
  }

  predicate AllSpace(body: string, from: nat, to: nat)
    requires to <= |body|
  {
    forall i :: from <= i < to ==> IsSpace(body[i])
  }

  /** At `i` stands the name "sql", then a colon and an opening quote; the value starts at `start`. */
  ghost predicate FieldAt(body: string, i: nat, start: nat) {
    && i + 5 < |body| && body[i..i + 5] == "\"sql\""
    && exists colon :: i + 5 <= colon && colon + 1 < start <= |body| && body[colon] == ':' && body[start - 1] == '"'
         && AllSpace(body, i + 5, colon) && AllSpace(body, colon + 1, start - 1)
  }

  ghost predicate NoField(body: string, n: nat) {
    forall i: nat, start: nat :: i < n ==> !FieldAt(body, i, start)
  }

  /** The value of the first "sql" field, if it is closed. */
  ghost predicate Extracted(body: string, r: Option<string>) {
    || (r == None && NoField(body, |body|))
    || (exists i: nat, start: nat ::
          FieldAt(body, i, start) && start <= |body| && NoField(body, i) && r == ReadBody(body[start..]))
  }

  method SkipSpace(body: string, from: nat) returns (at: nat)
    requires from <= |body|
    ensures from <= at <= |body| && AllSpace(body, from, at) && (at < |body| ==> !IsSpace(body[at]))
  {
    at := from;
    while at < |body| && IsSpace(body[at])
      invariant from <= at <= |body| && AllSpace(body, from, at)
    {
      at := at + 1;
    }
  }

  /** Where the value of a field named at `i` starts. */
  method FieldStart(body: string, i: nat) returns (start: Option<nat>)
    requires i + 5 < |body|
    ensures start.Some? ==> FieldAt(body, i, start.value) && start.value <= |body|
    ensures start.None? ==> forall s :: !FieldAt(body, i, s)
  {
    if body[i] != '"' || body[i + 1] != 's' || body[i + 2] != 'q' || body[i + 3] != 'l' || body[i + 4] != '"' {
      NotNamed(body, i);
      return None;
    }
    assert body[i..i + 5] == "\"sql\"";
    var colon := SkipSpace(body, i + 5);
    if colon >= |body| || body[colon] != ':' {
      return None;
    }
    var quote := SkipSpace(body, colon + 1);
    if quote >= |body| || body[quote] != '"' {
      return None;
    }
    start := Some(quote + 1);
  }

  lemma NotNamed(body: string, i: nat)
    requires i + 5 < |body|
    requires body[i] != '"' || body[i + 1] != 's' || body[i + 2] != 'q' || body[i + 3] != 'l' || body[i + 4] != '"'
    ensures forall s :: !FieldAt(body, i, s)
  {
    var name := body[i..i + 5];
    assert name[0] == body[i] && name[1] == body[i + 1] && name[2] == body[i + 2] && name[3] == body[i + 3]
      && name[4] == body[i + 4];
  }

  /** `extract_json_sql_string`. */
  method ExtractJsonSql(body: string) returns (r: Option<string>)
    ensures Extracted(body, r)
  {
    var index := 0;
    while index + 5 < |body|
      invariant 0 <= index <= |body| && NoField(body, index)
    {
      var start := FieldStart(body, index);
      if start.Some? {
        r := ReadStringBody(body, start.value);
        return;
      }
      index := index + 1;
    }
    r := None;
  }

  // ---------------------------------------------------------------- writing, then reading

  /** What reading an escaped character gives: control characters without a short escape come out garbled. */
  function ReadBack(c: char): (s: string)
    ensures s == [c] || |s| == 5
  {
    if c as int < 0x20 && c != '\n' && c != '\r' && c != '\t' then EscapeOf(c)[1..] else [c]
  }

  function ReadBackAll(text: string): string {
    if text == "" then "" else ReadBack(text[0]) + ReadBackAll(text[1..])
  }

  /** No control characters but newline, carriage return and tab. */
  predicate CommonControls(text: string) {
    forall i :: 0 <= i < |text| ==> text[i] as int >= 0x20 || text[i] == '\n' || text[i] == '\r' || text[i] == '\t'
  }

  lemma {:induction false} ReadBackLength(text: string)
    ensures |ReadBackAll(text)| >= |text|
    ensures ReadBackAll(text) == text <==> CommonControls(text)
    ensures !CommonControls(text) ==> |ReadBackAll(text)| > |text|
  {
    if text != "" {
      ReadBackLength(text[1..]);
      assert text == [text[0]] + text[1..];
      if CommonControls(text[1..]) {
        assert forall i :: 1 <= i < |text| ==> text[1..][i - 1] == text[i];
      }
    }
  }

  lemma QuoteEnds(rest: string)
    ensures ReadBody("\"" + rest) == Some("")
  {
  }

  lemma ReadPlain(c: char, rest: string)
    requires c != '"' && c != '\\'
    ensures ReadBody([c] + rest) == Prepend(c, ReadBody(rest))
  {
    assert ([c] + rest)[1..] == rest;
  }

  lemma ReadEscape(c: char, rest: string)
    ensures ReadBody(['\\', c] + rest) == Prepend(Unescape(c), ReadBody(rest))
  {
    assert (['\\', c] + rest)[2..] == rest;
  }

  /** Four plain characters in a row. */
  lemma ReadDigits4(d: string, rest: string)
    requires |d| == 4 && forall i :: 0 <= i < 4 ==> d[i] != '"' && d[i] != '\\'
    ensures ReadBody(d + rest) == PrependAll(d, ReadBody(rest))
  {
    ReadPlain(d[3], rest);
    ReadPlain(d[2], [d[3]] + rest);
    ReadPlain(d[1], [d[2]] + ([d[3]] + rest));
    ReadPlain(d[0], [d[1]] + ([d[2]] + ([d[3]] + rest)));
    assert d + rest == [d[0]] + ([d[1]] + ([d[2]] + ([d[3]] + rest)));
    if ReadBody(rest).Some? {
      assert [d[0]] + ([d[1]] + ([d[2]] + ([d[3]] + ReadBody(rest).value))) == d + ReadBody(rest).value;
    }
  }

  lemma ReadUnicode(e: string, rest: string)
    requires |e| == 6 && e[0] == '\\' && e[1] == 'u' && forall i :: 2 <= i < 6 ==> e[i] != '"' && e[i] != '\\'
    ensures ReadBody(e + rest) == PrependAll(e[1..], ReadBody(rest))
  {
    var d := e[2..];
    ReadDigits4(d, rest);
    ReadEscape('u', d + rest);
    assert e + rest == ['\\', 'u'] + (d + rest);
    if ReadBody(rest).Some? {
      assert ['u'] + (d + ReadBody(rest).value) == e[1..] + ReadBody(rest).value;
    }
  }

  lemma HexIsPlain(d: int)
    requires 0 <= d < 16
    ensures HexDigit(d) != '"' && HexDigit(d) != '\\'
  {
  }

  /** Reading what one character was escaped to. */
  lemma ReadOne(c: char, rest: string)
    ensures ReadBody(EscapeOf(c) + rest) == PrependAll(ReadBack(c), ReadBody(rest))
  {
    var e := EscapeOf(c);
    if c == '"' || c == '\\' {
      ReadEscape(c, rest);
    } else if c == '\n' {
      ReadEscape('n', rest);
    } else if c == '\r' {
      ReadEscape('r', rest);
    } else if c == '\t' {
      ReadEscape('t', rest);
    } else if c as int < 0x20 {
      HexIsPlain(c as int / 16);
      HexIsPlain(c as int % 16);
      ReadUnicode(e, rest);
    } else {
      ReadPlain(c, rest);
    }
  }

  lemma {:induction false} ReadsEscaped(text: string, rest: string)
    ensures ReadBody(Escaped(text) + ("\"" + rest)) == Some(ReadBackAll(text))
  {
    if text == "" {
      QuoteEnds(rest);
      assert "" + ("\"" + rest) == "\"" + rest;
    } else {
      ReadsEscaped(text[1..], rest);
      ReadOne(text[0], Escaped(text[1..]) + ("\"" + rest));
      Reassociate(EscapeOf(text[0]), Escaped(text[1..]), "\"" + rest);
    }
  }

  lemma Reassociate<T>(a: seq<T>, b: seq<T>, c: seq<T>)
    ensures a + (b + c) == (a + b) + c
  {
  }

  /** The request of a client that writes the statement as `written`, a string body. */
  function RequestWith(written: string): string {
    "{\"sql\":\"" + (written + "\"}")
  }

  /** The request body a client sends for the text `t`. */
  function RequestBody(text: string): string {
    RequestWith(Escaped(text))
  }

  lemma RequestField(written: string)
    ensures FieldAt(RequestWith(written), 1, 8) && NoField(RequestWith(written), 1)
    ensures RequestWith(written)[8..] == written + "\"}"
  {
    var body := RequestWith(written);
    var head := "{\"sql\":\"";
    assert |head| == 8 && body[..8] == head;
    assert body[1..6] == "\"sql\"" && body[6] == ':' && body[7] == '"';
    assert 1 + 5 <= 6 && 6 + 1 < 8 <= |body| && body[6] == ':' && body[8 - 1] == '"' && AllSpace(body, 6, 6)
      && AllSpace(body, 7, 7);
    NotNamed(body, 0);
  }

  lemma OneStart(body: string, i: nat, start: nat, start': nat)
    requires FieldAt(body, i, start) && FieldAt(body, i, start')
    ensures start == start'
  {
    var c :| i + 5 <= c && c + 1 < start <= |body| && body[c] == ':' && body[start - 1] == '"'
      && AllSpace(body, i + 5, c) && AllSpace(body, c + 1, start - 1);
    var c' :| i + 5 <= c' && c' + 1 < start' <= |body| && body[c'] == ':' && body[start' - 1] == '"'
      && AllSpace(body, i + 5, c') && AllSpace(body, c' + 1, start' - 1);
    assert c == c';
  }

  lemma OnlyField(written: string, i: nat, start: nat)
    requires FieldAt(RequestWith(written), i, start) && NoField(RequestWith(written), i)
    ensures i == 1 && start == 8
  {
    RequestField(written);
    assert i >= 1;
    assert i <= 1;
    OneStart(RequestWith(written), 1, start, 8);
  }

  lemma ExtractedFrom(written: string, r: Option<string>)
    requires Extracted(RequestWith(written), r)
    ensures r == ReadBody(written + "\"}")
  {
    var body := RequestWith(written);
    RequestField(written);
    assert !NoField(body, |body|);
    var i: nat, start: nat :| FieldAt(body, i, start) && start <= |body| && NoField(body, i)
      && r == ReadBody(body[start..]);
    OnlyField(written, i, start);
  }

  /** Extracting the field from the body made for `text` gives `text` back exactly when its only control
      characters are newline, carriage return and tab. */
  lemma ExtractsBack(text: string, r: Option<string>)
    requires Extracted(RequestBody(text), r)
    ensures r == Some(ReadBackAll(text))
    ensures r == Some(text) <==> CommonControls(text)
  {
    ExtractedFrom(Escaped(text), r);
    ReadsEscaped(text, "}");
    assert "\"" + "}" == "\"}";
    ReadBackLength(text);
  }

  // ---------------------------------------------------------------- reading what any client wrote

  /** No escape `\b`, `\f` or `\u`. */
  predicate EasyEscapes(body: string)
    decreases |body|
  {
    if body == "" then true
    else if body[0] == '\\' && |body| > 1 then
      body[1] != 'b' && body[1] != 'f' && body[1] != 'u' && EasyEscapes(body[2..])
    else EasyEscapes(body[1..])
  }

  lemma EasyPlain(c: char, rest: string)
    requires c != '\\'
    ensures EasyEscapes([c] + rest) <==> EasyEscapes(rest)
  {
    assert ([c] + rest)[1..] == rest;
  }

  lemma EasyEscape(c: char, rest: string)
    ensures EasyEscapes(['\\', c] + rest) <==> c != 'b' && c != 'f' && c != 'u' && EasyEscapes(rest)
  {
    assert (['\\', c] + rest)[2..] == rest;
  }

  lemma UnescapeShort(e: char, c: char)
    requires ShortEscape(e) == Some(c)
    ensures e != 'u' && (Unescape(e) == c <==> e != 'b' && e != 'f')
  {
  }

  /** How the reader takes one unit: as the character it stands for, or, for three escapes, as something else. */
  lemma ReadUnit(unit: string, c: char, rest: string, behind: string) returns (s: string)
    requires IsUnit(unit, c)
    ensures ReadBody(unit + (rest + behind)) == PrependAll(s, ReadBody(rest + behind))
    ensures |s| == 1 || |s| == 5
    ensures EasyEscapes(unit + rest) <==> s == [c] && EasyEscapes(rest)
  {
    assert Seal(true);
    if |unit| == 1 {
      s := [c];
      ReadPlain(c, rest + behind);
      EasyPlain(c, rest);
    } else if |unit| == 2 {
      s := [Unescape(unit[1])];
      UnescapeShort(unit[1], c);
      ReadEscape(unit[1], rest + behind);
      EasyEscape(unit[1], rest);
      assert unit == ['\\', unit[1]];
    } else {
      s := unit[1..];
      ReadUnicode(unit, rest + behind);
      EasyEscape('u', unit[2..] + rest);
      assert unit + rest == ['\\', 'u'] + (unit[2..] + rest);
    }
  }

  lemma LongerOrSame(s: string, c: char, r: string, text: string)
    requires (|s| == 1 || |s| == 5) && text != "" && text[0] == c && |r| >= |text| - 1
    ensures |s + r| >= |text|
    ensures s + r == text <==> s == [c] && r == text[1..]
  {
    assert (s + r)[0] == s[0] && (s + r)[1..] == s[1..] + r;
    HeadTail(text);
    HeadTail(s);
    if |s| == 1 {
      assert s[1..] + r == r;
    }
  }

  /** A legal string body is read as the text it stands for if and only if it has no escape `\b`, `\f` or `\u`. */
  lemma {:induction false} BodyRead(body: string, text: string, rest: string)
    requires Decodes(body, text)
    ensures var r := ReadBody(body + ("\"" + rest));
      r.Some? && |r.value| >= |text| && (r.value == text <==> EasyEscapes(body))
    decreases |text|
  {
    var behind := "\"" + rest;
    if text == "" {
      QuoteEnds(rest);
      assert "" + behind == behind;
    } else {
      var unit, body' := FirstUnit(body, text);
      BodyRead(body', text[1..], rest);
      var s := ReadUnit(unit, text[0], body', behind);
      Reassociate(unit, body', behind);
      LongerOrSame(s, text[0], ReadBody(body' + behind).value, text);
    }
  }

  /** A request with the field "sql" somewhere in it, and white space around the colon. */
  function RequestIn(before: string, gap: string, gap': string, written: string, behind: string): string {
    before + "\"sql\"" + gap + ":" + gap' + "\"" + (written + ("\"" + behind))
  }

  predicate NameStands(body: string, i: nat) {
    i + 5 <= |body| && body[i..i + 5] == "\"sql\""
  }

  /** The name "sql" does not stand at any of the first `n` places. */
  ghost predicate NotNamedBefore(body: string, n: nat) {
    forall i: nat :: i < n ==> !NameStands(body, i)
  }

  lemma FieldFound(before: string, gap: string, gap': string, rest: string)
    requires SpaceCodes(gap) && SpaceCodes(gap')
    ensures var body := before + "\"sql\"" + gap + ":" + gap' + "\"" + rest;
      var start := |before| + 5 + |gap| + 1 + |gap'| + 1;
      FieldAt(body, |before|, start) && start <= |body| && body[start..] == rest
  {
    var body := before + "\"sql\"" + gap + ":" + gap' + "\"" + rest;
    var colon := |before| + 5 + |gap|;
    var start := colon + 1 + |gap'| + 1;
    assert body[|before|..|before| + 5] == "\"sql\"";
    assert body[colon] == ':' && body[start - 1] == '"';
    assert forall i :: |before| + 5 <= i < colon ==> body[i] == gap[i - (|before| + 5)];
    assert forall i :: colon + 1 <= i < start - 1 ==> body[i] == gap'[i - (colon + 1)];
    assert |before| + 5 <= colon && colon + 1 < start <= |body| && body[colon] == ':' && body[start - 1] == '"'
      && AllSpace(body, |before| + 5, colon) && AllSpace(body, colon + 1, start - 1);
  }

  lemma FirstField(body: string, n: nat, start: nat, r: Option<string>)
    requires Extracted(body, r) && FieldAt(body, n, start) && start <= |body| && NotNamedBefore(body, n)
    ensures r == ReadBody(body[start..])
  {
    assert n < |body| && !NoField(body, |body|);
    var i: nat, at: nat :| FieldAt(body, i, at) && at <= |body| && NoField(body, i) && r == ReadBody(body[at..]);
    assert i <= n;
    assert NameStands(body, i);
    OneStart(body, n, start, at);
  }

  /** Whatever client wrote the request, and whatever else is in it: the statement in its first "sql" field is read as
      meant if and only if it has none of these escapes. */
  lemma ClientRead(before: string, gap: string, gap': string, written: string, behind: string, text: string,
                   r: Option<string>)
    requires SpaceCodes(gap) && SpaceCodes(gap') && Decodes(written, text)
    requires NotNamedBefore(RequestIn(before, gap, gap', written, behind), |before|)
    requires Extracted(RequestIn(before, gap, gap', written, behind), r)
    ensures r.Some? && (r.value == text <==> EasyEscapes(written))
  {
    var start := |before| + 5 + |gap| + 1 + |gap'| + 1;
    FieldFound(before, gap, gap', written + ("\"" + behind));
    FirstField(RequestIn(before, gap, gap', written, behind), |before|, start, r);
    BodyRead(written, text, behind);
  }

  /** The short escapes of section 7 of RFC 8259, by character codes. */
  lemma EscapeCodes()
    ensures ShortEscape(34 as char) == Some(34 as char) && ShortEscape(92 as char) == Some(92 as char)
    ensures ShortEscape(47 as char) == Some(47 as char) && ShortEscape(98 as char) == Some(8 as char)
    ensures ShortEscape(102 as char) == Some(12 as char) && ShortEscape(110 as char) == Some(10 as char)
    ensures ShortEscape(114 as char) == Some(13 as char) && ShortEscape(116 as char) == Some(9 as char)
  {
  }

  /** The hexadecimal digits of either case, by character codes. */
  lemma HexCodes(c: char, d: int)
    requires IsHex(c)
    ensures (HexValue(c) == d && d <= 9) <==> c as int == 48 + d && 0 <= d <= 9
    ensures (HexValue(c) == d && d >= 10) <==> 10 <= d <= 15 && (c as int == 55 + d || c as int == 87 + d)
  {
  }

  /** What is escaped has no control characters. */
  lemma {:induction false} EscapedClean(text: string)
    ensures forall i :: 0 <= i < |Escaped(text)| ==> Escaped(text)[i] as int >= 0x20
  {
    if text != "" {
      EscapedClean(text[1..]);
      EscapeClean(text[0]);
    }
  }

  lemma EscapeClean(c: char)
    ensures forall i :: 0 <= i < |EscapeOf(c)| ==> EscapeOf(c)[i] as int >= 0x20
  {
  }
}
