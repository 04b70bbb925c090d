/** Reading JSON text, after RFC 8259: strings, natural numbers, arrays and objects, with blanks between tokens.
    `Reads` says what a text reads as and what is left of it; a text reads in one way only. */
module JsonText {
  import opened Machine
  import opened Decimal
  import opened Json

  datatype JsonValue = Text(text: string) | Number(n: nat) | Array(items: seq<JsonValue>) | Object(members: seq<Member>)

  datatype Member = Member(name: string, value: JsonValue)

  // ---------------------------------------------------------------- tokens

  predicate JsonBlank(c: char) {
    c == ' ' || c == '\t' || c == '\n' || c == '\r'
  }

  /** The text from its first token on. */
  function Skip(text: string): string {
    if text != "" && JsonBlank(text[0]) then Skip(text[1..]) else text
  }

  /** The next token is, or starts with, `c`. */
  predicate Next(text: string, c: char) {
    Skip(text) != "" && Skip(text)[0] == c
  }

  /** What follows the first character of the next token. */
  function After(text: string): string
    requires Skip(text) != ""
  {
    Skip(text)[1..]
  }

  /** A string that stands for `s`, then `rest`. */
  ghost predicate ReadsString(text: string, s: string, rest: string) {
    Next(text, '"') && exists body :: Decodes(body, s) && After(text) == body + ("\"" + rest)
  }

  /** A numeral for `n` without leading zeros, then `rest`. */
  ghost predicate ReadsNumber(text: string, n: nat, rest: string) {
    exists digits :: AllDigits(digits) && digits != "" && (digits[0] == '0' ==> |digits| == 1) && Value(digits) == n
      && Skip(text) == digits + rest && (rest == "" || !IsDigit(rest[0]))
  }

  // ---------------------------------------------------------------- values

  /** `text` starts with a JSON text for `v`; `rest` is what follows. */
  ghost predicate Reads(text: string, v: JsonValue, rest: string)
    decreases v
  {
    match v
    case Text(s) => ReadsString(text, s, rest)
    case Number(n) => ReadsNumber(text, n, rest)
    case Array(items) => Next(text, '[') && ReadsItems(After(text), items, rest)
    case Object(members) => Next(text, '{') && ReadsMembers(After(text), members, rest)
  }

  /** The items of an array and its closing bracket. */
  ghost predicate ReadsItems(text: string, items: seq<JsonValue>, rest: string)
    decreases items, 0
  {
    if items == [] then Next(text, ']') && After(text) == rest
    else exists tail :: Reads(text, items[0], tail) && ReadsMoreItems(tail, items[1..], rest)
  }

  /** What follows an item: the closing bracket, or a comma and more items. */
  ghost predicate ReadsMoreItems(text: string, items: seq<JsonValue>, rest: string)
    decreases items, 1
  {
    if items == [] then Next(text, ']') && After(text) == rest
    else Next(text, ',') && ReadsItems(After(text), items, rest)
  }

  ghost predicate ReadsMember(text: string, m: Member, rest: string)
    decreases m
  {
    exists tail :: ReadsString(text, m.name, tail) && Next(tail, ':') && Reads(After(tail), m.value, rest)
  }

  /** The members of an object and its closing brace. */
  ghost predicate ReadsMembers(text: string, members: seq<Member>, rest: string)
    decreases members, 0
  {
    if members == [] then Next(text, '}') && After(text) == rest
    else exists tail :: ReadsMember(text, members[0], tail) && ReadsMoreMembers(tail, members[1..], rest)
  }

  ghost predicate ReadsMoreMembers(text: string, members: seq<Member>, rest: string)
    decreases members, 1
  {
    if members == [] then Next(text, '}') && After(text) == rest
    else Next(text, ',') && ReadsMembers(After(text), members, rest)
  }

  /** The whole text is JSON for `v` and for nothing else. */
  ghost predicate ReadsOnlyAs(text: string, v: JsonValue) {
    Reads(text, v, "") && forall v', rest :: Reads(text, v', rest) ==> v' == v && rest == ""
  }

  // ---------------------------------------------------------------- a text reads in one way only

  lemma UnitHead(unit: string, c: char)
    requires IsUnit(unit, c)
    ensures unit != "" && unit[0] != '"'
  {
    assert Seal(true);
  }

  /** A closing quote comes next exactly when nothing is left to decode. */
  lemma BodyHead(body: string, s: string, rest: string)
    requires Decodes(body, s)
    ensures body + ("\"" + rest) != "" && ((body + ("\"" + rest))[0] == '"' <==> s == "")
  {
    NoBody(body, s);
    if s != "" {
      var unit, more := FirstUnit(body, s);
      UnitHead(unit, s[0]);
    }
  }

  /** The closing quote of a string is found in one way only. */
  lemma {:induction false} BodyOne(body: string, s: string, rest: string, body': string, s': string, rest': string)
    requires Decodes(body, s) && Decodes(body', s') && body + ("\"" + rest) == body' + ("\"" + rest')
    ensures s == s' && rest == rest'
    decreases |s|
  {
    BodyHead(body, s, rest);
    BodyHead(body', s', rest');
    if s == "" {
      assert "" + ("\"" + rest) == "\"" + rest && "" + ("\"" + rest') == "\"" + rest';
      SameRest("\"", rest, rest');
    } else {
      var a, more := FirstUnit(body, s);
      var b, more' := FirstUnit(body', s');
      UnitsOne(a, s[0], more + ("\"" + rest), b, s'[0], more' + ("\"" + rest'), body + ("\"" + rest));
      BodyOne(more, s[1..], rest, more', s'[1..], rest');
      HeadTail(s);
      HeadTail(s');
    }
  }

  lemma UnitsOne(a: string, c: char, rest: string, b: string, c': char, rest': string, whole: string)
    requires IsUnit(a, c) && IsUnit(b, c') && whole == a + rest && whole == b + rest'
    ensures c == c' && rest == rest'
  {
    SameUnit(a, b, rest, rest', c, c');
    SameRest(a, rest, rest');
  }

  lemma StringOne(text: string, s: string, rest: string, s': string, rest': string)
    requires ReadsString(text, s, rest) && ReadsString(text, s', rest')
    ensures s == s' && rest == rest'
  {
    var body :| Decodes(body, s) && After(text) == body + ("\"" + rest);
    var body' :| Decodes(body', s') && After(text) == body' + ("\"" + rest');
    BodyOne(body, s, rest, body', s', rest');
  }

  /** How many digits a text starts with. */
  ghost function DigitRun(text: string): nat {
    if text == "" || !IsDigit(text[0]) then 0 else 1 + DigitRun(text[1..])
  }

  lemma {:induction false} RunLength(digits: string, rest: string)
    requires AllDigits(digits) && (rest == "" || !IsDigit(rest[0]))
    ensures DigitRun(digits + rest) == |digits|
  {
    if digits == "" {
      assert "" + rest == rest;
    } else {
      assert (digits + rest)[1..] == digits[1..] + rest;
      RunLength(digits[1..], rest);
    }
  }

  lemma DigitsOne(a: string, rest: string, b: string, rest': string)
    requires |a| == |b| && a + rest == b + rest'
    ensures a == b && rest == rest'
  {
    assert (a + rest)[..|a|] == a && (b + rest')[..|b|] == b;
    SameRest(a, rest, rest');
  }

  lemma NumberOne(text: string, n: nat, rest: string, n': nat, rest': string)
    requires ReadsNumber(text, n, rest) && ReadsNumber(text, n', rest')
    ensures n == n' && rest == rest'
  {
    var a :| AllDigits(a) && a != "" && (a[0] == '0' ==> |a| == 1) && Value(a) == n
      && Skip(text) == a + rest && (rest == "" || !IsDigit(rest[0]));
    var b :| AllDigits(b) && b != "" && (b[0] == '0' ==> |b| == 1) && Value(b) == n'
      && Skip(text) == b + rest' && (rest' == "" || !IsDigit(rest'[0]));
    RunLength(a, rest);
    RunLength(b, rest');
    DigitsOne(a, rest, b, rest');
  }

  /** The first character of a token tells what kind of value follows. */
  ghost predicate HeadOf(c: char, v: JsonValue) {
    match v
    case Text(_) => c == '"'
    case Number(_) => IsDigit(c)
    case Array(_) => c == '['
    case Object(_) => c == '{'
  }

  lemma ReadsHead(text: string, v: JsonValue, rest: string)
    requires Reads(text, v, rest)
    ensures Skip(text) != "" && HeadOf(Skip(text)[0], v)
  {
    if v.Number? {
      var digits :| AllDigits(digits) && digits != "" && Skip(text) == digits + rest;
    }
  }

  /** What a text reads as, and what it leaves, are determined by the text. */
  lemma {:induction false} ReadsOne(text: string, v: JsonValue, rest: string, v': JsonValue, rest': string)
    requires Reads(text, v, rest) && Reads(text, v', rest')
    ensures v == v' && rest == rest'
    decreases v
  {
    ReadsHead(text, v, rest);
    ReadsHead(text, v', rest');
    match v
    case Text(s) => StringOne(text, s, rest, v'.text, rest');
    case Number(n) => NumberOne(text, n, rest, v'.n, rest');
    case Array(items) => ItemsOne(After(text), items, rest, v'.items, rest');
    case Object(members) => MembersOne(After(text), members, rest, v'.members, rest');
  }

  lemma ItemsHead(text: string, items: seq<JsonValue>, rest: string)
    requires ReadsItems(text, items, rest)
    ensures Skip(text) != "" && (Skip(text)[0] == ']' <==> items == [])
  {
    if items != [] {
      var tail :| Reads(text, items[0], tail) && ReadsMoreItems(tail, items[1..], rest);
      ReadsHead(text, items[0], tail);
    }
  }

  lemma {:induction false} ItemsOne(text: string, items: seq<JsonValue>, rest: string, items': seq<JsonValue>,
                                    rest': string)
    requires ReadsItems(text, items, rest) && ReadsItems(text, items', rest')
    ensures items == items' && rest == rest'
    decreases items, 0
  {
    ItemsHead(text, items, rest);
    ItemsHead(text, items', rest');
    if items != [] {
      var tail :| Reads(text, items[0], tail) && ReadsMoreItems(tail, items[1..], rest);
      var tail' :| Reads(text, items'[0], tail') && ReadsMoreItems(tail', items'[1..], rest');
      ReadsOne(text, items[0], tail, items'[0], tail');
      MoreItemsOne(tail, items[1..], rest, items'[1..], rest');
      assert items == [items[0]] + items[1..] && items' == [items'[0]] + items'[1..];
    }
  }

  lemma {:induction false} MoreItemsOne(text: string, items: seq<JsonValue>, rest: string, items': seq<JsonValue>,
                                        rest': string)
    requires ReadsMoreItems(text, items, rest) && ReadsMoreItems(text, items', rest')
    ensures items == items' && rest == rest'
    decreases items, 1
  {
    if items != [] && items' != [] {
      ItemsOne(After(text), items, rest, items', rest');
    }
  }

  lemma {:induction false} MemberOne(text: string, m: Member, rest: string, m': Member, rest': string)
    requires ReadsMember(text, m, rest) && ReadsMember(text, m', rest')
    ensures m == m' && rest == rest'
    decreases m
  {
    var tail :| ReadsString(text, m.name, tail) && Next(tail, ':') && Reads(After(tail), m.value, rest);
    var tail' :| ReadsString(text, m'.name, tail') && Next(tail', ':') && Reads(After(tail'), m'.value, rest');
    StringOne(text, m.name, tail, m'.name, tail');
    ReadsOne(After(tail), m.value, rest, m'.value, rest');
  }

  lemma MembersHead(text: string, members: seq<Member>, rest: string)
    requires ReadsMembers(text, members, rest)
    ensures Skip(text) != "" && (Skip(text)[0] == '}' <==> members == [])
  {
  }

  lemma {:induction false} MembersOne(text: string, members: seq<Member>, rest: string, members': seq<Member>,
                                      rest': string)
    requires ReadsMembers(text, members, rest) && ReadsMembers(text, members', rest')
    ensures members == members' && rest == rest'
    decreases members, 0
  {
    MembersHead(text, members, rest);
    MembersHead(text, members', rest');
    if members != [] {
      var tail :| ReadsMember(text, members[0], tail) && ReadsMoreMembers(tail, members[1..], rest);
      var tail' :| ReadsMember(text, members'[0], tail') && ReadsMoreMembers(tail', members'[1..], rest');
      MemberOne(text, members[0], tail, members'[0], tail');
      MoreMembersOne(tail, members[1..], rest, members'[1..], rest');
      assert members == [members[0]] + members[1..] && members' == [members'[0]] + members'[1..];
    }
  }

  lemma {:induction false} MoreMembersOne(text: string, members: seq<Member>, rest: string, members': seq<Member>,
                                          rest': string)
    requires ReadsMoreMembers(text, members, rest) && ReadsMoreMembers(text, members', rest')
    ensures members == members' && rest == rest'
    decreases members, 1
  {
    if members != [] && members' != [] {
      MembersOne(After(text), members, rest, members', rest');
    }
  }

  // ---------------------------------------------------------------- compact text

  function Quoted(s: string): string {
    "\"" + Escaped(s) + "\""
  }

  /** A value as text without blanks. */
  ghost function Show(v: JsonValue): string
    decreases v
  {
    match v
    case Text(s) => Quoted(s)
    case Number(n) => PrintNat(n)
    case Array(items) => "[" + ShowItems(items) + "]"
    case Object(members) => "{" + ShowMembers(members) + "}"
  }

  /** Items with commas in between. */
  ghost function ShowItems(items: seq<JsonValue>): string
    decreases items, 0
  {
    if items == [] then "" else Show(items[0]) + ShowMoreItems(items[1..])
  }

  ghost function ShowMoreItems(items: seq<JsonValue>): string
    decreases items, 1
  {
    if items == [] then "" else "," + ShowItems(items)
  }

  ghost function ShowMember(m: Member): string
    decreases m
  {
    Quoted(m.name) + ":" + Show(m.value)
  }

  ghost function ShowMembers(members: seq<Member>): string
    decreases members, 0
  {
    if members == [] then "" else ShowMember(members[0]) + ShowMoreMembers(members[1..])
  }

  ghost function ShowMoreMembers(members: seq<Member>): string
    decreases members, 1
  {
    if members == [] then "" else "," + ShowMembers(members)
  }

  lemma Cons<T>(items: seq<T>, v: T)
    requires items != []
    ensures items + [v] != [] && (items + [v])[0] == items[0] && (items + [v])[1..] == items[1..] + [v]
  {
  }

  lemma {:induction false} ShowItemsPush(items: seq<JsonValue>, v: JsonValue)
    ensures ShowItems(items + [v]) == ShowItems(items) + (if items == [] then "" else ",") + Show(v)
    decreases |items|, 0
  {
    if items == [] {
      assert ([] + [v])[0] == v;
    } else {
      Cons(items, v);
      ShowMoreItemsPush(items[1..], v);
    }
  }

  lemma {:induction false} ShowMoreItemsPush(items: seq<JsonValue>, v: JsonValue)
    ensures ShowMoreItems(items + [v]) == ShowMoreItems(items) + "," + Show(v)
    decreases |items|, 1
  {
    ShowItemsPush(items, v);
  }

  lemma {:induction false} ShowMembersPush(members: seq<Member>, m: Member)
    ensures ShowMembers(members + [m]) == ShowMembers(members) + (if members == [] then "" else ",") + ShowMember(m)
    decreases |members|, 0
  {
    if members == [] {
      assert ([] + [m])[0] == m;
    } else {
      Cons(members, m);
      ShowMoreMembersPush(members[1..], m);
    }
  }

  lemma {:induction false} ShowMoreMembersPush(members: seq<Member>, m: Member)
    ensures ShowMoreMembers(members + [m]) == ShowMoreMembers(members) + "," + ShowMember(m)
    decreases |members|, 1
  {
    ShowMembersPush(members, m);
  }

  // ---------------------------------------------------------------- compact text reads back

  lemma QuotedReads(s: string, rest: string)
    ensures ReadsString(Quoted(s) + rest, s, rest)
  {
    EscapedDecodes(s);
    var text := Quoted(s) + rest;
    assert text[0] == '"' && text[1..] == Escaped(s) + ("\"" + rest);
  }

  lemma {:induction false} NoLeadingZero(n: nat)
    requires n > 0
    ensures PrintNat(n)[0] != '0'
  {
    if n >= 10 {
      NoLeadingZero(n / 10);
    }
  }

  lemma PrintedReads(n: nat, rest: string)
    requires rest == "" || !IsDigit(rest[0])
    ensures ReadsNumber(PrintNat(n) + rest, n, rest)
  {
    var digits := PrintNat(n);
    PrintNatValue(n);
    if n > 0 {
      NoLeadingZero(n);
    }
    assert (digits + rest)[0] == digits[0];
    assert Skip(digits + rest) == digits + rest;
  }

  /** The rest cannot continue a number. */
  ghost predicate Ends(rest: string) {
    rest == "" || !IsDigit(rest[0])
  }

  lemma OpensWith(c: char, rest: string)
    requires !JsonBlank(c)
    ensures Next([c] + rest, c) && After([c] + rest) == rest
  {
    assert ([c] + rest)[1..] == rest;
  }

  lemma Three(a: string, b: string, c: string, rest: string)
    ensures a + b + c + rest == a + (b + (c + rest))
  {
  }

  /** The compact text of a value reads as that value, and what follows it is left. */
  lemma {:induction false} ShowReads(v: JsonValue, rest: string)
    requires Ends(rest)
    ensures Reads(Show(v) + rest, v, rest)
    decreases v
  {
    match v
    case Text(s) => QuotedReads(s, rest);
    case Number(n) => PrintedReads(n, rest);
    case Array(items) =>
      Three("[", ShowItems(items), "]", rest);
      OpensWith('[', ShowItems(items) + ("]" + rest));
      ShowItemsRead(items, rest);
    case Object(members) =>
      Three("{", ShowMembers(members), "}", rest);
      OpensWith('{', ShowMembers(members) + ("}" + rest));
      ShowMembersRead(members, rest);
  }

  lemma {:induction false} ShowItemsRead(items: seq<JsonValue>, rest: string)
    ensures ReadsItems(ShowItems(items) + ("]" + rest), items, rest)
    decreases items, 0
  {
    if items == [] {
      Nothing("]" + rest);
      OpensWith(']', rest);
    } else {
      ShowMoreItemsRead(items[1..], rest);
      ShowReads(items[0], ShowMoreItems(items[1..]) + ("]" + rest));
      Reassociate(Show(items[0]), ShowMoreItems(items[1..]), "]" + rest);
    }
  }

  lemma {:induction false} ShowMoreItemsRead(items: seq<JsonValue>, rest: string)
    ensures ReadsMoreItems(ShowMoreItems(items) + ("]" + rest), items, rest)
    ensures Ends(ShowMoreItems(items) + ("]" + rest))
    decreases items, 1
  {
    if items == [] {
      Nothing("]" + rest);
      OpensWith(']', rest);
    } else {
      ShowItemsRead(items, rest);
      Reassociate(",", ShowItems(items), "]" + rest);
      OpensWith(',', ShowItems(items) + ("]" + rest));
    }
  }

  lemma Nothing(s: string)
    ensures "" + s == s
  {
  }

  lemma {:induction false} ShowMemberReads(m: Member, rest: string)
    requires Ends(rest)
    ensures ReadsMember(ShowMember(m) + rest, m, rest)
    decreases m
  {
    Three(Quoted(m.name), ":", Show(m.value), rest);
    QuotedReads(m.name, ":" + (Show(m.value) + rest));
    OpensWith(':', Show(m.value) + rest);
    ShowReads(m.value, rest);
  }

  lemma {:induction false} ShowMembersRead(members: seq<Member>, rest: string)
    ensures ReadsMembers(ShowMembers(members) + ("}" + rest), members, rest)
    decreases members, 0
  {
    if members == [] {
      Nothing("}" + rest);
      OpensWith('}', rest);
    } else {
      ShowMoreMembersRead(members[1..], rest);
      ShowMemberReads(members[0], ShowMoreMembers(members[1..]) + ("}" + rest));
      Reassociate(ShowMember(members[0]), ShowMoreMembers(members[1..]), "}" + rest);
    }
  }

  lemma {:induction false} ShowMoreMembersRead(members: seq<Member>, rest: string)
    ensures ReadsMoreMembers(ShowMoreMembers(members) + ("}" + rest), members, rest)
    ensures Ends(ShowMoreMembers(members) + ("}" + rest))
    decreases members, 1
  {
    if members == [] {
      Nothing("}" + rest);
      OpensWith('}', rest);
    } else {
      ShowMembersRead(members, rest);
      Reassociate(",", ShowMembers(members), "}" + rest);
      OpensWith(',', ShowMembers(members) + ("}" + rest));
    }
  }

  /** Writing a value as compact text and reading it gives the value back, in one way only. */
  lemma ShownReadsOnly(v: JsonValue)
    ensures ReadsOnlyAs(Show(v), v)
  {
    ShowReads(v, "");
    assert Show(v) + "" == Show(v);
    forall v', rest | Reads(Show(v), v', rest) ensures v' == v && rest == "" {
      ReadsOne(Show(v), v, "", v', rest);
    }
  }
}
