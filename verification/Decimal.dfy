/** Integers as text: the strict 32-bit parser and decimal printing. */
module Decimal {
  import opened Machine

  predicate IsSpace(c: char) {
    c == ' ' || 9 as char <= c <= 13 as char
  }

  predicate IsDigit(c: char) {
    '0' <= c <= '9'
  }

  function DigitValue(c: char): (d: int)
    requires IsDigit(c)
    ensures 0 <= d <= 9
  {
    c as int - '0' as int
  }

  predicate AllDigits(s: string) {
    forall i :: 0 <= i < |s| ==> IsDigit(s[i])
  }

  /** The number a digit string denotes. */
  function Value(s: string): (v: nat)
    requires AllDigits(s)
  {
    if s == "" then 0 else 10 * Value(s[..|s| - 1]) + DigitValue(s[|s| - 1])
  }

  /** A numeral: optional white space, optional sign, at least one digit, and nothing else. */
  ghost predicate Numeral(text: string, blanks: nat, sign: string, digits: string) {
    && blanks <= |text| && (forall i :: 0 <= i < blanks ==> IsSpace(text[i]))
    && (sign == "" || sign == "+" || sign == "-")
    && digits != "" && AllDigits(digits)
    && text[blanks..] == sign + digits
  }

  ghost function Signed(sign: string, digits: string): int
    requires AllDigits(digits)
  {
    var magnitude: int := Value(digits);
    if sign == "-" then -magnitude else magnitude
  }

  /** `text` is a numeral for the 32-bit integer `v`. */
  ghost predicate Denotes(text: string, v: int) {
    && INT32_MIN <= v <= INT32_MAX
    && exists blanks, sign, digits :: Numeral(text, blanks, sign, digits) && Signed(sign, digits) == v
  }

  // ---------------------------------------------------------------- a numeral is read in one way only

  lemma SplitsUniquely(text: string, b: nat, s: string, d: string, b': nat, s': string, d': string)
    requires Numeral(text, b, s, d) && Numeral(text, b', s', d')
    ensures b == b' && s == s' && d == d'
  {
    BlanksUnique(text, b, s, d, b', s', d');
    BlanksUnique(text, b', s', d', b, s, d);
    assert text[b..] == s + d && text[b..] == s' + d';
    assert (s + d)[0] == if s == "" then d[0] else s[0];
    assert (s' + d')[0] == if s' == "" then d'[0] else s'[0];
    assert (s + d)[|s|..] == d && (s' + d')[|s'|..] == d';
  }

  lemma BlanksUnique(text: string, b: nat, s: string, d: string, b': nat, s': string, d': string)
    requires Numeral(text, b, s, d) && Numeral(text, b', s', d')
    ensures b' <= b
  {
    assert text[b..][0] == text[b];
    assert (s + d)[0] == if s == "" then d[0] else s[0];
    assert !IsSpace(text[b]);
  }

  /** The integer a text denotes is determined by the text. */
  lemma DenotesOne(text: string, v: int, v': int)
    requires Denotes(text, v) && Denotes(text, v')
    ensures v == v'
  {
    var b, s, d :| Numeral(text, b, s, d) && Signed(s, d) == v;
    var b', s', d' :| Numeral(text, b', s', d') && Signed(s', d') == v';
    SplitsUniquely(text, b, s, d, b', s', d');
  }

  // ---------------------------------------------------------------- parsing

  method SkipSpaces(text: string) returns (at: nat)
    ensures at <= |text| && (forall i :: 0 <= i < at ==> IsSpace(text[i])) && (at < |text| ==> !IsSpace(text[at]))
  {
    at := 0;
    while at < |text| && IsSpace(text[at])
      invariant at <= |text| && forall i :: 0 <= i < at ==> IsSpace(text[i])
    {
      at := at + 1;
    }
  }

  /** Reads digits up to the first other character. */
  method ReadDigits(text: string, from: nat) returns (end: nat, value: nat)
    requires from <= |text|
    ensures from <= end <= |text| && AllDigits(text[from..end]) && value == Value(text[from..end])
    ensures end < |text| ==> !IsDigit(text[end])
  {
    end, value := from, 0;
    while end < |text| && IsDigit(text[end])
      invariant from <= end <= |text| && AllDigits(text[from..end]) && value == Value(text[from..end])
    {
      assert text[from..end + 1][..|text[from..end + 1]| - 1] == text[from..end];
      value := 10 * value + DigitValue(text[end]);
      end := end + 1;
    }
  }

  /** `parse_int_strict`: accepts exactly the numerals of 32-bit integers. */
  method ParseIntStrict(text: string) returns (r: Option<int>)
    ensures r.Some? ==> Denotes(text, r.value)
    ensures r.None? ==> forall v :: !Denotes(text, v)
  {
    var start := SkipSpaces(text);
    var sign := if start < |text| && (text[start] == '-' || text[start] == '+') then text[start..start + 1] else "";
    var end, value := ReadDigits(text, start + |sign|);
    ghost var digits := text[start + |sign|..end];
    if end == start + |sign| || end != |text| {
      NotNumeral(text, start, sign, end);
      return None;
    }
    assert text[start..] == sign + digits;
    assert Numeral(text, start, sign, digits);
    var v: int := value;
    if sign == "-" {
      v := -v;
    }
    if v < INT32_MIN || v > INT32_MAX {
      OutOfRange(text, start, sign, digits);
      return None;
    }
    r := Some(v);
  }

  lemma OutOfRange(text: string, b: nat, s: string, d: string)
    requires Numeral(text, b, s, d) && !(INT32_MIN <= Signed(s, d) <= INT32_MAX)
    ensures forall v :: !Denotes(text, v)
  {
    forall v ensures !Denotes(text, v) {
      if Denotes(text, v) {
        var b', s', d' :| Numeral(text, b', s', d') && Signed(s', d') == v;
        SplitsUniquely(text, b, s, d, b', s', d');
      }
    }
  }

  /** The scan got stuck: the text is no numeral at all. */
  lemma NotNumeral(text: string, start: nat, sign: string, end: nat)
    requires start <= |text| && (forall i :: 0 <= i < start ==> IsSpace(text[i]))
    requires start < |text| ==> !IsSpace(text[start])
    requires sign == if start < |text| && (text[start] == '-' || text[start] == '+') then text[start..start + 1] else ""
    requires start + |sign| <= end <= |text| && AllDigits(text[start + |sign|..end])
    requires end < |text| ==> !IsDigit(text[end])
    requires end == start + |sign| || end != |text|
    ensures forall v :: !Denotes(text, v)
  {
    forall b, s, d ensures !Numeral(text, b, s, d) {
      if Numeral(text, b, s, d) {
        StuckScan(text, start, sign, end, b, s, d);
      }
    }
  }

  lemma StuckScan(text: string, start: nat, sign: string, end: nat, b: nat, s: string, d: string)
    requires Numeral(text, b, s, d)
    requires start <= |text| && (forall i :: 0 <= i < start ==> IsSpace(text[i]))
    requires start < |text| ==> !IsSpace(text[start])
    requires sign == if start < |text| && (text[start] == '-' || text[start] == '+') then text[start..start + 1] else ""
    requires start + |sign| <= end <= |text|
    requires end < |text| ==> !IsDigit(text[end])
    ensures start + |sign| < end == |text|
  {
    assert (s + d)[0] == text[b] && |text[b..]| == |s| + |d|;
    assert !IsSpace(text[b]);
    assert start == b;
    forall i | b + |s| <= i < |text| ensures IsDigit(text[i]) {
      assert text[b..][i - b] == (s + d)[i - b];
    }
  }

  // ---------------------------------------------------------------- printing

  function Digit(d: int): (c: char)
    requires 0 <= d <= 9
    ensures IsDigit(c) && DigitValue(c) == d
  {
    (d + '0' as int) as char
  }

  function PrintNat(n: nat): (s: string)
    ensures s != "" && AllDigits(s)
  {
    if n < 10 then [Digit(n)] else PrintNat(n / 10) + [Digit(n % 10)]
  }

  /** `%d`. */
  function Print(v: int): (s: string) {
    if v < 0 then "-" + PrintNat(-v) else PrintNat(v)
  }

  lemma {:induction false} PrintNatValue(n: nat)
    ensures Value(PrintNat(n)) == n
  {
    var s := PrintNat(n);
    if n < 10 {
      assert s[..|s| - 1] == "";
    } else {
      PrintNatValue(n / 10);
      assert s[..|s| - 1] == PrintNat(n / 10);
    }
  }

  /** A printed integer denotes itself. */
  lemma PrintDenotes(v: int)
    requires -0x8000_0000 <= v < 0x8000_0000
    ensures Denotes(Print(v), v)
  {
    var sign, digits := if v < 0 then "-" else "", PrintNat(if v < 0 then -v else v);
    PrintNatValue(if v < 0 then -v else v);
    assert Print(v)[0..] == sign + digits;
    assert Numeral(Print(v), 0, sign, digits);
  }

  /** The digits count upwards. */
  lemma DigitsAscend(c: char, d: char)
    requires IsDigit(c) && IsDigit(d)
    ensures c < d <==> DigitValue(c) < DigitValue(d)
  {
  }

  lemma TenTimes(a: nat, d: int, n: nat)
    requires n == 10 * a + d && 0 <= d <= 9
    ensures a == n / 10 && d == n % 10
  {
  }

  lemma {:induction false} ShortestDigits(s: string, n: nat)
    requires s != "" && AllDigits(s) && Value(s) == n
    ensures |PrintNat(n)| <= |s| && (|s| == |PrintNat(n)| ==> s == PrintNat(n))
  {
    var init, last := s[..|s| - 1], s[|s| - 1];
    TenTimes(Value(init), DigitValue(last), n);
    if init != "" {
      ShortestDigits(init, n / 10);
    }
    assert s == init + [last];
  }

  /** A printed integer is the shortest text that denotes it, and the only one of its length. */
  lemma PrintShortest(text: string, v: int)
    requires Denotes(text, v)
    ensures -0x8000_0000 <= v < 0x8000_0000
    ensures |Print(v)| <= |text| && (|text| == |Print(v)| ==> text == Print(v))
  {
    var b: nat, s: string, d: string :| Numeral(text, b, s, d) && Signed(s, d) == v;
    ShortestDigits(d, if v < 0 then -v else v);
    assert |text[b..]| == |s| + |d|;
    if |text| == |Print(v)| {
      assert b == 0 && text[0..] == text;
      assert v >= 0 ==> "" + d == d;
    }
  }
}
