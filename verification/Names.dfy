/** Case-insensitive comparison of names (ASCII) and looking names up in a column list. */
module Names {
  function Lower(c: char): char {
    if 'A' <= c <= 'Z' then c - 'A' + 'a' else c
  }

  function LowerAll(s: string): (r: string)
    ensures |r| == |s| && forall i :: 0 <= i < |s| ==> r[i] == Lower(s[i])
  {
    seq(|s|, i requires 0 <= i < |s| => Lower(s[i]))
  }

  predicate SameName(a: string, b: string) {
    LowerAll(a) == LowerAll(b)
  }

  /** The same letter, or a capital and the small letter of the same name (32 apart, from 65 and from 97 on). */
  predicate SameLetter(a: char, b: char) {
    || a == b
    || (65 <= a as int <= 90 && b as int == a as int + 32)
    || (65 <= b as int <= 90 && a as int == b as int + 32)
  }

  /** Two names match exactly when they differ in the case of letters only. */
  lemma SameNameMeaning(a: string, b: string)
    ensures SameName(a, b) <==> |a| == |b| && forall i :: 0 <= i < |a| ==> SameLetter(a[i], b[i])
  {
    if SameName(a, b) {
      forall i | 0 <= i < |a| ensures SameLetter(a[i], b[i]) {
        assert LowerAll(a)[i] == LowerAll(b)[i];
      }
    }
  }

  /** A digit, a capital letter, an underscore or a small letter, by ASCII code. */
  predicate NameCode(c: char) {
    48 <= c as int <= 57 || 65 <= c as int <= 90 || c as int == 95 || 97 <= c as int <= 122
  }

  predicate NameCodes(name: string) {
    forall i :: 0 <= i < |name| ==> NameCode(name[i])
  }

  /** White space by ASCII code. */
  predicate SpaceCodes(s: string) {
    forall i :: 0 <= i < |s| ==> s[i] as int == 32 || 9 <= s[i] as int <= 13
  }

  /** No two of the names match. */
  predicate DistinctNames(names: seq<string>) {
    forall i, j :: 0 <= i < j < |names| ==> !SameName(names[i], names[j])
  }

  /** `sql_case_equal`: walks both names until one ends or they differ. */
  method CaseEqual(left: string, right: string) returns (same: bool)
    ensures same <==> SameName(left, right)
  {
    var index := 0;
    while index < |left| && index < |right|
      invariant 0 <= index <= |left| && index <= |right|
      invariant forall i :: 0 <= i < index ==> Lower(left[i]) == Lower(right[i])
    {
      if Lower(left[index]) != Lower(right[index]) {
        assert LowerAll(left)[index] != LowerAll(right)[index];
        return false;
      }
      index := index + 1;
    }
    same := index == |left| && index == |right|;
    if !same {
      assert |LowerAll(left)| != |LowerAll(right)|;
    }
  }

  /** Position of the first column with that name. */
  ghost predicate FoundAt(columns: seq<string>, name: string, at: int) {
    && -1 <= at < |columns|
    && (at >= 0 ==> SameName(columns[at], name) && forall j :: 0 <= j < at ==> !SameName(columns[j], name))
    && (at < 0 ==> forall j :: 0 <= j < |columns| ==> !SameName(columns[j], name))
  }

  method FindColumn(columns: seq<string>, name: string) returns (at: int)
    ensures FoundAt(columns, name, at)
  {
    var index := 0;
    while index < |columns|
      invariant 0 <= index <= |columns|
      invariant forall j :: 0 <= j < index ==> !SameName(columns[j], name)
    {
      var same := CaseEqual(columns[index], name);
      if same {
        return index;
      }
      index := index + 1;
    }
    at := -1;
  }

  /** The position `FindColumn` returns. */
  ghost function ColumnAt(columns: seq<string>, name: string): (at: int)
    ensures FoundAt(columns, name, at)
  {
    if columns == [] then -1
    else if SameName(columns[0], name) then 0
    else
      var at := ColumnAt(columns[1..], name);
      if at < 0 then NotInTail(columns, name); -1 else at + 1
  }

  lemma NotInTail(columns: seq<string>, name: string)
    requires columns != [] && !SameName(columns[0], name) && FoundAt(columns[1..], name, -1)
    ensures FoundAt(columns, name, -1)
  {
    assert columns == [columns[0]] + columns[1..];
  }

  /** Names that differ only in case find the same column. */
  lemma SameColumn(columns: seq<string>, a: string, b: string, at: int)
    requires SameName(a, b) && FoundAt(columns, a, at)
    ensures at == ColumnAt(columns, b)
  {
  }
}
