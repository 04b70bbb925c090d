/** Dropping repeated names from a SELECT list. */
module Optimizer {
  import opened Names
  import opened Ast
  import opened SelectRows

  /** The list has that name, in whatever case. */
  ghost predicate Listed(items: seq<string>, name: string) {
    exists i :: 0 <= i < |items| && SameName(items[i], name)
  }

  /** Each name where it first occurs. */
  ghost function FirstNames(items: seq<string>): seq<string> {
    if items == [] then []
    else
      var kept, last := FirstNames(items[..|items| - 1]), items[|items| - 1];
      if Listed(kept, last) then kept else kept + [last]
  }

  /** No name is lost, none is left twice, none is made up. */
  lemma {:induction false} FirstNamesMeaning(items: seq<string>)
    ensures DistinctNames(FirstNames(items)) && |FirstNames(items)| <= |items|
    ensures forall i :: 0 <= i < |items| ==> Listed(FirstNames(items), items[i])
    ensures forall i :: 0 <= i < |FirstNames(items)| ==> FirstNames(items)[i] in items
  {
    if items != [] {
      var n := |items| - 1;
      FirstNamesMeaning(items[..n]);
      var kept := FirstNames(items[..n]);
      assert items == items[..n] + [items[n]];
      forall i | 0 <= i < |items| ensures Listed(FirstNames(items), items[i]) {
        if i < n {
          assert Listed(kept, items[..n][i]);
          StillListed(kept, items[n], items[i]);
        } else {
          NowListed(kept, items[n]);
        }
      }
    }
  }

  /** The kept names stand in the order of the list, each where it first occurs: `at[k]` is the place of the k-th. */
  ghost predicate FirstPlaces(items: seq<string>, kept: seq<string>, at: seq<nat>) {
    && |at| == |kept|
    && (forall k :: 0 <= k < |at| ==> at[k] < |items| && kept[k] == items[at[k]])
    && (forall j, k :: 0 <= j < k < |at| ==> at[j] < at[k])
    && (forall k, i :: 0 <= k < |at| && 0 <= i < at[k] ==> !SameName(items[i], kept[k]))
  }

  lemma PlacesMore(items: seq<string>, last: string, kept: seq<string>, at: seq<nat>)
    requires FirstPlaces(items, kept, at)
    ensures FirstPlaces(items + [last], kept, at)
    ensures (forall i :: 0 <= i < |items| ==> !SameName(items[i], last)) ==>
      FirstPlaces(items + [last], kept + [last], at + [|items|])
  {
  }

  /** If a name matches the new one, so does a name that was kept. */
  lemma KeptCovers(items: seq<string>, last: string)
    requires !Listed(FirstNames(items), last)
    ensures forall i :: 0 <= i < |items| ==> !SameName(items[i], last)
  {
    FirstNamesMeaning(items);
    var kept := FirstNames(items);
    forall i | 0 <= i < |items| ensures !SameName(items[i], last) {
      var j :| 0 <= j < |kept| && SameName(kept[j], items[i]);
    }
  }

  /** No name is moved before another: the kept names are first occurrences, in the order of the list. */
  lemma {:induction false} FirstNamesInOrder(items: seq<string>) returns (at: seq<nat>)
    ensures FirstPlaces(items, FirstNames(items), at)
  {
    if items == [] {
      at := [];
    } else {
      var init, last := items[..|items| - 1], items[|items| - 1];
      at := FirstNamesInOrder(init);
      assert items == init + [last];
      PlacesMore(init, last, FirstNames(init), at);
      if !Listed(FirstNames(init), last) {
        KeptCovers(init, last);
        at := at + [|init|];
      }
    }
  }

  lemma StillListed(kept: seq<string>, last: string, name: string)
    requires Listed(kept, name)
    ensures Listed(kept + [last], name)
  {
    var i :| 0 <= i < |kept| && SameName(kept[i], name);
    assert (kept + [last])[i] == kept[i];
  }

  lemma NowListed(kept: seq<string>, last: string)
    ensures Listed(kept + [last], last)
  {
    assert (kept + [last])[|kept|] == last;
  }

  /** `sql_string_array_contains` on the first `count` items. */
  method Contains(items: array<string>, count: nat, name: string) returns (found: bool)
    requires count <= items.Length
    ensures found <==> Listed(items[..count], name)
  {
    for index := 0 to count
      invariant !Listed(items[..index], name)
    {
      var same := CaseEqual(items[index], name);
      if same {
        assert items[..count][index] == items[index];
        return true;
      }
      assert items[..index + 1] == items[..index] + [items[index]];
    }
    found := false;
  }

  lemma FirstNamesStep(items: seq<string>, i: nat)
    requires i < |items|
    ensures var kept := FirstNames(items[..i]);
      FirstNames(items[..i + 1]) == if Listed(kept, items[i]) then kept else kept + [items[i]]
  {
    assert items[..i + 1][..i] == items[..i];
  }

  /** `optimize_select`: moves each first occurrence up, in place. */
  method RemoveRepeats(items: array<string>) returns (count: nat)
    modifies items
    ensures count <= items.Length && items[..count] == FirstNames(old(items[..]))
  {
    ghost var all := items[..];
    count := 0;
    for index := 0 to items.Length
      invariant count <= index && items[..count] == FirstNames(all[..index])
      invariant forall k :: index <= k < items.Length ==> items[k] == all[k]
    {
      FirstNamesStep(all, index);
      var repeated := Contains(items, count, items[index]);
      if !repeated {
        ghost var kept := items[..count];
        items[count] := items[index];
        count := count + 1;
        assert items[..count] == kept + [all[index]];
      }
    }
    assert all[..items.Length] == all;
  }

  ghost function OptimizedList(list: ColumnList): ColumnList {
    if list.isStar then list else ColumnList(FirstNames(list.items), false)
  }

  /** The statement as it is executed. */
  ghost function Optimized(s: Statement): Statement {
    match s
    case Selecting(q) => Selecting(q.(columns := OptimizedList(q.columns)))
    case Inserting(_) => s
  }

  /** `optimize_statement`. */
  method Optimize(s: Statement) returns (r: Statement)
    ensures r == Optimized(s)
  {
    if s.Inserting? || s.select.columns.isStar {
      return s;
    }
    var names := s.select.columns.items;
    var items := new string[|names|](i requires 0 <= i < |names| => names[i]);
    assert items[..] == names;
    var count := RemoveRepeats(items);
    r := Selecting(s.select.(columns := ColumnList(items[..count], false)));
  }

  // ---------------------------------------------------------------- the output columns

  lemma DifferentColumns(columns: seq<string>, a: string, b: string, i: nat, j: nat)
    requires FoundAt(columns, a, i) && FoundAt(columns, b, j) && !SameName(a, b)
    ensures columns[i] != columns[j]
  {
  }

  /** After optimising, a SELECT with a list of names never returns two columns of the same name; `SELECT *`
      returns the columns of the table. */
  lemma OutputColumns(columns: seq<string>, list: ColumnList, indices: seq<nat>)
    requires Projects(columns, OptimizedList(list), indices)
    ensures list.isStar ==> Pick(columns, indices) == columns
    ensures !list.isStar ==> NoRepeats(Pick(columns, indices))
  {
    if !list.isStar {
      FirstNamesMeaning(list.items);
      var names, picked := FirstNames(list.items), Pick(columns, indices);
      forall i, j | 0 <= i < j < |picked| ensures picked[i] != picked[j] {
        DifferentColumns(columns, names[i], names[j], indices[i], indices[j]);
      }
    }
  }
}
