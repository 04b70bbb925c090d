/** What a range visit over the leaf chain is meant to do: call back once for every entry that
    satisfies the operator, in ascending order, until the callback refuses. */
module RangeVisit {
  import opened Machine
  import opened Comparison
  import opened TreeShape
  import opened DiskFormat
  import opened PagedTree
  import opened IndexInvariant

  // ---------------------------------------------------------------- the selected entries

  ghost function Select(es: seq<Entry>, op: CompareOperator, key: int): seq<Entry> {
    if es == [] then []
    else (if Matches(op, es[0].key, key) then [es[0]] else []) + Select(es[1..], op, key)
  }

  lemma {:induction false} SelectConcat(a: seq<Entry>, b: seq<Entry>, op: CompareOperator, key: int)
    ensures Select(a + b, op, key) == Select(a, op, key) + Select(b, op, key)
  {
    if a == [] {
      assert a + b == b;
    } else {
      assert (a + b)[1..] == a[1..] + b;
      SelectConcat(a[1..], b, op, key);
      Associate(if Matches(op, a[0].key, key) then [a[0]] else [], Select(a[1..], op, key), Select(b, op, key));
    }
  }

  lemma {:induction false} SelectAll(es: seq<Entry>, op: CompareOperator, key: int)
    requires forall i :: 0 <= i < |es| ==> Matches(op, es[i].key, key)
    ensures Select(es, op, key) == es
  {
    if es != [] {
      SelectAll(es[1..], op, key);
    }
  }

  lemma {:induction false} SelectNone(es: seq<Entry>, op: CompareOperator, key: int)
    requires forall i :: 0 <= i < |es| ==> !Matches(op, es[i].key, key)
    ensures Select(es, op, key) == []
  {
    if es != [] {
      SelectNone(es[1..], op, key);
    }
  }

  lemma SelectPush(es: seq<Entry>, i: nat, op: CompareOperator, key: int)
    requires i < |es|
    ensures Select(es[..i + 1], op, key)
      == Select(es[..i], op, key) + (if Matches(op, es[i].key, key) then [es[i]] else [])
  {
    assert es[..i + 1] == es[..i] + [es[i]];
    SelectConcat(es[..i], [es[i]], op, key);
    assert [es[i]][1..] == [];
  }

  /** The selection is the part of the map whose keys satisfy the operator, each key once, ascending. */
  lemma {:induction false} SelectionMeaning(es: seq<Entry>, op: CompareOperator, key: int)
    requires Ascending(es)
    ensures Ascending(Select(es, op, key))
    ensures forall e :: e in Select(es, op, key) <==> e in es && Matches(op, e.key, key)
  {
    if es != [] {
      SelectionMeaning(es[1..], op, key);
      PrependAscends(es, Select(es[1..], op, key));
      InTail(es);
    }
  }

  /** The same for each operator, in plain arithmetic. */
  lemma SelectionPlain(es: seq<Entry>, key: int, e: Entry)
    requires Ascending(es)
    ensures e in Select(es, Equals, key) <==> e in es && e.key == key
    ensures e in Select(es, NotEquals, key) <==> e in es && (e.key < key || key < e.key)
    ensures e in Select(es, Greater, key) <==> e in es && key < e.key
    ensures e in Select(es, GreaterOrEqual, key) <==> e in es && key <= e.key
    ensures e in Select(es, Less, key) <==> e in es && e.key < key
    ensures e in Select(es, LessOrEqual, key) <==> e in es && e.key <= key
  {
    SelectionMeaning(es, Equals, key);
    SelectionMeaning(es, NotEquals, key);
    SelectionMeaning(es, Greater, key);
    SelectionMeaning(es, GreaterOrEqual, key);
    SelectionMeaning(es, Less, key);
    SelectionMeaning(es, LessOrEqual, key);
  }

  lemma PrependAscends(es: seq<Entry>, s: seq<Entry>)
    requires es != [] && Ascending(es) && Ascending(s) && forall e :: e in s ==> e in es[1..]
    ensures Ascending([es[0]] + s)
  {
    forall i | 0 <= i < |s| ensures es[0].key < s[i].key {
      assert s[i] in es[1..];
    }
  }

  lemma InTail(es: seq<Entry>)
    requires es != []
    ensures forall e :: e in es <==> e == es[0] || e in es[1..]
  {
    assert es == [es[0]] + es[1..];
  }

  // ---------------------------------------------------------------- calling back

  /** A callback is given by its answer to each call, which may depend on all calls so far. */
  type Callback = seq<Entry> -> bool

  ghost predicate Accepted(calls: seq<Entry>, visit: Callback) {
    forall i :: 0 < i <= |calls| ==> visit(calls[..i])
  }

  /** The calls made are those for `selection`, up to and including the first one refused. */
  ghost predicate Visited(selection: seq<Entry>, visit: Callback, calls: seq<Entry>, ok: bool) {
    && calls <= selection
    && (if ok then calls == selection && Accepted(calls, visit)
        else calls != [] && Accepted(calls[..|calls| - 1], visit) && !visit(calls))
  }

  lemma AcceptedPush(calls: seq<Entry>, e: Entry, visit: Callback)
    requires Accepted(calls, visit) && visit(calls + [e])
    ensures Accepted(calls + [e], visit)
  {
    var calls' := calls + [e];
    forall i | 0 < i <= |calls'| ensures visit(calls'[..i]) {
      if i <= |calls| {
        assert calls'[..i] == calls[..i];
      } else {
        assert calls'[..i] == calls';
      }
    }
  }

  /** A refusal ends the visit whatever else was selected. */
  lemma VisitedStops(selection: seq<Entry>, more: seq<Entry>, visit: Callback, calls: seq<Entry>)
    requires Visited(selection, visit, calls, false)
    ensures Visited(selection + more, visit, calls, false)
  {
  }

  lemma RefusedPush(calls: seq<Entry>, e: Entry, more: seq<Entry>, visit: Callback)
    requires Accepted(calls, visit) && !visit(calls + [e])
    ensures Visited(calls + [e] + more, visit, calls + [e], false)
  {
    assert (calls + [e])[..|calls + [e]| - 1] == calls;
  }

  /** One more entry of `es` behind `calls`. */
  lemma SliceStep<T>(calls: seq<T>, es: seq<T>, start: nat, index: nat)
    requires start <= index < |es|
    ensures calls + es[start..index] + [es[index]] == calls + es[start..index + 1]
    ensures calls + es[start..index] + [es[index]] + es[index + 1..] == calls + es[start..]
  {
  }

  lemma AcceptedBefore(longer: seq<Entry>, calls: seq<Entry>, visit: Callback)
    requires Accepted(longer, visit) && calls <= longer && calls != []
    ensures visit(calls)
  {
    assert longer[..|calls|] == calls;
  }

  /** Calls and answer are determined by the selection and the callback. */
  lemma VisitedUnique(selection: seq<Entry>, visit: Callback, calls: seq<Entry>, ok: bool, calls': seq<Entry>,
                      ok': bool)
    requires Visited(selection, visit, calls, ok) && Visited(selection, visit, calls', ok')
    ensures calls == calls' && ok == ok'
  {
    assert calls == selection[..|calls|] && calls' == selection[..|calls'|];
    if !ok && |calls| < |calls'| {
      AcceptedBefore(if ok' then calls' else calls'[..|calls'| - 1], calls, visit);
    } else if !ok' && |calls'| < |calls| {
      AcceptedBefore(if ok then calls else calls[..|calls| - 1], calls', visit);
    } else if calls != [] {
      if ok {
        AcceptedBefore(calls, calls, visit);
      }
      if ok' {
        AcceptedBefore(calls', calls', visit);
      }
    }
  }

  // ---------------------------------------------------------------- the search leaf within the chain

  lemma ForestEntriesOfLeaves(ts: seq<Tree>, leaves: seq<Tree>)
    ensures ForestEntries(ForestLeaves(ts) + leaves) == ForestEntries(ts) + ForestEntries(leaves)
    ensures ForestEntries(leaves + ForestLeaves(ts)) == ForestEntries(leaves) + ForestEntries(ts)
  {
    ForestLeavesHoldEntries(ts);
    ForestEntriesConcat(ForestLeaves(ts), leaves);
    ForestEntriesConcat(leaves, ForestLeaves(ts));
  }

  lemma SplitAround<T>(a: seq<T>, b: seq<T>, c: seq<T>, q: nat)
    requires q < |b|
    ensures (a + b + c)[|a| + q] == b[q]
    ensures (a + b + c)[..|a| + q] == a + b[..q] && (a + b + c)[|a| + q + 1..] == b[q + 1..] + c
  {
  }

  /** Leaf `k` is `leaf`; the leaves before it hold smaller keys than `key`, those behind it larger ones. */
  ghost predicate LeafAt(ls: seq<Tree>, k: nat, leaf: Tree, lo: int, key: int, hi: int) {
    forall b {:trigger Shut(b)} :: Shut(b) ==>
      && k < |ls| && ls[k] == leaf
      && Within(ForestEntries(ls[..k]), lo, key) && Within(ForestEntries(ls[k + 1..]), key + 1, hi)
  }

  lemma PartsAround(left: seq<Tree>, b: seq<Tree>, right: seq<Tree>, q: nat, lo: int, key: int, hi: int, klo: int,
                    khi: int)
    requires q < |b| && lo <= klo && khi <= hi
    requires Within(ForestEntries(left), lo, key) && Within(ForestEntries(right), key + 1, hi)
    requires Within(ForestEntries(b[..q]), klo, key) && Within(ForestEntries(b[q + 1..]), key + 1, khi)
    ensures var ls, k := ForestLeaves(left) + b + ForestLeaves(right), |ForestLeaves(left)| + q;
      && ls[k] == b[q]
      && Within(ForestEntries(ls[..k]), lo, key) && Within(ForestEntries(ls[k + 1..]), key + 1, hi)
  {
    SplitAround(ForestLeaves(left), b, ForestLeaves(right), q);
    ForestEntriesOfLeaves(left, b[..q]);
    ForestEntriesOfLeaves(right, b[q + 1..]);
    WithinConcat(ForestEntries(left), ForestEntries(b[..q]), lo, key, klo, key);
    WithinConcat(ForestEntries(b[q + 1..]), ForestEntries(right), key + 1, khi, key + 1, hi);
  }

  /** A leaf of one child, seen among the leaves of all children. */
  lemma LeavesAround(all: seq<Tree>, left: seq<Tree>, b: seq<Tree>, right: seq<Tree>, q: nat, leaf: Tree, lo: int,
                     key: int, hi: int, klo: int, khi: int)
    requires all == ForestLeaves(left) + b + ForestLeaves(right)
    requires LeafAt(b, q, leaf, klo, key, khi) && lo <= klo && khi <= hi
    requires Within(ForestEntries(left), lo, key) && Within(ForestEntries(right), key + 1, hi)
    ensures LeafAt(all, |ForestLeaves(left)| + q, leaf, lo, key, hi)
  {
    assert Shut(true);
    PartsAround(left, b, right, q, lo, key, hi, klo, khi);
  }

  lemma LeavesOfKids(keys: seq<int>, kids: seq<Tree>, i: nat, q: nat, leaf: Tree, lo: int, key: int, hi: int)
    requires OrderedKids(keys, kids, lo, hi) && lo <= key < hi && i == ChildIndex(keys, key)
    requires LeafAt(Leaves(kids[i]), q, leaf, Low(keys, i, lo), key, High(keys, i, hi))
    ensures LeafAt(ForestLeaves(kids), |ForestLeaves(kids[..i])| + q, leaf, lo, key, hi)
  {
    ChildSeparates(keys, kids, key, lo, hi);
    ForestLeavesAround(kids, i);
    LeavesAround(ForestLeaves(kids), kids[..i], Leaves(kids[i]), kids[i + 1..], q, leaf, lo, key, hi,
                 Low(keys, i, lo), High(keys, i, hi));
  }

  /** The search leaf is one of the leaves; smaller keys are in the leaves before it, larger ones behind it. */
  lemma {:induction false} TargetInLeaves(t: Tree, key: int, lo: int, hi: int) returns (k: nat)
    requires Ordered(t, lo, hi) && lo <= key < hi
    ensures LeafAt(Leaves(t), k, Target(t, key), lo, key, hi)
    decreases t
  {
    match t
    case Leaf(_, _) =>
      k := 0;
    case Inner(_, keys, kids) =>
      var i := ChildIndex(keys, key);
      KidOrdered(keys, kids, key, lo, hi);
      var q := TargetInLeaves(kids[i], key, Low(keys, i, lo), High(keys, i, hi));
      LeavesOfKids(keys, kids, i, q, Target(kids[i], key), lo, key, hi);
      k := |ForestLeaves(kids[..i])| + q;
  }

  lemma KidOrdered(keys: seq<int>, kids: seq<Tree>, key: int, lo: int, hi: int)
    requires OrderedKids(keys, kids, lo, hi) && lo <= key < hi
    ensures var i := ChildIndex(keys, key);
      Ordered(kids[i], Low(keys, i, lo), High(keys, i, hi)) && Low(keys, i, lo) <= key < High(keys, i, hi)
  {
    ChildSeparates(keys, kids, key, lo, hi);
  }

  lemma {:induction false} ChainSuffix(pages: seq<DiskNode>, page: int, leaves: seq<Tree>, k: nat)
    requires Chain(pages, page, leaves) && k < |leaves|
    ensures Chain(pages, leaves[k].page, leaves[k..])
    decreases k
  {
    if k == 0 {
      assert leaves[0..] == leaves;
    } else {
      ChainSuffix(pages, pages[page - 1].nextLeaf, leaves[1..], k - 1);
      assert leaves[1..][k - 1..] == leaves[k..];
    }
  }

  // ---------------------------------------------------------------- the descent

  /** The search for `key` has read `trail` and goes on below `t`, with `h` of `height` levels to go. */
  ghost predicate Descending(root: Tree, t: Tree, key: int, lo: int, hi: int, h: nat, height: nat, pages: seq<DiskNode>,
                             after: int, trail: seq<int>) {
    forall b {:trigger Shut(b)} :: Shut(b) ==>
      && Ready(t, key, lo, hi, h, pages, after)
      && Target(t, key) == Target(root, key) && trail + Path(t, key) == Path(root, key) && |trail| + h == height
  }

  lemma DescentStarts(root: Tree, key: int, h: nat, pages: seq<DiskNode>)
    requires Index(root, h, pages) && INT32_MIN <= key <= INT32_MAX
    ensures Descending(root, root, key, INT32_MIN, INT32_MAX + 1, h, h, pages, 0, []) && root.page >= 1
  {
    IndexReady(root, h, pages, key);
    ReadyNode(root, key, INT32_MIN, INT32_MAX + 1, h, pages, 0);
  }

  /** What the search finds on the page it reads next. */
  lemma DescentReads(root: Tree, t: Tree, key: int, lo: int, hi: int, h: nat, height: nat, pages: seq<DiskNode>,
                     after: int, trail: seq<int>)
    requires Descending(root, t, key, lo, hi, h, height, pages, after, trail)
    ensures 1 <= t.page <= |pages| && h >= 1
    ensures t.Leaf? ==> HoldsLeaf(pages[t.page - 1], t.entries, after)
    ensures t.Inner? ==> HoldsInner(pages[t.page - 1], t.keys, t.kids)
  {
    assert Shut(true);
    ReadyNode(t, key, lo, hi, h, pages, after);
  }

  lemma DescentStep(root: Tree, t: Tree, key: int, lo: int, hi: int, h: nat, height: nat, pages: seq<DiskNode>,
                    after: int, trail: seq<int>, i: nat)
    requires Descending(root, t, key, lo, hi, h, height, pages, after, trail) && t.Inner?
    requires i == ChildIndex(t.keys, key)
    ensures h > 1 && i < |t.kids|
    ensures Descending(root, t.kids[i], key, Low(t.keys, i, lo), High(t.keys, i, hi), h - 1, height,
                       pages, After(t.kids, i, after), trail + [t.page])
    ensures t.kids[i].page >= 1
  {
    assert Shut(true);
    ReadyKid(t, key, lo, hi, h, pages, after, i);
    ReadyNode(t.kids[i], key, Low(t.keys, i, lo), High(t.keys, i, hi), h - 1, pages, After(t.kids, i, after));
    assert trail + ([t.page] + Path(t.kids[i], key)) == trail + [t.page] + Path(t.kids[i], key);
  }

  lemma DescentEnds(root: Tree, t: Tree, key: int, lo: int, hi: int, h: nat, height: nat, pages: seq<DiskNode>,
                    after: int, trail: seq<int>)
    requires Descending(root, t, key, lo, hi, h, height, pages, after, trail) && t.Leaf?
    ensures Target(root, key).page == t.page && trail + [t.page] == Path(root, key) && |Path(root, key)| == height
  {
    assert Shut(true);
    assert Seal(true);
  }

  // ---------------------------------------------------------------- searching an index

  /** Following the links from `page` visits the leaves `leaves`, whose entries are `es`. */
  ghost predicate ChainOf(pages: seq<DiskNode>, page: int, leaves: seq<Tree>, es: seq<Entry>) {
    forall b {:trigger Seal(b)} :: Seal(b) ==> Chain(pages, page, leaves) && es == ForestEntries(leaves)
  }

  lemma ChainStep(pages: seq<DiskNode>, page: int, leaves: seq<Tree>, es: seq<Entry>)
    returns (first: seq<Entry>, more: seq<Entry>)
    requires ChainOf(pages, page, leaves, es) && page != 0
    ensures leaves != [] && 1 <= page <= |pages| && HoldsLeaf(pages[page - 1], first, pages[page - 1].nextLeaf)
    ensures es == first + more && ChainOf(pages, pages[page - 1].nextLeaf, leaves[1..], more)
  {
    assert Seal(true);
    assert Chain(pages, page, leaves);
    first, more := leaves[0].entries, ForestEntries(leaves[1..]);
    assert Entries(leaves[0]) == first;
  }

  lemma ChainEnds(pages: seq<DiskNode>, leaves: seq<Tree>, es: seq<Entry>)
    requires ChainOf(pages, 0, leaves, es)
    ensures es == []
  {
    assert Seal(true);
  }

  /** Everything before `leaf` is below `key`, everything after it above. */
  ghost predicate SplitsAt(es: seq<Entry>, leaf: seq<Entry>, tail: seq<Entry>, key: int) {
    forall b {:trigger Seal(b)} :: Seal(b) ==> Parted(es, leaf, tail, key)
  }

  ghost predicate Parted(es: seq<Entry>, leaf: seq<Entry>, tail: seq<Entry>, key: int) {
    exists before :: Parts(es, before, leaf, tail, key)
  }

  ghost predicate Parts(es: seq<Entry>, before: seq<Entry>, leaf: seq<Entry>, tail: seq<Entry>, key: int) {
    && es == before + leaf + tail
    && (forall i :: 0 <= i < |before| ==> before[i].key < key)
    && (forall i :: 0 <= i < |tail| ==> key < tail[i].key)
  }

  lemma PartedSplits(es: seq<Entry>, before: seq<Entry>, leaf: seq<Entry>, tail: seq<Entry>, key: int, lo: int, hi: int)
    requires es == before + leaf + tail && Within(before, lo, key) && Within(tail, key + 1, hi)
    ensures SplitsAt(es, leaf, tail, key)
  {
    assert Parts(es, before, leaf, tail, key);
  }

  /** The search for `key` ends in leaf `leaf` on page `page`, from which the chain goes on through `rest`. */
  ghost predicate LeafReached(es: seq<Entry>, pages: seq<DiskNode>, key: int, page: int, leaf: seq<Entry>,
                              rest: seq<Tree>) {
    && 1 <= page <= |pages| && HoldsLeaf(pages[page - 1], leaf, pages[page - 1].nextLeaf)
    && Chain(pages, pages[page - 1].nextLeaf, rest) && Ascending(leaf)
    && SplitsAt(es, leaf, ForestEntries(rest), key)
  }

  lemma IndexChain(t: Tree, h: nat, pages: seq<DiskNode>)
    requires Index(t, h, pages)
    ensures Chain(pages, FirstLeaf(t), Leaves(t)) && ChainOf(pages, FirstLeaf(t), Leaves(t), Entries(t))
    ensures ForestEntries(Leaves(t)) == Entries(t) && Ascending(Entries(t))
  {
    assert Seal(true);
    StoredChain(t, pages, 0, []);
    assert Leaves(t) + [] == Leaves(t);
    LeavesHoldEntries(t);
    EntriesAscend(t, INT32_MIN, INT32_MAX + 1);
  }

  lemma IndexLeaf(t: Tree, h: nat, pages: seq<DiskNode>, key: int) returns (rest: seq<Tree>)
    requires Index(t, h, pages) && INT32_MIN <= key <= INT32_MAX
    ensures LeafReached(Entries(t), pages, key, Target(t, key).page, Target(t, key).entries, rest)
  {
    IndexParts(t, h, pages);
    IndexChain(t, h, pages);
    var k := TargetInLeaves(t, key, INT32_MIN, INT32_MAX + 1);
    assert Shut(true);
    var ls, leaf := Leaves(t), Target(t, key);
    rest := ls[k + 1..];
    ChainSuffix(pages, FirstLeaf(t), ls, k);
    LeafSplits(ls, k, Entries(t));
    PartedSplits(Entries(t), ForestEntries(ls[..k]), leaf.entries, ForestEntries(rest), key, INT32_MIN, INT32_MAX + 1);
    assert ls[k..][1..] == rest;
  }

  lemma TargetPage(t: Tree, h: nat, pages: seq<DiskNode>, key: int)
    requires Index(t, h, pages) && INT32_MIN <= key <= INT32_MAX
    ensures var page, es := Target(t, key).page, Target(t, key).entries;
      1 <= page <= |pages| && HoldsLeaf(pages[page - 1], es, pages[page - 1].nextLeaf) && Ascending(es)
  {
    var rest := IndexLeaf(t, h, pages, key);
  }

  lemma LeafSplits(ls: seq<Tree>, k: nat, es: seq<Entry>)
    requires k < |ls| && ls[k].Leaf? && es == ForestEntries(ls) && Ascending(es)
    ensures es == ForestEntries(ls[..k]) + ls[k].entries + ForestEntries(ls[k + 1..]) && Ascending(ls[k].entries)
  {
    ForestEntriesAround(ls, k);
    PartAscends(ForestEntries(ls[..k]), ls[k].entries, ForestEntries(ls[k + 1..]));
  }

  lemma PartAscends(a: seq<Entry>, b: seq<Entry>, c: seq<Entry>)
    requires Ascending(a + b + c)
    ensures Ascending(b)
  {
    assert forall i :: 0 <= i < |b| ==> b[i] == (a + b + c)[|a| + i];
  }

  /** The key is in the index exactly when it is in the leaf reached; if so the values agree. */
  lemma ReachedDecides(es: seq<Entry>, pages: seq<DiskNode>, key: int, page: int, leaf: seq<Entry>, rest: seq<Tree>)
    requires LeafReached(es, pages, key, page, leaf, rest) && Ascending(es)
    ensures Select(es, Equals, key) == Select(leaf, Equals, key)
    ensures Select(es, Greater, key) == Select(leaf, Greater, key) + ForestEntries(rest)
    ensures Select(es, GreaterOrEqual, key) == Select(leaf, GreaterOrEqual, key) + ForestEntries(rest)
  {
    var tail := ForestEntries(rest);
    assert Seal(true);
    var before :| Parts(es, before, leaf, tail, key);
    SelectSplit(before, leaf, tail, Equals, key);
    SelectSplit(before, leaf, tail, Greater, key);
    SelectSplit(before, leaf, tail, GreaterOrEqual, key);
    SelectNone(tail, Equals, key);
    SelectAll(tail, Greater, key);
    SelectAll(tail, GreaterOrEqual, key);
  }

  /** Entries with smaller keys contribute nothing. */
  lemma {:induction false} SelectBefore(before: seq<Entry>, es: seq<Entry>, op: CompareOperator, key: int)
    requires op.Equals? || op.Greater? || op.GreaterOrEqual?
    requires forall i :: 0 <= i < |before| ==> before[i].key < key
    ensures Select(before + es, op, key) == Select(es, op, key)
  {
    if before == [] {
      assert before + es == es;
    } else {
      assert (before + es)[1..] == before[1..] + es;
      SelectBefore(before[1..], es, op, key);
    }
  }

  lemma SelectSplit(before: seq<Entry>, leaf: seq<Entry>, tail: seq<Entry>, op: CompareOperator, key: int)
    requires op.Equals? || op.Greater? || op.GreaterOrEqual?
    requires forall i :: 0 <= i < |before| ==> before[i].key < key
    ensures Select(before + leaf + tail, op, key) == Select(leaf, op, key) + Select(tail, op, key)
  {
    SelectConcat(before + leaf, tail, op, key);
    SelectBefore(before, leaf, op, key);
  }

  /** In an ascending leaf the selection starts at the scanned position. */
  lemma SelectFrom(leaf: seq<Entry>, start: nat, op: CompareOperator, key: int)
    requires start <= |leaf| && Ascending(leaf)
    requires forall j :: 0 <= j < start ==> !Matches(op, leaf[j].key, key)
    requires op.Greater? || op.GreaterOrEqual?
    requires start < |leaf| ==> Matches(op, leaf[start].key, key)
    ensures Select(leaf, op, key) == leaf[start..]
  {
    assert leaf == leaf[..start] + leaf[start..];
    SelectConcat(leaf[..start], leaf[start..], op, key);
    SelectNone(leaf[..start], op, key);
    SelectAll(leaf[start..], op, key);
  }

  lemma SelectOne(leaf: seq<Entry>, j: nat, key: int)
    requires j < |leaf| && Ascending(leaf) && leaf[j].key == key
    ensures Select(leaf, Equals, key) == [leaf[j]]
  {
    assert leaf == leaf[..j] + [leaf[j]] + leaf[j + 1..];
    SelectConcat(leaf[..j] + [leaf[j]], leaf[j + 1..], Equals, key);
    SelectConcat(leaf[..j], [leaf[j]], Equals, key);
    SelectNone(leaf[..j], Equals, key);
    SelectNone(leaf[j + 1..], Equals, key);
    assert [leaf[j]][1..] == [];
  }

  /** From the first key that is too large on, nothing more is selected. */
  lemma SelectUpTo(es: seq<Entry>, n: nat, op: CompareOperator, key: int)
    requires n <= |es| && Ascending(es) && (op.Less? || op.LessOrEqual?)
    requires forall i :: 0 <= i < n ==> Matches(op, es[i].key, key)
    requires n < |es| ==> !Matches(op, es[n].key, key)
    ensures Select(es, op, key) == es[..n]
  {
    assert es == es[..n] + es[n..];
    SelectConcat(es[..n], es[n..], op, key);
    SelectAll(es[..n], op, key);
    SelectNone(es[n..], op, key);
  }

  /** Looking up a key is selecting it. */
  lemma EqualSelection(es: seq<Entry>, key: int)
    requires Ascending(es)
    ensures Select(es, Equals, key) == if key in Contents(es) then [Entry(key, Contents(es)[key])] else []
  {
    ContentsRepresents(es);
    if key in Contents(es) {
      assert HasKey(es, key);
      var j :| 0 <= j < |es| && es[j].key == key;
      SelectOne(es, j, key);
    } else {
      assert forall i :: 0 <= i < |es| ==> es[i].key in Contents(es);
      SelectNone(es, Equals, key);
    }
  }

  /** The visit of everything up to a bound was refused part-way: the rest of the selection does not matter. */
  lemma RefusedBelow(seen: seq<Entry>, es: seq<Entry>, n: nat, more: seq<Entry>, op: CompareOperator, key: int,
                     visit: Callback, calls: seq<Entry>)
    requires n <= |es| && Visited(seen + es[..n], visit, calls, false)
    requires forall i :: 0 <= i < |seen| ==> Matches(op, seen[i].key, key)
    requires forall i :: 0 <= i < n ==> Matches(op, es[i].key, key)
    ensures Visited(Select(seen + es + more, op, key), visit, calls, false)
  {
    var a, b := seen + es[..n], es[n..] + more;
    assert seen + es + more == a + b;
    SelectConcat(a, b, op, key);
    SelectAll(a, op, key);
    VisitedStops(a, Select(b, op, key), visit, calls);
  }

  /** The scan of the leaf reached answers for the whole map. */
  lemma LookupDecided(t: Tree, h: nat, pages: seq<DiskNode>, key: int, found: bool, value: int)
    requires Index(t, h, pages) && INT32_MIN <= key <= INT32_MAX
    requires Select(Target(t, key).entries, Equals, key) == if found then [Entry(key, value)] else []
    ensures Select(Entries(t), Equals, key) == if found then [Entry(key, value)] else []
    ensures found <==> key in Contents(Entries(t))
    ensures found ==> Contents(Entries(t))[key] == value
  {
    var rest := IndexLeaf(t, h, pages, key);
    IndexChain(t, h, pages);
    ReachedDecides(Entries(t), pages, key, Target(t, key).page, Target(t, key).entries, rest);
    EqualSelection(Entries(t), key);
  }

  /** From the scanned position of the leaf reached, the chain holds exactly the selection. */
  lemma SelectedChain(t: Tree, h: nat, pages: seq<DiskNode>, op: CompareOperator, key: int, start: nat)
    returns (rest: seq<Tree>, es: seq<Entry>)
    requires Index(t, h, pages) && INT32_MIN <= key <= INT32_MAX && (op.Greater? || op.GreaterOrEqual?)
    requires var leaf := Target(t, key).entries; start <= |leaf| && Select(leaf, op, key) == leaf[start..]
    ensures ChainOf(pages, Target(t, key).page, rest, es)
    ensures start <= |es| && Select(Entries(t), op, key) == es[start..]
  {
    var page, leaf := Target(t, key).page, Target(t, key).entries;
    var behind := IndexLeaf(t, h, pages, key);
    IndexChain(t, h, pages);
    rest, es := [Leaf(page, leaf)] + behind, leaf + ForestEntries(behind);
    ReachedChain(pages, page, leaf, behind);
    ReachedSelection(Entries(t), pages, op, key, page, leaf, behind, start);
  }

  lemma ReachedSelection(all: seq<Entry>, pages: seq<DiskNode>, op: CompareOperator, key: int, page: int,
                         leaf: seq<Entry>, rest: seq<Tree>, start: nat)
    requires LeafReached(all, pages, key, page, leaf, rest) && Ascending(all) && (op.Greater? || op.GreaterOrEqual?)
    requires start <= |leaf| && Select(leaf, op, key) == leaf[start..]
    ensures Select(all, op, key) == (leaf + ForestEntries(rest))[start..]
  {
    ReachedDecides(all, pages, key, page, leaf, rest);
    DropConcat(leaf, ForestEntries(rest), start);
  }

  lemma DropConcat<T>(a: seq<T>, b: seq<T>, n: nat)
    requires n <= |a|
    ensures (a + b)[n..] == a[n..] + b
  {
  }

  lemma ReachedChain(pages: seq<DiskNode>, page: int, leaf: seq<Entry>, rest: seq<Tree>)
    requires 1 <= page <= |pages| && HoldsLeaf(pages[page - 1], leaf, pages[page - 1].nextLeaf)
    requires Chain(pages, pages[page - 1].nextLeaf, rest)
    ensures ChainOf(pages, page, [Leaf(page, leaf)] + rest, leaf + ForestEntries(rest))
  {
    assert ([Leaf(page, leaf)] + rest)[1..] == rest;
  }

  lemma RefusedExcept(calls: seq<Entry>, es: seq<Entry>, i: nat, key: int, visit: Callback, calls': seq<Entry>)
    requires i < |es| && es[i].key != key && Accepted(calls', visit) && !visit(calls' + [es[i]])
    requires calls' == calls + Select(es[..i], NotEquals, key)
    ensures Visited(calls + Select(es, NotEquals, key), visit, calls' + [es[i]], false)
  {
    SelectPush(es, i, NotEquals, key);
    assert es == es[..i + 1] + es[i + 1..];
    SelectConcat(es[..i + 1], es[i + 1..], NotEquals, key);
    var more := Select(es[i + 1..], NotEquals, key);
    RefusedPush(calls', es[i], more, visit);
    assert calls' + [es[i]] + more == calls + (Select(es[..i], NotEquals, key) + [es[i]] + more);
  }

  lemma OneCall(e: Entry, visit: Callback)
    ensures Visited([e], visit, [e], visit([e]))
  {
    assert [e][..1] == [e];
  }

  /** The visit met the bound: nothing beyond it is selected. */
  lemma BoundMet(seen: seq<Entry>, es: seq<Entry>, n: nat, more: seq<Entry>, op: CompareOperator, key: int)
    requires n < |es| && Ascending(seen + es + more) && (op.Less? || op.LessOrEqual?)
    requires forall i :: 0 <= i < |seen| ==> Matches(op, seen[i].key, key)
    requires forall i :: 0 <= i < n ==> Matches(op, es[i].key, key)
    requires !Matches(op, es[n].key, key)
    ensures Select(seen + es + more, op, key) == seen + es[..n]
  {
    var all := seen + es + more;
    assert all[..|seen| + n] == seen + es[..n] && all[|seen| + n] == es[n];
    SelectUpTo(all, |seen| + n, op, key);
  }

  /** Every entry of `seen` lies below the bound; `left` comes after it. */
  ghost predicate BelowSoFar(all: seq<Entry>, seen: seq<Entry>, left: seq<Entry>, op: CompareOperator, key: int) {
    forall b {:trigger Seal(b)} :: Seal(b) ==>
      all == seen + left && Ascending(all) && forall i :: 0 <= i < |seen| ==> Matches(op, seen[i].key, key)
  }

  lemma BelowStarts(all: seq<Entry>, op: CompareOperator, key: int)
    requires Ascending(all)
    ensures BelowSoFar(all, [], all, op, key)
  {
  }

  /** What the visit of the next leaf means for the visit as a whole. */
  lemma BelowLeaf(all: seq<Entry>, seen: seq<Entry>, es: seq<Entry>, more: seq<Entry>, n: nat, op: CompareOperator,
                  key: int, visit: Callback, calls: seq<Entry>, ok: bool, reached: bool)
    requires BelowSoFar(all, seen, es + more, op, key) && (op.Less? || op.LessOrEqual?)
    requires n <= |es| && Visited(seen + es[..n], visit, calls, ok)
    requires forall i :: 0 <= i < n ==> Matches(op, es[i].key, key)
    requires ok ==> if reached then n < |es| && !Matches(op, es[n].key, key) else n == |es|
    ensures !ok || reached ==> Visited(Select(all, op, key), visit, calls, ok)
    ensures ok && !reached ==> BelowSoFar(all, calls, more, op, key) && Accepted(calls, visit)
  {
    assert Seal(true);
    assert all == seen + es + more;
    if !ok {
      RefusedBelow(seen, es, n, more, op, key, visit, calls);
    } else if reached {
      BoundMet(seen, es, n, more, op, key);
    } else {
      assert es[..n] == es;
    }
  }

  lemma BelowEnds(all: seq<Entry>, seen: seq<Entry>, op: CompareOperator, key: int)
    requires BelowSoFar(all, seen, [], op, key)
    ensures Select(all, op, key) == seen
  {
    assert Seal(true);
    assert seen + [] == seen;
    SelectAll(all, op, key);
  }
}
