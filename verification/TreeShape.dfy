/** The B+ tree as a mathematical value: what the pages of an index file mean.

    A `Tree` mirrors the pages reachable from the root.  `Insert` is the effect of
    `insert_recursive` on such a value; the lemmas say what it keeps and what it does to the
    sequence of entries.  Nothing here mentions files or buffers. */
module TreeShape {
  import opened Machine

  const ORDER: nat := 64
  const MAX_KEYS: nat := ORDER - 1

  datatype Entry = Entry(key: int, value: int)

  datatype Tree =
    | Leaf(page: int, entries: seq<Entry>)
    | Inner(page: int, keys: seq<int>, kids: seq<Tree>)

  // ---------------------------------------------------------------- reading a tree

  /** All entries, left to right. */
  ghost function Entries(t: Tree): seq<Entry>
    decreases t
  {
    match t
    case Leaf(_, entries) => entries
    case Inner(_, _, kids) => ForestEntries(kids)
  }

  ghost function ForestEntries(ts: seq<Tree>): seq<Entry>
    decreases ts
  {
    if ts == [] then [] else Entries(ts[0]) + ForestEntries(ts[1..])
  }

  /** The leaf nodes, left to right. */
  ghost function Leaves(t: Tree): seq<Tree>
    decreases t
  {
    match t
    case Leaf(_, _) => [t]
    case Inner(_, _, kids) => ForestLeaves(kids)
  }

  ghost function ForestLeaves(ts: seq<Tree>): seq<Tree>
    decreases ts
  {
    if ts == [] then [] else Leaves(ts[0]) + ForestLeaves(ts[1..])
  }

  /** The page numbers a tree occupies. */
  ghost function PageSet(t: Tree): set<int>
    decreases t
  {
    match t
    case Leaf(page, _) => {page}
    case Inner(page, _, kids) => {page} + ForestPages(kids)
  }

  ghost function ForestPages(ts: seq<Tree>): set<int>
    decreases ts
  {
    if ts == [] then {} else PageSet(ts[0]) + ForestPages(ts[1..])
  }

  /** Page of the leftmost leaf. */
  ghost function FirstLeaf(t: Tree): int
    decreases t
  {
    match t
    case Leaf(page, _) => page
    case Inner(_, _, kids) => if kids == [] then 0 else FirstLeaf(kids[0])
  }

  // ---------------------------------------------------------------- invariants of a tree

  ghost predicate Ascending(es: seq<Entry>) {
    forall i, j :: 0 <= i < j < |es| ==> es[i].key < es[j].key
  }

  ghost predicate Within(es: seq<Entry>, lo: int, hi: int) {
    forall i :: 0 <= i < |es| ==> lo <= es[i].key < hi
  }

  ghost predicate Separators(keys: seq<int>, lo: int, hi: int) {
    && (forall i :: 0 <= i < |keys| ==> lo < keys[i] < hi)
    && (forall i, j :: 0 <= i < j < |keys| ==> keys[i] < keys[j])
  }

  /** Lower and upper key bound of child `i`: child `i` holds keys in [sep i-1, sep i). */
  ghost function Low(keys: seq<int>, i: int, lo: int): int {
    if 0 < i <= |keys| then keys[i - 1] else lo
  }

  ghost function High(keys: seq<int>, i: int, hi: int): int {
    if 0 <= i < |keys| then keys[i] else hi
  }

  ghost predicate Ordered(t: Tree, lo: int, hi: int)
    decreases t
  {
    match t
    case Leaf(_, entries) => Ascending(entries) && Within(entries, lo, hi)
    case Inner(_, keys, kids) => OrderedKids(keys, kids, lo, hi)
  }

  ghost predicate OrderedKids(keys: seq<int>, kids: seq<Tree>, lo: int, hi: int)
    decreases kids
  {
    && |kids| == |keys| + 1
    && Separators(keys, lo, hi)
    && (forall i {:trigger Ordered(kids[i], Low(keys, i, lo), High(keys, i, hi))} ::
          0 <= i < |kids| ==> Ordered(kids[i], Low(keys, i, lo), High(keys, i, hi)))
  }

  /** Every leaf lies exactly `h` levels down (a lone leaf has one level). */
  ghost predicate Balanced(t: Tree, h: nat)
    decreases t
  {
    match t
    case Leaf(_, _) => h == 1
    case Inner(_, _, kids) =>
      && h > 1
      && (forall i {:trigger Balanced(kids[i], h - 1)} :: 0 <= i < |kids| ==> Balanced(kids[i], h - 1))
  }

  /** Node sizes: a split leaves 32 entries in each leaf half, 32 and 31 keys in the inner halves. */
  ghost predicate Occupied(t: Tree, root: bool)
    decreases t
  {
    match t
    case Leaf(_, entries) =>
      (if root then 1 else ORDER / 2) <= |entries| <= MAX_KEYS
    case Inner(_, keys, kids) =>
      && (if root then 1 else ORDER / 2 - 1) <= |keys| <= MAX_KEYS
      && |kids| == |keys| + 1
      && (forall i {:trigger Occupied(kids[i], false)} :: 0 <= i < |kids| ==> Occupied(kids[i], false))
  }

  /** No page is used twice. */
  ghost predicate Distinct(t: Tree)
    decreases t
  {
    match t
    case Leaf(_, _) => true
    case Inner(page, _, kids) => page !in ForestPages(kids) && DistinctKids(kids)
  }

  ghost predicate DistinctKids(kids: seq<Tree>)
    decreases kids
  {
    && (forall i {:trigger Distinct(kids[i])} :: 0 <= i < |kids| ==> Distinct(kids[i]))
    && (forall i, j :: 0 <= i < j < |kids| ==> PageSet(kids[i]) !! PageSet(kids[j]))
  }

  // ---------------------------------------------------------------- searching and inserting

  /** First position whose key is not below `key`. */
  ghost function LowerBound(es: seq<Entry>, key: int): (i: nat)
    ensures i <= |es|
    ensures forall j :: 0 <= j < i ==> es[j].key < key
    ensures i < |es| ==> es[i].key >= key
  {
    if es == [] || es[0].key >= key then 0 else 1 + LowerBound(es[1..], key)
  }

  /** First child whose upper separator is above `key`. */
  ghost function ChildIndex(keys: seq<int>, key: int): (i: nat)
    ensures i <= |keys|
    ensures forall j :: 0 <= j < i ==> keys[j] <= key
    ensures i < |keys| ==> key < keys[i]
  {
    if keys == [] || key < keys[0] then 0 else 1 + ChildIndex(keys[1..], key)
  }

  /** The leaf the search for `key` ends in. */
  ghost function Target(t: Tree, key: int): (leaf: Tree)
    ensures leaf.Leaf?
    decreases t
  {
    match t
    case Leaf(_, _) => t
    case Inner(page, keys, kids) =>
      var i := ChildIndex(keys, key);
      if i < |kids| then Target(kids[i], key) else Leaf(page, [])
  }

  /** The pages the search for `key` reads, root first. */
  ghost function Path(t: Tree, key: int): seq<int>
    decreases t
  {
    match t
    case Leaf(page, _) => [page]
    case Inner(page, keys, kids) =>
      var i := ChildIndex(keys, key);
      if i < |kids| then [page] + Path(kids[i], key) else [page]
  }

  ghost predicate HasKey(es: seq<Entry>, key: int) {
    exists i :: 0 <= i < |es| && es[i].key == key
  }

  /** Result of inserting below a node: the node rewritten, or split around a separator.
      `next` is the first page number still unused. */
  datatype Outcome =
    | Whole(tree: Tree, next: int)
    | Split(left: Tree, sep: int, right: Tree, next: int)

  ghost predicate Shaped(t: Tree)
    decreases t
  {
    t.Inner? ==>
      |t.kids| == |t.keys| + 1 && forall i {:trigger Shaped(t.kids[i])} :: 0 <= i < |t.kids| ==> Shaped(t.kids[i])
  }

  ghost function Insert(t: Tree, key: int, value: int, next: int): Outcome
    requires Shaped(t)
    decreases t
  {
    match t
    case Leaf(page, entries) =>
      var es := InsertAt(entries, LowerBound(entries, key), Entry(key, value));
      SplitLeaf(page, es, next)
    case Inner(page, keys, kids) =>
      var i := ChildIndex(keys, key);
      Adopt(t, i, Insert(kids[i], key, value, next))
  }

  /** How the parent takes over the outcome of inserting into its child `i`. */
  ghost function Adopt(t: Tree, i: nat, o: Outcome): Outcome
    requires t.Inner? && |t.kids| == |t.keys| + 1 && i < |t.kids|
  {
    match o
    case Whole(kid, n) => Whole(Inner(t.page, t.keys, t.kids[i := kid]), n)
    case Split(l, sep, r, n) => SplitInner(t.page, InsertAt(t.keys, i, sep), SpliceKids(t.kids, i, l, r), n)
  }

  ghost function SplitLeaf(page: int, es: seq<Entry>, next: int): Outcome {
    if |es| <= MAX_KEYS then Whole(Leaf(page, es), next)
    else
      var m := |es| / 2;
      Split(Leaf(page, es[..m]), es[m].key, Leaf(next, es[m..]), next + 1)
  }

  ghost function SplitInner(page: int, keys: seq<int>, kids: seq<Tree>, next: int): Outcome
    requires |kids| == |keys| + 1
  {
    if |keys| <= MAX_KEYS then Whole(Inner(page, keys, kids), next)
    else
      var m := |keys| / 2;
      Split(Inner(page, keys[..m], kids[..m + 1]), keys[m], Inner(next, keys[m + 1..], kids[m + 1..]), next + 1)
  }

  ghost function SpliceKids(kids: seq<Tree>, i: nat, l: Tree, r: Tree): (s: seq<Tree>)
    requires i < |kids|
    ensures |s| == |kids| + 1 && s[i] == l && s[i + 1] == r
    ensures forall j :: 0 <= j < i ==> s[j] == kids[j]
    ensures forall j :: i + 1 < j < |s| ==> s[j] == kids[j - 1]
  {
    kids[..i] + [l, r] + kids[i + 1..]
  }

  // ---------------------------------------------------------------- order

  ghost predicate OutcomeOrdered(o: Outcome, lo: int, hi: int) {
    match o
    case Whole(u, _) => Ordered(u, lo, hi)
    case Split(l, sep, r, _) => lo < sep < hi && Ordered(l, lo, sep) && Ordered(r, sep, hi)
  }

  ghost predicate OutcomeBalanced(o: Outcome, h: nat) {
    match o
    case Whole(u, _) => Balanced(u, h)
    case Split(l, _, r, _) => Balanced(l, h) && Balanced(r, h)
  }

  ghost predicate OutcomeOccupied(o: Outcome, root: bool) {
    match o
    case Whole(u, _) => Occupied(u, root)
    case Split(l, _, r, _) => Occupied(l, false) && Occupied(r, false)
  }

  lemma {:induction false} OrderedIsShaped(t: Tree, lo: int, hi: int)
    requires Ordered(t, lo, hi)
    ensures Shaped(t)
    decreases t
  {
    if t.Inner? {
      forall i | 0 <= i < |t.kids| ensures Shaped(t.kids[i]) {
        OrderedIsShaped(t.kids[i], Low(t.keys, i, lo), High(t.keys, i, hi));
      }
    }
  }

  lemma SplitInnerOrdered(page: int, keys: seq<int>, kids: seq<Tree>, next: int, lo: int, hi: int)
    requires OrderedKids(keys, kids, lo, hi)
    ensures OutcomeOrdered(SplitInner(page, keys, kids, next), lo, hi)
  {
    if |keys| > MAX_KEYS {
      var m := |keys| / 2;
      var lk, lc, rk, rc := keys[..m], kids[..m + 1], keys[m + 1..], kids[m + 1..];
      forall i | 0 <= i < |lc| ensures Ordered(lc[i], Low(lk, i, lo), High(lk, i, keys[m])) {
        assert Ordered(kids[i], Low(keys, i, lo), High(keys, i, hi));
      }
      forall i | 0 <= i < |rc| ensures Ordered(rc[i], Low(rk, i, keys[m]), High(rk, i, hi)) {
        assert Ordered(kids[m + 1 + i], Low(keys, m + 1 + i, lo), High(keys, m + 1 + i, hi));
      }
    }
  }

  lemma LowBelow(keys: seq<int>, i: nat, lo: int, hi: int)
    requires Separators(keys, lo, hi) && i <= |keys|
    ensures lo <= Low(keys, i, lo) && High(keys, i, hi) <= hi
  {
  }

  lemma SpliceOrdered(keys: seq<int>, kids: seq<Tree>, i: nat, l: Tree, sep: int, r: Tree, lo: int, hi: int)
    requires OrderedKids(keys, kids, lo, hi) && i < |kids|
    requires Low(keys, i, lo) < sep < High(keys, i, hi)
    requires Ordered(l, Low(keys, i, lo), sep) && Ordered(r, sep, High(keys, i, hi))
    ensures OrderedKids(InsertAt(keys, i, sep), SpliceKids(kids, i, l, r), lo, hi)
  {
    var ks, cs := InsertAt(keys, i, sep), SpliceKids(kids, i, l, r);
    LowBelow(keys, i, lo, hi);
    forall j | 0 <= j < |cs| ensures Ordered(cs[j], Low(ks, j, lo), High(ks, j, hi)) {
      SplicedBounds(keys, i, sep, j, lo, hi);
      assert j < i ==> Ordered(kids[j], Low(keys, j, lo), High(keys, j, hi));
      assert j > i + 1 ==> Ordered(kids[j - 1], Low(keys, j - 1, lo), High(keys, j - 1, hi));
    }
    SplicedSeparators(keys, i, sep, lo, hi);
  }

  lemma SplicedSeparators(keys: seq<int>, i: nat, sep: int, lo: int, hi: int)
    requires Separators(keys, lo, hi) && i <= |keys| && Low(keys, i, lo) < sep < High(keys, i, hi)
    ensures Separators(InsertAt(keys, i, sep), lo, hi)
  {
    LowBelow(keys, i, lo, hi);
  }

  lemma SplicedBounds(keys: seq<int>, i: nat, sep: int, j: nat, lo: int, hi: int)
    requires i <= |keys| && j <= |keys| + 1
    ensures Low(InsertAt(keys, i, sep), j, lo) ==
      if j <= i then Low(keys, j, lo) else if j == i + 1 then sep else Low(keys, j - 1, lo)
    ensures High(InsertAt(keys, i, sep), j, hi) ==
      if j < i then High(keys, j, hi) else if j == i then sep else High(keys, j - 1, hi)
  {
  }

  /** Insertion keeps the search order, and a separator really separates the two halves. */
  lemma {:induction false} InsertOrdered(t: Tree, key: int, value: int, next: int, lo: int, hi: int)
    requires Shaped(t) && Ordered(t, lo, hi) && lo <= key < hi
    requires !HasKey(Target(t, key).entries, key)
    ensures OutcomeOrdered(Insert(t, key, value, next), lo, hi)
    decreases t
  {
    match t
    case Leaf(page, entries) =>
      LeafOrdered(page, entries, key, value, next, lo, hi);
    case Inner(_, keys, kids) =>
      var i := ChildIndex(keys, key);
      InsertOrdered(kids[i], key, value, next, Low(keys, i, lo), High(keys, i, hi));
      AdoptOrdered(t, i, Insert(kids[i], key, value, next), lo, hi);
  }

  lemma LeafOrdered(page: int, entries: seq<Entry>, key: int, value: int, next: int, lo: int, hi: int)
    requires Ascending(entries) && Within(entries, lo, hi) && lo <= key < hi && !HasKey(entries, key)
    ensures OutcomeOrdered(SplitLeaf(page, InsertAt(entries, LowerBound(entries, key), Entry(key, value)), next),
                           lo, hi)
  {
    var i := LowerBound(entries, key);
    assert i < |entries| ==> entries[i].key != key;
    EnterOrdered(entries, i, Entry(key, value), lo, hi);
    SplitLeafOrdered(page, InsertAt(entries, i, Entry(key, value)), next, lo, hi);
  }

  lemma EnterOrdered(es: seq<Entry>, i: nat, e: Entry, lo: int, hi: int)
    requires Ascending(es) && Within(es, lo, hi) && lo <= e.key < hi && i <= |es|
    requires forall j :: 0 <= j < i ==> es[j].key < e.key
    requires i < |es| ==> e.key < es[i].key
    ensures Ascending(InsertAt(es, i, e)) && Within(InsertAt(es, i, e), lo, hi)
  {
  }

  lemma SplitLeafOrdered(page: int, es: seq<Entry>, next: int, lo: int, hi: int)
    requires Ascending(es) && Within(es, lo, hi)
    ensures OutcomeOrdered(SplitLeaf(page, es, next), lo, hi)
  {
    if |es| > MAX_KEYS {
      assert es[0].key < es[|es| / 2].key;
    }
  }

  lemma AdoptOrdered(t: Tree, i: nat, o: Outcome, lo: int, hi: int)
    requires t.Inner? && OrderedKids(t.keys, t.kids, lo, hi) && i < |t.kids|
    requires OutcomeOrdered(o, Low(t.keys, i, lo), High(t.keys, i, hi))
    ensures OutcomeOrdered(Adopt(t, i, o), lo, hi)
  {
    match o
    case Whole(kid, _) =>
      assert OrderedKids(t.keys, t.kids[i := kid], lo, hi);
    case Split(l, sep, r, n) =>
      SpliceOrdered(t.keys, t.kids, i, l, sep, r, lo, hi);
      SplitInnerOrdered(t.page, InsertAt(t.keys, i, sep), SpliceKids(t.kids, i, l, r), n, lo, hi);
  }

  // ---------------------------------------------------------------- balance and occupancy

  lemma {:induction false} InsertBalanced(t: Tree, key: int, value: int, next: int, h: nat)
    requires Shaped(t) && Balanced(t, h)
    ensures OutcomeBalanced(Insert(t, key, value, next), h)
    decreases t
  {
    if t.Inner? {
      var i := ChildIndex(t.keys, key);
      InsertBalanced(t.kids[i], key, value, next, h - 1);
      AdoptBalanced(t, i, Insert(t.kids[i], key, value, next), h);
    }
  }

  lemma AdoptBalanced(t: Tree, i: nat, o: Outcome, h: nat)
    requires t.Inner? && |t.kids| == |t.keys| + 1 && i < |t.kids|
    requires Balanced(t, h) && OutcomeBalanced(o, h - 1)
    ensures OutcomeBalanced(Adopt(t, i, o), h)
  {
  }

  lemma SplitInnerOccupied(page: int, keys: seq<int>, kids: seq<Tree>, next: int, root: bool)
    requires |kids| == |keys| + 1 && (if root then 1 else ORDER / 2 - 1) <= |keys| <= ORDER
    requires forall i :: 0 <= i < |kids| ==> Occupied(kids[i], false)
    ensures OutcomeOccupied(SplitInner(page, keys, kids, next), root)
  {
  }

  lemma {:induction false} InsertOccupied(t: Tree, key: int, value: int, next: int, root: bool)
    requires Shaped(t) && Occupied(t, root)
    ensures OutcomeOccupied(Insert(t, key, value, next), root)
    decreases t
  {
    if t.Inner? {
      var i := ChildIndex(t.keys, key);
      InsertOccupied(t.kids[i], key, value, next, false);
      AdoptOccupied(t, i, Insert(t.kids[i], key, value, next), root);
    }
  }

  lemma AdoptOccupied(t: Tree, i: nat, o: Outcome, root: bool)
    requires t.Inner? && |t.kids| == |t.keys| + 1 && i < |t.kids|
    requires Occupied(t, root) && OutcomeOccupied(o, false)
    ensures OutcomeOccupied(Adopt(t, i, o), root)
  {
    if o.Split? {
      SplitInnerOccupied(t.page, InsertAt(t.keys, i, o.sep), SpliceKids(t.kids, i, o.left, o.right), o.next, root);
    }
  }

  /** One insertion allocates at most one page per level. */
  lemma {:induction false} InsertGrowth(t: Tree, key: int, value: int, next: int, h: nat)
    requires Shaped(t) && Balanced(t, h)
    ensures next <= Insert(t, key, value, next).next <= next + h
    decreases t
  {
    if t.Inner? {
      InsertGrowth(t.kids[ChildIndex(t.keys, key)], key, value, next, h - 1);
    }
  }

  // ---------------------------------------------------------------- entries

  lemma CutAt<T>(s: seq<T>, i: nat)
    requires i < |s|
    ensures s == s[..i] + s[i..] && s[i..][0] == s[i] && s[i..][1..] == s[i + 1..]
  {
  }

  lemma {:induction false} ForestEntriesConcat(a: seq<Tree>, b: seq<Tree>)
    ensures ForestEntries(a + b) == ForestEntries(a) + ForestEntries(b)
  {
    if a == [] {
      assert a + b == b;
    } else {
      assert (a + b)[1..] == a[1..] + b;
      ForestEntriesConcat(a[1..], b);
    }
  }

  lemma ForestEntriesOne(t: Tree)
    ensures ForestEntries([t]) == Entries(t)
  {
    assert [t][1..] == [];
  }

  /** The entries of a forest, seen around tree `i`. */
  lemma ForestEntriesAround(ts: seq<Tree>, i: nat)
    requires i < |ts|
    ensures ForestEntries(ts) == ForestEntries(ts[..i]) + Entries(ts[i]) + ForestEntries(ts[i + 1..])
  {
    CutAt(ts, i);
    ForestEntriesConcat(ts[..i], ts[i..]);
  }

  ghost function OutcomeEntries(o: Outcome): seq<Entry> {
    match o
    case Whole(t, _) => Entries(t)
    case Split(l, _, r, _) => Entries(l) + Entries(r)
  }

  lemma SplitInnerEntries(page: int, keys: seq<int>, kids: seq<Tree>, next: int)
    requires |kids| == |keys| + 1
    ensures OutcomeEntries(SplitInner(page, keys, kids, next)) == ForestEntries(kids)
  {
    if |keys| > MAX_KEYS {
      var m := |keys| / 2;
      assert kids == kids[..m + 1] + kids[m + 1..];
      ForestEntriesConcat(kids[..m + 1], kids[m + 1..]);
    }
  }

  lemma SpliceEntries(kids: seq<Tree>, i: nat, l: Tree, r: Tree)
    requires i < |kids|
    ensures ForestEntries(SpliceKids(kids, i, l, r))
         == ForestEntries(kids[..i]) + (Entries(l) + Entries(r)) + ForestEntries(kids[i + 1..])
  {
    ForestEntriesConcat(kids[..i] + [l, r], kids[i + 1..]);
    ForestEntriesConcat(kids[..i], [l, r]);
    assert [l, r] == [l] + [r];
    ForestEntriesConcat([l], [r]);
    ForestEntriesOne(l);
    ForestEntriesOne(r);
  }

  /** Insertion adds exactly one entry to the entry sequence, at position `p`. */
  lemma {:induction false} InsertEntries(t: Tree, key: int, value: int, next: int) returns (p: nat)
    requires Shaped(t)
    ensures p <= |Entries(t)|
    ensures OutcomeEntries(Insert(t, key, value, next)) == InsertAt(Entries(t), p, Entry(key, value))
    decreases t
  {
    match t
    case Leaf(page, entries) =>
      p := LowerBound(entries, key);
      var es := InsertAt(entries, p, Entry(key, value));
      if |es| > MAX_KEYS {
        assert es == es[..|es| / 2] + es[|es| / 2..];
      }
    case Inner(page, keys, kids) =>
      var i := ChildIndex(keys, key);
      var q := InsertEntries(kids[i], key, value, next);
      ForestEntriesAround(kids, i);
      var before, mid, after := ForestEntries(kids[..i]), Entries(kids[i]), ForestEntries(kids[i + 1..]);
      p := |before| + q;
      InsertAtAround(before, mid, after, q, Entry(key, value));
      match Insert(kids[i], key, value, next)
      case Whole(kid, n) =>
        var cs := kids[i := kid];
        ForestEntriesAround(cs, i);
        assert cs[..i] == kids[..i] && cs[i + 1..] == kids[i + 1..];
      case Split(l, sep, r, n) =>
        SpliceEntries(kids, i, l, r);
        SplitInnerEntries(page, InsertAt(keys, i, sep), SpliceKids(kids, i, l, r), n);
  }

  lemma InsertAtAround<T>(before: seq<T>, mid: seq<T>, after: seq<T>, q: nat, x: T)
    requires q <= |mid|
    ensures InsertAt(before + mid + after, |before| + q, x) == before + InsertAt(mid, q, x) + after
  {
  }

  // ---------------------------------------------------------------- the entry sequence

  lemma KidsBefore(keys: seq<int>, kids: seq<Tree>, i: nat, lo: int, hi: int)
    requires OrderedKids(keys, kids, lo, hi) && 0 < i < |kids|
    ensures OrderedKids(keys[..i - 1], kids[..i], lo, keys[i - 1])
  {
    forall j | 0 <= j < i
      ensures Ordered(kids[..i][j], Low(keys[..i - 1], j, lo), High(keys[..i - 1], j, keys[i - 1]))
    {
      assert Ordered(kids[j], Low(keys, j, lo), High(keys, j, hi));
    }
  }

  lemma KidsAfter(keys: seq<int>, kids: seq<Tree>, i: nat, lo: int, hi: int)
    requires OrderedKids(keys, kids, lo, hi) && i < |keys|
    ensures OrderedKids(keys[i + 1..], kids[i + 1..], keys[i], hi)
  {
    var ks, cs := keys[i + 1..], kids[i + 1..];
    forall j | 0 <= j < |cs| ensures Ordered(cs[j], Low(ks, j, keys[i]), High(ks, j, hi)) {
      assert Ordered(kids[i + 1 + j], Low(keys, i + 1 + j, lo), High(keys, i + 1 + j, hi));
    }
  }

  lemma AscendingConcat(a: seq<Entry>, b: seq<Entry>, lo: int, mid: int, hi: int)
    requires Ascending(a) && Within(a, lo, mid) && Ascending(b) && Within(b, mid, hi) && lo <= mid <= hi
    ensures Ascending(a + b) && Within(a + b, lo, hi)
  {
  }

  /** The entries of an ordered tree ascend strictly and stay in its key range. */
  lemma {:induction false} EntriesAscend(t: Tree, lo: int, hi: int)
    requires Ordered(t, lo, hi)
    ensures Ascending(Entries(t)) && Within(Entries(t), lo, hi)
    decreases t, 1
  {
    if t.Inner? {
      ForestAscends(t.keys, t.kids, lo, hi);
    }
  }

  lemma {:induction false} ForestAscends(keys: seq<int>, kids: seq<Tree>, lo: int, hi: int)
    requires OrderedKids(keys, kids, lo, hi)
    ensures Ascending(ForestEntries(kids)) && Within(ForestEntries(kids), lo, hi)
    decreases kids, 0
  {
    assert Ordered(kids[0], Low(keys, 0, lo), High(keys, 0, hi));
    EntriesAscend(kids[0], lo, High(keys, 0, hi));
    if |kids| == 1 {
      assert kids[1..] == [];
    } else {
      KidsAfter(keys, kids, 0, lo, hi);
      ForestAscends(keys[1..], kids[1..], keys[0], hi);
      AscendingConcat(Entries(kids[0]), ForestEntries(kids[1..]), lo, keys[0], hi);
    }
  }

  lemma {:induction false} ForestLeavesConcat(a: seq<Tree>, b: seq<Tree>)
    ensures ForestLeaves(a + b) == ForestLeaves(a) + ForestLeaves(b)
  {
    if a == [] {
      assert a + b == b;
    } else {
      assert (a + b)[1..] == a[1..] + b;
      ForestLeavesConcat(a[1..], b);
    }
  }

  lemma ForestLeavesAround(ts: seq<Tree>, i: nat)
    requires i < |ts|
    ensures ForestLeaves(ts) == ForestLeaves(ts[..i]) + Leaves(ts[i]) + ForestLeaves(ts[i + 1..])
  {
    CutAt(ts, i);
    ForestLeavesConcat(ts[..i], ts[i..]);
  }

  /** Reading the leaves left to right reads the entries left to right. */
  lemma {:induction false} LeavesHoldEntries(t: Tree)
    ensures ForestEntries(Leaves(t)) == Entries(t)
    ensures forall i :: 0 <= i < |Leaves(t)| ==> Leaves(t)[i].Leaf?
    decreases t, 1
  {
    if t.Leaf? {
      ForestEntriesOne(t);
    } else {
      ForestLeavesHoldEntries(t.kids);
    }
  }

  lemma {:induction false} ForestLeavesHoldEntries(ts: seq<Tree>)
    ensures ForestEntries(ForestLeaves(ts)) == ForestEntries(ts)
    ensures forall i :: 0 <= i < |ForestLeaves(ts)| ==> ForestLeaves(ts)[i].Leaf?
    decreases ts, 0
  {
    if ts != [] {
      LeavesHoldEntries(ts[0]);
      ForestLeavesHoldEntries(ts[1..]);
      ForestEntriesConcat(Leaves(ts[0]), ForestLeaves(ts[1..]));
    }
  }

  /** One step of the descent: the children left of the chosen one hold only smaller keys, the
      children right of it only larger ones. */
  lemma ChildSeparates(keys: seq<int>, kids: seq<Tree>, key: int, lo: int, hi: int)
    requires OrderedKids(keys, kids, lo, hi) && lo <= key < hi
    ensures var i := ChildIndex(keys, key);
      && lo <= Low(keys, i, lo) && High(keys, i, hi) <= hi
      && Ordered(kids[i], Low(keys, i, lo), High(keys, i, hi))
      && Low(keys, i, lo) <= key < High(keys, i, hi)
      && Within(ForestEntries(kids[..i]), lo, key)
      && Within(ForestEntries(kids[i + 1..]), key + 1, hi)
  {
    var i := ChildIndex(keys, key);
    if 0 < i {
      KidsBefore(keys, kids, i, lo, hi);
      ForestAscends(keys[..i - 1], kids[..i], lo, keys[i - 1]);
    } else {
      assert kids[..i] == [];
    }
    if i < |keys| {
      KidsAfter(keys, kids, i, lo, hi);
      ForestAscends(keys[i + 1..], kids[i + 1..], keys[i], hi);
    } else {
      assert kids[i + 1..] == [];
    }
  }

  /** The search leaf splits the entries: smaller keys before it, larger keys after it. */
  lemma {:induction false} TargetSplits(t: Tree, key: int, lo: int, hi: int)
    returns (before: seq<Entry>, after: seq<Entry>)
    requires Ordered(t, lo, hi) && lo <= key < hi
    ensures Entries(t) == before + Target(t, key).entries + after
    ensures Within(before, lo, key) && Within(after, key + 1, hi)
    decreases t
  {
    match t
    case Leaf(_, _) =>
      before, after := [], [];
    case Inner(_, keys, kids) =>
      var i := ChildIndex(keys, key);
      ChildSeparates(keys, kids, key, lo, hi);
      var b, a := TargetSplits(kids[i], key, Low(keys, i, lo), High(keys, i, hi));
      ForestEntriesAround(kids, i);
      before, after := ForestEntries(kids[..i]) + b, a + ForestEntries(kids[i + 1..]);
      WithinConcat(ForestEntries(kids[..i]), b, lo, key, Low(keys, i, lo), key);
      WithinConcat(a, ForestEntries(kids[i + 1..]), key + 1, High(keys, i, hi), key + 1, hi);
      Regroup(ForestEntries(kids[..i]), b, Target(t, key).entries, a, ForestEntries(kids[i + 1..]));
  }

  lemma WithinConcat(a: seq<Entry>, b: seq<Entry>, alo: int, ahi: int, blo: int, bhi: int)
    requires Within(a, alo, ahi) && Within(b, blo, bhi)
    ensures Within(a + b, if alo < blo then alo else blo, if ahi < bhi then bhi else ahi)
  {
  }

  lemma Regroup<T>(a: seq<T>, b: seq<T>, c: seq<T>, d: seq<T>, e: seq<T>)
    ensures a + (b + c + d) + e == (a + b) + c + (d + e)
  {
  }

  /** A key is in the tree exactly when it is in the leaf its search ends in. */
  lemma SearchIsComplete(t: Tree, key: int, lo: int, hi: int)
    requires Ordered(t, lo, hi) && lo <= key < hi
    ensures HasKey(Entries(t), key) <==> HasKey(Target(t, key).entries, key)
  {
    var before, after := TargetSplits(t, key, lo, hi);
    var es, leaf := Entries(t), Target(t, key).entries;
    if HasKey(leaf, key) {
      var j :| 0 <= j < |leaf| && leaf[j].key == key;
      assert es[|before| + j].key == key;
    }
    if HasKey(es, key) {
      var j :| 0 <= j < |es| && es[j].key == key;
      assert |before| <= j < |before| + |leaf|;
      assert leaf[j - |before|].key == key;
    }
  }

  // ---------------------------------------------------------------- the abstract map

  /** The map an entry sequence stands for. */
  ghost function Contents(es: seq<Entry>): map<int, int> {
    if es == [] then map[]
    else Contents(es[..|es| - 1])[es[|es| - 1].key := es[|es| - 1].value]
  }

  /** What a map means: exactly the entries of the sequence. */
  ghost predicate Represents(m: map<int, int>, es: seq<Entry>) {
    && (forall k :: k in m ==> HasKey(es, k))
    && (forall i :: 0 <= i < |es| ==> es[i].key in m && m[es[i].key] == es[i].value)
  }

  /** An ascending sequence and its map hold the same entries. */
  lemma {:induction false} ContentsRepresents(es: seq<Entry>)
    requires Ascending(es)
    ensures Represents(Contents(es), es)
  {
    if es != [] {
      var init, last := es[..|es| - 1], es[|es| - 1];
      ContentsRepresents(init);
      assert es == InsertAt(init, |init|, last);
      UninsertedAscends(init, |init|, last);
      RepresentsInsertAt(Contents(init), init, |init|, last);
    }
  }

  lemma RepresentsUnique(m: map<int, int>, m': map<int, int>, es: seq<Entry>)
    requires Represents(m, es) && Represents(m', es)
    ensures m == m'
  {
    forall k | k in m || k in m' ensures k in m && k in m' && m[k] == m'[k] {
      assert HasKey(es, k);
      var i :| 0 <= i < |es| && es[i].key == k;
    }
  }

  lemma UninsertedAscends(es: seq<Entry>, p: nat, e: Entry)
    requires p <= |es| && Ascending(InsertAt(es, p, e))
    ensures Ascending(es) && !HasKey(es, e.key)
  {
    var es' := InsertAt(es, p, e);
    assert forall i :: 0 <= i < |es| ==> es[i] == es'[if i < p then i else i + 1];
  }

  lemma RepresentsInsertAt(m: map<int, int>, es: seq<Entry>, p: nat, e: Entry)
    requires p <= |es| && Represents(m, es) && !HasKey(es, e.key)
    ensures Represents(m[e.key := e.value], InsertAt(es, p, e))
  {
    var es', m' := InsertAt(es, p, e), m[e.key := e.value];
    forall k | k in m' ensures HasKey(es', k) {
      if k == e.key {
        assert es'[p].key == k;
      } else {
        var i :| 0 <= i < |es| && es[i].key == k;
        assert es'[if i < p then i else i + 1].key == k;
      }
    }
    forall i | 0 <= i < |es'| ensures es'[i].key in m' && m'[es'[i].key] == es'[i].value {
      if i != p {
        var j := if i < p then i else i - 1;
        assert es[j] == es'[i];
        assert HasKey(es, es[j].key);
      }
    }
  }

  /** Adding an entry to an ascending sequence updates the map at one key. */
  lemma ContentsInsertAt(es: seq<Entry>, p: nat, e: Entry)
    requires p <= |es| && Ascending(InsertAt(es, p, e))
    ensures Ascending(es) && !HasKey(es, e.key)
    ensures Contents(InsertAt(es, p, e)) == Contents(es)[e.key := e.value]
  {
    UninsertedAscends(es, p, e);
    ContentsRepresents(es);
    RepresentsInsertAt(Contents(es), es, p, e);
    var es' := InsertAt(es, p, e);
    ContentsRepresents(es');
    RepresentsUnique(Contents(es)[e.key := e.value], Contents(es'), es');
  }

  // ---------------------------------------------------------------- pages

  lemma {:induction false} InForest(ts: seq<Tree>, p: int)
    ensures p in ForestPages(ts) <==> exists i :: 0 <= i < |ts| && p in PageSet(ts[i])
  {
    if ts != [] {
      InForest(ts[1..], p);
      if p in ForestPages(ts[1..]) {
        var i :| 0 <= i < |ts[1..]| && p in PageSet(ts[1..][i]);
        assert p in PageSet(ts[i + 1]);
      }
      if exists i :: 0 <= i < |ts| && p in PageSet(ts[i]) {
        var i :| 0 <= i < |ts| && p in PageSet(ts[i]);
        if i > 0 {
          assert p in PageSet(ts[1..][i - 1]);
        }
      }
    }
  }

  lemma {:induction false} ForestPagesConcat(a: seq<Tree>, b: seq<Tree>)
    ensures ForestPages(a + b) == ForestPages(a) + ForestPages(b)
  {
    if a == [] {
      assert a + b == b;
    } else {
      assert (a + b)[1..] == a[1..] + b;
      ForestPagesConcat(a[1..], b);
    }
  }

  lemma ForestPagesAround(ts: seq<Tree>, i: nat)
    requires i < |ts|
    ensures ForestPages(ts) == ForestPages(ts[..i]) + PageSet(ts[i]) + ForestPages(ts[i + 1..])
  {
    CutAt(ts, i);
    ForestPagesConcat(ts[..i], ts[i..]);
  }

  lemma KidInForest(ts: seq<Tree>, i: nat)
    requires i < |ts|
    ensures PageSet(ts[i]) <= ForestPages(ts)
  {
    ForestPagesAround(ts, i);
  }

  lemma {:induction false} TreeMissesForest(t: Tree, ts: seq<Tree>)
    requires forall k :: 0 <= k < |ts| ==> PageSet(t) !! PageSet(ts[k])
    ensures PageSet(t) !! ForestPages(ts)
  {
    if ts != [] {
      TreeMissesForest(t, ts[1..]);
    }
  }

  lemma {:induction false} ForestsMiss(a: seq<Tree>, b: seq<Tree>)
    requires forall i, k :: 0 <= i < |a| && 0 <= k < |b| ==> PageSet(a[i]) !! PageSet(b[k])
    ensures ForestPages(a) !! ForestPages(b)
  {
    if a != [] {
      TreeMissesForest(a[0], b);
      ForestsMiss(a[1..], b);
    }
  }

  /** In a forest without sharing, what lies before a cut shares no page with what lies after it. */
  lemma DistinctCut(ts: seq<Tree>, m: nat)
    requires DistinctKids(ts) && m <= |ts|
    ensures DistinctKids(ts[..m]) && DistinctKids(ts[m..])
    ensures ForestPages(ts[..m]) !! ForestPages(ts[m..])
  {
    ForestsMiss(ts[..m], ts[m..]);
  }

  lemma DistinctConcat(a: seq<Tree>, b: seq<Tree>)
    requires DistinctKids(a) && DistinctKids(b) && ForestPages(a) !! ForestPages(b)
    ensures DistinctKids(a + b)
  {
    forall j, k | 0 <= j < k < |a + b| ensures PageSet((a + b)[j]) !! PageSet((a + b)[k]) {
      if j < |a| <= k {
        KidInForest(a, j);
        KidInForest(b, k - |a|);
      }
    }
  }

  /** `s'` is `s` together with the page numbers `from` up to `to`. */
  ghost predicate Grown(s: set<int>, from: int, to: int, s': set<int>) {
    forall p :: p in s' <==> p in s || from <= p < to
  }

  ghost predicate Below(s: set<int>, bound: int) {
    forall p :: p in s ==> p < bound
  }

  ghost function OutcomePages(o: Outcome): set<int> {
    match o
    case Whole(t, _) => PageSet(t)
    case Split(l, _, r, _) => PageSet(l) + PageSet(r)
  }

  ghost predicate OutcomeDistinct(o: Outcome) {
    match o
    case Whole(t, _) => Distinct(t)
    case Split(l, _, r, _) => Distinct(l) && Distinct(r) && PageSet(l) !! PageSet(r)
  }

  /** The node that keeps the page of the node inserted into. */
  ghost function OutcomeHead(o: Outcome): Tree {
    if o.Whole? then o.tree else o.left
  }

  lemma SplitInnerPages(page: int, keys: seq<int>, kids: seq<Tree>, next: int)
    requires |kids| == |keys| + 1
    requires DistinctKids(kids) && page !in ForestPages(kids) && page < next && Below(ForestPages(kids), next)
    ensures var o := SplitInner(page, keys, kids, next);
      && OutcomeDistinct(o) && Grown({page} + ForestPages(kids), next, o.next, OutcomePages(o))
  {
    var o := SplitInner(page, keys, kids, next);
    if |keys| > MAX_KEYS {
      var m := |keys| / 2 + 1;
      assert kids == kids[..m] + kids[m..];
      ForestPagesConcat(kids[..m], kids[m..]);
      DistinctCut(kids, m);
    }
  }

  /** Replacing child `i` by trees over its pages and fresh ones keeps the forest free of sharing. */
  lemma ReplacePages(kids: seq<Tree>, i: nat, with: seq<Tree>, from: int, to: int)
    requires DistinctKids(kids) && i < |kids| && Below(ForestPages(kids), from)
    requires DistinctKids(with) && Grown(PageSet(kids[i]), from, to, ForestPages(with))
    ensures var cs := kids[..i] + with + kids[i + 1..];
      DistinctKids(cs) && Grown(ForestPages(kids), from, to, ForestPages(cs))
  {
    var a, b := kids[..i], kids[i + 1..];
    ForestPagesAround(kids, i);
    TreeMissesForest(kids[i], a);
    TreeMissesForest(kids[i], b);
    ForestsMiss(a, b);
    GrownMisses(PageSet(kids[i]), from, to, ForestPages(with), ForestPages(a));
    GrownMisses(PageSet(kids[i]), from, to, ForestPages(with), ForestPages(b));
    ForestPagesConcat(a, with);
    ForestPagesConcat(a + with, b);
    DistinctConcat(a, with);
    DistinctConcat(a + with, b);
  }

  lemma GrownMisses(s: set<int>, from: int, to: int, s': set<int>, x: set<int>)
    requires Grown(s, from, to, s') && s !! x && Below(x, from)
    ensures s' !! x
  {
    forall p | p in s' ensures p !in x {
      assert p in x ==> p < from;
    }
  }

  ghost function OutcomeTrees(o: Outcome): seq<Tree> {
    match o
    case Whole(t, _) => [t]
    case Split(l, _, r, _) => [l, r]
  }

  lemma OutcomeForest(o: Outcome)
    requires OutcomeDistinct(o)
    ensures DistinctKids(OutcomeTrees(o)) && ForestPages(OutcomeTrees(o)) == OutcomePages(o)
  {
    var ts := OutcomeTrees(o);
    if o.Whole? {
      assert ts[1..] == [];
    } else {
      assert [o.right][1..] == [];
      assert ForestPages([o.right]) == PageSet(o.right);
      assert ts[1..] == [o.right];
    }
  }

  /** Insertion uses exactly the pages it had plus the freshly numbered ones, still without sharing. */
  lemma {:induction false} InsertPages(t: Tree, key: int, value: int, next: int)
    requires Shaped(t) && Distinct(t) && Below(PageSet(t), next)
    ensures var o := Insert(t, key, value, next);
      next <= o.next && OutcomeDistinct(o) && Grown(PageSet(t), next, o.next, OutcomePages(o))
    decreases t
  {
    if t.Inner? {
      var i := ChildIndex(t.keys, key);
      ForestPagesAround(t.kids, i);
      InsertPages(t.kids[i], key, value, next);
      AdoptPages(t, i, Insert(t.kids[i], key, value, next), next);
    }
  }

  lemma AdoptPages(t: Tree, i: nat, o: Outcome, next: int)
    requires t.Inner? && |t.kids| == |t.keys| + 1 && i < |t.kids| && Distinct(t) && Below(PageSet(t), next)
    requires next <= o.next && OutcomeDistinct(o) && Grown(PageSet(t.kids[i]), next, o.next, OutcomePages(o))
    ensures var o' := Adopt(t, i, o);
      next <= o'.next && OutcomeDistinct(o') && Grown(PageSet(t), next, o'.next, OutcomePages(o'))
  {
    OutcomeForest(o);
    ReplacePages(t.kids, i, OutcomeTrees(o), next, o.next);
    if o.Whole? {
      assert t.kids[i := o.tree] == t.kids[..i] + [o.tree] + t.kids[i + 1..];
    } else {
      SplitInnerPages(t.page, InsertAt(t.keys, i, o.sep), SpliceKids(t.kids, i, o.left, o.right), o.next);
    }
  }

  /** The node inserted into keeps its page, and the leftmost leaf stays the same page. */
  lemma {:induction false} InsertKeepsHead(t: Tree, key: int, value: int, next: int)
    requires Shaped(t)
    ensures var u := OutcomeHead(Insert(t, key, value, next));
      u.page == t.page && FirstLeaf(u) == FirstLeaf(t)
    decreases t
  {
    if t.Inner? {
      var i := ChildIndex(t.keys, key);
      InsertKeepsHead(t.kids[i], key, value, next);
      var o := Insert(t.kids[i], key, value, next);
      if o.Split? {
        var cs := SpliceKids(t.kids, i, o.left, o.right);
        assert cs[0] == if i == 0 then o.left else t.kids[0];
      }
    }
  }

  lemma {:induction false} PathInPages(t: Tree, key: int)
    ensures forall p :: p in Path(t, key) ==> p in PageSet(t)
    decreases t
  {
    if t.Inner? && ChildIndex(t.keys, key) < |t.kids| {
      var i := ChildIndex(t.keys, key);
      PathInPages(t.kids[i], key);
      ForestPagesAround(t.kids, i);
    }
  }

  // ---------------------------------------------------------------- sizes

  ghost function Power32(n: nat): nat {
    if n == 0 then 1 else 32 * Power32(n - 1)
  }

  lemma {:induction false} ForestAtLeast(ts: seq<Tree>, m: nat)
    requires forall i :: 0 <= i < |ts| ==> |Entries(ts[i])| >= m
    ensures |ForestEntries(ts)| >= |ts| * m
  {
    if ts != [] {
      ForestAtLeast(ts[1..], m);
      assert |ts| * m == (|ts| - 1) * m + m;
    }
  }

  lemma MoreTimes(a: nat, b: nat, m: nat)
    requires a >= b
    ensures a * m >= b * m
  {
  }

  /** A subtree of `h` levels below the root holds at least 32^h entries. */
  lemma {:induction false} SubtreeAtLeast(t: Tree, h: nat)
    requires Occupied(t, false) && Balanced(t, h)
    ensures |Entries(t)| >= Power32(h)
    decreases t
  {
    match t
    case Leaf(_, _) =>
      assert Power32(1) == 32 * Power32(0);
    case Inner(_, _, kids) =>
      var m := Power32(h - 1);
      forall i | 0 <= i < |kids| ensures |Entries(kids[i])| >= m {
        SubtreeAtLeast(kids[i], h - 1);
      }
      ForestAtLeast(kids, m);
      MoreTimes(|kids|, 32, m);
  }

  /** A tree of `h` >= 2 levels holds at least 2 * 32^(h-1) entries. */
  lemma TreeAtLeast(t: Tree, h: nat)
    requires Occupied(t, true) && Balanced(t, h) && h >= 2
    ensures |Entries(t)| >= 2 * Power32(h - 1)
  {
    var m := Power32(h - 1);
    forall i | 0 <= i < |t.kids| ensures |Entries(t.kids[i])| >= m {
      SubtreeAtLeast(t.kids[i], h - 1);
    }
    ForestAtLeast(t.kids, m);
    MoreTimes(|t.kids|, 2, m);
  }

  lemma {:induction false} AscendingCount(es: seq<Entry>, lo: int, hi: int)
    requires Ascending(es) && Within(es, lo, hi)
    ensures es != [] ==> |es| <= hi - lo
  {
    if |es| == 1 {
      assert lo <= es[0].key < hi;
    } else if |es| > 1 {
      var init := es[..|es| - 1];
      AscendingCount(init, lo, es[|es| - 1].key);
    }
  }

  lemma {:induction false} Power32Grows(m: nat, n: nat)
    requires m <= n
    ensures Power32(m) <= Power32(n)
  {
    if m < n {
      Power32Grows(m, n - 1);
    }
  }

  /** With 32-bit keys no search reads more than seven pages. */
  lemma HeightAtMostSeven(t: Tree, h: nat)
    requires Occupied(t, true) && Balanced(t, h) && Ordered(t, INT32_MIN, INT32_MAX + 1)
    ensures h <= 7
  {
    if h >= 8 {
      TreeAtLeast(t, h);
      Power32Grows(7, h - 1);
      assert Power32(7) == 0x8_0000_0000 by {
        assert Power32(3) == 32768;
        assert Power32(5) == 32 * 32 * Power32(3);
        assert Power32(7) == 32 * 32 * Power32(5);
      }
      EntriesAscend(t, INT32_MIN, INT32_MAX + 1);
      AscendingCount(Entries(t), INT32_MIN, INT32_MAX + 1);
    }
  }

  /** There are fewer than two pages per entry. */
  lemma {:induction false} PagesAtMost(t: Tree, root: bool)
    requires Occupied(t, root)
    ensures |PageSet(t)| <= 2 * |Entries(t)| - 1
    decreases t, 1
  {
    if t.Inner? {
      ForestPagesAtMost(t.kids);
    }
  }

  lemma {:induction false} ForestPagesAtMost(ts: seq<Tree>)
    requires forall i :: 0 <= i < |ts| ==> Occupied(ts[i], false)
    ensures |ForestPages(ts)| <= 2 * |ForestEntries(ts)| - |ts|
    decreases ts, 0
  {
    if ts != [] {
      PagesAtMost(ts[0], false);
      ForestPagesAtMost(ts[1..]);
    }
  }

  // ---------------------------------------------------------------- all of it together

  /** What every subtree of an index satisfies, whatever its size. */
  ghost predicate Sound(t: Tree, lo: int, hi: int, h: nat) {
    Shaped(t) && Ordered(t, lo, hi) && Balanced(t, h) && Distinct(t)
  }

  lemma SoundKid(t: Tree, key: int, lo: int, hi: int, h: nat)
    requires Sound(t, lo, hi, h) && t.Inner? && lo <= key < hi
    ensures var i := ChildIndex(t.keys, key);
      && i < |t.kids| && h > 1 && Sound(t.kids[i], Low(t.keys, i, lo), High(t.keys, i, hi), h - 1)
      && Low(t.keys, i, lo) <= key < High(t.keys, i, hi)
  {
    var i := ChildIndex(t.keys, key);
    ChildSeparates(t.keys, t.kids, key, lo, hi);
    assert DistinctKids(t.kids);
    assert Shaped(t.kids[i]) && Balanced(t.kids[i], h - 1) && Distinct(t.kids[i]);
  }

  /** A page outside a forest stays outside when child `i` grows by fresh pages. */
  lemma AdoptAvoidsPage(kids: seq<Tree>, i: nat, o: Outcome, page: int, next: int)
    requires DistinctKids(kids) && i < |kids| && Below(ForestPages(kids), next) && page < next
    requires page !in ForestPages(kids)
    requires o.Split? && OutcomeDistinct(o) && Grown(PageSet(kids[i]), next, o.next, OutcomePages(o))
    ensures page !in ForestPages(SpliceKids(kids, i, o.left, o.right))
  {
    OutcomeForest(o);
    ReplacePages(kids, i, OutcomeTrees(o), next, o.next);
  }
}
