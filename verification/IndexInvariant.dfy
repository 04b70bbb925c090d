/** The invariant of a whole index and what one insertion at the root does to it. */
module IndexInvariant {
  import opened Machine
  import opened TreeShape
  import opened DiskFormat
  import opened PagedTree

  /** Exactly the pages 1 to `n`. */
  ghost predicate AllPages(s: set<int>, n: int) {
    forall p :: p in s <==> 1 <= p <= n
  }

  /** The pages are a balanced search tree over all 32-bit keys: no sharing, no unreachable page,
      node sizes in range, leaves chained left to right. */
  ghost predicate IsIndex(t: Tree, h: nat, pages: seq<DiskNode>) {
    && Sound(t, INT32_MIN, INT32_MAX + 1, h) && Occupied(t, true)
    && Stored(t, pages, 0) && AllPages(PageSet(t), |pages|)
  }

  ghost predicate Index(t: Tree, h: nat, pages: seq<DiskNode>) {
    forall b {:trigger Seal(b)} :: Seal(b) ==> IsIndex(t, h, pages)
  }

  /** One more than the largest key, at least 1. */
  ghost function NextIdOf(es: seq<Entry>): int {
    if es == [] || es[|es| - 1].key < 0 then 1 else es[|es| - 1].key + 1
  }

  lemma NextIdAfter(es: seq<Entry>, p: nat, e: Entry)
    requires p <= |es| && Ascending(InsertAt(es, p, e))
    ensures NextIdOf(InsertAt(es, p, e)) == if e.key >= NextIdOf(es) then e.key + 1 else NextIdOf(es)
  {
    var es' := InsertAt(es, p, e);
    if p < |es| {
      assert es'[|es'| - 1] == es[|es| - 1];
      assert es'[p].key < es'[|es'| - 1].key;
    } else if es != [] {
      assert es'[|es| - 1] == es[|es| - 1];
      assert es'[|es| - 1].key < es'[|es|].key;
    }
  }

  // ---------------------------------------------------------------- how large an index can get

  lemma {:induction false} AllPagesCount(s: set<int>, n: nat)
    requires AllPages(s, n)
    ensures |s| == n
  {
    if n == 0 {
      assert forall p :: p in s ==> 1 <= p <= 0;
      assert s == {};
    } else {
      AllPagesCount(s - {n}, n - 1);
    }
  }

  /** The number of pages is the number of reachable pages. */
  lemma ReachablePages(t: Tree, h: nat, pages: seq<DiskNode>)
    requires Index(t, h, pages)
    ensures |PageSet(t)| == |pages|
  {
    assert Seal(true);
    AllPagesCount(PageSet(t), |pages|);
  }

  /** 32-bit keys bound the whole file: fewer than 2^33 pages in at most seven levels. */
  lemma IndexBounded(t: Tree, h: nat, pages: seq<DiskNode>)
    requires Index(t, h, pages)
    ensures |pages| < 0x2_0000_0000 && 1 <= h <= 7 && |Entries(t)| <= 0x1_0000_0000
  {
    assert Seal(true);
    HeightAtMostSeven(t, h);
    EntriesAscend(t, INT32_MIN, INT32_MAX + 1);
    AscendingCount(Entries(t), INT32_MIN, INT32_MAX + 1);
    PagesAtMost(t, true);
    ReachablePages(t, h, pages);
  }

  lemma IndexReady(t: Tree, h: nat, pages: seq<DiskNode>, key: int)
    requires Index(t, h, pages) && INT32_MIN <= key <= INT32_MAX
    ensures Ready(t, key, INT32_MIN, INT32_MAX + 1, h, pages, 0)
  {
    assert Seal(true);
  }

  // ---------------------------------------------------------------- insertion at the root

  /** What insertion does to the entries and, through them, to the map. */
  ghost predicate EntryAdded(es: seq<Entry>, es': seq<Entry>, key: int, value: int) {
    && !HasKey(es, key) && |es'| == |es| + 1
    && Ascending(es') && Contents(es') == Contents(es)[key := value]
    && NextIdOf(es') == (if key >= NextIdOf(es) then key + 1 else NextIdOf(es))
  }

  lemma EntryInserted(es: seq<Entry>, p: nat, e: Entry)
    requires p <= |es| && Ascending(InsertAt(es, p, e))
    ensures EntryAdded(es, InsertAt(es, p, e), e.key, e.value)
  {
    ContentsInsertAt(es, p, e);
    NextIdAfter(es, p, e);
  }

  lemma RootOrdered(t: Tree, key: int, value: int, h: nat, next: int, o: Outcome)
    requires Sound(t, INT32_MIN, INT32_MAX + 1, h) && INT32_MIN <= key <= INT32_MAX
    requires !HasKey(Target(t, key).entries, key)
    requires o == Insert(t, key, value, next)
    ensures OutcomeOrdered(o, INT32_MIN, INT32_MAX + 1)
  {
    InsertOrdered(t, key, value, next, INT32_MIN, INT32_MAX + 1);
  }

  lemma RootBalanced(t: Tree, key: int, value: int, h: nat, next: int, o: Outcome)
    requires Shaped(t) && Balanced(t, h) && Occupied(t, true) && o == Insert(t, key, value, next)
    ensures OutcomeBalanced(o, h) && OutcomeOccupied(o, true)
  {
    InsertBalanced(t, key, value, next, h);
    InsertOccupied(t, key, value, next, true);
  }

  lemma RootPages(t: Tree, key: int, value: int, next: int, o: Outcome)
    requires Shaped(t) && Distinct(t) && AllPages(PageSet(t), next - 1) && o == Insert(t, key, value, next)
    ensures GoodOutcome(t, o, next) && AllPages(OutcomePages(o), o.next - 1)
  {
    ChildOutcome(t, key, value, next);
  }

  /** The facts about the outcome of inserting at the root, before the root itself is looked at. */
  ghost predicate RootFacts(t: Tree, key: int, value: int, h: nat, pages: seq<DiskNode>, o: Outcome) {
    && OutcomeOrdered(o, INT32_MIN, INT32_MAX + 1) && OutcomeBalanced(o, h) && OutcomeOccupied(o, true)
    && OutcomeDistinct(o) && AllPages(OutcomePages(o), |pages|) && StoredOutcome(o, pages, 0)
    && OutcomeHead(o).page == t.page && FirstLeaf(OutcomeHead(o)) == FirstLeaf(t)
    && exists p :: 0 <= p <= |Entries(t)| && OutcomeEntries(o) == InsertAt(Entries(t), p, Entry(key, value))
  }

  ghost predicate RootOutcome(t: Tree, key: int, value: int, h: nat, pages: seq<DiskNode>, o: Outcome) {
    forall b {:trigger Seal(b)} :: Seal(b) ==> RootFacts(t, key, value, h, pages, o)
  }

  lemma RootSealed(t: Tree, key: int, value: int, h: nat, pages: seq<DiskNode>, o: Outcome)
    requires RootFacts(t, key, value, h, pages, o)
    ensures RootOutcome(t, key, value, h, pages, o)
  {
  }

  lemma RootAchieved(t: Tree, key: int, value: int, before: seq<DiskNode>, pages: seq<DiskNode>, r: InsertResult)
    returns (o: Outcome)
    requires Shaped(t) && Inserted(t, key, value, before, pages, 0, 0, r)
    ensures o == Insert(t, key, value, |before| + 1) && !HasKey(Target(t, key).entries, key)
    ensures Achieved(o, before, pages, Path(t, key), 0, r)
  {
    assert Seal(true);
    o := Insert(t, key, value, |before| + 1);
  }

  lemma IndexParts(t: Tree, h: nat, pages: seq<DiskNode>)
    requires Index(t, h, pages)
    ensures Sound(t, INT32_MIN, INT32_MAX + 1, h) && Occupied(t, true) && AllPages(PageSet(t), |pages|)
  {
    assert Seal(true);
  }

  lemma RootEntries(t: Tree, key: int, value: int, next: int, o: Outcome)
    requires Shaped(t) && o == Insert(t, key, value, next)
    ensures exists p :: 0 <= p <= |Entries(t)| && OutcomeEntries(o) == InsertAt(Entries(t), p, Entry(key, value))
  {
    var p := InsertEntries(t, key, value, next);
  }

  lemma RootInserted(t: Tree, key: int, value: int, h: nat, before: seq<DiskNode>, pages: seq<DiskNode>,
                     r: InsertResult)
    returns (o: Outcome)
    requires Index(t, h, before) && INT32_MIN <= key <= INT32_MAX
    requires Inserted(t, key, value, before, pages, 0, 0, r)
    ensures Reports(o, r) && Frame(before, pages, Path(t, key)) && RootOutcome(t, key, value, h, pages, o)
    ensures OutcomeHead(o).page == t.page && FirstLeaf(OutcomeHead(o)) == FirstLeaf(t)
  {
    IndexParts(t, h, before);
    o := RootAchieved(t, key, value, before, pages, r);
    RootOrdered(t, key, value, h, |before| + 1, o);
    RootBalanced(t, key, value, h, |before| + 1, o);
    RootPages(t, key, value, |before| + 1, o);
    RootEntries(t, key, value, |before| + 1, o);
    RootSealed(t, key, value, h, pages, o);
  }

  lemma RootAdded(t: Tree, key: int, value: int, es': seq<Entry>)
    requires Ascending(es')
    requires exists p :: 0 <= p <= |Entries(t)| && es' == InsertAt(Entries(t), p, Entry(key, value))
    ensures EntryAdded(Entries(t), es', key, value)
  {
    var p :| 0 <= p <= |Entries(t)| && es' == InsertAt(Entries(t), p, Entry(key, value));
    EntryInserted(Entries(t), p, Entry(key, value));
  }

  /** The tree after an insertion that did not split the root. */
  lemma WholeIndex(t: Tree, key: int, value: int, h: nat, pages: seq<DiskNode>, o: Outcome)
    requires RootOutcome(t, key, value, h, pages, o) && o.Whole?
    ensures Index(o.tree, h, pages) && EntryAdded(Entries(t), Entries(o.tree), key, value)
  {
    assert Seal(true);
    OrderedIsShaped(o.tree, INT32_MIN, INT32_MAX + 1);
    EntriesAscend(o.tree, INT32_MIN, INT32_MAX + 1);
    RootAdded(t, key, value, Entries(o.tree));
  }

  // ---------------------------------------------------------------- a new root

  lemma PairForest(l: Tree, r: Tree)
    ensures ForestEntries([l, r]) == Entries(l) + Entries(r)
    ensures ForestPages([l, r]) == PageSet(l) + PageSet(r)
  {
    assert [l, r][1..] == [r];
    ForestEntriesOne(r);
    assert [r][1..] == [];
    assert ForestPages([r]) == PageSet(r);
  }

  lemma NewRootOrdered(page: int, o: Outcome, lo: int, hi: int)
    requires o.Split? && OutcomeOrdered(o, lo, hi)
    ensures Ordered(Inner(page, [o.sep], [o.left, o.right]), lo, hi)
  {
    var keys, kids := [o.sep], [o.left, o.right];
    forall i | 0 <= i < 2 ensures Ordered(kids[i], Low(keys, i, lo), High(keys, i, hi)) {
      assert i == 0 || i == 1;
    }
  }

  lemma NewRootSized(page: int, o: Outcome, h: nat)
    requires o.Split? && OutcomeBalanced(o, h) && OutcomeOccupied(o, true) && OutcomeDistinct(o)
    requires page !in OutcomePages(o)
    ensures var t := Inner(page, [o.sep], [o.left, o.right]); Balanced(t, h + 1) && Occupied(t, true) && Distinct(t)
  {
    PairForest(o.left, o.right);
    OutcomeForest(o);
  }

  lemma NewRootStored(page: int, o: Outcome, mid: seq<DiskNode>, pages: seq<DiskNode>)
    requires o.Split? && StoredOutcome(o, mid, 0) && Frame(mid, pages, []) && 1 <= page <= |pages|
    requires HoldsInner(pages[page - 1], [o.sep], [o.left, o.right])
    ensures Stored(Inner(page, [o.sep], [o.left, o.right]), pages, 0)
  {
    var kids := [o.left, o.right];
    StoredFrame(o.left, mid, pages, [], FirstLeaf(o.right));
    StoredFrame(o.right, mid, pages, [], 0);
    forall i | 0 <= i < 2 ensures Stored(kids[i], pages, After(kids, i, 0)) {
      assert i == 0 || i == 1;
    }
    InnerIsStored(page, [o.sep], kids, pages, 0);
  }

  lemma NewRootEntries(t: Tree, key: int, value: int, h: nat, pages: seq<DiskNode>, o: Outcome, t': Tree)
    requires RootFacts(t, key, value, h, pages, o) && o.Split? && t'.Inner? && t'.kids == [o.left, o.right]
    requires Ordered(t', INT32_MIN, INT32_MAX + 1)
    ensures FirstLeaf(t') == FirstLeaf(t) && EntryAdded(Entries(t), Entries(t'), key, value)
  {
    PairForest(o.left, o.right);
    EntriesAscend(t', INT32_MIN, INT32_MAX + 1);
    RootAdded(t, key, value, Entries(t'));
  }

  /** The tree after a split of the root: both halves below a new root page. */
  lemma SplitIndex(t: Tree, key: int, value: int, h: nat, mid: seq<DiskNode>, pages: seq<DiskNode>, o: Outcome,
                   t': Tree)
    requires RootOutcome(t, key, value, h, mid, o) && o.Split? && t' == Inner(|mid| + 1, [o.sep], [o.left, o.right])
    requires Frame(mid, pages, []) && |pages| == |mid| + 1
    requires HoldsInner(pages[|mid|], [o.sep], [o.left, o.right])
    ensures FirstLeaf(t') == FirstLeaf(t)
    ensures Index(t', h + 1, pages) && EntryAdded(Entries(t), Entries(t'), key, value)
  {
    assert Seal(true);
    NewRootOrdered(t'.page, o, INT32_MIN, INT32_MAX + 1);
    NewRootEntries(t, key, value, h, mid, o, t');
    NewRootIndex(h, mid, pages, o, t');
  }

  lemma NewRootIndex(h: nat, mid: seq<DiskNode>, pages: seq<DiskNode>, o: Outcome, t': Tree)
    requires o.Split? && t' == Inner(|mid| + 1, [o.sep], [o.left, o.right]) && Ordered(t', INT32_MIN, INT32_MAX + 1)
    requires OutcomeBalanced(o, h) && OutcomeOccupied(o, true) && OutcomeDistinct(o) && AllPages(OutcomePages(o), |mid|)
    requires StoredOutcome(o, mid, 0) && Frame(mid, pages, []) && |pages| == |mid| + 1
    requires HoldsInner(pages[|mid|], [o.sep], [o.left, o.right])
    ensures Index(t', h + 1, pages)
  {
    PairForest(o.left, o.right);
    NewRootSized(t'.page, o, h);
    NewRootStored(t'.page, o, mid, pages);
    OrderedIsShaped(t', INT32_MIN, INT32_MAX + 1);
  }

  /** The first insertion: one leaf that is the root. */
  lemma FirstIndex(key: int, value: int, pages: seq<DiskNode>, t: Tree)
    requires t == Leaf(1, [Entry(key, value)]) && INT32_MIN <= key <= INT32_MAX
    requires |pages| == 1 && HoldsLeaf(pages[0], t.entries, 0)
    ensures Index(t, 1, pages) && EntryAdded([], Entries(t), key, value)
  {
    assert t.entries == InsertAt([], 0, Entry(key, value));
    EntryInserted([], 0, Entry(key, value));
  }

  // ---------------------------------------------------------------- index and header together

  ghost function EntriesOf(shape: Option<Tree>): seq<Entry> {
    if shape.None? then [] else Entries(shape.value)
  }

  /** The pages an insertion of `key` may rewrite. */
  ghost function PathOf(shape: Option<Tree>, key: int): seq<int> {
    if shape.None? then [] else Path(shape.value, key)
  }

  /** Bookkeeping: the header names root and first leaf, counts pages and keys, and knows the next id. */
  ghost predicate Held(shape: Option<Tree>, h: nat, head: Header, pages: seq<DiskNode>) {
    match shape
    case None => pages == [] && head == Header(0, 0, 0, 0, 1)
    case Some(t) =>
      && head.rootPage == t.page && head.firstLeafPage == FirstLeaf(t) && head.pageCount == |pages|
      && head.keyCount == |Entries(t)| && head.nextId == NextIdOf(Entries(t))
      && Index(t, h, pages)
  }

  /** The index and header after the first insertion. */
  lemma FirstHeld(key: int, value: int, head: Header, pages: seq<DiskNode>, t: Tree)
    requires t == Leaf(1, [Entry(key, value)]) && INT32_MIN <= key < INT32_MAX
    requires |pages| == 1 && HoldsLeaf(pages[0], t.entries, 0)
    requires head == Header(1, 1, 1, 1, if key >= 1 then key + 1 else 1)
    ensures Held(Some(t), 1, head, pages) && Contents(EntriesOf(Some(t))) == map[key := value]
  {
    FirstIndex(key, value, pages, t);
  }

  lemma ShapeOfRoot(shape: Option<Tree>, h: nat, head: Header, pages: seq<DiskNode>)
    requires Held(shape, h, head, pages)
    ensures shape.None? <==> head.rootPage == 0
  {
    if shape.Some? {
      RootPageExists(shape.value, h, pages);
    }
  }

  lemma IndexHasKey(t: Tree, h: nat, pages: seq<DiskNode>, key: int)
    requires Index(t, h, pages) && INT32_MIN <= key <= INT32_MAX
    ensures key in Contents(Entries(t)) <==> HasKey(Target(t, key).entries, key)
  {
    assert Seal(true);
    SearchIsComplete(t, key, INT32_MIN, INT32_MAX + 1);
    EntriesAscend(t, INT32_MIN, INT32_MAX + 1);
    MapHasKey(Entries(t), key);
  }

  lemma MapHasKey(es: seq<Entry>, key: int)
    requires Ascending(es)
    ensures key in Contents(es) <==> HasKey(es, key)
  {
    ContentsRepresents(es);
  }

  lemma RootDuplicate(t: Tree, key: int, value: int, before: seq<DiskNode>, pages: seq<DiskNode>, duplicate: int,
                      r: InsertResult)
    requires Inserted(t, key, value, before, pages, 0, duplicate, r)
    ensures duplicate == if HasKey(Target(t, key).entries, key) then 1 else 0
    ensures duplicate == 1 ==> pages == before
  {
    assert Seal(true);
  }

  lemma RootPageExists(t: Tree, h: nat, pages: seq<DiskNode>)
    requires Index(t, h, pages)
    ensures 1 <= t.page <= |pages|
  {
    assert Seal(true);
  }

  // ---------------------------------------------------------------- what the counters mean

  lemma {:induction false} ContentsSize(es: seq<Entry>)
    requires Ascending(es)
    ensures |Contents(es)| == |es|
  {
    if es != [] {
      var init, last := es[..|es| - 1], es[|es| - 1];
      assert es == InsertAt(init, |init|, last);
      UninsertedAscends(init, |init|, last);
      ContentsSize(init);
      MapHasKey(init, last.key);
    }
  }

  /** The next id is above every key, and the least such number from 1 on. */
  lemma NextIdMeaning(es: seq<Entry>)
    requires Ascending(es)
    ensures NextIdOf(es) >= 1 && forall k :: k in Contents(es) ==> k < NextIdOf(es)
    ensures NextIdOf(es) > 1 ==> NextIdOf(es) - 1 in Contents(es)
  {
    ContentsRepresents(es);
    forall k | k in Contents(es) ensures k < NextIdOf(es) {
      assert HasKey(es, k);
    }
  }

  lemma HeldCounts(shape: Option<Tree>, h: nat, head: Header, pages: seq<DiskNode>)
    requires Held(shape, h, head, pages)
    ensures Ascending(EntriesOf(shape))
    ensures head.keyCount == |Contents(EntriesOf(shape))| && head.nextId == NextIdOf(EntriesOf(shape))
  {
    if shape.Some? {
      IndexParts(shape.value, h, pages);
      EntriesAscend(shape.value, INT32_MIN, INT32_MAX + 1);
    }
    ContentsSize(EntriesOf(shape));
  }

  // ---------------------------------------------------------------- the file determines the tree

  lemma SameEntries(a: seq<Entry>, b: seq<Entry>)
    requires KeyList(a) == KeyList(b) && ValueList(a) == ValueList(b)
    ensures a == b
  {
    assert |KeyList(a)| == |KeyList(b)|;
    forall i | 0 <= i < |a| ensures a[i] == b[i] {
      assert KeyList(a)[i] == KeyList(b)[i] && ValueList(a)[i] == ValueList(b)[i];
    }
  }

  /** Two trees stored at the same page are the same tree. */
  lemma {:induction false} StoredUnique(t: Tree, t': Tree, pages: seq<DiskNode>, after: int, after': int)
    requires Stored(t, pages, after) && Stored(t', pages, after') && t.page == t'.page
    ensures t == t'
    decreases t
  {
    if t.Leaf? {
      SameEntries(t.entries, t'.entries);
    } else {
      var kids, kids' := t.kids, t'.kids;
      assert PageList(kids) == PageList(kids');
      forall i | 0 <= i < |kids| ensures kids[i] == kids'[i] {
        assert PageList(kids)[i] == PageList(kids')[i];
        assert Stored(kids[i], pages, After(kids, i, after)) && Stored(kids'[i], pages, After(kids', i, after'));
        StoredUnique(kids[i], kids'[i], pages, After(kids, i, after), After(kids', i, after'));
      }
    }
  }

  /** Header and pages leave no doubt about the tree, hence about the map. */
  lemma HeldUnique(shape: Option<Tree>, h: nat, shape': Option<Tree>, h': nat, head: Header, pages: seq<DiskNode>)
    requires Held(shape, h, head, pages) && Held(shape', h', head, pages)
    ensures shape == shape'
  {
    ShapeOfRoot(shape, h, head, pages);
    ShapeOfRoot(shape', h', head, pages);
    if shape.Some? {
      assert Seal(true);
      StoredUnique(shape.value, shape'.value, pages, 0, 0);
    }
  }
}
