/** When an array of pages stores a tree, and what rewriting a few pages does to that. */
module PagedTree {
  import opened Machine
  import opened TreeShape
  import opened DiskFormat

  ghost function KeyList(es: seq<Entry>): (ks: seq<int>)
    ensures |ks| == |es| && forall i :: 0 <= i < |es| ==> ks[i] == es[i].key
  {
    seq(|es|, i requires 0 <= i < |es| => es[i].key)
  }

  ghost function ValueList(es: seq<Entry>): (vs: seq<int>)
    ensures |vs| == |es| && forall i :: 0 <= i < |es| ==> vs[i] == es[i].value
  {
    seq(|es|, i requires 0 <= i < |es| => es[i].value)
  }

  ghost function PageList(ts: seq<Tree>): (ps: seq<int>)
    ensures |ps| == |ts| && forall i :: 0 <= i < |ts| ==> ps[i] == ts[i].page
  {
    seq(|ts|, i requires 0 <= i < |ts| => ts[i].page)
  }

  /** A page holding a leaf: its live slots are the entries, its link the page of the next leaf. */
  ghost predicate HoldsLeaf(n: DiskNode, es: seq<Entry>, next: int) {
    && n.Sized() && n.isLeaf != 0 && n.keyCount == |es| <= MAX_KEYS && n.nextLeaf == next
    && n.keys[..n.keyCount] == KeyList(es) && n.values[..n.keyCount] == ValueList(es)
  }

  ghost predicate HoldsInner(n: DiskNode, keys: seq<int>, kids: seq<Tree>) {
    && n.Sized() && n.isLeaf == 0 && n.keyCount == |keys| <= MAX_KEYS && |kids| == |keys| + 1
    && n.keys[..n.keyCount] == keys && n.children[..n.keyCount + 1] == PageList(kids)
  }

  /** Page of the leaf that follows child `i`, given the one that follows the whole node. */
  ghost function After(kids: seq<Tree>, i: int, after: int): int {
    if 0 <= i < |kids| - 1 then FirstLeaf(kids[i + 1]) else after
  }

  /** The pages store `t`, and the last leaf of `t` links to page `after`. */
  ghost predicate Stored(t: Tree, pages: seq<DiskNode>, after: int)
    decreases t
  {
    && 1 <= t.page <= |pages|
    && match t {
      case Leaf(page, es) => HoldsLeaf(pages[page - 1], es, after)
      case Inner(page, keys, kids) => HoldsInner(pages[page - 1], keys, kids) && StoredKids(kids, pages, after)
    }
  }

  ghost predicate StoredKids(kids: seq<Tree>, pages: seq<DiskNode>, after: int)
    decreases kids
  {
    forall i {:trigger Stored(kids[i], pages, After(kids, i, after))} ::
      0 <= i < |kids| ==> Stored(kids[i], pages, After(kids, i, after))
  }

  ghost predicate StoredOutcome(o: Outcome, pages: seq<DiskNode>, after: int) {
    match o
    case Whole(t, _) => Stored(t, pages, after)
    case Split(l, _, r, _) => Stored(l, pages, FirstLeaf(r)) && Stored(r, pages, after)
  }

  /** Only the listed pages may differ; pages may have been added at the end. */
  ghost predicate Frame(before: seq<DiskNode>, after: seq<DiskNode>, written: seq<int>) {
    && |before| <= |after|
    && (forall i {:trigger after[i]} :: 0 <= i < |before| && i + 1 !in written ==> after[i] == before[i])
  }

  lemma {:induction false} StoredFrame(t: Tree, pages: seq<DiskNode>, pages': seq<DiskNode>, written: seq<int>,
                                       after: int)
    requires Stored(t, pages, after) && Frame(pages, pages', written)
    requires forall p :: p in written ==> p !in PageSet(t)
    ensures Stored(t, pages', after)
    decreases t
  {
    if t.Inner? {
      forall i | 0 <= i < |t.kids| ensures Stored(t.kids[i], pages', After(t.kids, i, after)) {
        KidInForest(t.kids, i);
        StoredFrame(t.kids[i], pages, pages', written, After(t.kids, i, after));
      }
    }
  }

  lemma StoredKidsFrame(kids: seq<Tree>, pages: seq<DiskNode>, pages': seq<DiskNode>, written: seq<int>, after: int)
    requires StoredKids(kids, pages, after) && Frame(pages, pages', written)
    requires forall p :: p in written ==> p !in ForestPages(kids)
    ensures StoredKids(kids, pages', after)
  {
    forall i | 0 <= i < |kids| ensures Stored(kids[i], pages', After(kids, i, after)) {
      KidInForest(kids, i);
      StoredFrame(kids[i], pages, pages', written, After(kids, i, after));
    }
  }

  /** The stored pages of a tree are real pages. */
  lemma {:induction false} StoredPagesExist(t: Tree, pages: seq<DiskNode>, after: int)
    requires Stored(t, pages, after)
    ensures forall p :: p in PageSet(t) ==> 1 <= p <= |pages|
    decreases t
  {
    if t.Inner? {
      forall p | p in PageSet(t) ensures 1 <= p <= |pages| {
        InForest(t.kids, p);
        if p != t.page {
          var i :| 0 <= i < |t.kids| && p in PageSet(t.kids[i]);
          StoredPagesExist(t.kids[i], pages, After(t.kids, i, after));
        }
      }
    }
  }

  // ---------------------------------------------------------------- the parent of an inserted-into child

  /** The other children are still stored after the insertion into child `i`. */
  lemma SiblingStored(kids: seq<Tree>, i: nat, j: nat, pages: seq<DiskNode>, pages': seq<DiskNode>, path: seq<int>,
                      after: int)
    requires StoredKids(kids, pages, after) && DistinctKids(kids) && i < |kids| && j < |kids| && i != j
    requires Frame(pages, pages', path) && (forall p :: p in path ==> p in PageSet(kids[i]))
    ensures Stored(kids[j], pages', After(kids, j, after))
  {
    assert PageSet(kids[if i < j then i else j]) !! PageSet(kids[if i < j then j else i]);
    StoredFrame(kids[j], pages, pages', path, After(kids, j, after));
  }

  ghost function AdoptKids(kids: seq<Tree>, i: nat, o: Outcome): seq<Tree>
    requires i < |kids|
  {
    if o.Whole? then kids[i := o.tree] else SpliceKids(kids, i, o.left, o.right)
  }

  /** Children after the insertion into child `i`: stored, with the leaf links still in order. */
  lemma AdoptedKidsStored(kids: seq<Tree>, i: nat, o: Outcome, pages: seq<DiskNode>, pages': seq<DiskNode>,
                          path: seq<int>, after: int)
    requires StoredKids(kids, pages, after) && DistinctKids(kids) && i < |kids|
    requires Frame(pages, pages', path) && (forall p :: p in path ==> p in PageSet(kids[i]))
    requires StoredOutcome(o, pages', After(kids, i, after)) && FirstLeaf(OutcomeHead(o)) == FirstLeaf(kids[i])
    ensures StoredKids(AdoptKids(kids, i, o), pages', after)
  {
    var cs := AdoptKids(kids, i, o);
    forall j | 0 <= j < |cs| ensures Stored(cs[j], pages', After(cs, j, after)) {
      if o.Whole? {
        WholeAfter(kids, i, o.tree, j, after);
        if j != i {
          SiblingStored(kids, i, j, pages, pages', path, after);
        }
      } else {
        SplitKidStored(kids, i, o.left, o.right, j, pages, pages', path, after);
      }
    }
  }

  lemma SplitKidStored(kids: seq<Tree>, i: nat, l: Tree, r: Tree, j: nat, pages: seq<DiskNode>, pages': seq<DiskNode>,
                       path: seq<int>, after: int)
    requires StoredKids(kids, pages, after) && DistinctKids(kids) && i < |kids| && j <= |kids|
    requires Frame(pages, pages', path) && (forall p :: p in path ==> p in PageSet(kids[i]))
    requires Stored(l, pages', FirstLeaf(r)) && Stored(r, pages', After(kids, i, after))
    requires FirstLeaf(l) == FirstLeaf(kids[i])
    ensures Stored(SpliceKids(kids, i, l, r)[j], pages', After(SpliceKids(kids, i, l, r), j, after))
  {
    if j < i {
      SplitAfterLow(kids, i, l, r, j, after);
      SiblingStored(kids, i, j, pages, pages', path, after);
    } else {
      SplitAfterHigh(kids, i, l, r, j, after);
      if j > i + 1 {
        SiblingStored(kids, i, j - 1, pages, pages', path, after);
      }
    }
  }

  lemma WholeAfter(kids: seq<Tree>, i: nat, kid: Tree, j: nat, after: int)
    requires i < |kids| && j < |kids| && FirstLeaf(kid) == FirstLeaf(kids[i])
    ensures After(kids[i := kid], j, after) == After(kids, j, after)
  {
  }

  lemma SplitAfterLow(kids: seq<Tree>, i: nat, l: Tree, r: Tree, j: nat, after: int)
    requires i < |kids| && j < i && FirstLeaf(l) == FirstLeaf(kids[i])
    ensures SpliceKids(kids, i, l, r)[j] == kids[j]
    ensures After(SpliceKids(kids, i, l, r), j, after) == After(kids, j, after)
  {
    var cs := SpliceKids(kids, i, l, r);
    assert cs[j + 1] == if j + 1 == i then l else kids[j + 1];
  }

  lemma SplitAfterHigh(kids: seq<Tree>, i: nat, l: Tree, r: Tree, j: nat, after: int)
    requires i < |kids| && i <= j <= |kids|
    ensures var cs := SpliceKids(kids, i, l, r);
      if j == i then cs[j] == l && After(cs, j, after) == FirstLeaf(r)
      else cs[j] == (if j == i + 1 then r else kids[j - 1]) && After(cs, j, after) == After(kids, j - 1, after)
  {
    var cs := SpliceKids(kids, i, l, r);
    if i < j < |kids| {
      assert cs[j + 1] == kids[j];
    }
  }

  /** One child replaced: the children are stored, with the leaf links still in order. */
  lemma ReplacedKidStored(kids: seq<Tree>, i: nat, kid: Tree, n: int, pages: seq<DiskNode>, pages': seq<DiskNode>,
                          path: seq<int>, after: int)
    requires StoredKids(kids, pages, after) && DistinctKids(kids) && i < |kids|
    requires Frame(pages, pages', path) && (forall p :: p in path ==> p in PageSet(kids[i]))
    requires Stored(kid, pages', After(kids, i, after)) && FirstLeaf(kid) == FirstLeaf(kids[i])
    ensures StoredKids(kids[i := kid], pages', after)
  {
    AdoptedKidsStored(kids, i, Whole(kid, n), pages, pages', path, after);
  }

  /** A parent page stays right when a child keeps its page number. */
  lemma ParentStands(page: int, keys: seq<int>, kids: seq<Tree>, i: nat, kid: Tree, pages: seq<DiskNode>, after: int)
    requires i < |kids| && kid.page == kids[i].page && StoredKids(kids[i := kid], pages, after)
    requires 1 <= page <= |pages| && HoldsInner(pages[page - 1], keys, kids)
    ensures Stored(Inner(page, keys, kids[i := kid]), pages, after)
  {
    SamePageList(kids, i, kid);
    InnerIsStored(page, keys, kids[i := kid], pages, after);
  }

  /** No child split: the parent page is right as it stands. */
  lemma AdoptedWhole(page: int, keys: seq<int>, kids: seq<Tree>, i: nat, kid: Tree, n: int, pages: seq<DiskNode>,
                     pages': seq<DiskNode>, path: seq<int>, after: int)
    requires i < |kids| && 1 <= page <= |pages| && HoldsInner(pages[page - 1], keys, kids)
    requires DistinctKids(kids) && page !in ForestPages(kids) && StoredKids(kids, pages, after)
    requires Frame(pages, pages', path) && (forall p :: p in path ==> p in PageSet(kids[i]))
    requires Stored(kid, pages', After(kids, i, after)) && kid.page == kids[i].page
    requires FirstLeaf(kid) == FirstLeaf(kids[i])
    ensures Stored(Inner(page, keys, kids[i := kid]), pages', after)
  {
    ReplacedKidStored(kids, i, kid, n, pages, pages', path, after);
    ParentUntouched(page, kids, i, pages, pages', path);
    ParentStands(page, keys, kids, i, kid, pages', after);
  }

  lemma ParentUntouched(page: int, kids: seq<Tree>, i: nat, pages: seq<DiskNode>, pages': seq<DiskNode>, path: seq<int>)
    requires page !in ForestPages(kids) && i < |kids| && 1 <= page <= |pages|
    requires Frame(pages, pages', path) && (forall p :: p in path ==> p in PageSet(kids[i]))
    ensures pages'[page - 1] == pages[page - 1]
  {
    KidInForest(kids, i);
  }

  lemma SamePageList(kids: seq<Tree>, i: nat, kid: Tree)
    requires i < |kids| && kid.page == kids[i].page
    ensures PageList(kids[i := kid]) == PageList(kids)
  {
  }

  /** An inner node cut in two: both halves stored, the left one linking to the right one. */
  lemma CutInnerStored(kids: seq<Tree>, m: nat, pages: seq<DiskNode>, after: int)
    requires StoredKids(kids, pages, after) && 0 < m < |kids|
    ensures StoredKids(kids[..m], pages, FirstLeaf(kids[m])) && StoredKids(kids[m..], pages, after)
  {
    forall j | 0 <= j < m ensures Stored(kids[..m][j], pages, After(kids[..m], j, FirstLeaf(kids[m]))) {
      assert Stored(kids[j], pages, After(kids, j, after));
    }
    forall j | 0 <= j < |kids| - m ensures Stored(kids[m..][j], pages, After(kids[m..], j, after)) {
      assert Stored(kids[m + j], pages, After(kids, m + j, after));
    }
  }

  lemma SplicedPageList(kids: seq<Tree>, i: nat, l: Tree, r: Tree)
    requires i < |kids| && l.page == kids[i].page
    ensures PageList(SpliceKids(kids, i, l, r)) == InsertAt(PageList(kids), i + 1, r.page)
  {
  }

  // ---------------------------------------------------------------- the leaf chain

  /** `page` starts a chain of leaf pages holding exactly `leaves`, ended by link `0`. */
  ghost predicate Chain(pages: seq<DiskNode>, page: int, leaves: seq<Tree>)
    decreases leaves
  {
    if leaves == [] then page == 0
    else
      && leaves[0].Leaf? && page == leaves[0].page && 1 <= page <= |pages|
      && HoldsLeaf(pages[page - 1], leaves[0].entries, pages[page - 1].nextLeaf)
      && Chain(pages, pages[page - 1].nextLeaf, leaves[1..])
  }

  /** The leaf links visit the leaves of a stored tree left to right. */
  lemma {:induction false} StoredChain(t: Tree, pages: seq<DiskNode>, after: int, rest: seq<Tree>)
    requires Stored(t, pages, after) && Shaped(t) && Chain(pages, after, rest)
    ensures Chain(pages, FirstLeaf(t), Leaves(t) + rest)
    decreases t, 1
  {
    match t
    case Leaf(page, es) =>
      assert ([t] + rest)[1..] == rest;
    case Inner(_, _, kids) =>
      StoredForestChain(kids, pages, after, rest);
  }

  lemma {:induction false} StoredForestChain(kids: seq<Tree>, pages: seq<DiskNode>, after: int, rest: seq<Tree>)
    requires StoredKids(kids, pages, after) && kids != [] && (forall i :: 0 <= i < |kids| ==> Shaped(kids[i]))
    requires Chain(pages, after, rest)
    ensures Chain(pages, FirstLeaf(kids[0]), ForestLeaves(kids) + rest)
    decreases kids, 0
  {
    assert Stored(kids[0], pages, After(kids, 0, after));
    var tail := kids[1..];
    if tail == [] {
      StoredChain(kids[0], pages, after, rest);
      assert ForestLeaves(kids) == Leaves(kids[0]);
    } else {
      TailStored(kids, pages, after);
      StoredForestChain(tail, pages, after, rest);
      StoredChain(kids[0], pages, FirstLeaf(tail[0]), ForestLeaves(tail) + rest);
      Associate(Leaves(kids[0]), ForestLeaves(tail), rest);
    }
  }

  lemma TailStored(kids: seq<Tree>, pages: seq<DiskNode>, after: int)
    requires StoredKids(kids, pages, after) && |kids| > 1
    ensures StoredKids(kids[1..], pages, after)
  {
    CutInnerStored(kids, 1, pages, after);
  }

  // ---------------------------------------------------------------- positions found by scanning

  lemma ChildIndexUnique(keys: seq<int>, key: int, i: nat)
    requires i <= |keys| && (forall j :: 0 <= j < i ==> keys[j] <= key) && (i < |keys| ==> key < keys[i])
    ensures i == ChildIndex(keys, key)
  {
  }

  /** Entries and their keys. */
  lemma KeyListed(es: seq<Entry>, key: int)
    ensures HasKey(es, key) <==> key in KeyList(es)
  {
    if HasKey(es, key) {
      var j :| 0 <= j < |es| && es[j].key == key;
      assert KeyList(es)[j] == key;
    }
    if key in KeyList(es) {
      var j :| 0 <= j < |es| && KeyList(es)[j] == key;
      assert es[j].key == key;
    }
  }

  /** A scan that stops at the first key not below `key` finds the key or proves it absent. */
  lemma ScanDecides(es: seq<Entry>, ks: seq<int>, key: int, i: nat)
    requires Ascending(es) && ks == KeyList(es)
    requires i <= |ks| && (forall j :: 0 <= j < i ==> ks[j] < key) && (i < |ks| ==> ks[i] >= key)
    ensures i == LowerBound(es, key)
    ensures HasKey(es, key) <==> i < |ks| && ks[i] == key
  {
    KeyListed(es, key);
    LowerBoundUnique(es, key, i);
    assert forall j :: i < j < |es| ==> es[i].key < es[j].key == ks[j];
  }

  lemma LowerBoundUnique(es: seq<Entry>, key: int, i: nat)
    requires i <= |es| && (forall j :: 0 <= j < i ==> es[j].key < key) && (i < |es| ==> es[i].key >= key)
    ensures i == LowerBound(es, key)
  {
  }

  lemma EnteredLists(es: seq<Entry>, i: nat, e: Entry)
    requires i <= |es|
    ensures KeyList(InsertAt(es, i, e)) == InsertAt(KeyList(es), i, e.key)
    ensures ValueList(InsertAt(es, i, e)) == InsertAt(ValueList(es), i, e.value)
  {
  }

  lemma CutLists(es: seq<Entry>, m: nat)
    requires m <= |es|
    ensures KeyList(es[..m]) == KeyList(es)[..m] && KeyList(es[m..]) == KeyList(es)[m..]
    ensures ValueList(es[..m]) == ValueList(es)[..m] && ValueList(es[m..]) == ValueList(es)[m..]
  {
  }

  lemma FrameTransitive(a: seq<DiskNode>, b: seq<DiskNode>, c: seq<DiskNode>, p: seq<int>, q: seq<int>)
    requires Frame(a, b, p) && Frame(b, c, q)
    ensures Frame(a, c, q + p)
  {
    forall i | 0 <= i < |a| && i + 1 !in q + p ensures c[i] == a[i] {
      assert i + 1 !in q && i + 1 !in p;
      assert b[i] == a[i];
    }
  }

  lemma CutPageList(ts: seq<Tree>, m: nat)
    requires m <= |ts|
    ensures PageList(ts[..m]) == PageList(ts)[..m] && PageList(ts[m..]) == PageList(ts)[m..]
  {
  }

  lemma {:induction false} ForestPagesExist(kids: seq<Tree>, pages: seq<DiskNode>, after: int)
    requires StoredKids(kids, pages, after)
    ensures forall p :: p in ForestPages(kids) ==> 1 <= p <= |pages|
  {
    forall p | p in ForestPages(kids) ensures 1 <= p <= |pages| {
      InForest(kids, p);
      var i :| 0 <= i < |kids| && p in PageSet(kids[i]);
      StoredPagesExist(kids[i], pages, After(kids, i, after));
    }
  }

  ghost predicate InnerLaid(o: Outcome, pages: seq<DiskNode>) {
    match o
    case Whole(t, _) => t.Inner? && 1 <= t.page <= |pages| && HoldsInner(pages[t.page - 1], t.keys, t.kids)
    case Split(l, _, r, _) =>
      && l.Inner? && 1 <= l.page <= |pages| && HoldsInner(pages[l.page - 1], l.keys, l.kids)
      && r.Inner? && 1 <= r.page <= |pages| && HoldsInner(pages[r.page - 1], r.keys, r.kids)
  }

  lemma InnerIsStored(page: int, keys: seq<int>, kids: seq<Tree>, pages: seq<DiskNode>, after: int)
    requires 1 <= page <= |pages| && HoldsInner(pages[page - 1], keys, kids) && StoredKids(kids, pages, after)
    ensures Stored(Inner(page, keys, kids), pages, after)
  {
  }

  lemma HalvesAreStored(page: int, right: int, keys: seq<int>, kids: seq<Tree>, m: nat, pages: seq<DiskNode>,
                        after: int)
    requires m < |keys| && |kids| == |keys| + 1 && StoredKids(kids, pages, after)
    requires 1 <= page <= |pages| && HoldsInner(pages[page - 1], keys[..m], kids[..m + 1])
    requires 1 <= right <= |pages| && HoldsInner(pages[right - 1], keys[m + 1..], kids[m + 1..])
    ensures Stored(Inner(page, keys[..m], kids[..m + 1]), pages, FirstLeaf(kids[m + 1]))
    ensures Stored(Inner(right, keys[m + 1..], kids[m + 1..]), pages, after)
  {
    CutInnerStored(kids, m + 1, pages, after);
    InnerIsStored(page, keys[..m], kids[..m + 1], pages, FirstLeaf(kids[m + 1]));
    InnerIsStored(right, keys[m + 1..], kids[m + 1..], pages, after);
  }

  /** Once the node's own page is written, and its half's, the whole outcome is stored. */
  lemma LaidIsStored(page: int, keys: seq<int>, kids: seq<Tree>, pages: seq<DiskNode>, pages': seq<DiskNode>,
                     after: int)
    requires |kids| == |keys| + 1 && StoredKids(kids, pages, after) && page !in ForestPages(kids)
    requires Frame(pages, pages', [page]) && InnerLaid(SplitInner(page, keys, kids, |pages| + 1), pages')
    ensures StoredOutcome(SplitInner(page, keys, kids, |pages| + 1), pages', after)
  {
    StoredKidsFrame(kids, pages, pages', [page], after);
    if |keys| <= MAX_KEYS {
      InnerIsStored(page, keys, kids, pages', after);
    } else {
      HalvesAreStored(page, |pages| + 1, keys, kids, |keys| / 2, pages', after);
      assert kids[|keys| / 2 + 1..][0] == kids[|keys| / 2 + 1];
    }
  }

  // ---------------------------------------------------------------- the recursive insertion, step by step

  /** What an insertion reports to its caller. */
  datatype InsertResult = InsertResult(hasSplit: bool, promotedKey: int32, rightPage: int64)

  const NO_SPLIT: InsertResult := InsertResult(false, 0, 0)

  ghost predicate Reports(o: Outcome, r: InsertResult) {
    r.hasSplit == o.Split? && (o.Split? ==> r.promotedKey == o.sep && r.rightPage == o.right.page)
  }

  /** The pages went from `before` to `pages`, achieving `o`; only `path` was rewritten. */
  ghost predicate Achieved(o: Outcome, before: seq<DiskNode>, pages: seq<DiskNode>, path: seq<int>, after: int,
                           r: InsertResult) {
    && |pages| == o.next - 1 && Frame(before, pages, path)
    && StoredOutcome(o, pages, after) && Reports(o, r)
  }

  /** The pages store the sound subtree `t`, in whose range `key` lies. */
  ghost predicate Ready(t: Tree, key: int, lo: int, hi: int, h: nat, pages: seq<DiskNode>, after: int) {
    forall b {:trigger Seal(b)} :: Seal(b) ==> Sound(t, lo, hi, h) && lo <= key < hi && Stored(t, pages, after)
  }

  /** Inserting `key` below `t` turned `before` into `pages`. */
  ghost predicate Inserted(t: Tree, key: int, value: int, before: seq<DiskNode>, pages: seq<DiskNode>, after: int,
                           duplicate: int, r: InsertResult) {
    forall b {:trigger Seal(b)} :: Seal(b) ==>
      && Shaped(t) && duplicate == (if HasKey(Target(t, key).entries, key) then 1 else 0)
      && (duplicate == 1 ==> pages == before)
      && (duplicate == 0 ==> Achieved(Insert(t, key, value, |before| + 1), before, pages, Path(t, key), after, r))
  }

  /** What the root of a ready subtree looks like on its page. */
  lemma ReadyNode(t: Tree, key: int, lo: int, hi: int, h: nat, pages: seq<DiskNode>, after: int)
    requires Ready(t, key, lo, hi, h, pages, after)
    ensures 1 <= t.page <= |pages| && h >= 1
    ensures t.Leaf? ==> HoldsLeaf(pages[t.page - 1], t.entries, after) && Ascending(t.entries)
    ensures t.Inner? ==> HoldsInner(pages[t.page - 1], t.keys, t.kids)
  {
    assert Seal(true);
  }

  lemma LeafInserted(t: Tree, key: int, value: int, before: seq<DiskNode>, pages: seq<DiskNode>, after: int,
                     duplicate: int, r: InsertResult)
    requires t.Leaf? && duplicate == (if HasKey(t.entries, key) then 1 else 0)
    requires duplicate == 1 ==> pages == before
    requires duplicate == 0 ==>
      Achieved(SplitLeaf(t.page, InsertAt(t.entries, LowerBound(t.entries, key), Entry(key, value)), |before| + 1),
               before, pages, [t.page], after, r)
    ensures Inserted(t, key, value, before, pages, after, duplicate, r)
  {
  }

  /** The child the scan found is ready in turn. */
  lemma ReadyKid(t: Tree, key: int, lo: int, hi: int, h: nat, pages: seq<DiskNode>, after: int, i: nat)
    requires Ready(t, key, lo, hi, h, pages, after) && t.Inner?
    requires i <= |t.keys| && (forall j :: 0 <= j < i ==> t.keys[j] <= key) && (i < |t.keys| ==> key < t.keys[i])
    ensures h > 1 && i < |t.kids| && i == ChildIndex(t.keys, key)
    ensures Ready(t.kids[i], key, Low(t.keys, i, lo), High(t.keys, i, hi), h - 1, pages, After(t.kids, i, after))
  {
    assert Seal(true);
    ChildIndexUnique(t.keys, key, i);
    SoundKid(t, key, lo, hi, h);
    assert StoredKids(t.kids, pages, after);
    assert Stored(t.kids[i], pages, After(t.kids, i, after));
  }

  /** Facts about the insertion into a child that the parent relies on. */
  ghost predicate GoodOutcome(kid: Tree, o: Outcome, next: int) {
    && OutcomeHead(o).page == kid.page && FirstLeaf(OutcomeHead(o)) == FirstLeaf(kid)
    && OutcomeDistinct(o) && next <= o.next && Grown(PageSet(kid), next, o.next, OutcomePages(o))
  }

  lemma ChildOutcome(kid: Tree, key: int, value: int, next: int)
    requires Shaped(kid) && Distinct(kid) && Below(PageSet(kid), next)
    ensures GoodOutcome(kid, Insert(kid, key, value, next), next)
  {
    InsertPages(kid, key, value, next);
    InsertKeepsHead(kid, key, value, next);
  }

  /** What the parent knows about its child once everything is unfolded. */
  lemma KidOf(t: Tree, key: int, lo: int, hi: int, h: nat, pages: seq<DiskNode>, after: int, i: nat)
    requires Ready(t, key, lo, hi, h, pages, after) && t.Inner? && i == ChildIndex(t.keys, key)
    ensures Shaped(t) && i < |t.kids| && Distinct(t) && DistinctKids(t.kids) && t.page !in ForestPages(t.kids)
    ensures StoredKids(t.kids, pages, after) && Below(ForestPages(t.kids), |pages| + 1)
    ensures 1 <= t.page <= |pages| && HoldsInner(pages[t.page - 1], t.keys, t.kids)
    ensures Below(PageSet(t.kids[i]), |pages| + 1)
  {
    assert Seal(true);
    ForestPagesExist(t.kids, pages, after);
    KidInForest(t.kids, i);
  }

  /** The key was found below: nothing has changed. */
  lemma DuplicateBelow(t: Tree, key: int, value: int, i: nat, before: seq<DiskNode>, pages: seq<DiskNode>,
                       kidAfter: int, after: int, r: InsertResult)
    requires t.Inner? && i == ChildIndex(t.keys, key) && i < |t.kids| && Shaped(t)
    requires Inserted(t.kids[i], key, value, before, pages, kidAfter, 1, r)
    ensures Inserted(t, key, value, before, pages, after, 1, r)
  {
    assert Seal(true);
  }

  /** What is known about child `i` and its parent before the insertion goes on below. */
  ghost predicate KidReady(t: Tree, key: int, value: int, i: nat, before: seq<DiskNode>, after: int) {
    forall b {:trigger Shut(b)} :: Shut(b) ==>
      && Shaped(t) && t.Inner? && i == ChildIndex(t.keys, key) && i < |t.kids|
      && DistinctKids(t.kids) && t.page !in ForestPages(t.kids) && Below(ForestPages(t.kids), |before| + 1)
      && 1 <= t.page <= |before| && HoldsInner(before[t.page - 1], t.keys, t.kids) && StoredKids(t.kids, before, after)
      && GoodOutcome(t.kids[i], Insert(t.kids[i], key, value, |before| + 1), |before| + 1)
      && forall p :: p in Path(t.kids[i], key) ==> p in PageSet(t.kids[i])
  }

  lemma KidOutcome(t: Tree, key: int, value: int, lo: int, hi: int, h: nat, i: nat, before: seq<DiskNode>, after: int)
    requires Ready(t, key, lo, hi, h, before, after) && t.Inner? && i == ChildIndex(t.keys, key)
    ensures Shaped(t) && i < |t.kids|
    ensures GoodOutcome(t.kids[i], Insert(t.kids[i], key, value, |before| + 1), |before| + 1)
    ensures forall p :: p in Path(t.kids[i], key) ==> p in PageSet(t.kids[i])
  {
    KidOf(t, key, lo, hi, h, before, after, i);
    ChildOutcome(t.kids[i], key, value, |before| + 1);
    PathInPages(t.kids[i], key);
  }

  lemma KidIsReady(t: Tree, key: int, value: int, lo: int, hi: int, h: nat, i: nat, before: seq<DiskNode>, after: int)
    requires Ready(t, key, lo, hi, h, before, after) && t.Inner? && i == ChildIndex(t.keys, key)
    ensures Shaped(t) && i < |t.kids| && KidReady(t, key, value, i, before, after)
  {
    KidOf(t, key, lo, hi, h, before, after, i);
    KidOutcome(t, key, value, lo, hi, h, i, before, after);
  }

  /** The child was not split: the parent is done without being written. */
  lemma InsertedThroughChild(t: Tree, key: int, value: int, lo: int, hi: int, h: nat, i: nat, before: seq<DiskNode>,
                             pages: seq<DiskNode>, after: int, r: InsertResult)
    requires Ready(t, key, lo, hi, h, before, after) && t.Inner? && i == ChildIndex(t.keys, key) && i < |t.kids|
    requires Inserted(t.kids[i], key, value, before, pages, After(t.kids, i, after), 0, r) && !r.hasSplit
    ensures Inserted(t, key, value, before, pages, after, 0, r)
  {
    KidIsReady(t, key, value, lo, hi, h, i, before, after);
    ThroughWhole(t, key, value, i, before, pages, after, r);
  }

  lemma ThroughWhole(t: Tree, key: int, value: int, i: nat, before: seq<DiskNode>, pages: seq<DiskNode>, after: int,
                     r: InsertResult)
    requires t.Inner? && i < |t.kids| && KidReady(t, key, value, i, before, after)
    requires Inserted(t.kids[i], key, value, before, pages, After(t.kids, i, after), 0, r) && !r.hasSplit
    ensures Inserted(t, key, value, before, pages, after, 0, r)
  {
    assert Shut(true);
    assert Seal(true);
    var o := Insert(t.kids[i], key, value, |before| + 1);
    AdoptedWhole(t.page, t.keys, t.kids, i, o.tree, o.next, before, pages, Path(t.kids[i], key), after);
    FrameTransitive(before, pages, pages, Path(t.kids[i], key), [t.page]);
  }

  /** The children after a split of child `i`, and everything else to be remembered until the parent is written. */
  ghost predicate Pending(t: Tree, key: int, value: int, i: nat, before: seq<DiskNode>, pages: seq<DiskNode>,
                          after: int, o: Outcome) {
    forall b {:trigger Seal(b)} :: Seal(b) ==>
      && Shaped(t) && t.Inner? && i < |t.kids| && i == ChildIndex(t.keys, key)
      && !HasKey(Target(t, key).entries, key)
      && o.Split? && o == Insert(t.kids[i], key, value, |before| + 1) && o.next == |pages| + 1
      && t.page !in ForestPages(SpliceKids(t.kids, i, o.left, o.right))
      && StoredKids(SpliceKids(t.kids, i, o.left, o.right), pages, after)
      && Frame(before, pages, Path(t.kids[i], key))
  }

  lemma ChildSplit(t: Tree, key: int, value: int, lo: int, hi: int, h: nat, i: nat, before: seq<DiskNode>,
                   pages: seq<DiskNode>, after: int, r: InsertResult)
    returns (o: Outcome)
    requires Ready(t, key, lo, hi, h, before, after) && t.Inner? && i == ChildIndex(t.keys, key) && i < |t.kids|
    requires Inserted(t.kids[i], key, value, before, pages, After(t.kids, i, after), 0, r) && r.hasSplit
    ensures o.Split? && o.sep == r.promotedKey && |t.kids| == |t.keys| + 1
    ensures PageList(SpliceKids(t.kids, i, o.left, o.right)) == InsertAt(PageList(t.kids), i + 1, r.rightPage)
    ensures Pending(t, key, value, i, before, pages, after, o)
  {
    KidIsReady(t, key, value, lo, hi, h, i, before, after);
    o := Insert(t.kids[i], key, value, |before| + 1);
    SplitPending(t, key, value, i, before, pages, after, o, r);
  }

  lemma SplitPending(t: Tree, key: int, value: int, i: nat, before: seq<DiskNode>, pages: seq<DiskNode>, after: int,
                     o: Outcome, r: InsertResult)
    requires Shaped(t) && t.Inner? && i < |t.kids| && KidReady(t, key, value, i, before, after)
    requires Inserted(t.kids[i], key, value, before, pages, After(t.kids, i, after), 0, r) && r.hasSplit
    requires o == Insert(t.kids[i], key, value, |before| + 1)
    ensures o.Split? && o.sep == r.promotedKey
    ensures PageList(SpliceKids(t.kids, i, o.left, o.right)) == InsertAt(PageList(t.kids), i + 1, r.rightPage)
    ensures Pending(t, key, value, i, before, pages, after, o)
  {
    assert Shut(true);
    assert Seal(true);
    SplicedPageList(t.kids, i, o.left, o.right);
    AdoptAvoidsPage(t.kids, i, o, t.page, |before| + 1);
    AdoptedKidsStored(t.kids, i, o, before, pages, Path(t.kids[i], key), after);
  }

  /** With the parent page (and, if need be, its right half) written, the insertion below it is done. */
  lemma ParentWritten(t: Tree, key: int, value: int, i: nat, before: seq<DiskNode>, mid: seq<DiskNode>,
                      pages: seq<DiskNode>, after: int, o: Outcome, r: InsertResult)
    requires Pending(t, key, value, i, before, mid, after, o)
    requires t.Inner? && |t.kids| == |t.keys| + 1 && i < |t.kids| && o.Split?
    requires var o' := SplitInner(t.page, InsertAt(t.keys, i, o.sep), SpliceKids(t.kids, i, o.left, o.right),
                                  |mid| + 1);
      InnerLaid(o', pages) && |pages| == o'.next - 1 && Reports(o', r)
    requires Frame(mid, pages, [t.page])
    ensures Inserted(t, key, value, before, pages, after, 0, r)
  {
    assert Seal(true);
    var ks, cs := InsertAt(t.keys, i, o.sep), SpliceKids(t.kids, i, o.left, o.right);
    LaidIsStored(t.page, ks, cs, mid, pages, after);
    FrameTransitive(before, mid, pages, Path(t.kids[i], key), [t.page]);
  }
}
