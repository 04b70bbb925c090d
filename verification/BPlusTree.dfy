/** The B+ tree index over a page file. */
module BPlusTree {
  import opened Machine
  import opened TreeShape
  import opened FileLayout
  import opened DiskFormat
  import opened NodeBuffer
  import opened IndexFile
  import opened PagedTree
  import opened IndexInvariant
  import opened Comparison
  import opened RangeVisit

  const NO_PAGE: int64 := -1

  /** Page numbers stay far below what a 64-bit file offset can address. */
  const PAGE_LIMIT: int := 0x1_0000_0000_0000

  class BPlusTree {
    const file: IndexFile
    var rootPage: int64
    var firstLeafPage: int64
    var pageCount: int64
    var keyCount: int64
    var nextId: int32
    ghost var shape: Option<Tree>
    ghost var height: nat
    /** The map this index stands for. */
    ghost var contents: map<int, int>

    /** The fields and the file agree: the stored header is the current one, every page is there. */
    ghost predicate Synced()
      reads this, file
    {
      && file.Valid() && |file.pages| == pageCount
      && file.header == Header(rootPage, firstLeafPage, pageCount, keyCount, nextId)
    }

    /** The pages are an index of the tree `shape`, and the header counts it correctly. */
    ghost predicate Whole()
      reads this, file
    {
      && Synced() && Held(shape, height, file.header, file.pages)
      && contents == Contents(EntriesOf(shape))
    }

    ghost predicate Valid()
      reads this, file
    {
      forall b {:trigger Shut(b)} :: Shut(b) ==> Whole()
    }

    /** The map and the entry sequence say the same. */
    lemma Meaning()
      requires Valid()
      ensures Ascending(EntriesOf(shape)) && contents == Contents(EntriesOf(shape))
    {
      assert Shut(true);
      HeldCounts(shape, height, file.header, file.pages);
    }

    method WriteHeader()
      requires file.bytes == [] || file.Valid()
      modifies file
      ensures file.Valid() && file.pages == if old(file.bytes) == [] then [] else old(file.pages)
      ensures file.header == Header(rootPage, firstLeafPage, pageCount, keyCount, nextId)
    {
      file.WriteHeader(Header(rootPage, firstLeafPage, pageCount, keyCount, nextId));
    }

    /** Adds a page of zeroes at the end of the file. */
    method AllocatePage() returns (pageId: int64)
      requires Synced() && pageCount < PAGE_LIMIT
      modifies this`pageCount, file
      ensures Synced() && pageCount == old(pageCount) + 1 == pageId
      ensures Frame(old(file.pages), file.pages, [])
    {
      pageId := pageCount + 1;
      var zero := new NodeBuffer();
      pageCount := pageId;
      WriteHeader();
      var ok := file.WriteNode(pageId, zero);
    }

    constructor (file: IndexFile)
      ensures this.file == file
      ensures rootPage == firstLeafPage == pageCount == keyCount == 0 && nextId == 1
      ensures shape == None && height == 0 && contents == map[]
    {
      this.file := file;
      rootPage, firstLeafPage, pageCount, keyCount, nextId := 0, 0, 0, 0, 1;
      shape, height, contents := None, 0, map[];
    }

    /** Opens an index file: writes a first header into an empty one, checks the header of any other.
        The tree the file holds, if it holds one, is `shape`. */
    static method Open(file: IndexFile, ghost shape: Option<Tree>, ghost height: nat)
      returns (r: Result<BPlusTree, HeaderError>)
      modifies file
      ensures r.Ok? <==> old(file.bytes) == [] || AcceptableHeader(old(file.bytes))
      ensures r.Ok? ==> fresh(r.value) && r.value.file == file
      ensures old(file.bytes) == [] ==> r.value.Valid() && r.value.contents == map[] && r.value.keyCount == 0
      ensures old(file.bytes) != [] ==> file.bytes == old(file.bytes)
      ensures r.Ok? && old(file.bytes) != [] ==>
        HEADER_SIZE <= |file.bytes| && r.value.keyCount == StoredKeys(file.bytes)
      ensures old(file.Valid() && Held(shape, height, file.header, file.pages)) ==>
        && r.Ok? && r.value.Valid() && r.value.shape == shape && r.value.contents == Contents(EntriesOf(shape))
        && file.header == old(file.header) && file.pages == old(file.pages)
    {
      if |file.bytes| == 0 {
        var tree := OpenNew(file);
        return Ok(tree);
      }
      r := OpenExisting(file, shape, height);
    }

    static method OpenNew(file: IndexFile) returns (tree: BPlusTree)
      requires file.bytes == []
      modifies file
      ensures fresh(tree) && tree.file == file && tree.Valid() && tree.contents == map[] && tree.keyCount == 0
    {
      tree := new BPlusTree(file);
      tree.WriteHeader();
      tree.TakenOver();
    }

    static method OpenExisting(file: IndexFile, ghost shape: Option<Tree>, ghost height: nat)
      returns (r: Result<BPlusTree, HeaderError>)
      requires file.bytes != []
      modifies file`pos
      ensures r.Ok? <==> AcceptableHeader(file.bytes)
      ensures r.Ok? ==> fresh(r.value) && r.value.file == file && r.value.keyCount == StoredKeys(file.bytes)
      ensures file.Valid() && Held(shape, height, file.header, file.pages) ==>
        r.Ok? && r.value.Valid() && r.value.shape == shape && r.value.contents == Contents(EntriesOf(shape))
    {
      var head := file.ReadHeader();
      if head.Err? {
        return Err(head.error);
      }
      var tree := new BPlusTree(file);
      tree.SetFields(head.value);
      tree.shape, tree.height, tree.contents := shape, height, Contents(EntriesOf(shape));
      if file.Valid() && Held(shape, height, file.header, file.pages) {
        tree.TakenOver();
      }
      r := Ok(tree);
    }

    lemma TakenOver()
      requires file.Valid() && Held(shape, height, file.header, file.pages)
      requires file.header == Header(rootPage, firstLeafPage, pageCount, keyCount, nextId)
      requires contents == Contents(EntriesOf(shape))
      ensures Valid()
    {
    }

    method SetFields(head: Header)
      modifies this
      ensures head == Header(rootPage, firstLeafPage, pageCount, keyCount, nextId)
    {
      rootPage, firstLeafPage, pageCount := head.rootPage, head.firstLeafPage, head.pageCount;
      keyCount, nextId := head.keyCount, head.nextId;
    }

    /** Closing an index and opening its file again gives the same map, pages and counters. */
    static method Reopen(tree: BPlusTree) returns (again: BPlusTree)
      requires tree.Valid()
      modifies tree.file
      ensures again.Valid() && again.file == tree.file && again.contents == tree.contents
      ensures again.file.pages == old(tree.file.pages) && again.file.header == old(tree.file.header)
    {
      assert Shut(true);
      var r := Open(tree.file, tree.shape, tree.height);
      again := r.value;
    }

    /** The key count of the header; in a valid index, the number of keys. */
    method Size() returns (n: int)
      ensures n == keyCount && (Valid() ==> n == |contents|)
    {
      n := keyCount;
      if Valid() {
        assert Shut(true);
        HeldCounts(shape, height, file.header, file.pages);
      }
    }

    /** The id the table hands out next: unused, above every key, and no larger than need be. */
    method NextId() returns (n: int)
      requires Valid()
      ensures n >= 1 && (forall k :: k in contents ==> k < n)
      ensures n > 1 ==> n - 1 in contents
    {
      assert Shut(true);
      HeldCounts(shape, height, file.header, file.pages);
      NextIdMeaning(EntriesOf(shape));
      n := nextId;
    }

    // -------------------------------------------------------------- inserting into a leaf

    /** Inserts into the leaf in `node`, read from page `pageId`. */
    method InsertIntoLeaf(pageId: int64, node: NodeBuffer, key: int32, value: int64, ghost es: seq<Entry>,
                          ghost after: int)
      returns (duplicate: int, result: InsertResult)
      requires Synced() && 1 <= pageId <= pageCount < PAGE_LIMIT
      requires node.Valid() && node.Image() == file.pages[pageId - 1]
      requires HoldsLeaf(node.Image(), es, after) && Ascending(es)
      modifies this`pageCount, file, node, node.keys, node.values
      ensures Synced() && duplicate == (if HasKey(es, key) then 1 else 0)
      ensures old(pageCount) <= pageCount <= old(pageCount) + 1
      ensures duplicate == 1 ==> file.pages == old(file.pages)
      ensures duplicate == 0 ==>
        Achieved(SplitLeaf(pageId, InsertAt(es, LowerBound(es, key), Entry(key, value)), old(pageCount) + 1),
                 old(file.pages), file.pages, [pageId as int], after, result)
    {
      node.ImageSlots();
      var index, found := FindInLeaf(node, key, es);
      if found {
        return 1, NO_SPLIT;
      }
      result := EnterLeaf(pageId, node, index, key, value, es, after);
      duplicate := 0;
    }

    method FindInLeaf(node: NodeBuffer, key: int32, ghost es: seq<Entry>) returns (index: nat, found: bool)
      requires node.Valid() && node.Keys() == KeyList(es) && Ascending(es)
      ensures index == LowerBound(es, key) && index <= node.keyCount
      ensures found <==> HasKey(es, key)
    {
      index := node.FindInsertIndex(key);
      ScanDecides(es, node.Keys(), key, index);
      found := index < node.keyCount && node.keys[index] == key;
    }

    method EnterLeaf(pageId: int64, node: NodeBuffer, index: nat, key: int32, value: int64, ghost es: seq<Entry>,
                     ghost after: int)
      returns (result: InsertResult)
      requires Synced() && 1 <= pageId <= pageCount < PAGE_LIMIT
      requires node.Valid() && node.isLeaf != 0 && node.nextLeaf == after && index <= node.keyCount <= MAX_KEYS
      requires node.Keys() == KeyList(es) && node.Values() == ValueList(es)
      modifies this`pageCount, file, node, node.keys, node.values
      ensures Synced()
      ensures Achieved(SplitLeaf(pageId, InsertAt(es, index, Entry(key, value)), old(pageCount) + 1),
                       old(file.pages), file.pages, [pageId as int], after, result)
    {
      ghost var es' := InsertAt(es, index, Entry(key, value));
      EnteredLists(es, index, Entry(key, value));
      node.InsertEntry(index, key, value);
      assert node.Keys() == KeyList(es') && node.Values() == ValueList(es');
      result := StoreLeaf(pageId, node, es', after);
    }

    /** Writes back an extended leaf, splitting it when it no longer fits its page. */
    method StoreLeaf(pageId: int64, node: NodeBuffer, ghost es: seq<Entry>, ghost after: int)
      returns (result: InsertResult)
      requires Synced() && 1 <= pageId <= pageCount < PAGE_LIMIT
      requires node.Valid() && node.isLeaf != 0 && node.nextLeaf == after && node.keyCount > 0
      requires node.Keys() == KeyList(es) && node.Values() == ValueList(es)
      modifies this`pageCount, file, node
      ensures Synced()
      ensures Achieved(SplitLeaf(pageId, es, old(pageCount) + 1), old(file.pages), file.pages, [pageId as int], after,
                       result)
    {
      if node.keyCount <= MAX_KEYS {
        node.ImageSlots();
        var ok := file.WriteNode(pageId, node);
        return NO_SPLIT;
      }
      result := StoreSplitLeaf(pageId, node, es, after);
    }

    method StoreSplitLeaf(pageId: int64, node: NodeBuffer, ghost es: seq<Entry>, ghost after: int)
      returns (result: InsertResult)
      requires Synced() && 1 <= pageId <= pageCount < PAGE_LIMIT
      requires node.Valid() && node.isLeaf != 0 && node.nextLeaf == after && node.keyCount > MAX_KEYS
      requires node.Keys() == KeyList(es) && node.Values() == ValueList(es)
      modifies this`pageCount, file, node`keyCount, node`nextLeaf
      ensures Synced()
      ensures Achieved(SplitLeaf(pageId, es, old(pageCount) + 1), old(file.pages), file.pages, [pageId as int], after,
                       result)
    {
      var rightNode := node.SplitLeaf();
      CutLists(es, |es| / 2);
      var promoted := rightNode.keys[0];
      var right := StoreLeafHalves(pageId, node, rightNode, es[..|es| / 2], es[|es| / 2..], after);
      result := InsertResult(true, promoted, right);
    }

    /** Gives the right half its page and links it in behind the left half. */
    method StoreLeafHalves(pageId: int64, node: NodeBuffer, rightNode: NodeBuffer, ghost l: seq<Entry>,
                           ghost r: seq<Entry>, ghost after: int)
      returns (right: int64)
      requires Synced() && 1 <= pageId <= pageCount < PAGE_LIMIT
      requires node != rightNode && node.Valid() && node.isLeaf != 0 && node.nextLeaf == after
      requires node.keyCount <= MAX_KEYS
      requires rightNode.Valid() && rightNode.isLeaf != 0 && rightNode.keyCount <= MAX_KEYS
      requires node.Keys() == KeyList(l) && node.Values() == ValueList(l)
      requires rightNode.Keys() == KeyList(r) && rightNode.Values() == ValueList(r)
      modifies this`pageCount, file, node`nextLeaf, rightNode`nextLeaf
      ensures Synced() && pageCount == old(pageCount) + 1 == right
      ensures Stored(Leaf(pageId, l), file.pages, right) && Stored(Leaf(right, r), file.pages, after)
      ensures Frame(old(file.pages), file.pages, [pageId as int])
    {
      right := AllocatePage();
      rightNode.nextLeaf := node.nextLeaf;
      node.nextLeaf := right;
      WriteHalves(pageId, node, right, rightNode);
      node.ImageSlots();
      rightNode.ImageSlots();
    }

    /** Writes both halves of a split node. */
    method WriteHalves(pageId: int64, node: NodeBuffer, right: int64, rightNode: NodeBuffer)
      requires Synced() && 1 <= pageId < right <= pageCount && node.Valid() && rightNode.Valid()
      requires node.keyCount <= MAX_KEYS && rightNode.keyCount <= MAX_KEYS
      modifies file
      ensures Synced() && |file.pages| == |old(file.pages)|
      ensures file.pages[pageId - 1] == node.Image() && file.pages[right - 1] == rightNode.Image()
      ensures Frame(old(file.pages), file.pages, [pageId as int, right as int])
    {
      var ok := file.WriteNode(pageId, node);
      ok := file.WriteNode(right, rightNode);
    }

    // -------------------------------------------------------------- inserting below an inner node

    /** Writes back an extended inner node, splitting it when it no longer fits its page. */
    method StoreInner(pageId: int64, node: NodeBuffer, ghost keys: seq<int>, ghost kids: seq<Tree>)
      returns (result: InsertResult)
      requires Synced() && 1 <= pageId <= pageCount < PAGE_LIMIT
      requires node.Valid() && node.isLeaf == 0 && |kids| == |keys| + 1 && node.keyCount > 0
      requires node.Keys() == keys && node.Children() == PageList(kids)
      modifies this`pageCount, file, node`keyCount
      ensures Synced() && Frame(old(file.pages), file.pages, [pageId as int])
      ensures var o := SplitInner(pageId, keys, kids, old(pageCount) + 1);
        pageCount == o.next - 1 && InnerLaid(o, file.pages) && Reports(o, result)
    {
      if node.keyCount <= MAX_KEYS {
        node.ImageSlots();
        var ok := file.WriteNode(pageId, node);
        return NO_SPLIT;
      }
      var promoted, right := StoreSplitInner(pageId, node, keys, kids);
      result := InsertResult(true, promoted, right);
    }

    method StoreSplitInner(pageId: int64, node: NodeBuffer, ghost keys: seq<int>, ghost kids: seq<Tree>)
      returns (promoted: int32, right: int64)
      requires Synced() && 1 <= pageId <= pageCount < PAGE_LIMIT
      requires node.Valid() && node.isLeaf == 0 && |kids| == |keys| + 1 && node.keyCount > MAX_KEYS
      requires node.Keys() == keys && node.Children() == PageList(kids)
      modifies this`pageCount, file, node`keyCount
      ensures Synced() && Frame(old(file.pages), file.pages, [pageId as int])
      ensures pageCount == old(pageCount) + 1 == right && promoted == keys[|keys| / 2]
      ensures HoldsInner(file.pages[pageId - 1], keys[..|keys| / 2], kids[..|keys| / 2 + 1])
      ensures HoldsInner(file.pages[right - 1], keys[|keys| / 2 + 1..], kids[|keys| / 2 + 1..])
    {
      var rightNode;
      promoted, rightNode := node.SplitInner();
      CutPageList(kids, |keys| / 2 + 1);
      right := AllocatePage();
      WriteHalves(pageId, node, right, rightNode);
      node.ImageSlots();
      rightNode.ImageSlots();
    }

    // -------------------------------------------------------------- the recursive insertion

    /** Inserts below page `pageId`, which stores the subtree `t`. */
    method InsertRecursive(pageId: int64, key: int32, value: int64, ghost t: Tree, ghost lo: int, ghost hi: int,
                           ghost h: nat, ghost after: int)
      returns (duplicate: int, result: InsertResult)
      requires Synced() && pageId == t.page && pageCount + h < PAGE_LIMIT
      requires Ready(t, key, lo, hi, h, file.pages, after)
      modifies this`pageCount, file
      ensures Synced() && old(pageCount) <= pageCount <= old(pageCount) + h
      ensures duplicate == 0 || duplicate == 1
      ensures Inserted(t, key, value, old(file.pages), file.pages, after, duplicate, result)
      decreases t
    {
      ReadyNode(t, key, lo, hi, h, file.pages, after);
      var ok, node := file.ReadNode(pageId, pageCount);
      if !ok {
        return -1, NO_SPLIT;
      }
      node.ImageSlots();
      if node.isLeaf != 0 {
        duplicate, result := InsertIntoLeaf(pageId, node, key, value, t.entries, after);
        LeafInserted(t, key, value, old(file.pages), file.pages, after, duplicate, result);
      } else {
        duplicate, result := InsertIntoChild(pageId, node, key, value, t, lo, hi, h, after);
      }
    }

    method InsertIntoChild(pageId: int64, node: NodeBuffer, key: int32, value: int64, ghost t: Tree, ghost lo: int,
                           ghost hi: int, ghost h: nat, ghost after: int)
      returns (duplicate: int, result: InsertResult)
      requires Synced() && pageId == t.page && 1 <= pageId <= pageCount && pageCount + h < PAGE_LIMIT
      requires Ready(t, key, lo, hi, h, file.pages, after) && t.Inner?
      requires node.Valid() && node.isLeaf == 0 && node.keyCount <= MAX_KEYS
      requires node.Keys() == t.keys && node.Children() == PageList(t.kids)
      modifies this`pageCount, file, node, node.keys, node.children
      ensures Synced() && old(pageCount) <= pageCount <= old(pageCount) + h
      ensures duplicate == 0 || duplicate == 1
      ensures Inserted(t, key, value, old(file.pages), file.pages, after, duplicate, result)
      decreases t, 0
    {
      var index := node.FindChildIndex(key);
      ghost var ks := node.Keys();
      assert forall j :: 0 <= j < index ==> ks[j] <= key;
      ReadyKid(t, key, lo, hi, h, file.pages, after, index);
      var childPage := node.children[index];
      assert childPage == node.Children()[index];
      duplicate, result :=
        InsertRecursive(childPage, key, value, t.kids[index], Low(t.keys, index, lo), High(t.keys, index, hi), h - 1,
                        After(t.kids, index, after));
      if duplicate != 0 {
        KidOf(t, key, lo, hi, h, old(file.pages), after, index);
        DuplicateBelow(t, key, value, index, old(file.pages), file.pages, After(t.kids, index, after), after, result);
        return;
      }
      if !result.hasSplit {
        InsertedThroughChild(t, key, value, lo, hi, h, index, old(file.pages), file.pages, after, result);
        return;
      }
      result := AdoptSplit(pageId, node, key, value, index, result, t, lo, hi, h, after, old(file.pages));
    }

    /** Takes over the separator and page a split child promotes. */
    method AdoptSplit(pageId: int64, node: NodeBuffer, ghost key: int32, ghost value: int64, index: nat,
                      promoted: InsertResult, ghost t: Tree, ghost lo: int, ghost hi: int, ghost h: nat,
                      ghost after: int, ghost before: seq<DiskNode>)
      returns (result: InsertResult)
      requires Synced() && pageId == t.page && 1 <= pageId <= pageCount < PAGE_LIMIT
      requires Ready(t, key, lo, hi, h, before, after) && t.Inner? && index == ChildIndex(t.keys, key)
      requires index < |t.kids|
      requires Inserted(t.kids[index], key, value, before, file.pages, After(t.kids, index, after), 0, promoted)
      requires promoted.hasSplit
      requires node.Valid() && node.isLeaf == 0 && node.keyCount <= MAX_KEYS
      requires node.Keys() == t.keys && node.Children() == PageList(t.kids)
      modifies this`pageCount, file, node`keyCount, node.keys, node.children
      ensures Synced() && old(pageCount) <= pageCount <= old(pageCount) + 1
      ensures Inserted(t, key, value, before, file.pages, after, 0, result)
    {
      ghost var mid := file.pages;
      ghost var o := ChildSplit(t, key, value, lo, hi, h, index, before, mid, after, promoted);
      ghost var ks, cs := InsertAt(t.keys, index, o.sep), SpliceKids(t.kids, index, o.left, o.right);
      node.InsertChild(index, promoted.promotedKey, promoted.rightPage);
      assert node.Keys() == ks && node.Children() == PageList(cs);
      result := StoreInner(pageId, node, ks, cs);
      ParentWritten(t, key, value, index, before, mid, file.pages, after, o, result);
    }

    // -------------------------------------------------------------- insertion

    /** Inserts a key; refuses, changing nothing, when the key is present. */
    method Insert(key: int32, value: int64) returns (ok: bool)
      requires Valid() && key < INT32_MAX
      modifies this, file
      ensures Valid()
      ensures ok <==> key !in old(contents)
      ensures ok ==> contents == old(contents)[key := value]
      ensures ok ==> Frame(old(file.pages), file.pages, PathOf(old(shape), key))
      ensures !ok ==> shape == old(shape) && file.pages == old(file.pages) && file.header == old(file.header)
    {
      assert Shut(true);
      ShapeOfRoot(shape, height, file.header, file.pages);
      if rootPage == 0 {
        InsertFirst(key, value);
        return true;
      }
      ok := InsertBelowRoot(key, value, shape.value);
    }

    /** The first key: a single leaf becomes the root. */
    method InsertFirst(key: int32, value: int64)
      requires Whole() && key < INT32_MAX && shape.None?
      modifies this, file
      ensures Whole() && contents == map[key as int := value as int]
    {
      StoreFirst(key, value);
      ghost var t := Leaf(1, [Entry(key, value)]);
      FirstHeld(key, value, file.header, file.pages, t);
      shape, height, contents := Some(t), 1, map[key as int := value as int];
    }

    method StoreFirst(key: int32, value: int64)
      requires Synced() && key < INT32_MAX && pageCount == 0 && nextId == 1
      modifies this`rootPage, this`firstLeafPage, this`pageCount, this`keyCount, this`nextId, file
      ensures Synced() && |file.pages| == 1 && HoldsLeaf(file.pages[0], [Entry(key, value)], 0)
      ensures file.header == Header(1, 1, 1, 1, if key >= 1 then key + 1 else 1)
    {
      var page := AllocatePage();
      rootPage := page;
      firstLeafPage := page;
      keyCount := 1;
      if key >= nextId {
        nextId := key + 1;
      }
      WriteFirstLeaf(page, key, value);
      WriteHeader();
    }

    method WriteFirstLeaf(page: int64, key: int32, value: int64)
      requires file.Valid() && page == 1 && |file.pages| == 1
      modifies file
      ensures file.Valid() && |file.pages| == 1 && HoldsLeaf(file.pages[0], [Entry(key, value)], 0)
    {
      var node := new NodeBuffer();
      node.isLeaf := 1;
      node.keyCount := 1;
      node.keys[0] := key;
      node.values[0] := value;
      var ok := file.WriteNode(page, node);
      node.ImageSlots();
    }

    method InsertBelowRoot(key: int32, value: int64, ghost t: Tree) returns (ok: bool)
      requires Whole() && key < INT32_MAX && shape == Some(t)
      modifies this, file
      ensures Whole()
      ensures ok <==> key !in old(contents)
      ensures ok ==> contents == old(contents)[key := value]
      ensures ok ==> Frame(old(file.pages), file.pages, Path(t, key))
      ensures !ok ==> shape == old(shape) && file.pages == old(file.pages) && file.header == old(file.header)
    {
      ghost var before := file.pages;
      IndexBounded(t, height, before);
      IndexReady(t, height, before, key);
      IndexHasKey(t, height, before, key);
      var duplicate, result := InsertRecursive(rootPage, key, value, t, INT32_MIN, INT32_MAX + 1, height, 0);
      RootDuplicate(t, key, value, before, file.pages, duplicate, result);
      if duplicate == 1 {
        return false;
      }
      TakeOver(key, value, t, before, result);
      ok := true;
    }

    /** After the pages have been updated: a new root if the old one split, then the counters. */
    method TakeOver(key: int32, ghost value: int, ghost t: Tree, ghost before: seq<DiskNode>, result: InsertResult)
      requires Synced() && key < INT32_MAX && rootPage == t.page && firstLeafPage == FirstLeaf(t)
      requires pageCount < PAGE_LIMIT
      requires keyCount == |Entries(t)| <= 0x1_0000_0000 && nextId == NextIdOf(Entries(t))
      requires Index(t, height, before) && Inserted(t, key, value, before, file.pages, 0, 0, result)
      modifies this, file
      ensures Whole() && shape.Some? && EntryAdded(Entries(t), Entries(shape.value), key, value)
      ensures Frame(before, file.pages, Path(t, key))
    {
      ghost var t', h' := PlaceRoot(key, value, t, before, result);
      CountKey(key);
      shape, height, contents := Some(t'), h', Contents(Entries(t'));
    }

    method PlaceRoot(ghost key: int, ghost value: int, ghost t: Tree, ghost before: seq<DiskNode>, result: InsertResult)
      returns (ghost t': Tree, ghost h': nat)
      requires Synced() && INT32_MIN <= key <= INT32_MAX && rootPage == t.page && pageCount < PAGE_LIMIT
      requires Index(t, height, before) && Inserted(t, key, value, before, file.pages, 0, 0, result)
      modifies this`pageCount, this`rootPage, file
      ensures file.Valid() && pageCount == |file.pages| && rootPage == t'.page && FirstLeaf(t') == FirstLeaf(t)
      ensures Index(t', h', file.pages) && EntryAdded(Entries(t), Entries(t'), key, value)
      ensures Frame(before, file.pages, Path(t, key))
    {
      ghost var mid := file.pages;
      ghost var o := RootInserted(t, key, value, height, before, mid, result);
      if result.hasSplit {
        GrowRoot(result, o.left, o.right);
        t', h' := Inner(|mid| + 1, [o.sep], [o.left, o.right]), height + 1;
        SplitIndex(t, key, value, height, mid, file.pages, o, t');
        FrameTransitive(before, mid, file.pages, Path(t, key), []);
      } else {
        t', h' := o.tree, height;
        WholeIndex(t, key, value, height, mid, o);
      }
    }

    /** A new root page above the two halves of the old root. */
    method GrowRoot(promoted: InsertResult, ghost l: Tree, ghost r: Tree)
      requires Synced() && pageCount < PAGE_LIMIT && rootPage == l.page && promoted.rightPage == r.page
      modifies this`pageCount, this`rootPage, file
      ensures file.Valid() && |file.pages| == pageCount == old(pageCount) + 1 == rootPage
      ensures Frame(old(file.pages), file.pages, [])
      ensures HoldsInner(file.pages[rootPage - 1], [promoted.promotedKey as int], [l, r])
    {
      var page := AllocatePage();
      var node := RootNode(rootPage, promoted.promotedKey, promoted.rightPage);
      var ok := file.WriteNode(page, node);
      rootPage := page;
    }

    /** A node with one separator and two children. */
    static method RootNode(left: int64, key: int32, right: int64) returns (node: NodeBuffer)
      ensures fresh(node) && fresh(node.Repr()) && node.Valid()
      ensures forall l: Tree, r: Tree :: l.page == left && r.page == right ==>
        HoldsInner(node.Image(), [key as int], [l, r])
    {
      node := new NodeBuffer();
      node.isLeaf := 0;
      node.keyCount := 1;
      node.keys[0] := key;
      node.children[0] := left;
      node.children[1] := right;
      node.ImageSlots();
    }

    method CountKey(key: int32)
      requires file.Valid() && key < INT32_MAX && keyCount < 0x7fff_ffff_ffff
      modifies this`keyCount, this`nextId, file
      ensures file.Valid() && file.pages == old(file.pages) && keyCount == old(keyCount) + 1
      ensures nextId == if key >= old(nextId) then key + 1 else old(nextId)
      ensures file.header == Header(rootPage, firstLeafPage, pageCount, keyCount, nextId)
    {
      keyCount := keyCount + 1;
      if key >= nextId {
        nextId := key + 1;
      }
      WriteHeader();
    }

    // -------------------------------------------------------------- searching

    /** One step of the descent: reads a page and, unless it is a leaf, picks the child to go to. */
    method ReadStep(pageId: int64, key: int32, ghost t: Tree, ghost after: int)
      returns (ok: bool, atLeaf: bool, child: int64, ghost index: nat)
      requires Synced() && pageId == t.page && 1 <= pageId <= pageCount
      requires t.Leaf? ==> HoldsLeaf(file.pages[pageId - 1], t.entries, after)
      requires t.Inner? ==> HoldsInner(file.pages[pageId - 1], t.keys, t.kids)
      modifies file`pos
      ensures Synced() && ok && (atLeaf <==> t.Leaf?)
      ensures t.Inner? ==> index == ChildIndex(t.keys, key) && index < |t.kids| && child == t.kids[index].page
    {
      var node;
      atLeaf, child, index := true, 0, 0;
      ok, node := file.ReadNode(pageId, pageCount);
      if !ok || node.isLeaf != 0 {
        return;
      }
      node.ImageSlots();
      var i := node.FindChildIndex(key);
      ghost var ks, cs := node.Keys(), node.Children();
      assert forall j :: 0 <= j < i ==> ks[j] <= key;
      ChildIndexUnique(t.keys, key, i);
      assert cs[i] == t.kids[i].page;
      atLeaf, child, index := false, node.children[i], i;
    }

    /** One level of the descent for `key`: ends in a leaf or goes on below the child `index`. */
    method Descend(pageId: int64, key: int32, ghost root: Tree, ghost t: Tree, ghost lo: int, ghost hi: int,
                   ghost h: nat, ghost after: int, ghost trail: seq<int>)
      returns (ok: bool, atLeaf: bool, child: int64, ghost index: nat)
      requires Synced() && pageId == t.page
      requires Descending(root, t, key, lo, hi, h, height, file.pages, after, trail)
      modifies file`pos
      ensures Synced() && ok
      ensures atLeaf ==> pageId == Target(root, key).page >= 1
      ensures atLeaf ==> trail + [t.page] == Path(root, key) && |Path(root, key)| == height
      ensures !atLeaf ==> t.Inner? && h > 1 && index < |t.kids| && child == t.kids[index].page >= 1
      ensures !atLeaf ==> Descending(root, t.kids[index], key, Low(t.keys, index, lo), High(t.keys, index, hi), h - 1,
                                     height, file.pages, After(t.kids, index, after), trail + [t.page])
    {
      DescentReads(root, t, key, lo, hi, h, height, file.pages, after, trail);
      ok, atLeaf, child, index := ReadStep(pageId, key, t, after);
      if atLeaf {
        DescentEnds(root, t, key, lo, hi, h, height, file.pages, after, trail);
      } else {
        DescentStep(root, t, key, lo, hi, h, height, file.pages, after, trail, index);
      }
    }

    /** Descends from the root to the leaf for `key`, reading exactly one page per level. */
    method FindLeafPage(key: int32) returns (pageId: int64, ghost trail: seq<int>)
      requires Whole()
      modifies file`pos
      ensures Whole()
      ensures shape.None? ==> pageId == 0
      ensures shape.Some? ==> pageId == Target(shape.value, key).page >= 1
      ensures shape.Some? ==> trail == Path(shape.value, key) && |trail| == height
    {
      ShapeOfRoot(shape, height, file.header, file.pages);
      pageId, trail := rootPage, [];
      ghost var root := if shape.Some? then shape.value else Leaf(0, []);
      ghost var t, lo, hi, h, after := root, INT32_MIN, INT32_MAX + 1, height, 0;
      if shape.Some? {
        DescentStarts(root, key, height, file.pages);
      }
      while pageId != 0
        invariant Synced() && (shape.None? ==> pageId == 0)
        invariant shape.Some? ==> pageId == t.page >= 1
        invariant shape.Some? ==> Descending(root, t, key, lo, hi, h, height, file.pages, after, trail)
        decreases h
      {
        var ok, atLeaf, child, index := Descend(pageId, key, root, t, lo, hi, h, after, trail);
        if !ok {
          return NO_PAGE, trail;
        }
        trail := trail + [t.page];
        if atLeaf {
          return;
        }
        lo, hi, h, after, t := Low(t.keys, index, lo), High(t.keys, index, hi), h - 1,
          After(t.kids, index, after), t.kids[index];
        pageId := child;
      }
    }

    method ReadLeaf(pageId: int64, ghost es: seq<Entry>, ghost next: int) returns (ok: bool, leaf: NodeBuffer)
      requires Synced() && 1 <= pageId <= pageCount && HoldsLeaf(file.pages[pageId - 1], es, next)
      modifies file`pos
      ensures Synced() && ok && fresh(leaf.Repr()) && leaf.Valid() && leaf.nextLeaf == next
      ensures leaf.Keys() == KeyList(es) && leaf.Values() == ValueList(es)
    {
      ok, leaf := file.ReadNode(pageId, pageCount);
      leaf.ImageSlots();
    }

    /** Looks a key up. */
    method Search(key: int32) returns (found: bool, value: int64)
      requires Valid()
      modifies file`pos
      ensures Valid()
      ensures found <==> key in contents
      ensures found ==> value == contents[key]
    {
      assert Shut(true);
      ShapeOfRoot(shape, height, file.header, file.pages);
      if rootPage == 0 {
        return false, 0;
      }
      var leafPage, trail := FindLeafPage(key);
      if leafPage <= 0 {
        return false, 0;
      }
      found, value := SearchLeaf(leafPage, key, shape.value);
    }

    method SearchLeaf(leafPage: int64, key: int32, ghost t: Tree) returns (found: bool, value: int64)
      requires Synced() && Index(t, height, file.pages) && leafPage == Target(t, key).page
      modifies file`pos
      ensures Synced()
      ensures found <==> key in Contents(Entries(t))
      ensures found ==> value == Contents(Entries(t))[key]
    {
      TargetPage(t, height, file.pages, key);
      ghost var es := Target(t, key).entries;
      found, value := false, 0;
      var ok, leaf := ReadLeaf(leafPage, es, file.pages[leafPage - 1].nextLeaf);
      if !ok {
        return;
      }
      found, value := ScanLeaf(leaf, key, es);
      LookupDecided(t, height, file.pages, key, found, value);
    }

    method ScanLeaf(leaf: NodeBuffer, key: int32, ghost es: seq<Entry>) returns (found: bool, value: int64)
      requires leaf.Valid() && leaf.Keys() == KeyList(es) && leaf.Values() == ValueList(es) && Ascending(es)
      ensures Select(es, Equals, key) == if found then [Entry(key, value)] else []
    {
      var index: nat := 0;
      ghost var ks, vs := leaf.Keys(), leaf.Values();
      while index < leaf.keyCount
        invariant index <= leaf.keyCount
        invariant forall j :: 0 <= j < index ==> es[j].key != key
      {
        assert leaf.keys[index] == ks[index] && leaf.values[index] == vs[index];
        if leaf.keys[index] == key {
          SelectOne(es, index, key);
          return true, leaf.values[index];
        }
        index := index + 1;
      }
      SelectNone(es, Equals, key);
      found, value := false, 0;
    }

    // -------------------------------------------------------------- range visits

    /** Calls back for the entries of one leaf, from position `start` on. */
    method VisitLeaf(leaf: NodeBuffer, start: nat, visit: Callback, calls: seq<Entry>, ghost es: seq<Entry>)
      returns (ok: bool, calls': seq<Entry>)
      requires leaf.Valid() && leaf.Keys() == KeyList(es) && leaf.Values() == ValueList(es)
      requires start <= |es| && Accepted(calls, visit)
      ensures Visited(calls + es[start..], visit, calls', ok)
    {
      var index := start;
      calls' := calls;
      ghost var ks, vs := leaf.Keys(), leaf.Values();
      while index < leaf.keyCount
        invariant start <= index <= leaf.keyCount
        invariant calls' == calls + es[start..index] && Accepted(calls', visit)
      {
        assert leaf.keys[index] == ks[index] && leaf.values[index] == vs[index];
        var e := Entry(leaf.keys[index], leaf.values[index]);
        SliceStep(calls, es, start, index);
        if !visit(calls' + [e]) {
          RefusedPush(calls', e, es[index + 1..], visit);
          return false, calls' + [e];
        }
        AcceptedPush(calls', e, visit);
        calls' := calls' + [e];
        index := index + 1;
      }
      assert es[start..index] == es[start..];
      ok := true;
    }

    /** Follows the leaf chain to its end. */
    method VisitFromLeaf(pageId: int64, startIndex: nat, visit: Callback, ghost leaves: seq<Tree>, ghost es: seq<Entry>)
      returns (ok: bool, calls: seq<Entry>)
      requires Synced() && ChainOf(file.pages, pageId, leaves, es)
      requires 1 <= pageId <= pageCount && startIndex <= file.pages[pageId - 1].keyCount
      modifies file`pos
      ensures Synced() && startIndex <= |es| && Visited(es[startIndex..], visit, calls, ok)
    {
      var page := pageId;
      var start: nat := startIndex;
      calls := [];
      ghost var todo, left := leaves, es;
      while page != 0
        invariant Synced() && ChainOf(file.pages, page, todo, left)
        invariant start == 0 || (1 <= page <= pageCount && start <= file.pages[page - 1].keyCount)
        invariant page == 0 ==> start == 0
        invariant if start == 0 then startIndex <= |es| && es[startIndex..] == calls + left
          else start == startIndex && calls == [] && left == es
        invariant Accepted(calls, visit)
        decreases |todo|
      {
        ghost var first, more := ChainStep(file.pages, page, todo, left);
        ghost var before := calls;
        var read, leaf := ReadLeaf(page, first, file.pages[page - 1].nextLeaf);
        if !read {
          return false, calls;
        }
        assert es[startIndex..] == before + first[start..] + more;
        ok, calls := VisitLeaf(leaf, start, visit, calls, first);
        if !ok {
          VisitedStops(before + first[start..], more, visit, calls);
          return;
        }
        page, start, todo, left := leaf.nextLeaf, 0, todo[1..], more;
      }
      ok := true;
      ChainEnds(file.pages, todo, left);
    }

    /** Visits everything above a bound, starting in the leaf the bound leads to. */
    method VisitAbove(op: CompareOperator, key: int32, visit: Callback, ghost t: Tree)
      returns (ok: bool, calls: seq<Entry>)
      requires Whole() && shape == Some(t) && (op.Greater? || op.GreaterOrEqual?)
      modifies file`pos
      ensures Whole() && Visited(Select(Entries(t), op, key), visit, calls, ok)
    {
      var leafPage, trail := FindLeafPage(key);
      if leafPage <= 0 {
        return leafPage == 0, [];
      }
      ok, calls := VisitFromBound(leafPage, op, key, visit, t);
    }

    method VisitFromBound(leafPage: int64, op: CompareOperator, key: int32, visit: Callback, ghost t: Tree)
      returns (ok: bool, calls: seq<Entry>)
      requires Synced() && Index(t, height, file.pages) && leafPage == Target(t, key).page
      requires op.Greater? || op.GreaterOrEqual?
      modifies file`pos
      ensures Synced() && Visited(Select(Entries(t), op, key), visit, calls, ok)
    {
      TargetPage(t, height, file.pages, key);
      ghost var es := Target(t, key).entries;
      var read, leaf := ReadLeaf(leafPage, es, file.pages[leafPage - 1].nextLeaf);
      if !read {
        return false, [];
      }
      var start := BoundInLeaf(leaf, op, key, es);
      ghost var leaves, all := SelectedChain(t, height, file.pages, op, key, start);
      ok, calls := VisitFromLeaf(leafPage, start, visit, leaves, all);
    }

    /** Position of the first key above the bound, or not below it. */
    method BoundInLeaf(leaf: NodeBuffer, op: CompareOperator, key: int32, ghost es: seq<Entry>) returns (index: nat)
      requires leaf.Valid() && leaf.Keys() == KeyList(es) && Ascending(es) && (op.Greater? || op.GreaterOrEqual?)
      ensures index <= |es| && Select(es, op, key) == es[index..]
    {
      if op == Greater {
        index := UpperBoundInLeaf(leaf, key);
      } else {
        index := LowerBoundInLeaf(leaf, key);
      }
      ghost var ks := leaf.Keys();
      assert forall j :: 0 <= j < |es| ==> ks[j] == es[j].key;
      SelectFrom(es, index, op, key);
    }

    method LowerBoundInLeaf(leaf: NodeBuffer, key: int32) returns (index: nat)
      requires leaf.Valid()
      ensures index <= leaf.keyCount && (index < leaf.keyCount ==> leaf.Keys()[index] >= key)
      ensures forall j :: 0 <= j < index ==> leaf.Keys()[j] < key
    {
      index := 0;
      while index < leaf.keyCount && leaf.keys[index] < key
        invariant index <= leaf.keyCount
        invariant forall j :: 0 <= j < index ==> leaf.keys[j] < key
      {
        index := index + 1;
      }
    }

    method UpperBoundInLeaf(leaf: NodeBuffer, key: int32) returns (index: nat)
      requires leaf.Valid()
      ensures index <= leaf.keyCount && (index < leaf.keyCount ==> leaf.Keys()[index] > key)
      ensures forall j :: 0 <= j < index ==> leaf.Keys()[j] <= key
    {
      index := 0;
      while index < leaf.keyCount && leaf.keys[index] <= key
        invariant index <= leaf.keyCount
        invariant forall j :: 0 <= j < index ==> leaf.keys[j] <= key
      {
        index := index + 1;
      }
    }

    /** Calls back for the entries of one leaf up to a bound; `n` of them lie below it. */
    method VisitLeafWhile(leaf: NodeBuffer, op: CompareOperator, key: int32, visit: Callback, calls: seq<Entry>,
                          ghost es: seq<Entry>)
      returns (ok: bool, reached: bool, calls': seq<Entry>, ghost n: nat)
      requires leaf.Valid() && leaf.Keys() == KeyList(es) && leaf.Values() == ValueList(es) && Accepted(calls, visit)
      ensures n <= |es| && Visited(calls + es[..n], visit, calls', ok)
      ensures forall i :: 0 <= i < n ==> Matches(op, es[i].key, key)
      ensures ok ==> if reached then n < |es| && !Matches(op, es[n].key, key) else n == |es|
    {
      var index: nat := 0;
      calls', n, reached := calls, 0, false;
      ghost var ks, vs := leaf.Keys(), leaf.Values();
      while index < leaf.keyCount
        invariant index <= leaf.keyCount && n == index && !reached
        invariant calls' == calls + es[..index] && Accepted(calls', visit)
        invariant forall i :: 0 <= i < index ==> Matches(op, es[i].key, key)
      {
        assert leaf.keys[index] == ks[index] && leaf.values[index] == vs[index];
        if !Matches(op, leaf.keys[index], key) {
          return true, true, calls', n;
        }
        var e := Entry(leaf.keys[index], leaf.values[index]);
        n := index + 1;
        assert calls' + [e] + [] == calls + es[..n];
        if !visit(calls' + [e]) {
          RefusedPush(calls', e, [], visit);
          return false, false, calls' + [e], n;
        }
        AcceptedPush(calls', e, visit);
        calls' := calls' + [e];
        index := index + 1;
      }
      ok := true;
    }

    /** Visits everything below a bound, from the first leaf on. */
    method VisitBelow(op: CompareOperator, key: int32, visit: Callback, ghost all: seq<Entry>, ghost leaves: seq<Tree>)
      returns (ok: bool, calls: seq<Entry>)
      requires Synced() && ChainOf(file.pages, firstLeafPage, leaves, all) && Ascending(all)
      requires op.Less? || op.LessOrEqual?
      modifies file`pos
      ensures Synced() && Visited(Select(all, op, key), visit, calls, ok)
    {
      var page := firstLeafPage;
      calls := [];
      ghost var todo, left := leaves, all;
      BelowStarts(all, op, key);
      while page != 0
        invariant Synced() && ChainOf(file.pages, page, todo, left)
        invariant BelowSoFar(all, calls, left, op, key) && Accepted(calls, visit)
        decreases |todo|
      {
        ghost var seen := calls;
        ghost var es, more := ChainStep(file.pages, page, todo, left);
        var read, leaf := ReadLeaf(page, es, file.pages[page - 1].nextLeaf);
        if !read {
          return false, calls;
        }
        var reached;
        ghost var n;
        ok, reached, calls, n := VisitLeafWhile(leaf, op, key, visit, calls, es);
        BelowLeaf(all, seen, es, more, n, op, key, visit, calls, ok, reached);
        if !ok || reached {
          return;
        }
        page, todo, left := leaf.nextLeaf, todo[1..], more;
      }
      ok := true;
      ChainEnds(file.pages, todo, left);
      BelowEnds(all, calls, op, key);
    }

    /** Calls back for the entries of one leaf except one key. */
    method VisitLeafExcept(leaf: NodeBuffer, key: int32, visit: Callback, calls: seq<Entry>, ghost es: seq<Entry>)
      returns (ok: bool, calls': seq<Entry>)
      requires leaf.Valid() && leaf.Keys() == KeyList(es) && leaf.Values() == ValueList(es) && Accepted(calls, visit)
      ensures Visited(calls + Select(es, NotEquals, key), visit, calls', ok)
    {
      var index: nat := 0;
      calls' := calls;
      ghost var ks, vs := leaf.Keys(), leaf.Values();
      while index < leaf.keyCount
        invariant index <= leaf.keyCount
        invariant calls' == calls + Select(es[..index], NotEquals, key) && Accepted(calls', visit)
      {
        assert leaf.keys[index] == ks[index] && leaf.values[index] == vs[index];
        SelectPush(es, index, NotEquals, key);
        var e := Entry(leaf.keys[index], leaf.values[index]);
        if e.key != key {
          if !visit(calls' + [e]) {
            RefusedExcept(calls, es, index, key, visit, calls');
            return false, calls' + [e];
          }
          AcceptedPush(calls', e, visit);
          calls' := calls' + [e];
        }
        index := index + 1;
      }
      ok := true;
      assert es[..index] == es;
    }

    /** Visits every key but one, from the first leaf on. */
    method VisitExcept(key: int32, visit: Callback, ghost all: seq<Entry>, ghost leaves: seq<Tree>)
      returns (ok: bool, calls: seq<Entry>)
      requires Synced() && ChainOf(file.pages, firstLeafPage, leaves, all)
      modifies file`pos
      ensures Synced() && Visited(Select(all, NotEquals, key), visit, calls, ok)
    {
      var page := firstLeafPage;
      calls := [];
      ghost var todo, left, seen := leaves, all, [];
      while page != 0
        invariant Synced() && ChainOf(file.pages, page, todo, left) && all == seen + left
        invariant calls == Select(seen, NotEquals, key) && Accepted(calls, visit)
        decreases |todo|
      {
        ghost var es, more := ChainStep(file.pages, page, todo, left);
        var read, leaf := ReadLeaf(page, es, file.pages[page - 1].nextLeaf);
        if !read {
          return false, calls;
        }
        SelectConcat(seen, es, NotEquals, key);
        assert all == (seen + es) + more;
        ok, calls := VisitLeafExcept(leaf, key, visit, calls, es);
        if !ok {
          SelectConcat(seen + es, more, NotEquals, key);
          VisitedStops(Select(seen + es, NotEquals, key), Select(more, NotEquals, key), visit, calls);
          return;
        }
        page, todo, left, seen := leaf.nextLeaf, todo[1..], more, seen + es;
      }
      ok := true;
      ChainEnds(file.pages, todo, left);
      assert seen == all;
    }

    /** Calls back for every entry whose key satisfies the operator, in ascending order, until refused. */
    method Visit(op: CompareOperator, key: int32, visit: Callback) returns (ok: bool, calls: seq<Entry>)
      requires Valid()
      modifies file`pos
      ensures Valid() && Visited(Select(EntriesOf(shape), op, key), visit, calls, ok)
    {
      assert Shut(true);
      ShapeOfRoot(shape, height, file.header, file.pages);
      if rootPage == 0 {
        return true, [];
      }
      ghost var t := shape.value;
      IndexChain(t, height, file.pages);
      match op {
        case Equals => ok, calls := VisitOne(key, visit, t);
        case Greater => ok, calls := VisitAbove(op, key, visit, t);
        case GreaterOrEqual => ok, calls := VisitAbove(op, key, visit, t);
        case Less => ok, calls := VisitBelow(op, key, visit, Entries(t), Leaves(t));
        case LessOrEqual => ok, calls := VisitBelow(op, key, visit, Entries(t), Leaves(t));
        case NotEquals => ok, calls := VisitExcept(key, visit, Entries(t), Leaves(t));
      }
    }

    method VisitOne(key: int32, visit: Callback, ghost t: Tree) returns (ok: bool, calls: seq<Entry>)
      requires Whole() && shape == Some(t) && Ascending(Entries(t))
      modifies file`pos
      ensures Whole() && Visited(Select(Entries(t), Equals, key), visit, calls, ok)
    {
      EqualSelection(Entries(t), key);
      assert Shut(true);
      var found, value := Search(key);
      if !found {
        return true, [];
      }
      calls := [Entry(key, value)];
      ok := visit(calls);
      OneCall(Entry(key, value), visit);
    }
  }
}
