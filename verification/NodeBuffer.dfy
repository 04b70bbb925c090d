/** The in-memory node: fixed arrays with one slot more than a page stores, shifted and split in place. */
module NodeBuffer {
  import opened Machine
  import opened TreeShape
  import opened DiskFormat

  /** Moves the slots from `index` up to `count` one place to the right. */
  method OpenSlot<T>(a: array<T>, index: nat, count: nat)
    requires index <= count < a.Length
    modifies a
    ensures forall j :: 0 <= j < index ==> a[j] == old(a[j])
    ensures forall j :: index < j <= count ==> a[j] == old(a[j - 1])
  {
    var shift := count;
    while shift > index
      invariant index <= shift <= count
      invariant forall j :: 0 <= j < shift ==> a[j] == old(a[j])
      invariant forall j :: shift < j <= count ==> a[j] == old(a[j - 1])
    {
      a[shift] := a[shift - 1];
      shift := shift - 1;
    }
  }

  /** Copies `count` slots starting at `from` to the front of another array. */
  method CopyTail<T>(source: array<T>, from: nat, count: nat, target: array<T>)
    requires source != target && from + count <= source.Length && count <= target.Length
    modifies target
    ensures target[..count] == source[from..from + count]
  {
    var index: nat := 0;
    while index < count
      invariant index <= count
      invariant target[..index] == source[from..from + index]
    {
      target[index] := source[from + index];
      index := index + 1;
    }
  }

  class NodeBuffer {
    var isLeaf: int32
    var keyCount: int32
    var nextLeaf: int64
    const keys: array<int32>
    const children: array<int64>
    const values: array<int64>

    ghost predicate Sized() {
      && keys.Length == MAX_KEYS + 1 && children.Length == MAX_KEYS + 2 && values.Length == MAX_KEYS + 1
      && children != values && (keys as object) != children && (keys as object) != values
    }

    ghost function Repr(): set<object> {
      {this, keys, children, values}
    }

    ghost predicate Valid()
      reads this
    {
      Sized() && 0 <= keyCount <= MAX_KEYS + 1
    }

    /** The slots in use. */
    ghost function Keys(): seq<int32>
      requires Valid()
      reads this, keys
    {
      keys[..keyCount]
    }

    ghost function Values(): seq<int64>
      requires Valid()
      reads this, values
    {
      values[..keyCount]
    }

    ghost function Children(): seq<int64>
      requires Valid()
      reads this, children
    {
      children[..keyCount + 1]
    }

    /** What a page holding this node looks like on disk. */
    ghost function Image(): (n: DiskNode)
      requires Sized()
      reads this, keys, children, values
      ensures n.Sized()
    {
      DiskNode(isLeaf, keyCount, nextLeaf, keys[..MAX_KEYS], children[..MAX_KEYS + 1], values[..MAX_KEYS])
    }

    /** The live slots of the image are the live slots of the node. */
    lemma ImageSlots()
      requires Valid() && keyCount <= MAX_KEYS
      ensures Image().keys[..keyCount] == Keys()
      ensures Image().values[..keyCount] == Values()
      ensures Image().children[..keyCount + 1] == Children()
    {
    }

    /** A node of zeroes. */
    constructor ()
      ensures Valid() && fresh(Repr())
      ensures isLeaf == 0 && keyCount == 0 && nextLeaf == 0
    {
      isLeaf, keyCount, nextLeaf := 0, 0, 0;
      keys := new int32[MAX_KEYS + 1](_ => 0);
      children := new int64[MAX_KEYS + 2](_ => 0);
      values := new int64[MAX_KEYS + 1](_ => 0);
    }

    /** First position whose key is not below `key`. */
    method FindInsertIndex(key: int32) returns (index: nat)
      requires Valid()
      ensures index <= keyCount
      ensures forall j :: 0 <= j < index ==> Keys()[j] < key
      ensures index < keyCount ==> Keys()[index] >= key
    {
      index := 0;
      while index < keyCount && keys[index] < key
        invariant index <= keyCount
        invariant forall j :: 0 <= j < index ==> keys[j] < key
      {
        index := index + 1;
      }
    }

    /** First position whose key is above `key`. */
    method FindChildIndex(key: int32) returns (index: nat)
      requires Valid()
      ensures index <= keyCount
      ensures forall j :: 0 <= j < index ==> Keys()[j] <= key
      ensures index < keyCount ==> key < Keys()[index]
    {
      index := 0;
      while index < keyCount && key >= keys[index]
        invariant index <= keyCount
        invariant forall j :: 0 <= j < index ==> keys[j] <= key
      {
        index := index + 1;
      }
    }

    /** Shifts keys and values right of `index` by one slot and stores the new pair there. */
    method InsertEntry(index: nat, key: int32, value: int64)
      requires Valid() && index <= keyCount <= MAX_KEYS
      modifies this`keyCount, keys, values
      ensures Valid() && keyCount == old(keyCount) + 1
      ensures Keys() == InsertAt(old(Keys()), index, key)
      ensures Values() == InsertAt(old(Values()), index, value)
    {
      ghost var n := keyCount as int;
      ghost var ks, vs := Keys(), Values();
      var shift: nat := keyCount;
      while shift > index
        invariant index <= shift <= n == keyCount
        invariant forall j :: 0 <= j < shift ==> keys[j] == ks[j] && values[j] == vs[j]
        invariant forall j :: shift < j <= n ==> keys[j] == ks[j - 1] && values[j] == vs[j - 1]
      {
        keys[shift] := keys[shift - 1];
        values[shift] := values[shift - 1];
        shift := shift - 1;
      }
      keys[index] := key;
      values[index] := value;
      keyCount := keyCount + 1;
      assert Keys() == InsertAt(ks, index, key);
      assert Values() == InsertAt(vs, index, value);
    }

    /** Shifts keys right of `index` and children right of `index + 1`, then stores separator and page. */
    method InsertChild(index: nat, key: int32, page: int64)
      requires Valid() && index <= keyCount <= MAX_KEYS
      modifies this`keyCount, keys, children
      ensures Valid() && keyCount == old(keyCount) + 1
      ensures Keys() == InsertAt(old(Keys()), index, key)
      ensures Children() == InsertAt(old(Children()), index + 1, page)
    {
      ghost var ks, cs := Keys(), Children();
      OpenSlot(keys, index, keyCount);
      OpenSlot(children, index + 1, keyCount + 1);
      keys[index] := key;
      children[index + 1] := page;
      keyCount := keyCount + 1;
      assert Keys() == InsertAt(ks, index, key);
      assert Children() == InsertAt(cs, index + 1, page);
    }

    /** Moves the upper half of an overfull leaf into a new node. */
    method SplitLeaf() returns (right: NodeBuffer)
      requires Valid() && keyCount > 0
      modifies this`keyCount
      ensures Valid() && right.Valid() && fresh(right.Repr()) && right.isLeaf == 1
      ensures keyCount == old(keyCount) / 2
      ensures Keys() == old(Keys())[..old(keyCount) / 2] && Values() == old(Values())[..old(keyCount) / 2]
      ensures right.Keys() == old(Keys())[old(keyCount) / 2..] && right.Values() == old(Values())[old(keyCount) / 2..]
    {
      right := new NodeBuffer();
      right.isLeaf := 1;
      var splitIndex: nat := keyCount / 2;
      var rightCount: nat := keyCount - splitIndex;
      var index: nat := 0;
      while index < rightCount
        invariant index <= rightCount && right.isLeaf == 1
        invariant forall j :: 0 <= j < index ==> right.keys[j] == keys[splitIndex + j]
        invariant forall j :: 0 <= j < index ==> right.values[j] == values[splitIndex + j]
      {
        right.keys[index] := keys[splitIndex + index];
        right.values[index] := values[splitIndex + index];
        index := index + 1;
      }
      right.keyCount := rightCount;
      keyCount := splitIndex;
    }

    /** Moves what lies right of the middle separator of an overfull inner node into a new node. */
    method SplitInner() returns (promoted: int32, right: NodeBuffer)
      requires Valid() && keyCount > 0
      modifies this`keyCount
      ensures Valid() && right.Valid() && fresh(right.Repr()) && right.isLeaf == 0
      ensures keyCount == old(keyCount) / 2 && promoted == old(Keys())[old(keyCount) / 2]
      ensures Keys() == old(Keys())[..old(keyCount) / 2] && Children() == old(Children())[..old(keyCount) / 2 + 1]
      ensures right.Keys() == old(Keys())[old(keyCount) / 2 + 1..]
      ensures right.Children() == old(Children())[old(keyCount) / 2 + 1..]
    {
      right := new NodeBuffer();
      var splitIndex: nat := keyCount / 2;
      promoted := keys[splitIndex];
      var rightKeyCount: nat := keyCount - splitIndex - 1;
      CopyTail(keys, splitIndex + 1, rightKeyCount, right.keys);
      CopyTail(children, splitIndex + 1, rightKeyCount + 1, right.children);
      right.keyCount := rightKeyCount;
      keyCount := splitIndex;
    }
  }
}
