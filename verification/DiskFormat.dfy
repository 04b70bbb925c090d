/** The byte layout of an index file: a 64-byte header, then pages of 1284 bytes each.
    Everything here is a pure function of byte sequences; the file object is in IndexFile. */
module DiskFormat {
  import opened Machine
  import opened TreeShape
  import opened FileLayout

  /** A page as stored: the full fixed-size arrays, of which `keyCount` slots are in use. */
  datatype DiskNode = DiskNode(isLeaf: int32, keyCount: int32, nextLeaf: int64,
                               keys: seq<int32>, children: seq<int64>, values: seq<int64>)
  {
    ghost predicate Sized() {
      |keys| == MAX_KEYS && |children| == MAX_KEYS + 1 && |values| == MAX_KEYS
    }
  }

  datatype Header = Header(rootPage: int64, firstLeafPage: int64, pageCount: int64, keyCount: int64, nextId: int32)

  const MAGIC: seq<byte> := [0x42, 0x50, 0x54, 0x49, 0x44, 0x58, 0x31, 0]
  const VERSION: int32 := 1

  // ---------------------------------------------------------------- integers

  /** Two's complement, least significant byte first. */
  function Encode(v: int, width: nat): (bytes: seq<byte>)
    ensures |bytes| == width
    decreases width
  {
    if width == 0 then [] else [v % 256] + Encode(v / 256, width - 1)
  }

  function Decode(bytes: seq<byte>): int {
    if |bytes| == 0 then 0
    else if |bytes| == 1 then (if bytes[0] >= 128 then bytes[0] - 256 else bytes[0])
    else bytes[0] + 256 * Decode(bytes[1..])
  }

  /** Half of the number of values of `width` bytes. */
  ghost function Half(width: nat): (h: int)
    ensures h >= 128
  {
    if width <= 1 then 128 else 256 * Half(width - 1)
  }

  lemma HalfOfWords()
    ensures Half(4) == 0x8000_0000 && Half(8) == 0x8000_0000_0000_0000
  {
    assert Half(2) == 256 * Half(1);
    assert Half(4) == 256 * 256 * Half(2);
    assert Half(6) == 256 * 256 * Half(4);
    assert Half(8) == 256 * 256 * Half(6);
  }

  /** Reading back a written integer gives the integer, at any width that can hold it. */
  lemma {:induction false} DecodeEncode(v: int, width: nat)
    requires width > 0 && -Half(width) <= v < Half(width)
    ensures Decode(Encode(v, width)) == v
    decreases width
  {
    if width > 1 {
      DecodeEncode(v / 256, width - 1);
      assert Encode(v, width)[1..] == Encode(v / 256, width - 1);
    } else {
      assert Encode(v / 256, 0) == [];
    }
  }

  lemma {:induction false} DecodeInRange(bytes: seq<byte>)
    requires |bytes| > 0
    ensures -Half(|bytes|) <= Decode(bytes) < Half(|bytes|)
  {
    if |bytes| > 1 {
      DecodeInRange(bytes[1..]);
    }
  }

  // ---------------------------------------------------------------- arrays of integers

  function EncodeAll(vs: seq<int>, width: nat): seq<byte> {
    if vs == [] then [] else EncodeAll(vs[..|vs| - 1], width) + Encode(vs[|vs| - 1], width)
  }

  lemma {:induction false} EncodeAllSize(vs: seq<int>, width: nat)
    ensures |EncodeAll(vs, width)| == |vs| * width
  {
    if vs != [] {
      EncodeAllSize(vs[..|vs| - 1], width);
      assert |vs| * width == (|vs| - 1) * width + width;
    }
  }

  lemma {:induction false} EncodeAllSlot(vs: seq<int>, width: nat, i: nat)
    requires i < |vs|
    ensures 0 <= i * width <= i * width + width <= |EncodeAll(vs, width)|
    ensures EncodeAll(vs, width)[i * width..i * width + width] == Encode(vs[i], width)
  {
    var init := vs[..|vs| - 1];
    EncodeAllSize(vs, width);
    EncodeAllSize(init, width);
    assert |vs| * width == (|vs| - 1) * width + width;
    if i < |init| {
      EncodeAllSlot(init, width, i);
      assert EncodeAll(vs, width)[i * width..i * width + width] == EncodeAll(init, width)[i * width..i * width + width];
    }
  }

  lemma EncodeAllPush(vs: seq<int>, v: int, width: nat)
    ensures EncodeAll(vs + [v], width) == EncodeAll(vs, width) + Encode(v, width)
  {
    assert (vs + [v])[..|vs|] == vs;
  }

  // ---------------------------------------------------------------- pages

  function EncodeFixed(n: DiskNode): (b: seq<byte>)
    ensures |b| == 16
  {
    Encode(n.isLeaf, 4) + Encode(n.keyCount, 4) + Encode(n.nextLeaf, 8)
  }

  function EncodeNode(n: DiskNode): seq<byte> {
    EncodeFixed(n) + EncodeAll(n.keys, 4) + EncodeAll(n.children, 8) + EncodeAll(n.values, 8)
  }

  lemma EncodeNodeSize(n: DiskNode)
    requires n.Sized()
    ensures |EncodeNode(n)| == NODE_SIZE
  {
    EncodeAllSize(n.keys, 4);
    EncodeAllSize(n.children, 8);
    EncodeAllSize(n.values, 8);
  }

  /** Byte offsets of the three arrays inside a page. */
  const KEYS_AT: nat := 16
  const CHILDREN_AT: nat := KEYS_AT + 4 * MAX_KEYS
  const VALUES_AT: nat := CHILDREN_AT + 8 * (MAX_KEYS + 1)

  lemma ArraySlot(pre: seq<byte>, vs: seq<int>, width: nat, post: seq<byte>, i: nat)
    requires i < |vs|
    ensures |pre| <= |pre| + i * width <= |pre| + i * width + width <= |pre| + |vs| * width
    ensures |pre + EncodeAll(vs, width) + post| == |pre| + |vs| * width + |post|
    ensures (pre + EncodeAll(vs, width) + post)[|pre| + i * width..|pre| + i * width + width] == Encode(vs[i], width)
  {
    var mid := EncodeAll(vs, width);
    EncodeAllSize(vs, width);
    EncodeAllSlot(vs, width, i);
    var s := pre + mid + post;
    assert s[|pre| + i * width..|pre| + i * width + width] == mid[i * width..i * width + width];
  }

  lemma FixedSlots(n: DiskNode)
    requires n.Sized()
    ensures |EncodeNode(n)| == NODE_SIZE
    ensures EncodeNode(n)[0..4] == Encode(n.isLeaf, 4)
    ensures EncodeNode(n)[4..8] == Encode(n.keyCount, 4)
    ensures EncodeNode(n)[8..16] == Encode(n.nextLeaf, 8)
  {
    EncodeNodeSize(n);
    var a, b, c := EncodeAll(n.keys, 4), EncodeAll(n.children, 8), EncodeAll(n.values, 8);
    Associate(EncodeFixed(n) + a, b, c);
    Associate(EncodeFixed(n), a, b + c);
    FixedPrefix(Encode(n.isLeaf, 4), Encode(n.keyCount, 4), Encode(n.nextLeaf, 8), a + (b + c));
  }

  lemma FixedPrefix<T>(a: seq<T>, b: seq<T>, c: seq<T>, rest: seq<T>)
    requires |a| == 4 && |b| == 4 && |c| == 8
    ensures var s := a + b + c + rest; s[0..4] == a && s[4..8] == b && s[8..16] == c
  {
  }

  lemma Associate<T>(a: seq<T>, b: seq<T>, c: seq<T>)
    ensures a + b + c == a + (b + c)
  {
  }

  lemma KeySlot(n: DiskNode, i: nat)
    requires n.Sized() && i < MAX_KEYS
    ensures |EncodeNode(n)| == NODE_SIZE
    ensures EncodeNode(n)[KEYS_AT + 4 * i..KEYS_AT + 4 * i + 4] == Encode(n.keys[i], 4)
  {
    EncodeNodeSize(n);
    var post := EncodeAll(n.children, 8) + EncodeAll(n.values, 8);
    ArraySlot(EncodeFixed(n), n.keys, 4, post, i);
    Associate(EncodeFixed(n) + EncodeAll(n.keys, 4), EncodeAll(n.children, 8), EncodeAll(n.values, 8));
  }

  lemma ChildSlot(n: DiskNode, i: nat)
    requires n.Sized() && i < MAX_KEYS + 1
    ensures |EncodeNode(n)| == NODE_SIZE
    ensures EncodeNode(n)[CHILDREN_AT + 8 * i..CHILDREN_AT + 8 * i + 8] == Encode(n.children[i], 8)
  {
    EncodeNodeSize(n);
    EncodeAllSize(n.keys, 4);
    var pre := EncodeFixed(n) + EncodeAll(n.keys, 4);
    assert |pre| == CHILDREN_AT;
    ArraySlot(pre, n.children, 8, EncodeAll(n.values, 8), i);
  }

  lemma ValueSlot(n: DiskNode, i: nat)
    requires n.Sized() && i < MAX_KEYS
    ensures |EncodeNode(n)| == NODE_SIZE
    ensures EncodeNode(n)[VALUES_AT + 8 * i..VALUES_AT + 8 * i + 8] == Encode(n.values[i], 8)
  {
    EncodeNodeSize(n);
    EncodeAllSize(n.keys, 4);
    EncodeAllSize(n.children, 8);
    var pre := EncodeFixed(n) + EncodeAll(n.keys, 4) + EncodeAll(n.children, 8);
    ArraySlot(pre, n.values, 8, [], i);
    assert EncodeNode(n) == pre + EncodeAll(n.values, 8) + [];
  }

  // ---------------------------------------------------------------- header

  const PADDING: seq<byte> := [0, 0, 0, 0, 0, 0, 0, 0, 0, 0, 0, 0]

  function EncodeHeader(h: Header): (b: seq<byte>)
    ensures |b| == HEADER_SIZE
  {
    MAGIC + Encode(VERSION, 4) + Encode(MAX_KEYS, 4)
    + Encode(h.rootPage, 8) + Encode(h.firstLeafPage, 8) + Encode(h.pageCount, 8) + Encode(h.keyCount, 8)
    + Encode(h.nextId, 4) + PADDING
  }

  lemma PrefixSlice<T>(a: seq<T>, b: seq<T>, i: nat, j: nat)
    requires i <= j <= |a|
    ensures (a + b)[i..j] == a[i..j]
  {
  }

  lemma LastSlice<T>(a: seq<T>, b: seq<T>)
    ensures (a + b)[|a|..|a| + |b|] == b
  {
  }

  /** Where the fields of a header block lie. */
  lemma HeaderSlots(h: Header)
    ensures var b := EncodeHeader(h);
      && b[0..8] == MAGIC && b[8..12] == Encode(VERSION, 4) && b[12..16] == Encode(MAX_KEYS, 4)
      && b[16..24] == Encode(h.rootPage, 8) && b[24..32] == Encode(h.firstLeafPage, 8)
      && b[32..40] == Encode(h.pageCount, 8) && b[40..48] == Encode(h.keyCount, 8)
      && b[48..52] == Encode(h.nextId, 4)
  {
    HeaderParts(MAGIC, Encode(VERSION, 4), Encode(MAX_KEYS, 4), Encode(h.rootPage, 8), Encode(h.firstLeafPage, 8),
                Encode(h.pageCount, 8), Encode(h.keyCount, 8), Encode(h.nextId, 4), PADDING);
  }

  lemma HeaderParts<T>(a: seq<T>, b: seq<T>, c: seq<T>, d: seq<T>, e: seq<T>, f: seq<T>, g: seq<T>, h: seq<T>,
                       p: seq<T>)
    requires |a| == 8 && |b| == 4 && |c| == 4 && |d| == 8 && |e| == 8 && |f| == 8 && |g| == 8 && |h| == 4
    ensures var s := a + b + c + d + e + f + g + h + p;
      && s[0..8] == a && s[8..12] == b && s[12..16] == c && s[16..24] == d && s[24..32] == e
      && s[32..40] == f && s[40..48] == g && s[48..52] == h
  {
    FourParts(a, b, c, d);
    var x := a + b + c + d;
    var y := x + e + f;
    LastSlice(x, e);
    LastSlice(x + e, f);
    LastSlice(y, g);
    LastSlice(y + g, h);
    PrefixSlice(y + g, h, 40, 48);
    PrefixSlice(y, g, 32, 40);
    PrefixSlice(y + g, h, 32, 40);
    PrefixSlice(x + e, f, 24, 32);
    PrefixSlice(y, g, 24, 32);
    PrefixSlice(y + g, h, 24, 32);
    var s := y + g + h;
    PrefixSlice(s, p, 24, 32);
    PrefixSlice(s, p, 32, 40);
    PrefixSlice(s, p, 40, 48);
    PrefixSlice(s, p, 48, 52);
    EarlySlices(x, e, f, g, h, p, 0, 8);
    EarlySlices(x, e, f, g, h, p, 8, 12);
    EarlySlices(x, e, f, g, h, p, 12, 16);
    EarlySlices(x, e, f, g, h, p, 16, 24);
  }

  lemma FourParts<T>(a: seq<T>, b: seq<T>, c: seq<T>, d: seq<T>)
    requires |a| == 8 && |b| == 4 && |c| == 4 && |d| == 8
    ensures var s := a + b + c + d; s[0..8] == a && s[8..12] == b && s[12..16] == c && s[16..24] == d
  {
  }

  lemma EarlySlices<T>(x: seq<T>, e: seq<T>, f: seq<T>, g: seq<T>, h: seq<T>, p: seq<T>, i: nat, j: nat)
    requires i <= j <= |x|
    ensures (x + e + f + g + h + p)[i..j] == x[i..j]
  {
    PrefixSlice(x, e, i, j);
    PrefixSlice(x + e, f, i, j);
    PrefixSlice(x + e + f, g, i, j);
    PrefixSlice(x + e + f + g, h, i, j);
    PrefixSlice(x + e + f + g + h, p, i, j);
  }

  // ---------------------------------------------------------------- the layout in numbers

  /** The number that `bytes` spell with the least significant byte first. */
  ghost function Weighted(bytes: seq<byte>): nat {
    if bytes == [] then 0 else bytes[0] + 256 * Weighted(bytes[1..])
  }

  lemma EncodeStep(v: int, width: nat)
    ensures Weighted(Encode(v, width + 1)) == v % 256 + 256 * Weighted(Encode(v / 256, width))
  {
    assert Encode(v, width + 1)[1..] == Encode(v / 256, width);
  }

  lemma Carry(v: int, w: int, n: int)
    requires n > 0 && (w == v / 256 || w == v / 256 + n)
    ensures v % 256 + 256 * w == if w == v / 256 then v else v + 256 * n
  {
  }

  /** Little-endian two's complement: the bytes of `v` spell `v`, or, when it is negative, `v` plus the number of
      codes. */
  lemma {:induction false} EncodeWeighs(v: int, width: nat)
    requires width > 0 && -Half(width) <= v < Half(width)
    ensures Weighted(Encode(v, width)) == if v >= 0 then v else v + 2 * Half(width)
    decreases width
  {
    EncodeStep(v, width - 1);
    if width == 1 {
      assert Weighted(Encode(v / 256, 0)) == 0;
    } else {
      EncodeWeighs(v / 256, width - 1);
      Carry(v, Weighted(Encode(v / 256, width - 1)), 2 * Half(width - 1));
    }
  }

  ghost function FourDigits(b: seq<int>): int
    requires |b| == 4
  {
    b[0] + 0x100 * b[1] + 0x1_0000 * b[2] + 0x100_0000 * b[3]
  }

  /** The four bytes of a 32-bit integer. */
  lemma FourBytes(v: int32)
    ensures FourDigits(Encode(v, 4)) == if v >= 0 then v else v + 0x1_0000_0000
  {
    var b := Encode(v, 4);
    HalfOfWords();
    EncodeWeighs(v, 4);
    assert b[1..][1..] == b[2..] && b[2..][1..] == b[3..] && b[3..][1..] == [];
    assert Weighted(b[2..]) == b[2] + 256 * Weighted(b[3..]);
    assert Weighted(b[3..]) == b[3] + 256 * Weighted([]);
  }

  /** A page in numbers: where each field lies in its 1284 bytes. */
  lemma PageLayout(n: DiskNode, p: int)
    requires n.Sized()
    ensures PageOffset(p) == 64 + 1284 * (p - 1) && |EncodeNode(n)| == 1284 && |n.keys| == 63
    ensures var b := EncodeNode(n);
      && b[0..4] == Encode(n.isLeaf, 4) && b[4..8] == Encode(n.keyCount, 4) && b[8..16] == Encode(n.nextLeaf, 8)
      && (forall i {:trigger n.keys[i]} :: 0 <= i < 63 ==> b[16 + 4 * i..20 + 4 * i] == Encode(n.keys[i], 4))
      && (forall i {:trigger n.children[i]} :: 0 <= i < 64 ==> b[268 + 8 * i..276 + 8 * i] == Encode(n.children[i], 8))
      && (forall i {:trigger n.values[i]} :: 0 <= i < 63 ==> b[780 + 8 * i..788 + 8 * i] == Encode(n.values[i], 8))
  {
    FixedSlots(n);
    var b := EncodeNode(n);
    forall i | 0 <= i < 63 ensures b[16 + 4 * i..20 + 4 * i] == Encode(n.keys[i], 4) {
      KeySlot(n, i);
    }
    forall i | 0 <= i < 64 ensures b[268 + 8 * i..276 + 8 * i] == Encode(n.children[i], 8) {
      ChildSlot(n, i);
    }
    forall i | 0 <= i < 63 ensures b[780 + 8 * i..788 + 8 * i] == Encode(n.values[i], 8) {
      ValueSlot(n, i);
    }
  }

  /** The header in numbers: magic `BPTIDX1`, version 1, order 63, then the counters. */
  lemma HeaderLayout(h: Header)
    ensures |EncodeHeader(h)| == 64
    ensures var b := EncodeHeader(h);
      && b[0..8] == [66, 80, 84, 73, 68, 88, 49, 0] && b[8..12] == Encode(1, 4) && b[12..16] == Encode(63, 4)
      && b[16..24] == Encode(h.rootPage, 8) && b[24..32] == Encode(h.firstLeafPage, 8)
      && b[32..40] == Encode(h.pageCount, 8) && b[40..48] == Encode(h.keyCount, 8)
      && b[48..52] == Encode(h.nextId, 4)
  {
    HeaderSlots(h);
  }
}
