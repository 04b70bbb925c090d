/** The index file as an object: a byte sequence with a cursor, read and written field by field.
    The ghost fields `header` and `pages` are what the bytes stand for. */
module IndexFile {
  import opened Machine
  import opened TreeShape
  import opened FileLayout
  import opened DiskFormat
  import opened NodeBuffer

  ghost predicate IsImage(block: seq<byte>, n: DiskNode) {
    && |block| == NODE_SIZE && n.Sized()
    && (forall b {:trigger Seal(b)} :: Seal(b) ==> block == EncodeNode(n))
  }

  ghost predicate IsHeader(block: seq<byte>, h: Header) {
    && |block| == HEADER_SIZE
    && (forall b {:trigger Seal(b)} :: Seal(b) ==> block == EncodeHeader(h))
  }

  ghost predicate AreImages(blocks: seq<seq<byte>>, pages: seq<DiskNode>) {
    |blocks| == |pages| && forall i {:trigger blocks[i]} :: 0 <= i < |pages| ==> IsImage(blocks[i], pages[i])
  }

  lemma ImagesAfterPut(blocks: seq<seq<byte>>, pages: seq<DiskNode>, p: int, block: seq<byte>, n: DiskNode)
    requires AreImages(blocks, pages) && 1 <= p <= |pages| + 1 && IsImage(block, n)
    ensures AreImages(Put(blocks, p, block), Put(pages, p, n))
  {
  }

  lemma FieldOfBlock(bytes: seq<byte>, i: nat, block: seq<byte>, at: nat, size: nat)
    requires BlockAt(bytes, i, block) && |block| == NODE_SIZE && at + size <= NODE_SIZE
    ensures bytes[PageOffset(i + 1) + at..PageOffset(i + 1) + at + size] == block[at..at + size]
  {
    SubSlice(bytes, PageOffset(i + 1), PageOffset(i + 2), at, at + size);
  }

  lemma SubSlice<T>(s: seq<T>, a: nat, b: nat, c: nat, d: nat)
    requires a <= b <= |s| && c <= d <= b - a
    ensures s[a..b][c..d] == s[a + c..a + d]
  {
    assert forall i :: c <= i < d ==> s[a..b][i] == s[a + i];
  }

  // ---------------------------------------------------------------- decoding stored fields

  lemma FixedInBlock(block: seq<byte>, n: DiskNode)
    requires IsImage(block, n)
    ensures Decode(block[0..4]) == n.isLeaf && Decode(block[4..8]) == n.keyCount && Decode(block[8..16]) == n.nextLeaf
  {
    assert Seal(true);
    FixedSlots(n);
    HalfOfWords();
    DecodeEncode(n.isLeaf, 4);
    DecodeEncode(n.keyCount, 4);
    DecodeEncode(n.nextLeaf, 8);
  }

  lemma FixedAt(bytes: seq<byte>, i: nat, block: seq<byte>, n: DiskNode)
    requires BlockAt(bytes, i, block) && IsImage(block, n)
    ensures var p := PageOffset(i + 1);
      && Decode(bytes[p..p + 4]) == n.isLeaf
      && Decode(bytes[p + 4..p + 8]) == n.keyCount
      && Decode(bytes[p + 8..p + 16]) == n.nextLeaf
  {
    FixedInBlock(block, n);
    FieldOfBlock(bytes, i, block, 0, 4);
    FieldOfBlock(bytes, i, block, 4, 4);
    FieldOfBlock(bytes, i, block, 8, 8);
  }

  lemma KeyInBlock(block: seq<byte>, n: DiskNode, j: nat)
    requires IsImage(block, n) && j < MAX_KEYS
    ensures Decode(block[KEYS_AT + 4 * j..KEYS_AT + 4 * j + 4]) == n.keys[j]
  {
    assert Seal(true);
    KeySlot(n, j);
    HalfOfWords();
    DecodeEncode(n.keys[j], 4);
  }

  lemma KeyAt(bytes: seq<byte>, i: nat, block: seq<byte>, n: DiskNode, j: nat)
    requires BlockAt(bytes, i, block) && IsImage(block, n) && j < MAX_KEYS
    ensures var p := PageOffset(i + 1) + KEYS_AT + 4 * j;
      p + 4 <= |bytes| && Decode(bytes[p..p + 4]) == n.keys[j]
  {
    KeyInBlock(block, n, j);
    FieldOfBlock(bytes, i, block, KEYS_AT + 4 * j, 4);
  }

  lemma ChildInBlock(block: seq<byte>, n: DiskNode, j: nat)
    requires IsImage(block, n) && j < MAX_KEYS + 1
    ensures Decode(block[CHILDREN_AT + 8 * j..CHILDREN_AT + 8 * j + 8]) == n.children[j]
  {
    assert Seal(true);
    ChildSlot(n, j);
    HalfOfWords();
    DecodeEncode(n.children[j], 8);
  }

  lemma ChildAt(bytes: seq<byte>, i: nat, block: seq<byte>, n: DiskNode, j: nat)
    requires BlockAt(bytes, i, block) && IsImage(block, n) && j < MAX_KEYS + 1
    ensures var p := PageOffset(i + 1) + CHILDREN_AT + 8 * j;
      p + 8 <= |bytes| && Decode(bytes[p..p + 8]) == n.children[j]
  {
    ChildInBlock(block, n, j);
    FieldOfBlock(bytes, i, block, CHILDREN_AT + 8 * j, 8);
  }

  lemma ValueInBlock(block: seq<byte>, n: DiskNode, j: nat)
    requires IsImage(block, n) && j < MAX_KEYS
    ensures Decode(block[VALUES_AT + 8 * j..VALUES_AT + 8 * j + 8]) == n.values[j]
  {
    assert Seal(true);
    ValueSlot(n, j);
    HalfOfWords();
    DecodeEncode(n.values[j], 8);
  }

  lemma ValueAt(bytes: seq<byte>, i: nat, block: seq<byte>, n: DiskNode, j: nat)
    requires BlockAt(bytes, i, block) && IsImage(block, n) && j < MAX_KEYS
    ensures var p := PageOffset(i + 1) + VALUES_AT + 8 * j;
      p + 8 <= |bytes| && Decode(bytes[p..p + 8]) == n.values[j]
  {
    ValueInBlock(block, n, j);
    FieldOfBlock(bytes, i, block, VALUES_AT + 8 * j, 8);
  }

  datatype HeaderError = ShortFile | BadMagic | BadVersion | BadOrder

  ghost predicate AcceptableHeader(bytes: seq<byte>) {
    && HEADER_SIZE <= |bytes| && bytes[0..8] == MAGIC
    && Decode(bytes[8..12]) == VERSION && Decode(bytes[12..16]) == MAX_KEYS
  }

  /** The header fields as they stand in the bytes. */
  ghost predicate HeaderReads(bytes: seq<byte>, h: Header) {
    && HEADER_SIZE <= |bytes|
    && Decode(bytes[16..24]) == h.rootPage && Decode(bytes[24..32]) == h.firstLeafPage
    && Decode(bytes[32..40]) == h.pageCount && Decode(bytes[40..48]) == h.keyCount
    && Decode(bytes[48..52]) == h.nextId
  }

  /** The key count in the header. */
  ghost function StoredKeys(bytes: seq<byte>): int
    requires HEADER_SIZE <= |bytes|
  {
    Decode(bytes[40..48])
  }

  lemma HeaderInBlock(block: seq<byte>, h: Header)
    requires IsHeader(block, h)
    ensures AcceptableHeader(block) && HeaderReads(block, h)
  {
    assert Seal(true);
    HeaderSlots(h);
    HalfOfWords();
    DecodeEncode(VERSION, 4);
    DecodeEncode(MAX_KEYS, 4);
    DecodeEncode(h.rootPage, 8);
    DecodeEncode(h.firstLeafPage, 8);
    DecodeEncode(h.pageCount, 8);
    DecodeEncode(h.keyCount, 8);
    DecodeEncode(h.nextId, 4);
  }

  /** A written header is accepted and read back as written. */
  lemma HeaderReadsBack(bytes: seq<byte>, block: seq<byte>, h: Header)
    requires IsHeader(block, h) && HEADER_SIZE <= |bytes| && bytes[..HEADER_SIZE] == block
    ensures AcceptableHeader(bytes) && HeaderReads(bytes, h)
  {
    HeaderInBlock(block, h);
    assert forall i, j :: 0 <= i <= j <= HEADER_SIZE ==> bytes[..HEADER_SIZE][i..j] == bytes[i..j];
  }

  class IndexFile {
    var bytes: seq<byte>
    var pos: nat
    ghost var header: Header
    ghost var pages: seq<DiskNode>
    ghost var head: seq<byte>
    ghost var blocks: seq<seq<byte>>

    /** The bytes are the encoded header followed by the encoded pages, in order. */
    ghost predicate Valid()
      reads this
    {
      Laid(bytes, head, blocks) && IsHeader(head, header) && AreImages(blocks, pages)
    }

    /** An empty file, as left by opening a path that does not exist. */
    constructor ()
      ensures bytes == [] && pos == 0
    {
      bytes, pos := [], 0;
    }

    // -------------------------------------------------------------- single fields

    method Seek(offset: nat)
      modifies this`pos
      ensures pos == offset
    {
      pos := offset;
    }

    method PutField(v: int, width: nat)
      requires pos <= |bytes|
      modifies this`bytes, this`pos
      ensures bytes == Overwrite(old(bytes), old(pos), Encode(v, width))
      ensures pos == old(pos) + width <= |bytes|
    {
      bytes := Overwrite(bytes, pos, Encode(v, width));
      pos := pos + width;
    }

    method GetField(width: nat) returns (ok: bool, v: int)
      requires width > 0
      modifies this`pos
      ensures ok <==> old(pos) + width <= |bytes|
      ensures ok ==> pos == old(pos) + width && v == Decode(bytes[old(pos)..pos]) && -Half(width) <= v < Half(width)
    {
      if pos + width > |bytes| {
        return false, 0;
      }
      ok, v := true, Decode(bytes[pos..pos + width]);
      DecodeInRange(bytes[pos..pos + width]);
      pos := pos + width;
    }

    /** Writes a field right after what has been written so far: `acc`, from position `at` of `b`. */
    method PutNext(v: int, width: nat, ghost b: seq<byte>, ghost at: nat, ghost acc: seq<byte>)
      requires at <= |b| && bytes == Overwrite(b, at, acc) && pos == at + |acc| <= |bytes|
      modifies this`bytes, this`pos
      ensures bytes == Overwrite(b, at, acc + Encode(v, width)) && pos == at + |acc| + width <= |bytes|
    {
      PutField(v, width);
      OverwriteTwice(b, at, acc, Encode(v, width));
    }

    // -------------------------------------------------------------- arrays of fields

    method PutWords(a: array<int32>, count: nat)
      requires pos <= |bytes| && count <= a.Length
      modifies this`bytes, this`pos
      ensures bytes == Overwrite(old(bytes), old(pos), EncodeAll(a[..count], 4))
      ensures pos == old(pos) + 4 * count <= |bytes|
    {
      var index: nat := 0;
      ghost var acc: seq<byte> := [];
      assert bytes == Overwrite(old(bytes), old(pos), acc);
      while index < count
        invariant index <= count && |acc| == 4 * index && pos == old(pos) + 4 * index <= |bytes|
        invariant bytes == Overwrite(old(bytes), old(pos), acc)
        invariant acc == EncodeAll(a[..index], 4)
      {
        PutNext(a[index], 4, old(bytes), old(pos), acc);
        EncodeAllPush(a[..index], a[index], 4);
        assert a[..index + 1] == a[..index] + [a[index]];
        acc := acc + Encode(a[index], 4);
        index := index + 1;
      }
    }

    method PutLongs(a: array<int64>, count: nat)
      requires pos <= |bytes| && count <= a.Length
      modifies this`bytes, this`pos
      ensures bytes == Overwrite(old(bytes), old(pos), EncodeAll(a[..count], 8))
      ensures pos == old(pos) + 8 * count <= |bytes|
    {
      var index: nat := 0;
      ghost var acc: seq<byte> := [];
      assert bytes == Overwrite(old(bytes), old(pos), acc);
      while index < count
        invariant index <= count && |acc| == 8 * index && pos == old(pos) + 8 * index <= |bytes|
        invariant bytes == Overwrite(old(bytes), old(pos), acc)
        invariant acc == EncodeAll(a[..index], 8)
      {
        PutNext(a[index], 8, old(bytes), old(pos), acc);
        EncodeAllPush(a[..index], a[index], 8);
        assert a[..index + 1] == a[..index] + [a[index]];
        acc := acc + Encode(a[index], 8);
        index := index + 1;
      }
    }

    method GetWords(a: array<int32>, count: nat) returns (ok: bool)
      requires 0 < count <= a.Length
      modifies this`pos, a
      ensures ok <==> old(pos) + 4 * count <= |bytes|
      ensures ok ==> pos == old(pos) + 4 * count
      ensures ok ==> forall j :: 0 <= j < count ==> a[j] == Decode(bytes[old(pos) + 4 * j..old(pos) + 4 * j + 4])
    {
      HalfOfWords();
      var index: nat := 0;
      ok := true;
      while index < count
        invariant index <= count && ok && pos == old(pos) + 4 * index && (pos <= |bytes| || index == 0)
        invariant forall j :: 0 <= j < index ==> a[j] == Decode(bytes[old(pos) + 4 * j..old(pos) + 4 * j + 4])
      {
        var v;
        ok, v := GetField(4);
        if !ok {
          return;
        }
        a[index] := v;
        index := index + 1;
      }
    }

    method GetLongs(a: array<int64>, count: nat) returns (ok: bool)
      requires 0 < count <= a.Length
      modifies this`pos, a
      ensures ok <==> old(pos) + 8 * count <= |bytes|
      ensures ok ==> pos == old(pos) + 8 * count
      ensures ok ==> forall j :: 0 <= j < count ==> a[j] == Decode(bytes[old(pos) + 8 * j..old(pos) + 8 * j + 8])
    {
      HalfOfWords();
      var index: nat := 0;
      ok := true;
      while index < count
        invariant index <= count && ok && pos == old(pos) + 8 * index && (pos <= |bytes| || index == 0)
        invariant forall j :: 0 <= j < index ==> a[j] == Decode(bytes[old(pos) + 8 * j..old(pos) + 8 * j + 8])
      {
        var v;
        ok, v := GetField(8);
        if !ok {
          return;
        }
        a[index] := v;
        index := index + 1;
      }
    }

    // -------------------------------------------------------------- pages

    /** Writes the stored part of a node at its page; refuses a node that does not fit a page. */
    method WriteNode(pageId: int64, node: NodeBuffer) returns (ok: bool)
      requires Valid() && node.Valid() && 1 <= pageId <= |pages| + 1
      modifies this
      ensures Valid() && header == old(header)
      ensures ok <==> node.keyCount <= MAX_KEYS
      ensures ok ==> pages == Put(old(pages), pageId, node.Image())
      ensures !ok ==> bytes == old(bytes) && pages == old(pages)
    {
      if node.keyCount < 0 || node.keyCount > MAX_KEYS {
        return false;
      }
      ghost var n := node.Image();
      Seek(PageOffset(pageId));
      ghost var block := WriteFields(node);
      WriteBlock(old(bytes), head, blocks, pageId, block);
      ImagesAfterPut(blocks, pages, pageId, block, n);
      pages, blocks := Put(pages, pageId, n), Put(blocks, pageId, block);
      ok := true;
    }

    method WriteFields(node: NodeBuffer) returns (ghost block: seq<byte>)
      requires pos <= |bytes| && node.Valid()
      modifies this`bytes, this`pos
      ensures IsImage(block, node.Image()) && bytes == Overwrite(old(bytes), old(pos), block)
    {
      ghost var n := node.Image();
      ghost var b, at := bytes, pos;
      PutField(node.isLeaf, 4);
      PutNext(node.keyCount, 4, b, at, Encode(n.isLeaf, 4));
      PutNext(node.nextLeaf, 8, b, at, Encode(n.isLeaf, 4) + Encode(n.keyCount, 4));
      WriteArrays(node, b, at);
      block := EncodeNode(n);
      EncodeNodeSize(n);
    }

    method WriteArrays(node: NodeBuffer, ghost b: seq<byte>, ghost at: nat)
      requires node.Valid() && at <= |b| && pos == at + 16 <= |bytes|
      requires bytes == Overwrite(b, at, EncodeFixed(node.Image()))
      modifies this`bytes, this`pos
      ensures bytes == Overwrite(b, at, EncodeNode(node.Image()))
    {
      ghost var n := node.Image();
      ghost var f, ks, cs, vs := EncodeFixed(n), EncodeAll(n.keys, 4), EncodeAll(n.children, 8), EncodeAll(n.values, 8);
      EncodeAllSize(n.keys, 4);
      EncodeAllSize(n.children, 8);
      PutWords(node.keys, MAX_KEYS);
      OverwriteTwice(b, at, f, ks);
      PutLongs(node.children, MAX_KEYS + 1);
      OverwriteTwice(b, at, f + ks, cs);
      PutLongs(node.values, MAX_KEYS);
      OverwriteTwice(b, at, f + ks + cs, vs);
    }

    /** Reads page `pageId` back into a node; refuses page numbers the file does not have. */
    method ReadNode(pageId: int64, pageCount: int64) returns (ok: bool, node: NodeBuffer)
      requires Valid() && pageCount == |pages|
      modifies this`pos
      ensures Valid() && fresh(node.Repr()) && node.Sized()
      ensures ok <==> 1 <= pageId <= pageCount && 0 <= pages[pageId - 1].keyCount <= MAX_KEYS
      ensures ok ==> node.Valid() && node.Image() == pages[pageId - 1]
    {
      node := new NodeBuffer();
      if pageId <= 0 || pageId > pageCount {
        return false, node;
      }
      ghost var block, n := blocks[pageId - 1], pages[pageId - 1];
      assert BlockAt(bytes, pageId - 1, block) && IsImage(block, n);
      Seek(PageOffset(pageId));
      ReadFixed(node, pageId - 1, block, n);
      ReadArrays(node, pageId - 1, block, n);
      ok := node.keyCount >= 0 && node.keyCount <= MAX_KEYS;
    }

    method ReadFixed(node: NodeBuffer, ghost i: nat, ghost block: seq<byte>, ghost n: DiskNode)
      requires BlockAt(bytes, i, block) && IsImage(block, n) && pos == PageOffset(i + 1)
      modifies this`pos, node`isLeaf, node`keyCount, node`nextLeaf
      ensures pos == PageOffset(i + 1) + KEYS_AT
      ensures node.isLeaf == n.isLeaf && node.keyCount == n.keyCount && node.nextLeaf == n.nextLeaf
    {
      FixedAt(bytes, i, block, n);
      var ok, v := GetField(4);
      node.isLeaf := v;
      ok, v := GetField(4);
      node.keyCount := v;
      ok, v := GetField(8);
      node.nextLeaf := v;
    }

    method ReadArrays(node: NodeBuffer, ghost i: nat, ghost block: seq<byte>, ghost n: DiskNode)
      requires BlockAt(bytes, i, block) && IsImage(block, n) && node.Sized() && pos == PageOffset(i + 1) + KEYS_AT
      modifies this`pos, node.keys, node.children, node.values
      ensures node.keys[..MAX_KEYS] == n.keys
      ensures node.children[..MAX_KEYS + 1] == n.children
      ensures node.values[..MAX_KEYS] == n.values
    {
      var ok := GetWords(node.keys, MAX_KEYS);
      forall j | 0 <= j < MAX_KEYS ensures node.keys[j] == n.keys[j] {
        KeyAt(bytes, i, block, n, j);
      }
      ReadLongArrays(node, i, block, n);
    }

    method ReadLongArrays(node: NodeBuffer, ghost i: nat, ghost block: seq<byte>, ghost n: DiskNode)
      requires BlockAt(bytes, i, block) && IsImage(block, n) && node.Sized() && pos == PageOffset(i + 1) + CHILDREN_AT
      modifies this`pos, node.children, node.values
      ensures node.children[..MAX_KEYS + 1] == n.children
      ensures node.values[..MAX_KEYS] == n.values
    {
      var ok := GetLongs(node.children, MAX_KEYS + 1);
      forall j | 0 <= j < MAX_KEYS + 1 ensures node.children[j] == n.children[j] {
        ChildAt(bytes, i, block, n, j);
      }
      ok := GetLongs(node.values, MAX_KEYS);
      forall j | 0 <= j < MAX_KEYS ensures node.values[j] == n.values[j] {
        ValueAt(bytes, i, block, n, j);
      }
    }

    // -------------------------------------------------------------- header

    method PutBytes(data: seq<byte>)
      requires pos <= |bytes|
      modifies this`bytes, this`pos
      ensures bytes == Overwrite(old(bytes), old(pos), data)
      ensures pos == old(pos) + |data| <= |bytes|
    {
      bytes := Overwrite(bytes, pos, data);
      pos := pos + |data|;
    }

    /** Writes the header block; on an empty file this is what creates the file's contents. */
    method WriteHeader(h: Header)
      requires bytes == [] || Valid()
      modifies this
      ensures Valid() && header == h
      ensures pages == if old(bytes) == [] then [] else old(pages)
    {
      Seek(0);
      ghost var block := WriteHeaderFields(h);
      if old(bytes) == [] {
        head, header, blocks, pages := block, h, [], [];
        assert bytes == block;
      } else {
        WriteHead(old(bytes), head, blocks, block);
        head, header := block, h;
      }
    }

    method WriteHeaderFields(h: Header) returns (ghost block: seq<byte>)
      requires pos == 0
      modifies this`bytes, this`pos
      ensures IsHeader(block, h) && bytes == Overwrite(old(bytes), 0, block)
    {
      ghost var b := bytes;
      PutBytes(MAGIC);
      ghost var acc := MAGIC;
      PutNext(VERSION, 4, b, 0, acc);
      acc := acc + Encode(VERSION, 4);
      PutNext(MAX_KEYS, 4, b, 0, acc);
      acc := acc + Encode(MAX_KEYS, 4);
      PutNext(h.rootPage, 8, b, 0, acc);
      acc := acc + Encode(h.rootPage, 8);
      PutNext(h.firstLeafPage, 8, b, 0, acc);
      acc := acc + Encode(h.firstLeafPage, 8);
      PutNext(h.pageCount, 8, b, 0, acc);
      acc := acc + Encode(h.pageCount, 8);
      PutNext(h.keyCount, 8, b, 0, acc);
      acc := acc + Encode(h.keyCount, 8);
      PutNext(h.nextId, 4, b, 0, acc);
      acc := acc + Encode(h.nextId, 4);
      PutBytes(PADDING);
      OverwriteTwice(b, 0, acc, PADDING);
      block := EncodeHeader(h);
    }

    /** Reads and checks the header; a header written by `WriteHeader` comes back unchanged. */
    method ReadHeader() returns (r: Result<Header, HeaderError>)
      modifies this`pos
      ensures r.Ok? <==> AcceptableHeader(bytes)
      ensures r == Err(ShortFile) <==> |bytes| < HEADER_SIZE
      ensures r.Ok? ==> HeaderReads(bytes, r.value)
      ensures Valid() ==> r == Ok(header)
    {
      HalfOfWords();
      if |bytes| < HEADER_SIZE {
        return Err(ShortFile);
      }
      var magic := bytes[0..8];
      Seek(8);
      var ok, version := GetField(4);
      var maxKeys;
      ok, maxKeys := GetField(4);
      var h := ReadHeaderFields();
      if Valid() {
        HeaderReadsBack(bytes, head, header);
      }
      if magic != MAGIC {
        return Err(BadMagic);
      }
      if version != VERSION {
        return Err(BadVersion);
      }
      if maxKeys != MAX_KEYS {
        return Err(BadOrder);
      }
      r := Ok(h);
    }

    method ReadHeaderFields() returns (h: Header)
      requires HEADER_SIZE <= |bytes| && pos == 16
      modifies this`pos
      ensures HeaderReads(bytes, h)
    {
      HalfOfWords();
      var ok, root := GetField(8);
      var firstLeaf, pageCount, keyCount, nextId;
      ok, firstLeaf := GetField(8);
      ok, pageCount := GetField(8);
      ok, keyCount := GetField(8);
      ok, nextId := GetField(4);
      h := Header(root, firstLeaf, pageCount, keyCount, nextId);
    }
  }
}
