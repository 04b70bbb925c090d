/** Where things lie in an index file: a 64-byte header, then pages of 1284 bytes.
    Pages are plain byte blocks here; what the bytes mean is in DiskFormat. */
module FileLayout {
  import opened Machine
  import opened TreeShape

  const HEADER_SIZE: nat := 64
  const NODE_SIZE: nat := 16 + 4 * MAX_KEYS + 8 * (MAX_KEYS + 1) + 8 * MAX_KEYS

  /** File position of page `p`; pages are numbered from 1. */
  function PageOffset(p: int): int {
    HEADER_SIZE + (p - 1) * NODE_SIZE
  }

  /** The block that holds page `i + 1`. */
  function RawPage(bytes: seq<byte>, i: nat): seq<byte>
    requires PageOffset(i + 2) <= |bytes|
  {
    bytes[PageOffset(i + 1)..PageOffset(i + 2)]
  }

  /** The effect of writing `data` at `pos`; writing at the end extends the file. */
  function Overwrite(bytes: seq<byte>, pos: nat, data: seq<byte>): seq<byte>
    requires pos <= |bytes|
  {
    bytes[..pos] + data + (if pos + |data| < |bytes| then bytes[pos + |data|..] else [])
  }

  lemma OverwriteTwice(bytes: seq<byte>, pos: nat, a: seq<byte>, b: seq<byte>)
    requires pos <= |bytes|
    ensures pos + |a| <= |Overwrite(bytes, pos, a)|
    ensures Overwrite(Overwrite(bytes, pos, a), pos + |a|, b) == Overwrite(bytes, pos, a + b)
  {
  }

  /** Bytes outside the written range keep their value, so pages and header never disturb each other:
      page ranges are pairwise disjoint and lie after the header. */
  lemma OverwriteElsewhere(bytes: seq<byte>, pos: nat, data: seq<byte>, lo: nat, hi: nat)
    requires pos <= |bytes| && lo <= hi <= |bytes|
    requires hi <= pos || pos + |data| <= lo
    ensures hi <= |Overwrite(bytes, pos, data)| && Overwrite(bytes, pos, data)[lo..hi] == bytes[lo..hi]
  {
  }

  lemma OverwriteHere(bytes: seq<byte>, pos: nat, data: seq<byte>)
    requires pos <= |bytes|
    ensures pos + |data| <= |Overwrite(bytes, pos, data)|
    ensures Overwrite(bytes, pos, data)[pos..pos + |data|] == data
    ensures |Overwrite(bytes, pos, data)| == if pos + |data| <= |bytes| then |bytes| else pos + |data|
  {
  }

  /** `bytes` is exactly the header block followed by the page blocks. */
  ghost predicate Laid(bytes: seq<byte>, head: seq<byte>, blocks: seq<seq<byte>>) {
    && |bytes| == PageOffset(|blocks| + 1)
    && bytes[..HEADER_SIZE] == head
    && (forall i :: 0 <= i < |blocks| ==> BlockAt(bytes, i, blocks[i]))
  }

  ghost predicate BlockAt(bytes: seq<byte>, i: nat, block: seq<byte>) {
    PageOffset(i + 2) <= |bytes| && RawPage(bytes, i) == block
  }

  lemma BlockSurvives(bytes: seq<byte>, pos: nat, data: seq<byte>, i: nat, block: seq<byte>)
    requires BlockAt(bytes, i, block) && pos <= |bytes|
    requires PageOffset(i + 2) <= pos || pos + |data| <= PageOffset(i + 1)
    ensures BlockAt(Overwrite(bytes, pos, data), i, block)
  {
    OverwriteElsewhere(bytes, pos, data, PageOffset(i + 1), PageOffset(i + 2));
  }

  /** Writing block `p` (an existing one or the one just past the end) changes that block alone. */
  lemma WriteBlock(bytes: seq<byte>, head: seq<byte>, blocks: seq<seq<byte>>, p: int, data: seq<byte>)
    requires Laid(bytes, head, blocks) && 1 <= p <= |blocks| + 1 && |data| == NODE_SIZE
    ensures HEADER_SIZE <= PageOffset(p) <= |bytes|
    ensures Laid(Overwrite(bytes, PageOffset(p), data), head, Put(blocks, p, data))
  {
    var pos := PageOffset(p);
    var bytes' := Overwrite(bytes, pos, data);
    var blocks' := Put(blocks, p, data);
    OverwriteHere(bytes, pos, data);
    OverwriteElsewhere(bytes, pos, data, 0, HEADER_SIZE);
    forall j | 0 <= j < |blocks'| ensures BlockAt(bytes', j, blocks'[j]) {
      if j != p - 1 {
        BlockSurvives(bytes, pos, data, j, blocks[j]);
      }
    }
  }

  /** Writing the header changes no page. */
  lemma WriteHead(bytes: seq<byte>, head: seq<byte>, blocks: seq<seq<byte>>, data: seq<byte>)
    requires Laid(bytes, head, blocks) && |data| == HEADER_SIZE
    ensures Laid(Overwrite(bytes, 0, data), data, blocks)
  {
    OverwriteHere(bytes, 0, data);
    forall j | 0 <= j < |blocks| ensures BlockAt(Overwrite(bytes, 0, data), j, blocks[j]) {
      BlockSurvives(bytes, 0, data, j, blocks[j]);
    }
  }
}
