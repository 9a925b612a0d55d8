/** What creating and writing leave on the disk, byte by byte: which bytes of which block change, and to
    what.  Nothing here depends on how the operations compute it. */
module Effects {
  import opened Bytes
  import opened Storage
  import opened Bitmap
  import opened Layout
  import opened Operations
  import opened Writing

  // ----- inode blocks

  /** Of the 32 bytes of inode s, creation sets the eight of the size to 0, the eight of the indirect
      block's number, and the lowest flag bit; owner, permissions and reserved bytes stay. */
  ghost predicate InodeCreated(blk: seq<byte>, blk': seq<byte>, s: nat, head: nat) {
    && |blk| == |blk'| == BLOCK_SIZE
    && forall x :: 0 <= x < BLOCK_SIZE ==>
         blk'[x] == if s * 32 + 8 <= x < s * 32 + 16 then 0
                    else if s * 32 + 24 <= x < s * 32 + 32 then ByteOf(head, x - (s * 32 + 24))
                    else if x == s * 32 + 6 then blk[x] | 1
                    else blk[x]
  }

  /** Growing sets the eight bytes of the size and no other byte. */
  ghost predicate SizeStored(blk: seq<byte>, blk': seq<byte>, s: nat, size: nat) {
    && |blk| == |blk'| == BLOCK_SIZE
    && forall x :: 0 <= x < BLOCK_SIZE ==>
         blk'[x] == if s * 32 + 8 <= x < s * 32 + 16 then ByteOf(size, x - (s * 32 + 8)) else blk[x]
  }

  lemma SetSizeBytes(blk: seq<byte>, s: nat, size: nat)
    requires |blk| == BLOCK_SIZE && s < INODES_PER_BLOCK
    ensures SizeStored(blk, SetSize(blk, s, size), s, size)
  {
    hide ByteOf, PutU64;
    PutBytes(blk, s * 32 + 8, size);
  }

  lemma {:induction false} ZeroBytes(i: nat)
    ensures ByteOf(0, i) == 0
  {
    if i > 0 {
      ZeroBytes(i - 1);
    }
  }

  lemma NewInodeBytes(blk: seq<byte>, s: nat, head: nat)
    requires |blk| == BLOCK_SIZE && s < INODES_PER_BLOCK
    ensures InodeCreated(blk, NewInode(blk, s, head), s, head)
  {
    hide ByteOf, PutU64;
    var b1 := SetSize(blk, s, 0);
    PutBytes(blk, s * 32 + 8, 0);
    forall x | s * 32 + 8 <= x < s * 32 + 16
      ensures b1[x] == 0
    {
      ZeroBytes(x - (s * 32 + 8));
    }
    PutBytes(SetUsed(b1, s), s * 32 + 24, head);
  }

  // ----- create

  /** The disk after creating inode n: the inode's bytes, the bits of the two blocks taken, the new
      indirect block with one entry and zeroes, and nothing else. */
  ghost predicate CreateEffect(d: Disk, d': Disk, n: nat)
    requires ValidDisk(d) && ValidDisk(d') && n <= INODE_BLOCKS
  {
    var head := AllocValue(d[BITMAP_BLOCK]);
    var first := AllocValue(AllocBitmap(d[BITMAP_BLOCK]));
    && InodeCreated(d[0], d'[0], n, head)
    && (forall r :: 0 <= r < BITS ==>
          (Bit(d'[BITMAP_BLOCK], r) <==> r == head || r == first || Bit(d[BITMAP_BLOCK], r)))
    && (head < NUM_BLOCKS ==>
          forall x :: 0 <= x < BLOCK_SIZE ==> d'[head][x] == if x < 8 then ByteOf(first, x) else 0)
    && forall b :: 0 < b < NUM_BLOCKS && b != BITMAP_BLOCK && b != head ==> d'[b] == d[b]
  }

  lemma AllocBits(bm: seq<byte>, r: nat)
    requires |bm| == BLOCK_SIZE && r < BITS
    ensures Bit(AllocBitmap(bm), r) <==> r == AllocValue(bm) || Bit(bm, r)
  {
    hide Bit, Mark, Lowest;
    if Lowest(bm) < BITS {
      MarkBit(bm, Lowest(bm), r);
    }
  }

  lemma CreateHas(d: Disk, n: nat)
    requires ValidDisk(d) && n <= INODE_BLOCKS
    ensures CreateEffect(d, CreateDisk(d, n), n)
  {
    hide Bit, Mark, AllocBitmap, NewInode, InodeCreated, ByteOf, PutU64;
    var bm := d[BITMAP_BLOCK];
    var d' := CreateDisk(d, n);
    assert n / INODES_PER_BLOCK == 0 && n % INODES_PER_BLOCK == n;
    NewInodeBytes(d[0], n, AllocValue(bm));
    assert d'[BITMAP_BLOCK] == AllocBitmap(AllocBitmap(bm));
    forall r | 0 <= r < BITS
      ensures Bit(d'[BITMAP_BLOCK], r)
              <==> r == AllocValue(bm) || r == AllocValue(AllocBitmap(bm)) || Bit(bm, r)
    {
      AllocBits(bm, r);
      AllocBits(AllocBitmap(bm), r);
    }
    PutBytes(ZeroBlock(), 0, AllocValue(AllocBitmap(bm)));
  }

  // ----- write: the metadata, with or without room on the disk

  /** Growing as the code does it: the indirect block, then the inode's block. */
  lemma GrownBlocks(d: Disk, n: nat, end: nat)
    requires ValidDisk(d) && n < MAX_FILES && end < MAX_BYTES && Head(d, n) < NUM_BLOCKS
    ensures end <= Size(d, n) ==> Grown(d, n, end) == d
    ensures end > Size(d, n) ==>
              var ib := n / INODES_PER_BLOCK;
              var g := GrowTo(d[BITMAP_BLOCK], d[Head(d, n)], Size(d, n) / BLOCK_SIZE + 1, end / BLOCK_SIZE + 1);
              Grown(d, n, end)
                == d[BITMAP_BLOCK := g.0][Head(d, n) := g.1][ib := SetSize(d[ib], n % INODES_PER_BLOCK, end)]
  {
    hide GrowTo, SetSize;
  }

  lemma HeadKept(d: Disk, n: nat, end: nat)
    requires Inv(d) && n in Abs(d) && end < MAX_BYTES
    ensures n < MAX_FILES && Head(Grown(d, n, end), n) == Head(d, n) < NUM_BLOCKS
  {
    hide GrowTo, SetSize, HeadAt, SizeAt, UsedAt;
    HeadInRange(d, n);
    if end > Size(d, n) {
      SetSizeFields(d[n / INODES_PER_BLOCK], n % INODES_PER_BLOCK, end, n % INODES_PER_BLOCK);
    }
  }

  lemma {:induction false} GrowBits(bm: seq<byte>, p: seq<byte>, lo: nat, hi: nat, m: nat, r: nat)
    requires |bm| == BLOCK_SIZE && |p| == BLOCK_SIZE && lo <= hi <= ENTRIES && Prefix(bm, m) && m + hi - lo <= BITS
    requires r < BITS
    ensures Bit(GrowTo(bm, p, lo, hi).0, r) <==> Bit(bm, r) || m <= r < m + hi - lo
    decreases hi
  {
    hide Prefix, Bit, AllocBitmap, AllocValue, PutU64;
    if lo < hi {
      GrowBits(bm, p, lo, hi - 1, m, r);
      GrowValue(bm, p, lo, hi - 1, m);
      AllocBits(GrowTo(bm, p, lo, hi - 1).0, r);
    }
  }

  lemma {:induction false} GrowBytes(bm: seq<byte>, p: seq<byte>, lo: nat, hi: nat, m: nat, x: nat)
    requires |bm| == BLOCK_SIZE && |p| == BLOCK_SIZE && lo <= hi <= ENTRIES && Prefix(bm, m) && m + hi - lo <= BITS
    requires x < BLOCK_SIZE
    ensures GrowTo(bm, p, lo, hi).1[x] == if lo <= x / 8 < hi then ByteOf(m + x / 8 - lo, x % 8) else p[x]
    decreases hi
  {
    hide Prefix, AllocBitmap, AllocValue, PutU64, ByteOf;
    if lo < hi {
      GrowBytes(bm, p, lo, hi - 1, m, x);
      GrowValue(bm, p, lo, hi - 1, m);
      PutBytes(GrowTo(bm, p, lo, hi - 1).1, (hi - 1) * 8, m + hi - 1 - lo);
    }
  }

  /** A write changes the size bytes of the inode if the file grows, and the bits of the blocks it
      takes; the rest of the inode blocks and of the bitmap stays. */
  ghost predicate WriteMeta(d: Disk, d': Disk, n: nat, end: nat)
    requires ValidDisk(d) && ValidDisk(d') && n <= INODE_BLOCKS
  {
    && (if end > Size(d, n) then SizeStored(d[0], d'[0], n, end) else d'[0] == d[0])
    && (forall b :: 0 < b < INODE_BLOCKS ==> d'[b] == d[b])
    && forall r :: 0 <= r < BITS ==>
         (Bit(d'[BITMAP_BLOCK], r)
          <==> Bit(d[BITMAP_BLOCK], r) || Frontier(d) <= r < Frontier(d) + Growth(Size(d, n), end))
  }

  lemma GrownMeta(d: Disk, n: nat, end: nat)
    requires Inv(d) && n in Abs(d) && end < MAX_BYTES
    ensures n <= INODE_BLOCKS && WriteMeta(d, Grown(d, n, end), n, end)
  {
    hide Prefix, Bit, GrowTo, SetSize, SizeStored, InRange, Disjoint, HeadAt, UsedAt, SizeAt;
    HeadInRange(d, n);
    GrownBlocks(d, n, end);
    if end > Size(d, n) {
      SetSizeBytes(d[0], n, end);
      var lo, hi := Size(d, n) / BLOCK_SIZE + 1, end / BLOCK_SIZE + 1;
      forall r | 0 <= r < BITS
        ensures Bit(GrowTo(d[BITMAP_BLOCK], d[Head(d, n)], lo, hi).0, r)
                <==> Bit(d[BITMAP_BLOCK], r) || Frontier(d) <= r < Frontier(d) + hi - lo
      {
        GrowBits(d[BITMAP_BLOCK], d[Head(d, n)], lo, hi, Frontier(d), r);
      }
    }
  }

  /** The entries a write goes through are allocatable blocks, on the disk or past its end. */
  lemma GrownEntry(d: Disk, n: nat, end: nat, i: nat)
    requires Inv(d) && n in Abs(d) && end < MAX_BYTES && i <= end / BLOCK_SIZE
    ensures n < MAX_FILES && FIRST_ALLOCATABLE <= Data(Grown(d, n, end), n)[i]
  {
    hide Prefix, SetSize, GrowTo, InRange, Disjoint, SizesOk, ExtendDisk, UsedAt, SizeAt, HeadAt;
    HeadInRange(d, n);
    HeadKept(d, n, end);
    if i <= Size(d, n) / BLOCK_SIZE {
      DataPointers(d, n, i);
    }
    if end > Size(d, n) {
      ExtendBlocks(d, n, end, Frontier(d));
    }
  }

  lemma StoreKeepsMeta(d: Disk, n: nat, buf: seq<byte>, to: nat, end: nat, grown: Disk, b: nat)
    requires Inv(d) && n in Abs(d) && end == to + |buf| < MAX_BYTES && grown == Grown(d, n, end)
    requires b < FIRST_ALLOCATABLE
    ensures n < MAX_FILES && StoreDisk(grown, n, buf, to)[b] == grown[b]
  {
    hide Grown, StoreRange, Inv, Abs;
    InodeNumber(d, n);
    var ps := Data(grown, n);
    forall i | to / BLOCK_SIZE <= i < end / BLOCK_SIZE + 1
      ensures ps[i] != b
    {
      GrownEntry(d, n, end, i);
    }
    StoreRangeOther(grown, ps, buf, to, to / BLOCK_SIZE, end / BLOCK_SIZE + 1, b);
  }

  lemma InodeNumber(d: Disk, n: nat)
    requires Inv(d) && n in Abs(d)
    ensures ValidDisk(d) && n <= INODE_BLOCKS && Used(d, n) && |Abs(d)[n]| == Size(d, n) < MAX_BYTES
  {}

  lemma WriteMetaHolds(d: Disk, n: nat, buf: seq<byte>, to: nat, end: nat, grown: Disk, d': Disk)
    requires Inv(d) && n in Abs(d) && end == to + |buf| < MAX_BYTES
    requires n < MAX_FILES && grown == Grown(d, n, end) && d' == StoreDisk(grown, n, buf, to)
    ensures n <= INODE_BLOCKS && WriteMeta(d, d', n, end)
  {
    hide Inv, Abs, Grown, StoreDisk, Bit, SizeStored, Growth, Frontier;
    InodeNumber(d, n);
    GrownMeta(d, n, end);
    forall b | 0 <= b < FIRST_ALLOCATABLE
      ensures d'[b] == grown[b]
    {
      StoreKeepsMeta(d, n, buf, to, end, grown, b);
    }
  }

  // ----- write: the indirect block and the data blocks

  /** With room on the disk: the new entries of the indirect block hold the blocks taken, in order; each
      block that the range touches holds its old bytes overlaid with the buffer; and no other block
      past the metadata changes. */
  ghost predicate WriteBlocks(d: Disk, d': Disk, n: nat, buf: seq<byte>, to: nat)
    requires ValidDisk(d) && ValidDisk(d') && n <= INODE_BLOCKS
  {
    var head := Head(d, n);
    var lo, hi := Size(d, n) / BLOCK_SIZE + 1, (to + |buf|) / BLOCK_SIZE + 1;
    && head < NUM_BLOCKS && hi <= ENTRIES && Head(d', n) == head
    && (forall x :: 0 <= x < BLOCK_SIZE ==>
          d'[head][x] == if lo <= x / 8 < hi then ByteOf(Frontier(d) + x / 8 - lo, x % 8) else d[head][x])
    && (forall i :: to / BLOCK_SIZE <= i < hi ==> Overlaid(d, d', Data(d', n)[i], i, buf, to))
    && forall b :: FIRST_ALLOCATABLE <= b < NUM_BLOCKS && b != head && b !in Data(d', n)[to / BLOCK_SIZE..hi] ==>
         d'[b] == d[b]
  }

  /** Block b, number i of a file, after buf was written at position to of the file. */
  ghost predicate Overlaid(d: Disk, d': Disk, b: nat, i: nat, buf: seq<byte>, to: nat)
    requires ValidDisk(d) && ValidDisk(d')
  {
    b < NUM_BLOCKS &&
    forall o :: 0 <= o < BLOCK_SIZE ==>
      d'[b][o] == if to <= i * BLOCK_SIZE + o < to + |buf| then buf[i * BLOCK_SIZE + o - to] else d[b][o]
  }

  /** Growing changes, past the metadata, the file's indirect block only. */
  lemma GrownData(d: Disk, n: nat, end: nat, grown: Disk)
    requires Inv(d) && n in Abs(d) && end < MAX_BYTES && n < MAX_FILES && grown == Grown(d, n, end)
    ensures Head(d, n) < NUM_BLOCKS
    ensures var lo, hi := Size(d, n) / BLOCK_SIZE + 1, end / BLOCK_SIZE + 1;
            forall x :: 0 <= x < BLOCK_SIZE ==>
              grown[Head(d, n)][x]
                == if lo <= x / 8 < hi then ByteOf(Frontier(d) + x / 8 - lo, x % 8) else d[Head(d, n)][x]
    ensures forall b :: FIRST_ALLOCATABLE <= b < NUM_BLOCKS && b != Head(d, n) ==> grown[b] == d[b]
  {
    hide Prefix, GrowTo, SetSize, InRange, Disjoint, HeadAt, UsedAt, SizeAt, ByteOf, Lowest;
    HeadInRange(d, n);
    GrownBlocks(d, n, end);
    var lo, hi := Size(d, n) / BLOCK_SIZE + 1, end / BLOCK_SIZE + 1;
    if end > Size(d, n) {
      forall x | 0 <= x < BLOCK_SIZE
        ensures GrowTo(d[BITMAP_BLOCK], d[Head(d, n)], lo, hi).1[x]
                == if lo <= x / 8 < hi then ByteOf(Frontier(d) + x / 8 - lo, x % 8) else d[Head(d, n)][x]
      {
        GrowBytes(d[BITMAP_BLOCK], d[Head(d, n)], lo, hi, Frontier(d), x);
      }
    }
  }

  /** The write's touched blocks and untouched blocks, given what growing did. */
  lemma StoredBlocks(d: Disk, n: nat, buf: seq<byte>, to: nat, grown: Disk, d': Disk)
    requires ValidDisk(d) && ValidDisk(grown) && Inv(grown) && n < MAX_FILES && Used(grown, n)
    requires to + |buf| <= Size(grown, n) < MAX_BYTES && d' == StoreDisk(grown, n, buf, to)
    requires forall b :: FIRST_ALLOCATABLE <= b < NUM_BLOCKS && b != Head(grown, n) ==> grown[b] == d[b]
    ensures var ps, lo, hi := Data(grown, n), to / BLOCK_SIZE, (to + |buf|) / BLOCK_SIZE + 1;
            && (forall i :: lo <= i < hi ==> Overlaid(d, d', ps[i], i, buf, to))
            && forall b :: FIRST_ALLOCATABLE <= b < NUM_BLOCKS && b != Head(grown, n) && b !in ps[lo..hi] ==>
                 d'[b] == d[b]
  {
    hide Inv, StoreDisk, Overlaid, Data;
    var ps, lo, hi := Data(grown, n), to / BLOCK_SIZE, (to + |buf|) / BLOCK_SIZE + 1;
    forall i | lo <= i < hi
      ensures Overlaid(d, d', ps[i], i, buf, to)
    {
      StoredOverlaid(grown, n, buf, to, i);
      StoredAt(d, grown, d', n, ps[i], i, buf, to);
    }
    forall b | FIRST_ALLOCATABLE <= b < NUM_BLOCKS && b != Head(grown, n) && b !in ps[lo..hi]
      ensures d'[b] == d[b]
    {
      StoredElsewhere(grown, n, buf, to, b);
    }
  }

  lemma WriteBlocksHold(d: Disk, n: nat, buf: seq<byte>, to: nat, end: nat, grown: Disk, d': Disk)
    requires Inv(d) && n in Abs(d) && end == to + |buf| < MAX_BYTES
    requires n < MAX_FILES && grown == Grown(d, n, end) && d' == StoreDisk(grown, n, buf, to)
    requires Frontier(d) + Growth(|Abs(d)[n]|, end) <= NUM_BLOCKS
    ensures n <= INODE_BLOCKS && WriteBlocks(d, d', n, buf, to)
  {
    hide Inv, Abs, Grown, StoreDisk, ByteOf, Growth, Frontier, Overlaid, Data, Head, Size, Used;
    InodeNumber(d, n);
    GrownData(d, n, end, grown);
    GrownInv(d, n, end);
    HeadKept(d, n, end);
    StoredHead(grown, n, buf, to);
    StoredBlocks(d, n, buf, to, grown, d');
  }

  /** Storing leaves the inode and the indirect block alone. */
  lemma StoredHead(d: Disk, n: nat, buf: seq<byte>, to: nat)
    requires Inv(d) && n < MAX_FILES && Used(d, n) && to + |buf| <= Size(d, n) < MAX_BYTES
    ensures var d' := StoreDisk(d, n, buf, to);
            && Head(d', n) == Head(d, n) < NUM_BLOCKS && d'[Head(d, n)] == d[Head(d, n)] && Data(d', n) == Data(d, n)
  {
    hide Prefix, InRange, Disjoint, SizesOk, StoreRange;
    HeadInRange(d, n);
    StoreMeta(d, n, buf, to, n);
  }

  /** A touched block is a data block past the metadata, other than the indirect block. */
  lemma StoredOverlaid(d: Disk, n: nat, buf: seq<byte>, to: nat, i: nat)
    requires Inv(d) && n < MAX_FILES && Used(d, n) && to + |buf| <= Size(d, n) < MAX_BYTES
    requires i <= (to + |buf|) / BLOCK_SIZE
    ensures var b := Data(d, n)[i];
            && FIRST_ALLOCATABLE <= b < NUM_BLOCKS && b != Head(d, n)
            && StoreDisk(d, n, buf, to)[b] == BlockAfter(d[b], i, buf, to)
  {
    hide Prefix, InRange, SizesOk, StoreRange, BlockAfter;
    StoreData(d, n, buf, to, i);
    DataPointers(d, n, i);
    DataNotHead(d, n, n, i + 1);
  }

  lemma StoredAt(d: Disk, grown: Disk, d': Disk, n: nat, b: nat, i: nat, buf: seq<byte>, to: nat)
    requires ValidDisk(d) && ValidDisk(grown) && ValidDisk(d') && b < NUM_BLOCKS && grown[b] == d[b]
    requires d'[b] == BlockAfter(grown[b], i, buf, to)
    ensures Overlaid(d, d', b, i, buf, to)
  {}

  lemma StoredElsewhere(d: Disk, n: nat, buf: seq<byte>, to: nat, b: nat)
    requires ValidDisk(d) && n < MAX_FILES && to + |buf| < MAX_BYTES && b < NUM_BLOCKS
    requires b !in Data(d, n)[to / BLOCK_SIZE..(to + |buf|) / BLOCK_SIZE + 1]
    ensures StoreDisk(d, n, buf, to)[b] == d[b]
  {
    hide StoreRange;
    var touched := Data(d, n)[to / BLOCK_SIZE..(to + |buf|) / BLOCK_SIZE + 1];
    forall i | to / BLOCK_SIZE <= i < (to + |buf|) / BLOCK_SIZE + 1
      ensures Data(d, n)[i] != b
    {
      assert touched[i - to / BLOCK_SIZE] == Data(d, n)[i];
    }
    StoreRangeOther(d, Data(d, n), buf, to, to / BLOCK_SIZE, (to + |buf|) / BLOCK_SIZE + 1, b);
  }
}
