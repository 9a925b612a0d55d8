/** Writing: growing the indirect block, then storing the bytes block by block; and the proof
    that together they overwrite one range of one file's bytes. */
module Writing {
  import opened Bytes
  import opened Storage
  import opened Bitmap
  import opened Layout
  import opened Operations

  // ----- growing: fresh blocks for entries lo .. hi-1 of an indirect block

  function GrowTo(bm: seq<byte>, p: seq<byte>, lo: nat, hi: nat): (r: (seq<byte>, seq<byte>))
    requires |bm| == BLOCK_SIZE && |p| == BLOCK_SIZE && lo <= hi <= ENTRIES
    ensures |r.0| == BLOCK_SIZE && |r.1| == BLOCK_SIZE
    decreases hi
  {
    if lo == hi then (bm, p) else
      var (bm1, p1) := GrowTo(bm, p, lo, hi - 1);
      (AllocBitmap(bm1), PutU64(p1, (hi - 1) * 8, AllocValue(bm1)))
  }

  lemma PutPointer(p: seq<byte>, i: nat, v: nat, j: nat)
    requires |p| == BLOCK_SIZE && i < ENTRIES && j < ENTRIES && v <= U64_MAX
    ensures Pointer(PutU64(p, i * 8, v), j) == if j == i then v else Pointer(p, j)
  {
    if j == i {
      GetPut(p, i * 8, v);
    } else {
      GetPutOther(p, i * 8, v, j * 8);
    }
  }

  /** On a prefix bitmap, growing marks consecutive blocks. */
  lemma {:induction false} GrowBitmap(bm: seq<byte>, p: seq<byte>, lo: nat, hi: nat, m: nat)
    requires |bm| == BLOCK_SIZE && |p| == BLOCK_SIZE && lo <= hi <= ENTRIES && Prefix(bm, m) && m + hi - lo <= BITS
    ensures Prefix(GrowTo(bm, p, lo, hi).0, m + hi - lo)
    decreases hi
  {
    hide Prefix, AllocBitmap, AllocValue, Lowest, PutU64;
    if lo < hi {
      GrowBitmap(bm, p, lo, hi - 1, m);
      AllocIsCounter(GrowTo(bm, p, lo, hi - 1).0, m + hi - 1 - lo);
    }
  }

  lemma GrowValue(bm: seq<byte>, p: seq<byte>, lo: nat, hi: nat, m: nat)
    requires |bm| == BLOCK_SIZE && |p| == BLOCK_SIZE && lo <= hi <= ENTRIES && Prefix(bm, m) && m + hi - lo < BITS
    ensures AllocValue(GrowTo(bm, p, lo, hi).0) == m + hi - lo
  {
    hide Prefix, AllocBitmap, AllocValue, Lowest, PutU64;
    GrowBitmap(bm, p, lo, hi, m);
    AllocIsCounter(GrowTo(bm, p, lo, hi).0, m + hi - lo);
  }

  /** Entries lo .. hi-1 of p set to m, m+1, ... */
  function Consecutive(p: seq<byte>, lo: nat, hi: nat, m: nat): (r: seq<byte>)
    requires |p| == BLOCK_SIZE && lo <= hi <= ENTRIES
    ensures |r| == BLOCK_SIZE
    decreases hi
  {
    if lo == hi then p else PutU64(Consecutive(p, lo, hi - 1, m), (hi - 1) * 8, m + hi - 1 - lo)
  }

  lemma {:induction false} ConsecutiveAt(p: seq<byte>, lo: nat, hi: nat, m: nat, i: nat)
    requires |p| == BLOCK_SIZE && lo <= hi <= ENTRIES && i < ENTRIES && m + hi - lo <= BITS
    ensures Pointer(Consecutive(p, lo, hi, m), i) == if lo <= i < hi then m + i - lo else Pointer(p, i)
    decreases hi
  {
    hide PutU64, Pointer;
    if lo < hi {
      ConsecutiveAt(p, lo, hi - 1, m, i);
      PutPointer(Consecutive(p, lo, hi - 1, m), hi - 1, m + hi - 1 - lo, i);
    }
  }

  /** The new entries hold the marked blocks in order. */
  lemma {:induction false} GrowIsConsecutive(bm: seq<byte>, p: seq<byte>, lo: nat, hi: nat, m: nat)
    requires |bm| == BLOCK_SIZE && |p| == BLOCK_SIZE && lo <= hi <= ENTRIES && Prefix(bm, m) && m + hi - lo <= BITS
    ensures GrowTo(bm, p, lo, hi).1 == Consecutive(p, lo, hi, m)
    decreases hi
  {
    hide Prefix, AllocBitmap, AllocValue, Lowest, PutU64;
    if lo < hi {
      GrowIsConsecutive(bm, p, lo, hi - 1, m);
      GrowValue(bm, p, lo, hi - 1, m);
    }
  }

  lemma GrowPointers(bm: seq<byte>, p: seq<byte>, lo: nat, hi: nat, m: nat, i: nat)
    requires |bm| == BLOCK_SIZE && |p| == BLOCK_SIZE && lo <= hi <= ENTRIES && Prefix(bm, m) && m + hi - lo <= BITS && i < ENTRIES
    ensures Pointer(GrowTo(bm, p, lo, hi).1, i) == if lo <= i < hi then m + i - lo else Pointer(p, i)
  {
    GrowIsConsecutive(bm, p, lo, hi, m);
    ConsecutiveAt(p, lo, hi, m, i);
  }

  /** The disk after file n is grown to newSize bytes and its inode written back. */
  function ExtendDisk(d: Disk, n: nat, newSize: nat): (r: Disk)
    requires ValidDisk(d) && n < MAX_FILES && Size(d, n) <= newSize < MAX_BYTES
    ensures ValidDisk(r)
  {
    var ib := n / INODES_PER_BLOCK;
    var (bm, p) := GrowTo(d[BITMAP_BLOCK], At(d, Head(d, n)), Size(d, n) / BLOCK_SIZE + 1, newSize / BLOCK_SIZE + 1);
    SetBlock(d[BITMAP_BLOCK := bm], Head(d, n), p)[ib := SetSize(d[ib], n % INODES_PER_BLOCK, newSize)]
  }

  /** Growing changes the bitmap, one inode field and one indirect block, in these ways only. */
  ghost predicate Extension(d: Disk, d': Disk, n: nat, newSize: nat, m: nat)
    requires ValidDisk(d) && ValidDisk(d') && n < MAX_FILES && Size(d, n) < MAX_BYTES
  {
    var lo := Size(d, n) / BLOCK_SIZE + 1;
    var hi := newSize / BLOCK_SIZE + 1;
    && Size(d, n) <= newSize < MAX_BYTES
    && FIRST_ALLOCATABLE <= Head(d, n) < NUM_BLOCKS
    && Prefix(d'[BITMAP_BLOCK], m + hi - lo)
    && d'[n / INODES_PER_BLOCK] == SetSize(d[n / INODES_PER_BLOCK], n % INODES_PER_BLOCK, newSize)
    && (forall i :: 0 <= i < ENTRIES ==>
          Pointer(d'[Head(d, n)], i) == if lo <= i < hi then m + i - lo else Pointer(d[Head(d, n)], i))
    && forall b :: 0 <= b < NUM_BLOCKS && b != BITMAP_BLOCK && b != n / INODES_PER_BLOCK && b != Head(d, n) ==>
         d'[b] == d[b]
  }

  lemma ExtensionIntro(d: Disk, n: nat, newSize: nat, m: nat, bm: seq<byte>, p: seq<byte>)
    requires ValidDisk(d) && n < MAX_FILES && Size(d, n) <= newSize < MAX_BYTES
    requires FIRST_ALLOCATABLE <= Head(d, n) < NUM_BLOCKS && |p| == BLOCK_SIZE
    requires Prefix(bm, m + newSize / BLOCK_SIZE - Size(d, n) / BLOCK_SIZE)
    requires forall i :: 0 <= i < ENTRIES ==>
               Pointer(p, i) == if Size(d, n) / BLOCK_SIZE + 1 <= i < newSize / BLOCK_SIZE + 1
                                then m + i - (Size(d, n) / BLOCK_SIZE + 1)
                                else Pointer(d[Head(d, n)], i)
    ensures var ib := n / INODES_PER_BLOCK;
            Extension(d, SetBlock(d[BITMAP_BLOCK := bm], Head(d, n), p)[ib := SetSize(d[ib], n % INODES_PER_BLOCK, newSize)],
                      n, newSize, m)
  {}

  lemma ExtendBlocks(d: Disk, n: nat, newSize: nat, m: nat)
    requires ValidDisk(d) && n < MAX_FILES && Size(d, n) <= newSize < MAX_BYTES
    requires FIRST_ALLOCATABLE <= Head(d, n) < NUM_BLOCKS
    requires Prefix(d[BITMAP_BLOCK], m) && m + newSize / BLOCK_SIZE - Size(d, n) / BLOCK_SIZE <= BITS
    ensures Extension(d, ExtendDisk(d, n, newSize), n, newSize, m)
  {
    hide Prefix, AllocBitmap, AllocValue, Lowest, PutU64, Pointer, Extension, GrowTo;
    var lo, hi := Size(d, n) / BLOCK_SIZE + 1, newSize / BLOCK_SIZE + 1;
    var bm, p := d[BITMAP_BLOCK], d[Head(d, n)];
    GrowBitmap(bm, p, lo, hi, m);
    var g := GrowTo(bm, p, lo, hi);
    forall i | 0 <= i < ENTRIES
      ensures Pointer(g.1, i) == if lo <= i < hi then m + i - lo else Pointer(p, i)
    {
      GrowPointers(bm, p, lo, hi, m, i);
    }
    ExtensionIntro(d, n, newSize, m, g.0, g.1);
  }

  lemma ExtensionOther(d: Disk, d': Disk, n: nat, newSize: nat, m: nat, t: nat)
    requires ValidDisk(d) && ValidDisk(d') && n < MAX_FILES && Size(d, n) < MAX_BYTES
    requires Extension(d, d', n, newSize, m)
    requires t < MAX_FILES && t != n
    requires Used(d, t) ==> FIRST_ALLOCATABLE <= Head(d, t) < NUM_BLOCKS && Head(d, t) != Head(d, n)
    ensures SameMeta(d, d', t)
  {
    SetSizeFields(d[n / INODES_PER_BLOCK], n % INODES_PER_BLOCK, newSize, t % INODES_PER_BLOCK);
  }

  lemma ExtensionOwn(d: Disk, d': Disk, n: nat, newSize: nat, m: nat)
    requires ValidDisk(d) && ValidDisk(d') && n <= INODE_BLOCKS && Size(d, n) < MAX_BYTES
    requires Used(d, n) && Extension(d, d', n, newSize, m)
    ensures Used(d', n) && Size(d', n) == newSize && Head(d', n) == Head(d, n)
    ensures Extends(d, d', n, Held(d, n), m)
  {
    SetSizeFields(d[n / INODES_PER_BLOCK], n % INODES_PER_BLOCK, newSize, n % INODES_PER_BLOCK);
    assert Held(d', n) >= Held(d, n);
  }

  /** Distinct files have distinct indirect blocks. */
  lemma HeadsDiffer(d: Disk, n: nat, t: nat)
    requires Inv(d) && n < MAX_FILES && t < MAX_FILES && n != t && Used(d, n) && Used(d, t)
    ensures Head(d, n) != Head(d, t)
  {
    assert Owns(d, n, 0) && Owned(d, n, 0) == Head(d, n);
    assert Owns(d, t, 0) && Owned(d, t, 0) == Head(d, t);
  }

  /** No data block of any file is an indirect block. */
  lemma DataNotHead(d: Disk, n: nat, t: nat, k: nat)
    requires Inv(d) && n < MAX_FILES && Used(d, n) && Owns(d, t, k) && (t != n || k > 0)
    ensures Owned(d, t, k) != Head(d, n)
  {
    assert Owns(d, n, 0) && Owned(d, n, 0) == Head(d, n);
  }

  /** Growing keeps the invariant, all other files, and the grown file's old bytes. */
  lemma ExtensionInv(d: Disk, d': Disk, n: nat, newSize: nat)
    requires Inv(d) && ValidDisk(d') && n < MAX_FILES && Used(d, n)
    requires Extension(d, d', n, newSize, Frontier(d))
    requires Frontier(d) + newSize / BLOCK_SIZE - Size(d, n) / BLOCK_SIZE <= NUM_BLOCKS
    ensures Inv(d') && Frontier(d') == Frontier(d) + newSize / BLOCK_SIZE - Size(d, n) / BLOCK_SIZE
    ensures Used(d', n) && Size(d', n) == newSize && Head(d', n) == Head(d, n)
    ensures OthersKept(d, d', n)
    ensures forall t: nat, k: nat :: Owns(d, t, k) && (t != n || k > 0) ==>
              At(d', Owned(d, t, k)) == At(d, Owned(d, t, k))
  {
    var m := Frontier(d);
    PrefixLowest(d'[BITMAP_BLOCK], m + newSize / BLOCK_SIZE - Size(d, n) / BLOCK_SIZE);
    ExtensionOwn(d, d', n, newSize, m);
    forall t | 0 <= t < MAX_FILES && t != n
      ensures SameMeta(d, d', t)
    {
      if Used(d, t) {
        HeadInRange(d, t);
        HeadsDiffer(d, n, t);
      }
      ExtensionOther(d, d', n, newSize, m, t);
    }
    InvStep(d, d', n, Held(d, n));
    forall t: nat, k: nat | Owns(d, t, k) && (t != n || k > 0)
      ensures At(d', Owned(d, t, k)) == At(d, Owned(d, t, k))
    {
      DataNotHead(d, n, t, k);
    }
  }

  // ----- storing: one uniform description of the first, middle and last block

  /** Block i of a file after buf has been written at byte position to of that file. */
  function BlockAfter(blk: seq<byte>, i: nat, buf: seq<byte>, to: nat): (r: seq<byte>)
    requires |blk| == BLOCK_SIZE
    ensures |r| == BLOCK_SIZE
    ensures forall o :: 0 <= o < BLOCK_SIZE ==>
              r[o] == if to <= i * BLOCK_SIZE + o < to + |buf| then buf[i * BLOCK_SIZE + o - to] else blk[o]
  {
    seq(BLOCK_SIZE, o requires 0 <= o < BLOCK_SIZE =>
      if to <= i * BLOCK_SIZE + o < to + |buf| then buf[i * BLOCK_SIZE + o - to] else blk[o])
  }

  /** Blocks lo .. hi-1 of the file with pointers ps rewritten in turn. */
  function StoreRange(d: Disk, ps: seq<nat>, buf: seq<byte>, to: nat, lo: nat, hi: nat): (r: Disk)
    requires ValidDisk(d) && lo <= hi <= |ps|
    ensures ValidDisk(r)
    decreases hi
  {
    if lo == hi then d else
      var d1 := StoreRange(d, ps, buf, to, lo, hi - 1);
      SetBlock(d1, ps[hi - 1], BlockAfter(At(d1, ps[hi - 1]), hi - 1, buf, to))
  }

  lemma {:induction false} StoreRangeOther(d: Disk, ps: seq<nat>, buf: seq<byte>, to: nat, lo: nat, hi: nat, b: nat)
    requires ValidDisk(d) && lo <= hi <= |ps| && b < NUM_BLOCKS
    requires forall i :: lo <= i < hi ==> ps[i] != b
    ensures StoreRange(d, ps, buf, to, lo, hi)[b] == d[b]
    decreases hi
  {
    if lo < hi {
      StoreRangeOther(d, ps, buf, to, lo, hi - 1, b);
    }
  }

  lemma {:induction false} StoreRangeAt(d: Disk, ps: seq<nat>, buf: seq<byte>, to: nat, lo: nat, hi: nat, i: nat)
    requires ValidDisk(d) && lo <= i < hi <= |ps| && ps[i] < NUM_BLOCKS
    requires forall j :: lo <= j < hi && j != i ==> ps[j] != ps[i]
    ensures StoreRange(d, ps, buf, to, lo, hi)[ps[i]] == BlockAfter(d[ps[i]], i, buf, to)
    decreases hi
  {
    if i < hi - 1 {
      StoreRangeAt(d, ps, buf, to, lo, hi - 1, i);
    } else {
      StoreRangeOther(d, ps, buf, to, lo, hi - 1, ps[i]);
    }
  }

  // ----- the write operation

  /** What a write of buf at position to may do to a file's bytes.  Bytes of a gap between the
      old end of the file and `to` are left open. */
  ghost predicate Overwrite(old': seq<byte>, new': seq<byte>, buf: seq<byte>, to: nat) {
    && |new'| == (if to + |buf| > |old'| then to + |buf| else |old'|)
    && new'[to..to + |buf|] == buf
    && forall x :: 0 <= x < |old'| && !(to <= x < to + |buf|) ==> new'[x] == old'[x]
  }

  /** New blocks a write needs. */
  function Growth(size: nat, end: nat): nat {
    if end > size then end / BLOCK_SIZE - size / BLOCK_SIZE else 0
  }

  /** The stored blocks of file n are its data blocks: distinct, on the disk, and nobody else's. */
  lemma DataPointers(d: Disk, n: nat, i: nat)
    requires Inv(d) && n < MAX_FILES && Used(d, n) && i <= Size(d, n) / BLOCK_SIZE
    ensures var ps := Data(d, n);
            && Owns(d, n, i + 1) && ps[i] == Owned(d, n, i + 1)
            && FIRST_ALLOCATABLE <= ps[i] < NUM_BLOCKS
            && forall j :: 0 <= j <= Size(d, n) / BLOCK_SIZE && j != i ==> ps[j] != ps[i]
  {
    var ps := Data(d, n);
    assert Owns(d, n, i + 1) && ps[i] == Owned(d, n, i + 1);
    forall j | 0 <= j <= Size(d, n) / BLOCK_SIZE && j != i
      ensures ps[j] != ps[i]
    {
      assert Owns(d, n, j + 1) && ps[j] == Owned(d, n, j + 1);
    }
  }

  /** Storing touches no inode, no bitmap, no indirect block and no block of another file. */
  lemma StoreFrame(d: Disk, n: nat, buf: seq<byte>, to: nat, b: nat)
    requires Inv(d) && n < MAX_FILES && Used(d, n) && to + |buf| <= Size(d, n) && b < NUM_BLOCKS
    requires b < FIRST_ALLOCATABLE || exists t: nat, k: nat :: Owns(d, t, k) && Owned(d, t, k) == b && (t != n || k == 0)
    ensures var ps := Data(d, n);
            StoreRange(d, ps, buf, to, to / BLOCK_SIZE, (to + |buf|) / BLOCK_SIZE + 1)[b] == d[b]
  {
    var ps := Data(d, n);
    var lo, hi := to / BLOCK_SIZE, (to + |buf|) / BLOCK_SIZE + 1;
    forall i | lo <= i < hi
      ensures ps[i] != b
    {
      DataPointers(d, n, i);
    }
    StoreRangeOther(d, ps, buf, to, lo, hi, b);
  }

  /** Every block a file's size reaches holds the old bytes overlaid with the stored ones. */
  lemma StoreData(d: Disk, n: nat, buf: seq<byte>, to: nat, i: nat)
    requires Inv(d) && n < MAX_FILES && Used(d, n) && to + |buf| <= Size(d, n)
    requires i <= Size(d, n) / BLOCK_SIZE
    ensures var ps := Data(d, n);
            ps[i] < NUM_BLOCKS &&
            StoreRange(d, ps, buf, to, to / BLOCK_SIZE, (to + |buf|) / BLOCK_SIZE + 1)[ps[i]]
              == BlockAfter(d[ps[i]], i, buf, to)
  {
    hide InRange, Disjoint, SizesOk, Prefix, BlockAfter, StoreRange, Owned, Data;
    var ps := Data(d, n);
    var lo, hi := to / BLOCK_SIZE, (to + |buf|) / BLOCK_SIZE + 1;
    DataPointers(d, n, i);
    if lo <= i < hi {
      StoreRangeAt(d, ps, buf, to, lo, hi, i);
    } else {
      StoreRangeOther(d, ps, buf, to, lo, hi, ps[i]);
      BlockUntouched(d[ps[i]], i, buf, to);
    }
  }

  lemma BlockUntouched(blk: seq<byte>, i: nat, buf: seq<byte>, to: nat)
    requires |blk| == BLOCK_SIZE && !(to / BLOCK_SIZE <= i <= (to + |buf|) / BLOCK_SIZE)
    ensures BlockAfter(blk, i, buf, to) == blk
  {}

  function StoreDisk(d: Disk, n: nat, buf: seq<byte>, to: nat): (r: Disk)
    requires ValidDisk(d) && n < MAX_FILES && to + |buf| < MAX_BYTES
    ensures ValidDisk(r)
  {
    StoreRange(d, Data(d, n), buf, to, to / BLOCK_SIZE, (to + |buf|) / BLOCK_SIZE + 1)
  }

  lemma StoreMeta(d: Disk, n: nat, buf: seq<byte>, to: nat, t: nat)
    requires Inv(d) && n < MAX_FILES && Used(d, n) && to + |buf| <= Size(d, n) < MAX_BYTES && t < MAX_FILES
    ensures SameMeta(d, StoreDisk(d, n, buf, to), t)
  {
    StoreFrame(d, n, buf, to, t / INODES_PER_BLOCK);
    if Used(d, t) {
      HeadInRange(d, t);
      assert Owns(d, t, 0) && Owned(d, t, 0) == Head(d, t);
      StoreFrame(d, n, buf, to, Head(d, t));
    }
  }

  lemma StoreInv(d: Disk, n: nat, buf: seq<byte>, to: nat)
    requires Inv(d) && n < MAX_FILES && Used(d, n) && to + |buf| <= Size(d, n) < MAX_BYTES
    ensures var d' := StoreDisk(d, n, buf, to);
            Inv(d') && Frontier(d') == Frontier(d) && OthersKept(d, d', n) && SameMeta(d, d', n)
  {
    var d' := StoreDisk(d, n, buf, to);
    StoreFrame(d, n, buf, to, BITMAP_BLOCK);
    forall t | 0 <= t < MAX_FILES
      ensures SameMeta(d, d', t)
    {
      StoreMeta(d, n, buf, to, t);
    }
    assert SameMeta(d, d', n);
    InvStep(d, d', n, Held(d, n));
  }

  /** Storing overlays buf on the file's bytes. */
  lemma StoreBytes(d: Disk, n: nat, buf: seq<byte>, to: nat)
    requires Inv(d) && n < MAX_FILES && Used(d, n) && to + |buf| <= Size(d, n) < MAX_BYTES
    requires SameMeta(d, StoreDisk(d, n, buf, to), n)
    ensures Overwrite(Contents(d, n), Contents(StoreDisk(d, n, buf, to), n), buf, to)
  {
    var c := Contents(StoreDisk(d, n, buf, to), n);
    forall x | 0 <= x < Size(d, n)
      ensures c[x] == if to <= x < to + |buf| then buf[x - to] else Contents(d, n)[x]
    {
      StoreByte(d, n, buf, to, x);
    }
    OverwriteIntro(Contents(d, n), c, buf, to);
  }

  lemma StoreByte(d: Disk, n: nat, buf: seq<byte>, to: nat, x: nat)
    requires Inv(d) && n < MAX_FILES && Used(d, n) && to + |buf| <= Size(d, n) < MAX_BYTES && x < Size(d, n)
    ensures var ps := Data(d, n);
            ByteAt(StoreDisk(d, n, buf, to), ps, x) == if to <= x < to + |buf| then buf[x - to] else ByteAt(d, ps, x)
  {
    StoreData(d, n, buf, to, x / BLOCK_SIZE);
    ByteOfBlock(d, StoreDisk(d, n, buf, to), Data(d, n), buf, to, x);
  }

  lemma ByteOfBlock(d: Disk, d': Disk, ps: seq<nat>, buf: seq<byte>, to: nat, x: nat)
    requires ValidDisk(d) && ValidDisk(d') && x / BLOCK_SIZE < |ps| && ps[x / BLOCK_SIZE] < NUM_BLOCKS
    requires d'[ps[x / BLOCK_SIZE]] == BlockAfter(d[ps[x / BLOCK_SIZE]], x / BLOCK_SIZE, buf, to)
    ensures ByteAt(d', ps, x) == if to <= x < to + |buf| then buf[x - to] else ByteAt(d, ps, x)
  {
    assert x == x / BLOCK_SIZE * BLOCK_SIZE + x % BLOCK_SIZE;
  }

  lemma OverwriteIntro(a: seq<byte>, c: seq<byte>, buf: seq<byte>, to: nat)
    requires |c| == |a| && to + |buf| <= |a|
    requires forall x :: 0 <= x < |a| ==> c[x] == if to <= x < to + |buf| then buf[x - to] else a[x]
    ensures Overwrite(a, c, buf, to)
  {}

  lemma StoreAbs(d: Disk, n: nat, buf: seq<byte>, to: nat)
    requires Inv(d) && n < MAX_FILES && Used(d, n) && to + |buf| <= Size(d, n) < MAX_BYTES
    requires Inv(StoreDisk(d, n, buf, to))
    requires OthersKept(d, StoreDisk(d, n, buf, to), n) && SameMeta(d, StoreDisk(d, n, buf, to), n)
    ensures var d' := StoreDisk(d, n, buf, to);
            Abs(d') == Abs(d)[n := Contents(d', n)]
  {
    var d' := StoreDisk(d, n, buf, to);
    forall t: nat, k: nat | t != n && Owns(d, t, k)
      ensures At(d', Owned(d, t, k)) == At(d, Owned(d, t, k))
    {
      StoreFrame(d, n, buf, to, Owned(d, t, k));
    }
    AbsStep(d, d', n);
  }

  /** The disk on which the bytes are stored: grown first when the write passes the end. */
  function Grown(d: Disk, n: nat, end: nat): (r: Disk)
    requires ValidDisk(d) && n < MAX_FILES && end < MAX_BYTES
    ensures ValidDisk(r)
  {
    if end > Size(d, n) then ExtendDisk(d, n, end) else d
  }

  lemma GrownInv(d: Disk, n: nat, end: nat)
    requires Inv(d) && n < MAX_FILES && Used(d, n) && end < MAX_BYTES
    requires Frontier(d) + Growth(Size(d, n), end) <= NUM_BLOCKS
    ensures var d' := Grown(d, n, end);
            && Inv(d') && Frontier(d') == Frontier(d) + Growth(Size(d, n), end)
            && Used(d', n) && Size(d', n) == (if end > Size(d, n) then end else Size(d, n))
            && Abs(d') == Abs(d)[n := Contents(d', n)]
            && Contents(d', n)[..Size(d, n)] == Contents(d, n)
  {
    var d' := Grown(d, n, end);
    if end > Size(d, n) {
      HeadInRange(d, n);
      ExtendBlocks(d, n, end, Frontier(d));
      ExtensionInv(d, d', n, end);
      AbsStep(d, d', n);
      ExtensionBytes(d, d', n, end);
    } else {
      assert Abs(d) == Abs(d)[n := Contents(d, n)];
    }
  }

  lemma ExtensionBytes(d: Disk, d': Disk, n: nat, newSize: nat)
    requires Inv(d) && ValidDisk(d') && n < MAX_FILES && Used(d, n) && newSize < MAX_BYTES
    requires Extension(d, d', n, newSize, Frontier(d))
    requires Size(d', n) == newSize && Head(d', n) == Head(d, n)
    requires forall k: nat :: Owns(d, n, k) && k > 0 ==> At(d', Owned(d, n, k)) == At(d, Owned(d, n, k))
    ensures Contents(d', n)[..Size(d, n)] == Contents(d, n)
  {
    forall x | 0 <= x < Size(d, n)
      ensures Contents(d', n)[x] == Contents(d, n)[x]
    {
      var i := x / BLOCK_SIZE;
      assert Owns(d, n, i + 1) && Owned(d, n, i + 1) == Data(d, n)[i] == Data(d', n)[i];
    }
  }

  lemma StoreRefines(d: Disk, n: nat, buf: seq<byte>, to: nat)
    requires Inv(d) && n in Abs(d) && to + |buf| <= |Abs(d)[n]|
    ensures var d' := StoreDisk(d, n, buf, to);
            && Inv(d') && Frontier(d') == Frontier(d)
            && n in Abs(d') && Abs(d') == Abs(d)[n := Abs(d')[n]]
            && Overwrite(Abs(d)[n], Abs(d')[n], buf, to)
  {
    StoreInv(d, n, buf, to);
    StoreBytes(d, n, buf, to);
    StoreAbs(d, n, buf, to);
  }

  lemma GrownRefines(d: Disk, n: nat, end: nat)
    requires Inv(d) && n in Abs(d) && end < MAX_BYTES
    requires Frontier(d) + Growth(|Abs(d)[n]|, end) <= NUM_BLOCKS
    ensures Inv(Grown(d, n, end))
    ensures Frontier(Grown(d, n, end)) == Frontier(d) + Growth(|Abs(d)[n]|, end)
    ensures n in Abs(Grown(d, n, end)) && Abs(Grown(d, n, end)) == Abs(d)[n := Abs(Grown(d, n, end))[n]]
    ensures GrownBytes(Abs(d)[n], Abs(Grown(d, n, end))[n], end)
  {
    GrownInv(d, n, end);
  }

  /** b keeps the bytes of a and reaches at least end. */
  ghost predicate GrownBytes(a: seq<byte>, b: seq<byte>, end: nat) {
    |b| == (if end > |a| then end else |a|) && b[..|a|] == a
  }

  lemma WriteCompose(fs: Files, fs1: Files, fs2: Files, n: nat, buf: seq<byte>, to: nat)
    requires n in fs && n in fs1 && n in fs2
    requires fs1 == fs[n := fs1[n]] && fs2 == fs1[n := fs2[n]]
    requires GrownBytes(fs[n], fs1[n], to + |buf|) && Overwrite(fs1[n], fs2[n], buf, to)
    ensures fs2 == fs[n := fs2[n]] && Overwrite(fs[n], fs2[n], buf, to)
  {
    assert fs[n := fs1[n]][n := fs2[n]] == fs[n := fs2[n]];
    assert forall x :: 0 <= x < |fs[n]| ==> fs[n][x] == fs1[n][..|fs[n]|][x];
  }

  /** Only file n changes, and it is overwritten. */
  ghost predicate Wrote(fs: Files, fs': Files, n: nat, buf: seq<byte>, to: nat) {
    n in fs && n in fs' && fs' == fs[n := fs'[n]] && Overwrite(fs[n], fs'[n], buf, to)
  }

  /** Writing overwrites exactly the requested range of one file and keeps every other file. */
  lemma WriteRefines(d: Disk, n: nat, buf: seq<byte>, to: nat, end: nat, grown: Disk, d': Disk)
    requires Inv(d) && n in Abs(d) && end == to + |buf| < MAX_BYTES
    requires grown == Grown(d, n, end) && d' == StoreDisk(grown, n, buf, to)
    requires Frontier(d) + Growth(|Abs(d)[n]|, end) <= NUM_BLOCKS
    ensures Inv(d') && Frontier(d') == Frontier(d) + Growth(|Abs(d)[n]|, end)
    ensures Wrote(Abs(d), Abs(d'), n, buf, to)
  {
    GrownRefines(d, n, end);
    WriteFromGrown(d, grown, n, buf, to);
  }

  lemma WriteFromGrown(d: Disk, d1: Disk, n: nat, buf: seq<byte>, to: nat)
    requires Inv(d) && Inv(d1) && n in Abs(d) && n in Abs(d1) && to + |buf| < MAX_BYTES
    requires Abs(d1) == Abs(d)[n := Abs(d1)[n]] && GrownBytes(Abs(d)[n], Abs(d1)[n], to + |buf|)
    ensures var d' := StoreDisk(d1, n, buf, to);
            && Inv(d') && Frontier(d') == Frontier(d1)
            && n in Abs(d') && Abs(d') == Abs(d)[n := Abs(d')[n]]
            && Overwrite(Abs(d)[n], Abs(d')[n], buf, to)
  {
    StoreRefines(d1, n, buf, to);
    WriteCompose(Abs(d), Abs(d1), Abs(StoreDisk(d1, n, buf, to)), n, buf, to);
  }

  /** When the blocks a write needs do not fit, the code still reports success but the frontier
      passes the end of the disk; so room for the growth is the exact condition. */
  lemma WriteKeepsInvariantIff(d: Disk, n: nat, buf: seq<byte>, to: nat, end: nat, grown: Disk, d': Disk)
    requires Inv(d) && n in Abs(d) && end == to + |buf| < MAX_BYTES
    requires grown == Grown(d, n, end) && d' == StoreDisk(grown, n, buf, to)
    ensures Inv(d') <==> Frontier(d) + Growth(|Abs(d)[n]|, end) <= NUM_BLOCKS
  {
    if Frontier(d) + Growth(|Abs(d)[n]|, end) <= NUM_BLOCKS {
      WriteRefines(d, n, buf, to, end, grown, d');
    } else {
      OverfullBitmap(d, n, buf, to, end, grown);
      PrefixLowest(d'[BITMAP_BLOCK], Frontier(d) + Growth(Size(d, n), end));
    }
  }

  lemma OverfullBitmap(d: Disk, n: nat, buf: seq<byte>, to: nat, end: nat, grown: Disk)
    requires Inv(d) && n < MAX_FILES && Used(d, n) && Size(d, n) < end == to + |buf| < MAX_BYTES
    requires grown == ExtendDisk(d, n, end)
    ensures Prefix(StoreDisk(grown, n, buf, to)[BITMAP_BLOCK], Frontier(d) + Growth(Size(d, n), end))
  {
    hide Prefix, ExtendDisk, GrowTo, Disjoint, SizesOk, StoreRange, SetSize, UsedAt, SizeAt, HeadAt;
    var m := Frontier(d);
    HeadInRange(d, n);
    ExtendBlocks(d, n, end, m);
    SetSizeFields(d[n / INODES_PER_BLOCK], n % INODES_PER_BLOCK, end, n % INODES_PER_BLOCK);
    var ps := Data(grown, n);
    forall i | 0 <= i < end / BLOCK_SIZE + 1
      ensures ps[i] != BITMAP_BLOCK
    {
      if i <= Size(d, n) / BLOCK_SIZE {
        assert Owns(d, n, i + 1) && Owned(d, n, i + 1) == Pointer(d[Head(d, n)], i);
      }
    }
    StoreRangeOther(grown, ps, buf, to, to / BLOCK_SIZE, end / BLOCK_SIZE + 1, BITMAP_BLOCK);
  }
}
