/** The effect of each file system operation on the disk as a value, and the proof that this
    effect refines an operation on the abstract map from inode numbers to byte sequences. */
module Operations {
  import opened Bytes
  import opened Storage
  import opened Bitmap
  import opened Layout

  /** A block write; writes off the disk are dropped. */
  function SetBlock(d: Disk, b: nat, blk: seq<byte>): (r: Disk)
    requires ValidDisk(d) && |blk| == BLOCK_SIZE
    ensures ValidDisk(r)
  {
    if b < NUM_BLOCKS then d[b := blk] else d
  }

  // ----- format

  /** The disk with its first k blocks zeroed. */
  function ZeroBlocks(d: Disk, k: nat): (r: Disk)
    requires ValidDisk(d)
    ensures ValidDisk(r)
  {
    var zero := ZeroBlock();
    seq(NUM_BLOCKS, b requires 0 <= b < NUM_BLOCKS => if b < k then zero else d[b])
  }

  lemma ZeroNext(d: Disk, k: nat)
    requires ValidDisk(d) && k < NUM_BLOCKS
    ensures ZeroBlocks(d, 0) == d
    ensures ZeroBlocks(d, k)[k := ZeroBlock()] == ZeroBlocks(d, k + 1)
  {}

  function FormatDisk(d: Disk): (r: Disk)
    requires ValidDisk(d)
    ensures ValidDisk(r)
  {
    ZeroBlocks(d, FIRST_ALLOCATABLE)
  }

  /** Formatting any disk yields the empty file system, with nothing allocated. */
  lemma FormatRefines(d: Disk)
    requires ValidDisk(d)
    ensures Inv(FormatDisk(d))
    ensures Abs(FormatDisk(d)) == map[]
    ensures Frontier(FormatDisk(d)) == FIRST_ALLOCATABLE
  {
    var f := FormatDisk(d);
    ZeroPrefix(f[BITMAP_BLOCK]);
    PrefixLowest(f[BITMAP_BLOCK], FIRST_ALLOCATABLE);
    forall n | 0 <= n < MAX_FILES
      ensures !Used(f, n)
    {
      assert f[n / INODES_PER_BLOCK] == ZeroBlock();
      assert (0 as byte) & 1 == 0;
    }
    assert forall n: nat, k: nat :: !Owns(f, n, k);
  }

  // ----- one lemma for every operation that touches one file

  ghost predicate OthersKept(d: Disk, d': Disk, n: nat)
    requires ValidDisk(d) && ValidDisk(d')
  {
    forall t :: 0 <= t < MAX_FILES && t != n ==> SameMeta(d, d', t)
  }

  lemma OwnedKept(d: Disk, d': Disk, n: nat, t: nat, k: nat)
    requires ValidDisk(d) && ValidDisk(d') && OthersKept(d, d', n)
    requires t != n && Owns(d', t, k)
    ensures Owns(d, t, k) && Owned(d', t, k) == Owned(d, t, k)
  {
    assert SameMeta(d, d', t);
  }

  /** File n keeps its first `base` blocks and gets the blocks m, m+1, ... after those. */
  ghost predicate Extends(d: Disk, d': Disk, n: nat, base: nat, m: nat)
    requires ValidDisk(d) && ValidDisk(d') && n < MAX_FILES
  {
    && (base > 0 ==> Used(d, n) && Size(d, n) < MAX_BYTES && base == Held(d, n))
    && n <= INODE_BLOCKS && Used(d', n) && Size(d', n) < MAX_BYTES
    && base <= Held(d', n)
    && (forall k :: 0 <= k < base ==> Owned(d', n, k) == Owned(d, n, k))
    && (forall k :: base <= k < Held(d', n) ==> Owned(d', n, k) == m + k - base)
  }

  /** An operation that keeps every other file's metadata and extends file n with the blocks at
      the frontier keeps the global invariant. */
  lemma InvStep(d: Disk, d': Disk, n: nat, base: nat)
    requires Inv(d) && ValidDisk(d') && n < MAX_FILES
    requires Prefix(d'[BITMAP_BLOCK], Frontier(d')) && Frontier(d') <= NUM_BLOCKS
    requires OthersKept(d, d', n) && Extends(d, d', n, base, Frontier(d))
    requires Frontier(d) + Held(d', n) - base <= Frontier(d')
    ensures Inv(d')
  {
    var m := Frontier(d);
    forall t | 0 <= t < MAX_FILES && Used(d', t)
      ensures t <= INODE_BLOCKS && Size(d', t) < MAX_BYTES
    {
      assert t != n ==> SameMeta(d, d', t);
    }
    forall t: nat, k: nat | Owns(d', t, k)
      ensures FIRST_ALLOCATABLE <= Owned(d', t, k) < Frontier(d')
    {
      OwnedRange(d, d', n, base, t, k);
    }
    forall t: nat, k: nat, t': nat, k': nat |
      Owns(d', t, k) && Owns(d', t', k') && Owned(d', t, k) == Owned(d', t', k')
      ensures t == t' && k == k'
    {
      OwnedRange(d, d', n, base, t, k);
      OwnedRange(d, d', n, base, t', k');
    }
  }

  /** Old blocks stay below the old frontier and new blocks start at it. */
  lemma OwnedRange(d: Disk, d': Disk, n: nat, base: nat, t: nat, k: nat)
    requires Inv(d) && ValidDisk(d') && n < MAX_FILES
    requires OthersKept(d, d', n) && Extends(d, d', n, base, Frontier(d))
    requires Owns(d', t, k)
    ensures t != n || k < base ==>
              Owns(d, t, k) && FIRST_ALLOCATABLE <= Owned(d', t, k) == Owned(d, t, k) < Frontier(d)
    ensures t == n && k >= base ==> Owned(d', t, k) == Frontier(d) + k - base
  {
    if t != n {
      OwnedKept(d, d', n, t, k);
    } else if k < base {
      assert Owns(d, t, k);
    }
  }

  // ----- create

  function NewInode(blk: seq<byte>, s: nat, head: nat): (r: seq<byte>)
    requires |blk| == BLOCK_SIZE && s < INODES_PER_BLOCK
    ensures |r| == BLOCK_SIZE
  {
    SetHead(SetUsed(SetSize(blk, s, 0), s), s, head)
  }

  function CreateDisk(d: Disk, n: nat): (r: Disk)
    requires ValidDisk(d) && n <= INODE_BLOCKS
    ensures ValidDisk(r)
  {
    var ib := n / INODES_PER_BLOCK;
    var head := AllocValue(d[BITMAP_BLOCK]);
    var d1 := SetBlock(d, BITMAP_BLOCK, AllocBitmap(d[BITMAP_BLOCK]));
    var d2 := SetBlock(d1, ib, NewInode(d[ib], n % INODES_PER_BLOCK, head));
    var first := AllocValue(d2[BITMAP_BLOCK]);
    var d3 := SetBlock(d2, BITMAP_BLOCK, AllocBitmap(d2[BITMAP_BLOCK]));
    SetBlock(d3, head, PutU64(ZeroBlock(), 0, first))
  }

  lemma NewInodeFields(blk: seq<byte>, s: nat, head: nat, t: nat)
    requires |blk| == BLOCK_SIZE && s < INODES_PER_BLOCK && t < INODES_PER_BLOCK && head <= U64_MAX
    ensures t != s ==> SameInode(NewInode(blk, s, head), blk, t)
    ensures UsedAt(NewInode(blk, s, head), s)
    ensures SizeAt(NewInode(blk, s, head), s) == 0 && HeadAt(NewInode(blk, s, head), s) == head
  {
    var b1 := SetSize(blk, s, 0);
    SetSizeFields(blk, s, 0, s);
    SetSizeFields(blk, s, 0, t);
    SetUsedFields(b1, s, s);
    SetUsedFields(b1, s, t);
    SetHeadFields(SetUsed(b1, s), s, head, s);
    SetHeadFields(SetUsed(b1, s), s, head, t);
  }

  /** Create changes the bitmap, one inode block and the new indirect block, in these ways only. */
  ghost predicate Creation(d: Disk, d': Disk, n: nat, m: nat)
    requires ValidDisk(d) && ValidDisk(d') && n <= INODE_BLOCKS
  {
    && FIRST_ALLOCATABLE <= m && m + 2 <= NUM_BLOCKS
    && Prefix(d'[BITMAP_BLOCK], m + 2)
    && d'[0] == NewInode(d[0], n, m)
    && d'[m] == PutU64(ZeroBlock(), 0, m + 1)
    && forall b :: 0 < b < NUM_BLOCKS && b != BITMAP_BLOCK && b != m ==> d'[b] == d[b]
  }

  lemma CreateBlocks(d: Disk, n: nat, m: nat)
    requires ValidDisk(d) && n <= INODE_BLOCKS
    requires Prefix(d[BITMAP_BLOCK], m) && FIRST_ALLOCATABLE <= m <= NUM_BLOCKS - 2
    ensures Creation(d, CreateDisk(d, n), n, m)
  {
    hide Prefix, AllocBitmap, AllocValue, NewInode, PutU64;
    AllocIsCounter(d[BITMAP_BLOCK], m);
    AllocIsCounter(AllocBitmap(d[BITMAP_BLOCK]), m + 1);
    assert n / INODES_PER_BLOCK == 0 && n % INODES_PER_BLOCK == n;
  }

  lemma CreationOther(d: Disk, d': Disk, n: nat, m: nat, t: nat)
    requires ValidDisk(d) && ValidDisk(d') && n <= INODE_BLOCKS && Creation(d, d', n, m)
    requires t < MAX_FILES && t != n
    requires Used(d, t) ==> FIRST_ALLOCATABLE <= Head(d, t) < m
    ensures SameMeta(d, d', t)
  {
    hide NewInode, Prefix, UsedAt, SizeAt, HeadAt, PutU64;
    NewInodeFields(d[0], n, m, t % INODES_PER_BLOCK);
  }

  lemma CreationNew(d: Disk, d': Disk, n: nat, m: nat)
    requires ValidDisk(d) && ValidDisk(d') && n <= INODE_BLOCKS && Creation(d, d', n, m)
    ensures Used(d', n) && Size(d', n) == 0 && Extends(d, d', n, 0, m)
  {
    hide NewInode, Prefix, UsedAt, SizeAt, HeadAt, PutU64, GetU64;
    GetPut(ZeroBlock(), 0, m + 1);
    NewInodeFields(d[0], n, m, n);
  }

  lemma HeadInRange(d: Disk, n: nat)
    requires Inv(d) && n < MAX_FILES && Used(d, n)
    ensures FIRST_ALLOCATABLE <= Head(d, n) < Frontier(d)
  {
    assert Owns(d, n, 0) && Owned(d, n, 0) == Head(d, n);
  }

  lemma CreationAbs(d: Disk, d': Disk, n: nat)
    requires Inv(d) && ValidDisk(d') && n <= INODE_BLOCKS && Creation(d, d', n, Frontier(d))
    ensures Inv(d') && Abs(d') == Abs(d)[n := []] && Frontier(d') == Frontier(d) + 2
  {
    hide Prefix, NewInode, Disjoint, SizesOk, Contents, Abs, Extends, PutU64, SameMeta;
    PrefixLowest(d'[BITMAP_BLOCK], Frontier(d) + 2);
    CreationNew(d, d', n, Frontier(d));
    forall t | 0 <= t < MAX_FILES && t != n
      ensures SameMeta(d, d', t)
    {
      if Used(d, t) {
        HeadInRange(d, t);
      }
      CreationOther(d, d', n, Frontier(d), t);
    }
    InvStep(d, d', n, 0);
    forall t: nat, k: nat | Owns(d, t, k)
      ensures At(d', Owned(d, t, k)) == At(d, Owned(d, t, k))
    {}
    AbsStep(d, d', n);
  }

  lemma FileKept(d: Disk, d': Disk, t: nat)
    requires Inv(d) && Inv(d') && t < MAX_FILES && SameMeta(d, d', t)
    requires forall k: nat :: Owns(d, t, k) ==> At(d', Owned(d, t, k)) == At(d, Owned(d, t, k))
    ensures t in Abs(d') <==> t in Abs(d)
    ensures t in Abs(d) ==> Abs(d')[t] == Abs(d)[t]
  {
    if Used(d, t) {
      ContentsFrame(d, d', t);
    }
  }

  /** If the other files' metadata and data blocks are kept, only file n changes. */
  lemma AbsStep(d: Disk, d': Disk, n: nat)
    requires Inv(d) && Inv(d') && n < MAX_FILES && Used(d', n) && OthersKept(d, d', n)
    requires forall t: nat, k: nat :: t != n && Owns(d, t, k) ==> At(d', Owned(d, t, k)) == At(d, Owned(d, t, k))
    ensures Abs(d') == Abs(d)[n := Contents(d', n)]
  {
    forall t: nat | t != n
      ensures t in Abs(d') <==> t in Abs(d)
      ensures t in Abs(d) ==> Abs(d')[t] == Abs(d)[t]
    {
      if t < MAX_FILES {
        assert SameMeta(d, d', t);
        FileKept(d, d', t);
      }
    }
    MapStep(Abs(d), Abs(d'), n);
  }

  lemma MapStep(fs: Files, fs': Files, n: nat)
    requires n in fs'
    requires forall t: nat :: t != n ==> (t in fs' <==> t in fs) && (t in fs ==> fs'[t] == fs[t])
    ensures fs' == fs[n := fs'[n]]
  {}

  /** Creating a file binds its inode to the empty byte sequence and keeps every other file. */
  lemma CreateRefines(d: Disk, n: nat)
    requires Inv(d) && n <= INODE_BLOCKS && Frontier(d) + 2 <= NUM_BLOCKS
    ensures Inv(CreateDisk(d, n))
    ensures Abs(CreateDisk(d, n)) == Abs(d)[n := []]
    ensures Frontier(CreateDisk(d, n)) == Frontier(d) + 2
  {
    var d' := CreateDisk(d, n);
    CreateBlocks(d, n, Frontier(d));
    CreationAbs(d, d', n);
  }

  /** Without room for two blocks the code still reports success, but the invariant is gone. */
  lemma CreateKeepsInvariantIff(d: Disk, n: nat)
    requires Inv(d) && n <= INODE_BLOCKS
    ensures Inv(CreateDisk(d, n)) <==> Frontier(d) + 2 <= NUM_BLOCKS
  {
    hide Prefix, AllocBitmap, AllocValue, CreateDisk, SizesOk, InRange, Disjoint;
    if Frontier(d) + 2 <= NUM_BLOCKS {
      CreateRefines(d, n);
    } else {
      var m := Frontier(d);
      AllocIsCounter(d[BITMAP_BLOCK], m);
      AllocIsCounter(AllocBitmap(d[BITMAP_BLOCK]), m + 1);
      CreateBitmap(d, n);
      PrefixLowest(CreateDisk(d, n)[BITMAP_BLOCK], m + 2);
    }
  }

  lemma CreateBitmap(d: Disk, n: nat)
    requires ValidDisk(d) && n <= INODE_BLOCKS
    requires AllocValue(d[BITMAP_BLOCK]) != BITMAP_BLOCK
    ensures CreateDisk(d, n)[BITMAP_BLOCK] == AllocBitmap(AllocBitmap(d[BITMAP_BLOCK]))
  {
    hide AllocBitmap, AllocValue, NewInode, PutU64;
  }
}
