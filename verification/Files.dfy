/** The file operations as they run on the device: local block buffers, loops over blocks, and
    reads and writes of whole blocks. */
module FileOps {
  import opened Bytes
  import opened Storage
  import opened Bitmap
  import opened Layout
  import opened Operations
  import opened Writing
  import opened Effects

  const INODE_SIZE: nat := 32

  function DivUp(a: nat, b: nat): nat
    requires b > 0
  {
    if a % b == 0 then a / b else a / b + 1
  }

  /** memcpy of src into the buffer dst at offset off. */
  function Splice(dst: seq<byte>, off: nat, src: seq<byte>): (r: seq<byte>)
    requires off + |src| <= |dst|
    ensures |r| == |dst|
  {
    dst[..off] + src + dst[off + |src|..]
  }

  /** Each of the three ways the code cuts the buffer (single or first, middle, last block)
      copies precisely the bytes that belong in block i. */
  lemma SpliceIsBlockAfter(blk: seq<byte>, i: nat, buffer: seq<byte>, howMany: nat, to: nat, off: nat, a: nat, b: nat)
    requires |blk| == BLOCK_SIZE && a <= b <= howMany <= |buffer| && off + b - a <= BLOCK_SIZE
    requires i * BLOCK_SIZE + off == to + a
    requires a == 0 || off == 0
    requires b == howMany || off + b - a == BLOCK_SIZE
    ensures Splice(blk, off, buffer[a..b]) == BlockAfter(blk, i, buffer[..howMany], to)
  {}

  /** The size check in 64-bit arithmetic decides "past the end" unless the sum wraps to a value
      within the size. */
  predicate PastEnd(from: nat, howMany: nat, size: nat) {
    (from + howMany) % (U64_MAX + 1) > size
  }

  lemma PastEndExact(from: nat, howMany: nat, size: nat)
    requires size <= U64_MAX && from <= U64_MAX && howMany <= U64_MAX
    ensures (PastEnd(from, howMany, size) <==> from + howMany > size)
            <==> (from + howMany <= U64_MAX || from + howMany - U64_MAX - 1 > size)
  {
    if from + howMany > U64_MAX {
      assert (from + howMany) % (U64_MAX + 1) == from + howMany - U64_MAX - 1;
    }
  }

  /** From the largest position, one byte is never past the end of any file, although it lies outside. */
  lemma PastEndWraps(size: nat)
    requires size <= U64_MAX
    ensures !PastEnd(U64_MAX, 1, size) && U64_MAX + 1 > size
  {
    PastEndExact(U64_MAX, 1, size);
  }

  class FileSystem {
    const device: Device
    const bitmap: BlockBitmap
    var inodesPerBlock: int
    var numberInodeBlocks: nat
    var numberBitmapBlocks: nat

    ghost predicate Wired() {
      device.Valid() && bitmap.device == device
    }

    /** The geometry that Format leaves behind. */
    ghost predicate Mounted()
      reads this, bitmap
    {
      && Wired() && bitmap.Valid()
      && inodesPerBlock == INODES_PER_BLOCK && numberInodeBlocks == INODE_BLOCKS && numberBitmapBlocks == 1
    }

    ghost function Disk(): (d: Disk)
      requires Wired()
      reads device.storage
      ensures ValidDisk(d)
    {
      device.Blocks()
    }

    constructor (device: Device)
      requires device.Valid()
      ensures Wired() && this.device == device
      ensures inodesPerBlock == -1 && numberInodeBlocks == numberBitmapBlocks == U64_MAX
      ensures fresh(bitmap)
    {
      this.device := device;
      bitmap := new BlockBitmap(device);
      inodesPerBlock := -1;
      numberInodeBlocks, numberBitmapBlocks := U64_MAX, U64_MAX;
    }

    method Format()
      requires Wired()
      modifies this, bitmap, device.storage
      ensures Mounted()
      ensures Disk() == FormatDisk(old(Disk()))
      ensures forall b :: 0 <= b < NUM_BLOCKS ==>
                Disk()[b] == if b < INODE_BLOCKS + 1 then ZeroBlock() else old(Disk())[b]
      ensures Inv(Disk()) && Abs(Disk()) == map[] && Frontier(Disk()) == FIRST_ALLOCATABLE
    {
      hide Device.Blocks, Inv, Abs, Frontier, ZeroBlocks;
      ghost var d0 := Disk();
      var zeroedBlock := seq(BLOCK_SIZE, _ => 0);
      assert zeroedBlock == ZeroBlock();
      ZeroNext(d0, 0);
      inodesPerBlock := BLOCK_SIZE / INODE_SIZE;
      numberInodeBlocks := DivUp(MAX_FILES, inodesPerBlock);
      var i := 0;
      while i < numberInodeBlocks
        invariant 0 <= i <= numberInodeBlocks == INODE_BLOCKS && inodesPerBlock == INODES_PER_BLOCK
        invariant Disk() == ZeroBlocks(d0, i)
      {
        var _ := device.WriteBlock(i, zeroedBlock);
        ZeroNext(d0, i);
        i := i + 1;
      }
      numberBitmapBlocks := DivUp(NUM_BLOCKS, BLOCK_SIZE * 8);
      i := numberInodeBlocks;
      while i < numberInodeBlocks + numberBitmapBlocks
        invariant numberInodeBlocks == INODE_BLOCKS && inodesPerBlock == INODES_PER_BLOCK && numberBitmapBlocks == 1
        invariant INODE_BLOCKS <= i <= INODE_BLOCKS + 1
        invariant Disk() == ZeroBlocks(d0, i)
      {
        var _ := device.WriteBlock(i, zeroedBlock);
        ZeroNext(d0, i);
        i := i + 1;
      }
      bitmap.Init(numberInodeBlocks, numberBitmapBlocks, NUM_BLOCKS);
      FormatRefines(d0);
      FormattedBlocks(d0);
    }

    /** Creating inode n.  With room for two blocks it refines the abstract creation; without, the disk
        is still the one that CreateDisk gives. */
    method Create(n: nat) returns (rc: int)
      requires Mounted()
      modifies device.storage
      ensures n > INODE_BLOCKS ==> rc == -1 && Disk() == old(Disk())
      ensures n <= INODE_BLOCKS ==> rc == 0 && Disk() == CreateDisk(old(Disk()), n)
      ensures n <= INODE_BLOCKS ==> CreateEffect(old(Disk()), Disk(), n)
      ensures n <= INODE_BLOCKS && old(Inv(Disk()) && Frontier(Disk()) + 2 <= NUM_BLOCKS) ==>
                && Inv(Disk()) && Abs(Disk()) == old(Abs(Disk()))[n := []]
                && Frontier(Disk()) == old(Frontier(Disk())) + 2
    {
      hide Device.Blocks, Inv, Abs, Contents, Prefix, Lowest, Mark, SetSize, SetUsed, SetHead, PutU64, AllocBitmap,
        CreateEffect;
      ghost var d := Disk();
      if n > numberInodeBlocks {
        return -1;
      }
      var currentBlock := n / inodesPerBlock;
      var offset := n % inodesPerBlock;
      var _, buf1 := device.ReadBlock(currentBlock, seq(BLOCK_SIZE, _ => 0));
      buf1 := SetSize(buf1, offset, 0);
      buf1 := SetUsed(buf1, offset);
      var headBlock := bitmap.AllocateBlock();
      buf1 := SetHead(buf1, offset, ToU64(headBlock));
      var _ := device.WriteBlock(currentBlock, buf1);
      NewInodeFields(d[0], n, AllocValue(d[BITMAP_BLOCK]), n);
      var head := HeadAt(buf1, offset);
      var _, buf2 := device.ReadBlock(head, seq(BLOCK_SIZE, _ => 0));
      buf2 := seq(BLOCK_SIZE, _ => 0);
      assert buf2 == ZeroBlock();
      var first := bitmap.AllocateBlock();
      buf2 := PutU64(buf2, 0, ToU64(first));
      var _ := device.WriteBlock(head, buf2);
      assert Disk() == CreateDisk(d, n);
      CreateHas(d, n);
      if Inv(d) && Frontier(d) + 2 <= NUM_BLOCKS {
        CreateRefines(d, n);
      }
      return 0;
    }

    /** Grows the inode in slot `slot` of the local inode buffer; the caller writes it back.  The
        deallocation branch of the loop cannot be taken while the bitmap has enough unmarked bits. */
    method Grow(inodes: seq<byte>, slot: nat, newSize: nat) returns (rc: int, grown: seq<byte>)
      requires Mounted()
      requires |inodes| == BLOCK_SIZE && slot < INODES_PER_BLOCK
      requires SizeAt(inodes, slot) <= newSize < MAX_BYTES
      requires FIRST_ALLOCATABLE <= HeadAt(inodes, slot) < NUM_BLOCKS
      requires Prefix(Disk()[BITMAP_BLOCK], Frontier(Disk()))
      requires Frontier(Disk()) + Growth(SizeAt(inodes, slot), newSize) <= BITS
      modifies device.storage
      ensures rc == 0 && grown == SetSize(inodes, slot, newSize) && SizeStored(inodes, grown, slot, newSize)
      ensures var (bm, p) := GrowTo(old(Disk())[BITMAP_BLOCK], old(Disk())[HeadAt(inodes, slot)],
                                    SizeAt(inodes, slot) / BLOCK_SIZE + 1, newSize / BLOCK_SIZE + 1);
              Disk() == old(Disk())[BITMAP_BLOCK := bm][HeadAt(inodes, slot) := p]
    {
      hide Device.Blocks, Prefix, Lowest, AllocBitmap, PutU64, GrowTo, SetSize;
      ghost var d, m := Disk(), Frontier(Disk());
      var head := HeadAt(inodes, slot);
      var currentBlockNumber := SizeAt(inodes, slot) / BLOCK_SIZE;
      var lastBlockNumber := newSize / BLOCK_SIZE;
      var _, block := device.ReadBlock(head, seq(BLOCK_SIZE, _ => 0));
      ghost var p, lo := block, currentBlockNumber + 1;
      GrowNone(d[BITMAP_BLOCK], p, lo);
      var i := currentBlockNumber + 1;
      while i <= lastBlockNumber
        invariant lo <= i <= lastBlockNumber + 1
        invariant |block| == BLOCK_SIZE
        invariant GrowTo(d[BITMAP_BLOCK], p, lo, i).1 == block
        invariant Disk() == d[BITMAP_BLOCK := GrowTo(d[BITMAP_BLOCK], p, lo, i).0]
      {
        GrowNext(d[BITMAP_BLOCK], p, lo, i, m);
        var r := bitmap.AllocateBlock();
        block := PutU64(block, i * 8, ToU64(r));
        if r == -1 {
          assert false;
        }
        i := i + 1;
      }
      var _ := device.WriteBlock(head, block);
      grown := SetSize(inodes, slot, newSize);
      SetSizeBytes(inodes, slot, newSize);
      return 0, grown;
    }

    /** Delivers exactly the requested bytes of the file, and rejects ranges past its end. */
    method Read(n: nat, buffer: array<byte>, howMany: nat, from: nat) returns (rc: int)
      requires Mounted() && buffer != device.storage
      requires Inv(Disk()) && n in Abs(Disk())
      requires from <= U64_MAX && howMany <= U64_MAX && howMany <= buffer.Length
      requires from + howMany <= U64_MAX || from + howMany - U64_MAX - 1 > |Abs(Disk())[n]|
      modifies buffer
      ensures Disk() == old(Disk())
      ensures rc == if from + howMany <= |Abs(Disk())[n]| then 0 else -1
      ensures rc == -1 ==> buffer[..] == old(buffer[..])
      ensures rc == 0 ==> buffer[..] == Abs(Disk())[n][from..from + howMany] + old(buffer[..])[howMany..]
    {
      hide Device.Blocks, SizesOk, InRange, Disjoint, Prefix, Owned, Pointers, FileBytes;
      ghost var d := Disk();
      var currentBlock := n / inodesPerBlock;
      var offset := n % inodesPerBlock;
      var _, buf1 := device.ReadBlock(currentBlock, seq(BLOCK_SIZE, _ => 0));
      PastEndExact(from, howMany, SizeAt(buf1, offset));
      if PastEnd(from, howMany, SizeAt(buf1, offset)) {
        return -1;
      }
      HeadInRange(d, n);
      var _, buf2 := device.ReadBlock(HeadAt(buf1, offset), seq(BLOCK_SIZE, _ => 0));
      DataOnDisk(d, n);
      FileBytesSlice(d, n, from, howMany);
      var _ := PointersRead(Pointers(buf2), buffer, howMany, from);
      return 0;
    }

    /** Copies a range of bytes out of the blocks that an indirect block lists. */
    method PointersRead(entry: seq<nat>, buffer: array<byte>, howMany: nat, from: nat) returns (rc: int)
      requires Wired() && buffer != device.storage
      requires |entry| == ENTRIES && howMany <= buffer.Length && from + howMany < MAX_BYTES
      requires forall i :: from / BLOCK_SIZE <= i <= (from + howMany) / BLOCK_SIZE ==> entry[i] < NUM_BLOCKS
      modifies buffer
      ensures rc == 0 && Disk() == old(Disk())
      ensures buffer[..] == Delivered(Disk(), entry, from, howMany, old(buffer[..]))
    {
      hide Device.Blocks, Delivered, Splice, At;
      ghost var d, old' := Disk(), buffer[..];
      var firstBlockNumber := from / BLOCK_SIZE;
      var firstBlockOffset := from % BLOCK_SIZE;
      var lastBlockNumber := (from + howMany) / BLOCK_SIZE;
      var lastBlockOffset := (from + howMany) % BLOCK_SIZE;
      var _, block := device.ReadBlock(entry[firstBlockNumber], seq(BLOCK_SIZE, _ => 0));
      DeliveredNone(d, entry, from, old');
      if firstBlockNumber == lastBlockNumber {
        CopyOut(buffer, 0, block, firstBlockOffset, howMany);
        ReadNext(d, entry, from, 0, firstBlockNumber, firstBlockOffset, howMany, old');
        return 0;
      }
      CopyOut(buffer, 0, block, firstBlockOffset, BLOCK_SIZE - firstBlockOffset);
      ReadNext(d, entry, from, 0, firstBlockNumber, firstBlockOffset, BLOCK_SIZE - firstBlockOffset, old');
      var position := BLOCK_SIZE - firstBlockOffset;
      var i := firstBlockNumber + 1;
      while i <= lastBlockNumber - 1
        invariant firstBlockNumber < i <= lastBlockNumber
        invariant from + position == i * BLOCK_SIZE && position <= howMany && |block| == BLOCK_SIZE
        invariant Disk() == d
        invariant buffer[..] == Delivered(d, entry, from, position, old')
      {
        var _, data := device.ReadBlock(entry[i], block);
        block := data;
        CopyOut(buffer, position, block, 0, BLOCK_SIZE);
        ReadNext(d, entry, from, position, i, 0, BLOCK_SIZE, old');
        position := position + BLOCK_SIZE;
        i := i + 1;
      }
      var _, data := device.ReadBlock(entry[lastBlockNumber], block);
      CopyOut(buffer, position, data, 0, lastBlockOffset);
      ReadNext(d, entry, from, position, lastBlockNumber, 0, lastBlockOffset, old');
      return 0;
    }

    /** memcpy of count bytes into an array. */
    static method CopyOut(buffer: array<byte>, at: nat, src: seq<byte>, off: nat, count: nat)
      requires at + count <= buffer.Length && off + count <= |src|
      modifies buffer
      ensures buffer[..] == Splice(old(buffer[..]), at, src[off..off + count])
    {
      forall x | 0 <= x < count {
        buffer[at + x] := src[off + x];
      }
    }

    /** Overwrites the range, growing the file first when the range passes its end.  A sound file
        system leaves the bitmap enough bits for any growth, so the allocation never fails; whether
        the new blocks are on the disk decides whether it stays sound. */
    method Write(n: nat, buffer: seq<byte>, howMany: nat, to: nat) returns (rc: int)
      requires Mounted()
      requires Inv(Disk()) && n in Abs(Disk())
      requires howMany <= |buffer| && to + howMany < MAX_BYTES
      modifies device.storage
      ensures rc == 0
      ensures Disk() == StoreDisk(Grown(old(Disk()), n, to + howMany), n, buffer[..howMany], to)
      ensures n <= INODE_BLOCKS && WriteMeta(old(Disk()), Disk(), n, to + howMany)
      ensures Inv(Disk()) <==> old(Frontier(Disk()) + Growth(|Abs(Disk())[n]|, to + howMany)) <= NUM_BLOCKS
      ensures Inv(Disk()) ==>
                && Frontier(Disk()) == old(Frontier(Disk())) + Growth(|old(Abs(Disk()))[n]|, to + howMany)
                && Wrote(old(Abs(Disk())), Abs(Disk()), n, buffer[..howMany], to)
                && WriteBlocks(old(Disk()), Disk(), n, buffer[..howMany], to)
    {
      hide Device.Blocks, Inv, Abs, Prefix, Frontier, Growth, GrowTo, StoreRange, SetSize, SizeAt, HeadAt, UsedAt,
        Wrote, Pointers, Grown, StoreDisk, WriteMeta, WriteBlocks;
      ghost var d := Disk();
      ghost var end := to + howMany;
      var currentBlock := n / inodesPerBlock;
      var offset := n % inodesPerBlock;
      var _, buf1 := device.ReadBlock(currentBlock, seq(BLOCK_SIZE, _ => 0));
      WriteReady(d, n, end);
      if to + howMany > SizeAt(buf1, offset) {
        var _, grown := Grow(buf1, offset, to + howMany);
        SetSizeFields(buf1, offset, to + howMany, offset);
        buf1 := grown;
        var _ := device.WriteBlock(currentBlock, buf1);
      }
      GrownBlocks(d, n, end);
      ghost var d1 := Disk();
      HeadKept(d, n, end);
      var _, buf2 := device.ReadBlock(HeadAt(buf1, offset), seq(BLOCK_SIZE, _ => 0));
      var _ := PointersWrite(Pointers(buf2), buffer, howMany, to);
      StoreDiskIs(d1, n, buffer[..howMany], to);
      WriteDone(d, n, buffer[..howMany], to, end, d1, Disk());
      return 0;
    }

    /** Rewrites the blocks that an indirect block lists, over a range of file bytes. */
    method PointersWrite(entry: seq<nat>, buffer: seq<byte>, howMany: nat, to: nat) returns (rc: int)
      requires Wired()
      requires |entry| == ENTRIES && howMany <= |buffer| && to + howMany < MAX_BYTES
      modifies device.storage
      ensures rc == 0
      ensures Disk() == StoreRange(old(Disk()), entry, buffer[..howMany], to,
                                   to / BLOCK_SIZE, (to + howMany) / BLOCK_SIZE + 1)
    {
      hide Device.Blocks, StoreRange, BlockAfter, Splice;
      ghost var d, buf := Disk(), buffer[..howMany];
      var firstBlockNumber := to / BLOCK_SIZE;
      var firstBlockOffset := to % BLOCK_SIZE;
      var lastBlockNumber := (to + howMany) / BLOCK_SIZE;
      var lastBlockOffset := (to + howMany) % BLOCK_SIZE;
      var _, block := device.ReadBlock(entry[firstBlockNumber], seq(BLOCK_SIZE, _ => 0));
      StoreNone(d, entry, buf, to, firstBlockNumber);
      if firstBlockNumber == lastBlockNumber {
        SpliceIsBlockAfter(block, firstBlockNumber, buffer, howMany, to, firstBlockOffset, 0, howMany);
        block := Splice(block, firstBlockOffset, buffer[0..howMany]);
        var _ := device.WriteBlock(entry[firstBlockNumber], block);
        StoreNext(d, entry, buf, to, firstBlockNumber, firstBlockNumber);
        return 0;
      }
      var position := BLOCK_SIZE - firstBlockOffset;
      SpliceIsBlockAfter(block, firstBlockNumber, buffer, howMany, to, firstBlockOffset, 0, position);
      block := Splice(block, firstBlockOffset, buffer[0..position]);
      var _ := device.WriteBlock(entry[firstBlockNumber], block);
      StoreNext(d, entry, buf, to, firstBlockNumber, firstBlockNumber);
      var i := firstBlockNumber + 1;
      while i <= lastBlockNumber - 1
        invariant firstBlockNumber < i <= lastBlockNumber
        invariant to + position == i * BLOCK_SIZE && position <= howMany && |block| == BLOCK_SIZE
        invariant Disk() == StoreRange(d, entry, buf, to, firstBlockNumber, i)
      {
        var _, data := device.ReadBlock(entry[i], block);
        SpliceIsBlockAfter(data, i, buffer, howMany, to, 0, position, position + BLOCK_SIZE);
        block := Splice(data, 0, buffer[position..position + BLOCK_SIZE]);
        var _ := device.WriteBlock(entry[i], block);
        StoreNext(d, entry, buf, to, firstBlockNumber, i);
        position := position + BLOCK_SIZE;
        i := i + 1;
      }
      var _, data := device.ReadBlock(entry[lastBlockNumber], block);
      SpliceIsBlockAfter(data, lastBlockNumber, buffer, howMany, to, 0, position, howMany);
      block := Splice(data, 0, buffer[position..position + lastBlockOffset]);
      var _ := device.WriteBlock(entry[lastBlockNumber], block);
      StoreNext(d, entry, buf, to, firstBlockNumber, lastBlockNumber);
      return 0;
    }

    /** Converting the allocator's int result to uint64_t. */
    static function ToU64(r: int): nat
      requires -1 <= r
    {
      if r < 0 then U64_MAX else r
    }
  }

  lemma FormattedBlocks(d: Disk)
    requires ValidDisk(d)
    ensures forall b :: 0 <= b < NUM_BLOCKS ==> FormatDisk(d)[b] == if b < INODE_BLOCKS + 1 then ZeroBlock() else d[b]
  {}

  /** Everything that a write establishes. */
  lemma WriteDone(d: Disk, n: nat, buf: seq<byte>, to: nat, end: nat, grown: Disk, d': Disk)
    requires Inv(d) && n in Abs(d) && end == to + |buf| < MAX_BYTES
    requires n < MAX_FILES && grown == Grown(d, n, end) && d' == StoreDisk(grown, n, buf, to)
    ensures n <= INODE_BLOCKS && WriteMeta(d, d', n, end)
    ensures Inv(d') <==> Frontier(d) + Growth(|Abs(d)[n]|, end) <= NUM_BLOCKS
    ensures Inv(d') ==>
              && Frontier(d') == Frontier(d) + Growth(|Abs(d)[n]|, end)
              && Wrote(Abs(d), Abs(d'), n, buf, to) && WriteBlocks(d, d', n, buf, to)
  {
    hide Inv, Abs, Frontier, Growth, Grown, StoreDisk, Wrote, WriteMeta, WriteBlocks;
    WriteMetaHolds(d, n, buf, to, end, grown, d');
    WriteKeepsInvariantIff(d, n, buf, to, end, grown, d');
    if Inv(d') {
      WriteRefines(d, n, buf, to, end, grown, d');
      WriteBlocksHold(d, n, buf, to, end, grown, d');
    }
  }

  lemma StoreDiskIs(d: Disk, n: nat, buf: seq<byte>, to: nat)
    requires ValidDisk(d) && n < MAX_FILES && to + |buf| < MAX_BYTES && Head(d, n) < NUM_BLOCKS
    ensures StoreDisk(d, n, buf, to)
            == StoreRange(d, Pointers(d[Head(d, n)]), buf, to, to / BLOCK_SIZE, (to + |buf|) / BLOCK_SIZE + 1)
  {}

  lemma WriteReady(d: Disk, n: nat, end: nat)
    requires Inv(d) && n in Abs(d) && end < MAX_BYTES
    ensures n < MAX_FILES && Size(d, n) == |Abs(d)[n]| < MAX_BYTES
    ensures FIRST_ALLOCATABLE <= Head(d, n) < NUM_BLOCKS && Prefix(d[BITMAP_BLOCK], Frontier(d))
    ensures Frontier(d) + Growth(Size(d, n), end) <= BITS
  {
    HeadInRange(d, n);
  }

  lemma GrowNone(bm: seq<byte>, p: seq<byte>, lo: nat)
    requires |bm| == BLOCK_SIZE && |p| == BLOCK_SIZE && lo <= ENTRIES
    ensures GrowTo(bm, p, lo, lo) == (bm, p)
  {}

  lemma StoreNone(d: Disk, ps: seq<nat>, buf: seq<byte>, to: nat, lo: nat)
    requires ValidDisk(d) && lo <= |ps|
    ensures StoreRange(d, ps, buf, to, lo, lo) == d
  {}

  lemma StoreNext(d: Disk, ps: seq<nat>, buf: seq<byte>, to: nat, lo: nat, i: nat)
    requires ValidDisk(d) && lo <= i < |ps|
    ensures var d1 := StoreRange(d, ps, buf, to, lo, i);
            StoreRange(d, ps, buf, to, lo, i + 1) == SetBlock(d1, ps[i], BlockAfter(At(d1, ps[i]), i, buf, to))
  {}

  lemma GrowNext(bm: seq<byte>, p: seq<byte>, lo: nat, i: nat, m: nat)
    requires |p| == BLOCK_SIZE && lo <= i < ENTRIES && Prefix(bm, m) && m + i + 1 - lo <= BITS
    ensures var g := GrowTo(bm, p, lo, i);
            && Lowest(g.0) == m + i - lo
            && GrowTo(bm, p, lo, i + 1) == (AllocBitmap(g.0), PutU64(g.1, i * 8, Lowest(g.0)))
  {
    GrowBitmap(bm, p, lo, i, m);
    PrefixLowest(GrowTo(bm, p, lo, i).0, m + i - lo);
  }

  lemma DataOnDisk(d: Disk, n: nat)
    requires Inv(d) && n < MAX_FILES && Used(d, n)
    ensures forall i :: 0 <= i <= Size(d, n) / BLOCK_SIZE ==> Data(d, n)[i] < NUM_BLOCKS
  {
    forall i | 0 <= i <= Size(d, n) / BLOCK_SIZE
      ensures Data(d, n)[i] < NUM_BLOCKS
    {
      DataPointers(d, n, i);
    }
  }

  lemma FileBytesSlice(d: Disk, n: nat, from: nat, len: nat)
    requires ValidDisk(d) && n < MAX_FILES && Size(d, n) <= MAX_BYTES && from + len <= Size(d, n)
    ensures FileBytes(d, Data(d, n), from, len) == Contents(d, n)[from..from + len]
  {}

  /** The caller's buffer once its first pos bytes hold the file's bytes from `from` on. */
  function Delivered(d: Disk, ps: seq<nat>, from: nat, pos: nat, old': seq<byte>): (r: seq<byte>)
    requires ValidDisk(d) && |ps| == ENTRIES && from + pos < MAX_BYTES && pos <= |old'|
    ensures |r| == |old'|
  {
    FileBytes(d, ps, from, pos) + old'[pos..]
  }

  lemma DeliveredNone(d: Disk, ps: seq<nat>, from: nat, old': seq<byte>)
    requires ValidDisk(d) && |ps| == ENTRIES && from < MAX_BYTES
    ensures Delivered(d, ps, from, 0, old') == old'
  {}

  /** Copying part of block i appends it to the bytes already delivered. */
  lemma ReadNext(d: Disk, ps: seq<nat>, from: nat, pos: nat, i: nat, off: nat, count: nat, old': seq<byte>)
    requires ValidDisk(d) && |ps| == ENTRIES && i < ENTRIES && ps[i] < NUM_BLOCKS
    requires from + pos == i * BLOCK_SIZE + off && off + count <= BLOCK_SIZE && from + pos + count < MAX_BYTES
    requires pos + count <= |old'|
    ensures Splice(Delivered(d, ps, from, pos, old'), pos, d[ps[i]][off..off + count])
            == Delivered(d, ps, from, pos + count, old')
  {
    var a := FileBytes(d, ps, from, pos);
    var b := FileBytes(d, ps, from, pos + count);
    assert b == a + d[ps[i]][off..off + count];
  }
}
