/** The block bitmap: one bit per disk block, scanned first-fit. */
module Bitmap {
  import opened Bytes
  import opened Storage

  /** Bits in the single bitmap block; twice the number of disk blocks. */
  const BITS: nat := 32768
  const BITMAP_BLOCK: nat := 8
  const FIRST_ALLOCATABLE: nat := 9

  // ----- the bitmap block as a value

  predicate Bit(bm: seq<byte>, r: nat)
    requires |bm| == BLOCK_SIZE && r < BITS
  {
    bm[r / 8] & Mask(r % 8) != 0
  }

  function Mark(bm: seq<byte>, r: nat): (m: seq<byte>)
    requires |bm| == BLOCK_SIZE && r < BITS
    ensures |m| == BLOCK_SIZE
  {
    bm[r / 8 := bm[r / 8] | Mask(r % 8)]
  }

  /** Marking a block changes its own bit and no other. */
  lemma MarkBit(bm: seq<byte>, r: nat, x: nat)
    requires |bm| == BLOCK_SIZE && r < BITS && x < BITS
    ensures Bit(Mark(bm, r), x) <==> x == r || Bit(bm, x)
  {
    if x / 8 == r / 8 {
      OrMask(bm[r / 8], r % 8, x % 8);
    }
  }

  /** The lowest unmarked bit at or above from, or BITS. */
  function NextFree(bm: seq<byte>, from: nat): (r: nat)
    requires |bm| == BLOCK_SIZE && from <= BITS
    ensures from <= r <= BITS
    ensures forall x :: from <= x < r ==> Bit(bm, x)
    ensures r < BITS ==> !Bit(bm, r)
    decreases BITS - from
  {
    if from == BITS || !Bit(bm, from) then from else NextFree(bm, from + 1)
  }

  function Lowest(bm: seq<byte>): (r: nat)
    requires |bm| == BLOCK_SIZE
    ensures FIRST_ALLOCATABLE <= r <= BITS
  {
    NextFree(bm, FIRST_ALLOCATABLE)
  }

  /** Exactly the blocks FIRST_ALLOCATABLE .. m-1 are marked. */
  predicate Prefix(bm: seq<byte>, m: nat) {
    && |bm| == BLOCK_SIZE
    && FIRST_ALLOCATABLE <= m <= BITS
    && forall r :: FIRST_ALLOCATABLE <= r < BITS ==> (Bit(bm, r) <==> r < m)
  }

  lemma PrefixLowest(bm: seq<byte>, m: nat)
    requires Prefix(bm, m)
    ensures Lowest(bm) == m
  {
    if m < BITS {
      assert !Bit(bm, m);
      LowestIs(bm, m);
    }
  }

  lemma PrefixMark(bm: seq<byte>, m: nat)
    requires Prefix(bm, m) && m < BITS
    ensures Prefix(Mark(bm, m), m + 1)
  {
    forall r | FIRST_ALLOCATABLE <= r < BITS
      ensures Bit(Mark(bm, m), r) <==> r < m + 1
    {
      MarkBit(bm, m, r);
    }
  }

  lemma ZeroPrefix(bm: seq<byte>)
    requires |bm| == BLOCK_SIZE && forall i :: 0 <= i < BLOCK_SIZE ==> bm[i] == 0
    ensures Prefix(bm, FIRST_ALLOCATABLE)
  {
    forall r | FIRST_ALLOCATABLE <= r < BITS
      ensures !Bit(bm, r)
    {
      assert bm[r / 8] == 0;
    }
  }

  // ----- allocation as a function of the bitmap block

  /** The value the caller stores: the block found, or -1 converted to 64 unsigned bits. */
  function AllocValue(bm: seq<byte>): (r: nat)
    requires |bm| == BLOCK_SIZE
    ensures r <= U64_MAX
  {
    if Lowest(bm) < BITS then Lowest(bm) else U64_MAX
  }

  function AllocBitmap(bm: seq<byte>): (r: seq<byte>)
    requires |bm| == BLOCK_SIZE
    ensures |r| == BLOCK_SIZE
  {
    if Lowest(bm) < BITS then Mark(bm, Lowest(bm)) else bm
  }

  /** On a prefix bitmap the allocator is a counter, and its result is on the disk iff the
      counter has not yet reached the number of disk blocks. */
  lemma AllocIsCounter(bm: seq<byte>, m: nat)
    requires Prefix(bm, m)
    ensures m < BITS ==> AllocValue(bm) == m && Prefix(AllocBitmap(bm), m + 1)
    ensures m == BITS ==> AllocValue(bm) == U64_MAX && AllocBitmap(bm) == bm
    ensures AllocValue(bm) < NUM_BLOCKS <==> m < NUM_BLOCKS
  {
    PrefixLowest(bm, m);
    if m < BITS {
      PrefixMark(bm, m);
    }
  }

  /** The lowest unmarked allocatable bit was found and it alone marked, or there is none. */
  ghost predicate Allocated(bm: seq<byte>, bm': seq<byte>, result: int) {
    && |bm| == |bm'| == BLOCK_SIZE
    && (if result == -1 then forall r :: FIRST_ALLOCATABLE <= r < BITS ==> Bit(bm, r)
        else
          && FIRST_ALLOCATABLE <= result < BITS && !Bit(bm, result)
          && forall r :: FIRST_ALLOCATABLE <= r < result ==> Bit(bm, r))
    && forall r :: 0 <= r < BITS ==> (Bit(bm', r) <==> r == result || Bit(bm, r))
  }

  lemma AllocatedIs(bm: seq<byte>)
    requires |bm| == BLOCK_SIZE
    ensures Allocated(bm, AllocBitmap(bm), if Lowest(bm) < BITS then Lowest(bm) else -1)
  {
    hide Bit, Mark, NextFree;
    if Lowest(bm) < BITS {
      forall r | 0 <= r < BITS
        ensures Bit(Mark(bm, Lowest(bm)), r) <==> r == Lowest(bm) || Bit(bm, r)
      {
        MarkBit(bm, Lowest(bm), r);
      }
    }
  }

  class BlockBitmap {
    const device: Device
    var bitmapFirstBlock: nat
    var bitmapNumberBlocks: nat
    var firstAllocatable: nat
    var lastAllocatable: nat

    constructor (device: Device)
      ensures this.device == device
    {
      this.device := device;
      bitmapFirstBlock, bitmapNumberBlocks, firstAllocatable, lastAllocatable := 0, 0, 0, 0;
    }

    /** The geometry that format establishes. */
    ghost predicate Valid()
      reads this
    {
      && device.Valid()
      && bitmapFirstBlock == BITMAP_BLOCK && bitmapNumberBlocks == 1
      && firstAllocatable == FIRST_ALLOCATABLE && lastAllocatable == NUM_BLOCKS - 1
    }

    method Init(numberInodeBlocks: nat, numberBitmapBlocks: nat, numberBlocks: nat)
      requires numberBlocks > 0
      modifies this
      ensures bitmapFirstBlock == numberInodeBlocks && bitmapNumberBlocks == numberBitmapBlocks
      ensures firstAllocatable == numberInodeBlocks + numberBitmapBlocks
      ensures lastAllocatable == numberBlocks - 1
    {
      bitmapFirstBlock := numberInodeBlocks;
      bitmapNumberBlocks := numberBitmapBlocks;
      firstAllocatable := numberInodeBlocks + numberBitmapBlocks;
      lastAllocatable := numberBlocks - 1;
    }

    /** The nested block/byte/bit scan finds the lowest unmarked block and marks only that one. */
    method AllocateBlock() returns (result: int)
      requires Valid()
      modifies device.storage
      ensures var bm := old(device.Blocks())[BITMAP_BLOCK];
              && device.Blocks() == old(device.Blocks())[BITMAP_BLOCK := AllocBitmap(bm)]
              && result == if Lowest(bm) < BITS then Lowest(bm) else -1
      ensures Allocated(old(device.Blocks())[BITMAP_BLOCK], device.Blocks()[BITMAP_BLOCK], result)
    {
      hide Device.Blocks, NextFree, Allocated;
      ghost var bm := device.Blocks()[BITMAP_BLOCK];
      AllocatedIs(bm);
      var block: seq<byte> := seq(BLOCK_SIZE, _ => 0);
      var i := 0;
      while i < bitmapNumberBlocks
        invariant 0 <= i <= 1 && |block| == BLOCK_SIZE
        invariant device.Blocks() == old(device.Blocks())
        invariant i == 1 ==> forall x :: firstAllocatable <= x < BITS ==> Bit(bm, x)
      {
        var _, data := device.ReadBlock(i + bitmapFirstBlock, block);
        block := data;
        var j := 0;
        while j < BLOCK_SIZE
          invariant 0 <= j <= BLOCK_SIZE
          invariant block == bm && device.Blocks() == old(device.Blocks())
          invariant forall x :: firstAllocatable <= x < j * 8 ==> Bit(bm, x)
        {
          var k := 0;
          while k < 8
            invariant 0 <= k <= 8
            invariant block == bm && device.Blocks() == old(device.Blocks())
            invariant forall x :: firstAllocatable <= x < j * 8 + k ==> Bit(bm, x)
          {
            var referencedBlock := i * BLOCK_SIZE + j * 8 + k;
            if referencedBlock >= firstAllocatable && block[j] & Mask(k) == 0 {
              assert !Bit(bm, referencedBlock);
              LowestIs(bm, referencedBlock);
              block := block[j := block[j] | Mask(k)];
              var _ := device.WriteBlock(i + bitmapFirstBlock, block);
              return referencedBlock;
            }
            assert referencedBlock / 8 == j && referencedBlock % 8 == k;
            k := k + 1;
          }
          j := j + 1;
        }
        i := i + 1;
      }
      assert Lowest(bm) == BITS;
      assert device.Blocks()[BITMAP_BLOCK := bm] == device.Blocks();
      return -1;
    }
  }

  lemma LowestIs(bm: seq<byte>, r: nat)
    requires |bm| == BLOCK_SIZE && FIRST_ALLOCATABLE <= r < BITS
    requires forall x :: FIRST_ALLOCATABLE <= x < r ==> Bit(bm, x)
    requires !Bit(bm, r)
    ensures Lowest(bm) == r
  {}
}
