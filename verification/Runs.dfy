/** Whole runs of the file system: from format, through any sequence of creates and writes. */
module Runs {
  import opened Bytes
  import opened Storage
  import opened Bitmap
  import opened Layout
  import opened Operations
  import opened Writing

  datatype Op = Create(n: nat) | Write(n: nat, buf: seq<byte>, to: nat)

  /** Each inode is created at most once; files are created before they are written and stay
      below MAX_BYTES. */
  predicate Legal(fs: Files, op: Op) {
    match op
    case Create(n) => n !in fs
    case Write(n, buf, to) => n in fs && to + |buf| < MAX_BYTES
  }

  function Step(d: Disk, op: Op): (r: Disk)
    requires ValidDisk(d)
    ensures ValidDisk(r)
  {
    match op
    case Create(n) => if n <= INODE_BLOCKS then CreateDisk(d, n) else d
    case Write(n, buf, to) =>
      if n < MAX_FILES && to + |buf| < MAX_BYTES then StoreDisk(Grown(d, n, to + |buf|), n, buf, to) else d
  }

  /** What the operation means for the map from inode numbers to byte sequences. */
  ghost predicate AbsStepOk(fs: Files, op: Op, fs': Files) {
    match op
    case Create(n) => fs' == if n <= INODE_BLOCKS then fs[n := []] else fs
    case Write(n, buf, to) => Wrote(fs, fs', n, buf, to)
  }

  // ----- counting blocks

  function Blocks(len: nat): nat {
    len / BLOCK_SIZE + 2
  }

  function HeldBy(fs: Files, n: nat): nat {
    if n in fs then Blocks(|fs[n]|) else 0
  }

  /** Blocks held by files 0 .. k-1. */
  function Total(fs: Files, k: nat): nat {
    if k == 0 then 0 else Total(fs, k - 1) + HeldBy(fs, k - 1)
  }

  const FILES: nat := INODE_BLOCKS + 1
  /** Nine files of 513 blocks each. */
  const CAPACITY: nat := 4617

  lemma {:induction false} TotalUpdate(fs: Files, n: nat, c: seq<byte>, k: nat)
    ensures Total(fs[n := c], k) == if n < k then Total(fs, k) - HeldBy(fs, n) + Blocks(|c|) else Total(fs, k)
    ensures n < k ==> HeldBy(fs, n) <= Total(fs, k)
  {
    if k > 0 {
      TotalUpdate(fs, n, c, k - 1);
    }
  }

  lemma {:induction false} TotalBound(fs: Files, k: nat)
    requires forall n :: n in fs ==> |fs[n]| < MAX_BYTES
    ensures Total(fs, k) <= k * (ENTRIES + 1)
  {
    if k > 0 {
      TotalBound(fs, k - 1);
    }
  }

  ghost predicate Bounded(fs: Files) {
    forall n :: n in fs ==> n <= INODE_BLOCKS && |fs[n]| < MAX_BYTES
  }

  /** Every allocated block belongs to a file. */
  ghost predicate NoLeak(d: Disk)
    requires Inv(d)
  {
    Frontier(d) == FIRST_ALLOCATABLE + Total(Abs(d), FILES)
  }

  lemma CapacityBound(d: Disk)
    requires Inv(d) && NoLeak(d)
    ensures Frontier(d) <= FIRST_ALLOCATABLE + CAPACITY
  {
    TotalBound(Abs(d), FILES);
  }

  /** A legal operation always finds room, so the allocator never fails or leaves the disk. */
  lemma RoomForLegal(d: Disk, op: Op)
    requires Inv(d) && NoLeak(d) && Legal(Abs(d), op)
    ensures op.Create? && op.n <= INODE_BLOCKS ==> Frontier(d) + 2 <= FIRST_ALLOCATABLE + CAPACITY
    ensures op.Write? ==>
              Frontier(d) + Growth(|Abs(d)[op.n]|, op.to + |op.buf|) <= FIRST_ALLOCATABLE + CAPACITY
  {
    RoomInMap(Abs(d), op);
  }

  lemma RoomInMap(fs: Files, op: Op)
    requires Bounded(fs) && Legal(fs, op)
    ensures op.Create? && op.n <= INODE_BLOCKS ==> Total(fs, FILES) + 2 <= CAPACITY
    ensures op.Write? ==> Total(fs, FILES) + Growth(|fs[op.n]|, op.to + |op.buf|) <= CAPACITY
  {
    match op
    case Create(n) =>
      TotalUpdate(fs, n, [], FILES);
      if n <= INODE_BLOCKS {
        TotalBound(fs[n := []], FILES);
      }
    case Write(n, buf, to) =>
      var end := to + |buf|;
      if end > |fs[n]| {
        var c := seq(end, _ => 0 as byte);
        TotalUpdate(fs, n, c, FILES);
        TotalBound(fs[n := c], FILES);
      } else {
        TotalBound(fs, FILES);
      }
  }

  lemma CreateStep(d: Disk, n: nat, d': Disk)
    requires Inv(d) && NoLeak(d) && n !in Abs(d) && n <= INODE_BLOCKS && d' == CreateDisk(d, n)
    ensures Inv(d') && NoLeak(d') && Abs(d') == Abs(d)[n := []]
  {
    hide Inv, Abs, Frontier, CreateDisk, Total;
    RoomForLegal(d, Create(n));
    CreateRefines(d, n);
    TotalUpdate(Abs(d), n, [], FILES);
  }

  lemma WriteStep(d: Disk, n: nat, buf: seq<byte>, to: nat, end: nat, grown: Disk, d': Disk)
    requires Inv(d) && NoLeak(d) && n in Abs(d) && end == to + |buf| < MAX_BYTES
    requires grown == Grown(d, n, end) && d' == StoreDisk(grown, n, buf, to)
    ensures Inv(d') && NoLeak(d') && Wrote(Abs(d), Abs(d'), n, buf, to)
  {
    hide Inv, Abs, Frontier, StoreDisk, Grown, Growth, Total, Wrote, Legal;
    RoomForWrite(d, n, buf, to, end);
    WriteRefines(d, n, buf, to, end, grown, d');
    WroteTotal(Abs(d), Abs(d'), n, buf, to, end);
  }

  lemma RoomForWrite(d: Disk, n: nat, buf: seq<byte>, to: nat, end: nat)
    requires Inv(d) && NoLeak(d) && n in Abs(d) && end == to + |buf| < MAX_BYTES
    ensures n < FILES && Frontier(d) + Growth(|Abs(d)[n]|, end) <= NUM_BLOCKS
  {
    hide Inv, Abs, Frontier, Growth, Total;
    RoomForLegal(d, Write(n, buf, to));
  }

  /** A legal step keeps the invariant, leaks nothing, and does what it means. */
  lemma StepRefines(d: Disk, op: Op, d': Disk)
    requires ValidDisk(d) && Inv(d) && NoLeak(d) && Legal(Abs(d), op) && d' == Step(d, op)
    ensures Inv(d') && NoLeak(d') && AbsStepOk(Abs(d), op, Abs(d'))
  {
    hide Inv, Abs, Frontier, CreateDisk, StoreDisk, Grown, NoLeak, Wrote;
    match op
    case Create(n) =>
      if n <= INODE_BLOCKS {
        CreateStep(d, n, d');
      }
    case Write(n, buf, to) =>
      WriteStep(d, n, buf, to, to + |buf|, Grown(d, n, to + |buf|), d');
  }

  lemma WroteTotal(fs: Files, fs': Files, n: nat, buf: seq<byte>, to: nat, end: nat)
    requires Wrote(fs, fs', n, buf, to) && n < FILES && end == to + |buf|
    ensures Total(fs', FILES) == Total(fs, FILES) + Growth(|fs[n]|, end)
  {
    hide Total;
    TotalUpdate(fs, n, fs'[n], FILES);
  }

  ghost predicate IsRun(run: seq<Disk>, ops: seq<Op>) {
    && |run| == |ops| + 1
    && (exists d: Disk :: ValidDisk(d) && run[0] == FormatDisk(d))
    && forall i :: 0 <= i < |ops| ==>
         && ValidDisk(run[i]) && run[i + 1] == Step(run[i], ops[i])
         && (Inv(run[i]) ==> Legal(Abs(run[i]), ops[i]))
  }

  ghost predicate Good(d: Disk) {
    Inv(d) && NoLeak(d) && Frontier(d) <= FIRST_ALLOCATABLE + CAPACITY
  }

  /** The refinement theorem: in every legal run from any initial disk, every state satisfies the
      ownership invariant with no block leaked and at most CAPACITY blocks allocated, and every
      step acts on the abstract map as specified. */
  lemma {:induction false} RunRefines(run: seq<Disk>, ops: seq<Op>, i: nat)
    requires IsRun(run, ops) && i < |run|
    ensures Good(run[i])
    ensures i == 0 ==> Abs(run[i]) == map[]
    ensures i > 0 ==> Good(run[i - 1]) && AbsStepOk(Abs(run[i - 1]), ops[i - 1], Abs(run[i]))
  {
    hide Inv, FormatDisk, Step;
    if i == 0 {
      var d: Disk :| ValidDisk(d) && run[0] == FormatDisk(d);
      FormatRefines(d);
      TotalEmpty(FILES);
    } else {
      RunRefines(run, ops, i - 1);
      StepRefines(run[i - 1], ops[i - 1], run[i]);
    }
    CapacityBound(run[i]);
  }

  lemma {:induction false} TotalEmpty(k: nat)
    ensures Total(map[], k) == 0
  {
    if k > 0 {
      TotalEmpty(k - 1);
    }
  }

  /** In every legal run the n-th block ever allocated is block 8 + n: the allocator is a counter. */
  lemma AllocationCounts(run: seq<Disk>, ops: seq<Op>, i: nat)
    requires IsRun(run, ops) && i < |run|
    ensures Good(run[i])
    ensures var m := FIRST_ALLOCATABLE + Total(Abs(run[i]), FILES);
            && AllocValue(run[i][BITMAP_BLOCK]) == m < NUM_BLOCKS
            && forall r :: FIRST_ALLOCATABLE <= r < BITS ==> (Bit(run[i][BITMAP_BLOCK], r) <==> r < m)
  {
    RunRefines(run, ops, i);
    AllocIsCounter(run[i][BITMAP_BLOCK], Frontier(run[i]));
  }

  /** Creating an existing file again reports success, empties it, and leaks all its old blocks. */
  lemma RecreateLeaks(d: Disk, n: nat)
    requires Inv(d) && n in Abs(d) && Frontier(d) + 2 <= NUM_BLOCKS
    ensures var d' := CreateDisk(d, n);
            && Inv(d')
            && Frontier(d') - Total(Abs(d'), FILES) == Frontier(d) - Total(Abs(d), FILES) + Blocks(|Abs(d)[n]|)
  {
    CreateRefines(d, n);
    TotalUpdate(Abs(d), n, [], FILES);
  }

  /** A formatted disk after file 0 was created k times. */
  function Recreated(d: Disk, k: nat): (r: Disk)
    requires ValidDisk(d)
    ensures ValidDisk(r)
  {
    if k == 0 then FormatDisk(d) else CreateDisk(Recreated(d, k - 1), 0)
  }

  lemma {:induction false} RecreatedFrontier(d: Disk, k: nat)
    requires ValidDisk(d) && FIRST_ALLOCATABLE + 2 * k <= NUM_BLOCKS
    ensures Inv(Recreated(d, k)) && Frontier(Recreated(d, k)) == FIRST_ALLOCATABLE + 2 * k
  {
    hide Inv, Frontier, FormatDisk, CreateDisk;
    if k == 0 {
      FormatRefines(d);
    } else {
      RecreatedFrontier(d, k - 1);
      CreateRefines(Recreated(d, k - 1), 0);
    }
  }

  /** Creating one file 8188 times on a fresh disk reports success each time and leaves it with a data
      block past the end of the disk; every state before was sound. */
  lemma RecreatesLeaveDisk(d: Disk)
    requires ValidDisk(d)
    ensures forall k: nat :: k < 8188 ==> Inv(Recreated(d, k))
    ensures var r := Recreated(d, 8188);
            !Inv(r) && Used(r, 0) && Data(r, 0)[0] == NUM_BLOCKS
  {
    hide Inv, Frontier, CreateDisk, FormatDisk, Recreated;
    forall k: nat | k < 8188
      ensures Inv(Recreated(d, k))
    {
      RecreatedFrontier(d, k);
    }
    RecreatedFrontier(d, 8187);
    RecreatedNext(d, 8187);
    CreateKeepsInvariantIff(Recreated(d, 8187), 0);
    LastCreate(Recreated(d, 8187));
  }

  lemma RecreatedNext(d: Disk, k: nat)
    requires ValidDisk(d)
    ensures Recreated(d, k + 1) == CreateDisk(Recreated(d, k), 0)
  {}

  lemma LastCreate(d: Disk)
    requires Inv(d) && Frontier(d) == NUM_BLOCKS - 1
    ensures var r := CreateDisk(d, 0); Used(r, 0) && Data(r, 0)[0] == NUM_BLOCKS
  {
    hide Prefix, Mark, Lowest, AllocBitmap, AllocValue, NewInode, UsedAt, SizeAt, HeadAt, PutU64, GetU64, SizesOk,
      InRange, Disjoint;
    var bm := d[BITMAP_BLOCK];
    AllocIsCounter(bm, NUM_BLOCKS - 1);
    AllocIsCounter(AllocBitmap(bm), NUM_BLOCKS);
    NewInodeFields(d[0], 0, NUM_BLOCKS - 1, 0);
    GetPut(ZeroBlock(), 0, NUM_BLOCKS);
  }
}
