/** How many entries of an indirect block are in use: exactly those the size reaches. */
module EntryCounts {
  import opened Bytes
  import opened Storage
  import opened Bitmap
  import opened Layout
  import opened Operations
  import opened Writing
  import opened Runs

  /** The entries past the one that holds the end of the file are zero. */
  predicate TailOk(d: Disk, n: nat)
    requires ValidDisk(d) && n < MAX_FILES
  {
    forall i :: Size(d, n) / BLOCK_SIZE < i < ENTRIES ==> Pointer(At(d, Head(d, n)), i) == 0
  }

  ghost predicate TailsZero(d: Disk)
    requires ValidDisk(d)
  {
    forall n :: 0 <= n < MAX_FILES && Used(d, n) ==> TailOk(d, n)
  }

  lemma TailKept(d: Disk, d': Disk, n: nat)
    requires ValidDisk(d) && ValidDisk(d') && n < MAX_FILES && SameMeta(d, d', n) && Used(d, n) && TailOk(d, n)
    ensures TailOk(d', n)
  {}

  lemma {:induction false} DecodeZeroes(s: seq<byte>)
    requires forall i :: 0 <= i < |s| ==> s[i] == 0
    ensures Decode(s) == 0
  {
    if s != [] {
      DecodeZeroes(s[1..]);
    }
  }

  lemma FirstEntryOnly(v: nat, i: nat)
    requires 0 < i < ENTRIES
    ensures Pointer(PutU64(ZeroBlock(), 0, v), i) == 0
  {
    GetPutOther(ZeroBlock(), 0, v, i * 8);
    DecodeZeroes(ZeroBlock()[i * 8..i * 8 + 8]);
  }

  lemma OthersTails(d: Disk, d': Disk, n: nat)
    requires ValidDisk(d) && ValidDisk(d') && n < MAX_FILES
    requires OthersKept(d, d', n) && TailsZero(d) && TailOk(d', n)
    ensures TailsZero(d')
  {
    hide TailOk;
    forall t | 0 <= t < MAX_FILES && Used(d', t)
      ensures TailOk(d', t)
    {
      if t != n {
        assert SameMeta(d, d', t);
        TailKept(d, d', t);
      }
    }
  }

  lemma CreateTails(d: Disk, n: nat)
    requires Inv(d) && n <= INODE_BLOCKS && Frontier(d) + 2 <= NUM_BLOCKS && TailsZero(d)
    ensures TailsZero(CreateDisk(d, n))
  {
    hide CreateDisk, TailOk, InRange, Disjoint, SizesOk, NewInode;
    CreateBlocks(d, n, Frontier(d));
    CreationTails(d, CreateDisk(d, n), n);
  }

  lemma CreationTails(d: Disk, d': Disk, n: nat)
    requires Inv(d) && ValidDisk(d') && n <= INODE_BLOCKS && Creation(d, d', n, Frontier(d)) && TailsZero(d)
    ensures TailsZero(d')
  {
    hide TailOk, NewInode, Prefix;
    var m := Frontier(d);
    NewTail(d, d', n, m);
    forall t | 0 <= t < MAX_FILES && t != n
      ensures SameMeta(d, d', t)
    {
      if Used(d, t) {
        HeadInRange(d, t);
      }
      CreationOther(d, d', n, m, t);
    }
    OthersTails(d, d', n);
  }

  lemma NewTail(d: Disk, d': Disk, n: nat, m: nat)
    requires ValidDisk(d) && ValidDisk(d') && n <= INODE_BLOCKS && Creation(d, d', n, m)
    ensures TailOk(d', n)
  {
    hide Prefix, NewInode, Pointer;
    NewInodeFields(d[0], n, m, n);
    forall i | 0 < i < ENTRIES
      ensures Pointer(d'[m], i) == 0
    {
      FirstEntryOnly(m + 1, i);
    }
  }

  lemma GrownTails(d: Disk, n: nat, end: nat, grown: Disk)
    requires Inv(d) && n in Abs(d) && end < MAX_BYTES && grown == Grown(d, n, end) && TailsZero(d)
    requires Frontier(d) + Growth(|Abs(d)[n]|, end) <= NUM_BLOCKS
    ensures TailsZero(grown)
  {
    hide TailOk, ExtendDisk, Disjoint, SizesOk, InRange, Prefix;
    if end > Size(d, n) {
      HeadInRange(d, n);
      ExtendBlocks(d, n, end, Frontier(d));
      ExtensionInv(d, grown, n, end);
      ExtensionTail(d, grown, n, end, Frontier(d));
      OthersTails(d, grown, n);
    }
  }

  lemma ExtensionTail(d: Disk, d': Disk, n: nat, newSize: nat, m: nat)
    requires ValidDisk(d) && ValidDisk(d') && n < MAX_FILES && Size(d, n) < MAX_BYTES
    requires Extension(d, d', n, newSize, m) && TailOk(d, n)
    requires Size(d', n) == newSize && Head(d', n) == Head(d, n)
    ensures TailOk(d', n)
  {
    hide Prefix, Pointer, SetSize;
    forall i | newSize / BLOCK_SIZE < i < ENTRIES
      ensures Pointer(At(d', Head(d', n)), i) == 0
    {
      assert Pointer(At(d, Head(d, n)), i) == 0;
      assert At(d', Head(d', n)) == d'[Head(d, n)];
    }
  }

  lemma StoreTails(d: Disk, n: nat, buf: seq<byte>, to: nat)
    requires Inv(d) && n in Abs(d) && to + |buf| <= |Abs(d)[n]| && TailsZero(d)
    ensures TailsZero(StoreDisk(d, n, buf, to))
  {
    hide TailOk, StoreDisk, Disjoint, SizesOk, InRange, Prefix;
    StoreInv(d, n, buf, to);
    TailKept(d, StoreDisk(d, n, buf, to), n);
    OthersTails(d, StoreDisk(d, n, buf, to), n);
  }

  lemma StepTails(d: Disk, op: Op, d': Disk)
    requires ValidDisk(d) && Inv(d) && NoLeak(d) && Legal(Abs(d), op) && d' == Step(d, op) && TailsZero(d)
    ensures TailsZero(d')
  {
    hide Inv, Abs, Frontier, CreateDisk, StoreDisk, Grown, NoLeak, TailsZero, Growth;
    match op
    case Create(n) =>
      if n <= INODE_BLOCKS {
        RoomForLegal(d, op);
        CreateTails(d, n);
      }
    case Write(n, buf, to) =>
      WriteTails(d, n, buf, to, to + |buf|, Grown(d, n, to + |buf|));
  }

  lemma WriteTails(d: Disk, n: nat, buf: seq<byte>, to: nat, end: nat, grown: Disk)
    requires Inv(d) && NoLeak(d) && n in Abs(d) && end == to + |buf| < MAX_BYTES && grown == Grown(d, n, end)
    requires TailsZero(d)
    ensures TailsZero(StoreDisk(grown, n, buf, to))
  {
    hide Inv, Abs, Frontier, StoreDisk, Grown, NoLeak, TailsZero, Growth;
    RoomForWrite(d, n, buf, to, end);
    GrownRefines(d, n, end);
    GrownTails(d, n, end, grown);
    StoreTails(grown, n, buf, to);
  }

  lemma {:induction false} RunTails(run: seq<Disk>, ops: seq<Op>, i: nat)
    requires IsRun(run, ops) && i < |run|
    ensures Good(run[i]) && TailsZero(run[i])
  {
    hide Inv, FormatDisk, Step, TailsZero;
    RunRefines(run, ops, i);
    if i == 0 {
      var d: Disk :| ValidDisk(d) && run[0] == FormatDisk(d);
      FormatRefines(d);
      NoFilesNoTails(run[0]);
    } else {
      RunTails(run, ops, i - 1);
      StepTails(run[i - 1], ops[i - 1], run[i]);
    }
  }

  lemma NoFilesNoTails(d: Disk)
    requires Inv(d) && Abs(d) == map[]
    ensures TailsZero(d)
  {
    forall n | 0 <= n < MAX_FILES
      ensures !Used(d, n)
    {
      assert n !in Abs(d);
    }
  }

  /** The ownership and growth invariants in every state of every legal run: the indirect block and
      exactly the data entries 0 .. size / BLOCK_SIZE of a file are marked blocks past the
      metadata and on the disk, held by that file at that place only; every later entry is zero. */
  lemma FileBlocks(run: seq<Disk>, ops: seq<Op>, i: nat, n: nat, k: nat)
    requires IsRun(run, ops) && i < |run|
    requires ValidDisk(run[i]) && n < MAX_FILES && Used(run[i], n) && k < ENTRIES
    ensures var d := run[i];
            && MarkedOnDisk(d, Head(d, n))
            && (k <= Size(d, n) / BLOCK_SIZE ==> MarkedOnDisk(d, Data(d, n)[k]) && Data(d, n)[k] != Head(d, n))
            && (k > Size(d, n) / BLOCK_SIZE ==> Data(d, n)[k] == 0)
    ensures forall t: nat, j: nat ::
              Owns(run[i], t, j) && Owned(run[i], t, j) == Head(run[i], n) ==> t == n && j == 0
    ensures k <= Size(run[i], n) / BLOCK_SIZE ==>
              forall t: nat, j: nat ::
                Owns(run[i], t, j) && Owned(run[i], t, j) == Data(run[i], n)[k] ==> t == n && j == k + 1
  {
    RunTails(run, ops, i);
    var d := run[i];
    assert TailOk(d, n);
    assert Owns(d, n, 0) && Owned(d, n, 0) == Head(d, n);
    if k <= Size(d, n) / BLOCK_SIZE {
      assert Owns(d, n, k + 1) && Owned(d, n, k + 1) == Data(d, n)[k];
    }
  }

  predicate MarkedOnDisk(d: Disk, b: nat)
    requires ValidDisk(d)
  {
    FIRST_ALLOCATABLE <= b < NUM_BLOCKS && Bit(d[BITMAP_BLOCK], b)
  }
}
