/** Runs of the file system code itself: a list of operations executed on a device, state for state the
    runs that the theorems are about. */
module Session {
  import opened Bytes
  import opened Storage
  import opened Bitmap
  import opened Layout
  import opened Operations
  import opened Writing
  import opened FileOps
  import opened Runs

  predicate Permitted(op: Op, created: set<nat>) {
    match op
    case Create(n) => n !in created
    case Write(n, buf, to) => n in created && to + |buf| < MAX_BYTES
  }

  /** The inodes that exist afterwards. */
  function CreatedBy(op: Op, created: set<nat>): set<nat> {
    if op.Create? && op.n <= INODE_BLOCKS then created + {op.n} else created
  }

  /** What a caller can check beforehand: each inode is created at most once and before it is written,
      and every write ends below MAX_BYTES. */
  predicate Usable(ops: seq<Op>, created: set<nat>) {
    ops == [] || (Permitted(ops[0], created) && Usable(ops[1..], CreatedBy(ops[0], created)))
  }

  function ReturnCode(op: Op): int {
    if op.Create? && op.n > INODE_BLOCKS then -1 else 0
  }

  /** Between two calls. */
  ghost predicate Steady(d: Disk, created: set<nat>) {
    Inv(d) && NoLeak(d) && Abs(d).Keys == created
  }

  ghost predicate StepOf(d: Disk, op: Op, d': Disk) {
    ValidDisk(d) && d' == Step(d, op) && (Inv(d) ==> Legal(Abs(d), op))
  }

  /** One call of the code is one step of a run. */
  method Apply(fs: FileSystem, op: Op, ghost created: set<nat>) returns (rc: int)
    requires fs.Mounted() && Steady(fs.Disk(), created) && Permitted(op, created)
    modifies fs.device.storage
    ensures fs.Mounted() && StepOf(old(fs.Disk()), op, fs.Disk()) && rc == ReturnCode(op)
    ensures Steady(fs.Disk(), CreatedBy(op, created))
    ensures AbsStepOk(old(Abs(fs.Disk())), op, Abs(fs.Disk()))
  {
    hide Inv, Abs, Frontier, CreateDisk, StoreDisk, Grown, NoLeak, Wrote, FileSystem.Disk, AbsStepOk, Legal;
    ghost var d := fs.Disk();
    PermittedLegal(Abs(d), op, created);
    match op {
      case Create(n) =>
        rc := fs.Create(n);
      case Write(n, buf, to) =>
        assert buf[..|buf|] == buf;
        WriteInRange(d, n);
        rc := fs.Write(n, buf, |buf|, to);
    }
    StepRefines(d, op, fs.Disk());
    StepKeys(Abs(d), op, Abs(fs.Disk()));
  }

  lemma WriteInRange(d: Disk, n: nat)
    requires Inv(d) && n in Abs(d)
    ensures n < MAX_FILES
  {}

  /** Formats the device and executes the operations.  Every call succeeds, except that creating an
      inode above INODE_BLOCKS is rejected; and the disks before and after each call are a run. */
  method Execute(fs: FileSystem, ops: seq<Op>) returns (codes: seq<int>, ghost run: seq<Disk>)
    requires fs.Wired() && Usable(ops, {})
    modifies fs, fs.bitmap, fs.device.storage
    ensures fs.Mounted() && IsRun(run, ops) && fs.Disk() == run[|ops|] && Good(fs.Disk())
    ensures |codes| == |ops| && forall i :: 0 <= i < |ops| ==> codes[i] == ReturnCode(ops[i])
  {
    hide Inv, Abs, Frontier, FormatDisk, NoLeak, FileSystem.Disk, Steady, StepOf, Usable, Permitted, Good, IsRun,
      ReturnCode, Traced;
    ghost var d0 := fs.Disk();
    fs.Format();
    FormatSteady(fs.Disk());
    run, codes := [fs.Disk()], [];
    TraceStarts(run[0], ops, d0);
    ghost var created: set<nat> := {};
    var i := 0;
    assert ops[0..] == ops;
    while i < |ops|
      invariant 0 <= i <= |ops| && fs.Mounted()
      invariant |run| == i + 1 && fs.Disk() == run[i] && Traced(run, ops, d0)
      invariant Steady(fs.Disk(), created) && Usable(ops[i..], created)
      invariant |codes| == i && forall k :: 0 <= k < i ==> codes[k] == ReturnCode(ops[k])
    {
      NextUsable(ops, i, created);
      var rc := Apply(fs, ops[i], created);
      created := CreatedBy(ops[i], created);
      TraceNext(run, ops, d0, fs.Disk());
      run := run + [fs.Disk()];
      codes := codes + [rc];
      i := i + 1;
    }
    RunOfSteps(run, ops, d0);
    RunRefines(run, ops, |ops|);
  }

  /** The disks so far: the formatted one, and one after each call made. */
  ghost predicate Traced(run: seq<Disk>, ops: seq<Op>, d: Disk) {
    && ValidDisk(d) && 0 < |run| <= |ops| + 1 && run[0] == FormatDisk(d)
    && forall k :: 0 <= k < |run| - 1 ==> StepOf(run[k], ops[k], run[k + 1])
  }

  lemma TraceStarts(f: Disk, ops: seq<Op>, d: Disk)
    requires ValidDisk(d) && f == FormatDisk(d)
    ensures Traced([f], ops, d)
  {}

  lemma TraceNext(run: seq<Disk>, ops: seq<Op>, d: Disk, next: Disk)
    requires Traced(run, ops, d) && |run| <= |ops| && StepOf(run[|run| - 1], ops[|run| - 1], next)
    ensures Traced(run + [next], ops, d)
  {
    hide StepOf, FormatDisk;
    var r := run + [next];
    forall k | 0 <= k < |r| - 1
      ensures StepOf(r[k], ops[k], r[k + 1])
    {
      assert k < |run| - 1 ==> StepOf(run[k], ops[k], run[k + 1]);
    }
  }

  lemma RunOfSteps(run: seq<Disk>, ops: seq<Op>, d: Disk)
    requires Traced(run, ops, d) && |run| == |ops| + 1
    ensures IsRun(run, ops)
  {
    hide Step, FormatDisk, Inv, Abs, Legal;
    forall i | 0 <= i < |ops|
      ensures ValidDisk(run[i]) && run[i + 1] == Step(run[i], ops[i]) && (Inv(run[i]) ==> Legal(Abs(run[i]), ops[i]))
    {
      assert StepOf(run[i], ops[i], run[i + 1]);
    }
  }

  lemma FormatSteady(d: Disk)
    requires Inv(d) && Abs(d) == map[] && Frontier(d) == FIRST_ALLOCATABLE
    ensures Steady(d, {})
  {
    TotalEmpty(FILES);
  }

  lemma NextUsable(ops: seq<Op>, i: nat, created: set<nat>)
    requires i < |ops| && Usable(ops[i..], created)
    ensures Permitted(ops[i], created) && Usable(ops[i + 1..], CreatedBy(ops[i], created))
  {
    assert ops[i..][0] == ops[i] && ops[i..][1..] == ops[i + 1..];
  }

  lemma PermittedLegal(fs: Files, op: Op, created: set<nat>)
    requires fs.Keys == created && Permitted(op, created)
    ensures Legal(fs, op)
  {}

  lemma StepKeys(fs: Files, op: Op, fs': Files)
    requires AbsStepOk(fs, op, fs')
    ensures fs'.Keys == CreatedBy(op, fs.Keys)
  {}
}
