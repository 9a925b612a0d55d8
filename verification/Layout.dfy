/** What the bytes on the disk mean: inodes, indirect blocks, file contents, and the global
    invariant that says which file owns which block. */
module Layout {
  import opened Bytes
  import opened Storage
  import opened Bitmap

  const MAX_FILES: nat := 1024
  const INODES_PER_BLOCK: nat := 128
  const INODE_BLOCKS: nat := 8
  const ENTRIES: nat := 512
  /** A file's bytes stay strictly below this bound. */
  const MAX_BYTES: nat := ENTRIES * BLOCK_SIZE

  type Files = map<nat, seq<byte>>

  function ZeroBlock(): (z: seq<byte>)
    ensures |z| == BLOCK_SIZE && forall i :: 0 <= i < BLOCK_SIZE ==> z[i] == 0
  {
    seq(BLOCK_SIZE, _ => 0)
  }

  /** Block b, read as zeroes when b is not on the disk. */
  function At(d: Disk, b: nat): (blk: seq<byte>)
    requires ValidDisk(d)
    ensures |blk| == BLOCK_SIZE
  {
    if b < NUM_BLOCKS then d[b] else ZeroBlock()
  }

  // ----- fields of the inode in slot s of an inode block (32 bytes per slot)

  predicate UsedAt(blk: seq<byte>, s: nat)
    requires |blk| == BLOCK_SIZE && s < INODES_PER_BLOCK
  {
    blk[s * 32 + 6] & 1 != 0
  }

  function SizeAt(blk: seq<byte>, s: nat): nat
    requires |blk| == BLOCK_SIZE && s < INODES_PER_BLOCK
  {
    GetU64(blk, s * 32 + 8)
  }

  function HeadAt(blk: seq<byte>, s: nat): nat
    requires |blk| == BLOCK_SIZE && s < INODES_PER_BLOCK
  {
    GetU64(blk, s * 32 + 24)
  }

  function SetSize(blk: seq<byte>, s: nat, size: nat): (r: seq<byte>)
    requires |blk| == BLOCK_SIZE && s < INODES_PER_BLOCK
    ensures |r| == BLOCK_SIZE
  {
    PutU64(blk, s * 32 + 8, size)
  }

  function SetUsed(blk: seq<byte>, s: nat): (r: seq<byte>)
    requires |blk| == BLOCK_SIZE && s < INODES_PER_BLOCK
    ensures |r| == BLOCK_SIZE
  {
    blk[s * 32 + 6 := blk[s * 32 + 6] | 1]
  }

  function SetHead(blk: seq<byte>, s: nat, head: nat): (r: seq<byte>)
    requires |blk| == BLOCK_SIZE && s < INODES_PER_BLOCK
    ensures |r| == BLOCK_SIZE
  {
    PutU64(blk, s * 32 + 24, head)
  }

  predicate SameInode(a: seq<byte>, b: seq<byte>, s: nat)
    requires |a| == BLOCK_SIZE && |b| == BLOCK_SIZE && s < INODES_PER_BLOCK
  {
    UsedAt(a, s) == UsedAt(b, s) && SizeAt(a, s) == SizeAt(b, s) && HeadAt(a, s) == HeadAt(b, s)
  }

  lemma SetSizeFields(blk: seq<byte>, s: nat, size: nat, t: nat)
    requires |blk| == BLOCK_SIZE && s < INODES_PER_BLOCK && t < INODES_PER_BLOCK && size <= U64_MAX
    ensures SizeAt(SetSize(blk, s, size), t) == if t == s then size else SizeAt(blk, t)
    ensures HeadAt(SetSize(blk, s, size), t) == HeadAt(blk, t)
    ensures UsedAt(SetSize(blk, s, size), t) == UsedAt(blk, t)
  {
    GetPut(blk, s * 32 + 8, size);
    if t != s {
      GetPutOther(blk, s * 32 + 8, size, t * 32 + 8);
    }
    GetPutOther(blk, s * 32 + 8, size, t * 32 + 24);
  }

  lemma SetHeadFields(blk: seq<byte>, s: nat, head: nat, t: nat)
    requires |blk| == BLOCK_SIZE && s < INODES_PER_BLOCK && t < INODES_PER_BLOCK && head <= U64_MAX
    ensures HeadAt(SetHead(blk, s, head), t) == if t == s then head else HeadAt(blk, t)
    ensures SizeAt(SetHead(blk, s, head), t) == SizeAt(blk, t)
    ensures UsedAt(SetHead(blk, s, head), t) == UsedAt(blk, t)
  {
    GetPut(blk, s * 32 + 24, head);
    if t != s {
      GetPutOther(blk, s * 32 + 24, head, t * 32 + 24);
    }
    GetPutOther(blk, s * 32 + 24, head, t * 32 + 8);
  }

  lemma SetUsedFields(blk: seq<byte>, s: nat, t: nat)
    requires |blk| == BLOCK_SIZE && s < INODES_PER_BLOCK && t < INODES_PER_BLOCK
    ensures UsedAt(SetUsed(blk, s), t) <==> t == s || UsedAt(blk, t)
    ensures HeadAt(SetUsed(blk, s), t) == HeadAt(blk, t)
    ensures SizeAt(SetUsed(blk, s), t) == SizeAt(blk, t)
    ensures forall x :: 0 <= x < BLOCK_SIZE ==> SetUsed(blk, s)[x] == if x == s * 32 + 6 then blk[x] | 1 else blk[x]
  {
    assert SetUsed(blk, s)[t * 32 + 24..t * 32 + 32] == blk[t * 32 + 24..t * 32 + 32];
    assert SetUsed(blk, s)[t * 32 + 8..t * 32 + 16] == blk[t * 32 + 8..t * 32 + 16];
  }

  // ----- files

  predicate Used(d: Disk, n: nat)
    requires ValidDisk(d) && n < MAX_FILES
  {
    UsedAt(d[n / INODES_PER_BLOCK], n % INODES_PER_BLOCK)
  }

  function Size(d: Disk, n: nat): nat
    requires ValidDisk(d) && n < MAX_FILES
  {
    SizeAt(d[n / INODES_PER_BLOCK], n % INODES_PER_BLOCK)
  }

  function Head(d: Disk, n: nat): nat
    requires ValidDisk(d) && n < MAX_FILES
  {
    HeadAt(d[n / INODES_PER_BLOCK], n % INODES_PER_BLOCK)
  }

  /** Entry i of an indirect block. */
  function Pointer(p: seq<byte>, i: nat): nat
    requires |p| == BLOCK_SIZE && i < ENTRIES
  {
    GetU64(p, i * 8)
  }

  function Pointers(p: seq<byte>): (r: seq<nat>)
    requires |p| == BLOCK_SIZE
    ensures |r| == ENTRIES && forall i :: 0 <= i < ENTRIES ==> r[i] == Pointer(p, i)
  {
    seq(ENTRIES, i requires 0 <= i < ENTRIES => Pointer(p, i))
  }

  /** Byte x of the file whose data blocks are ps. */
  function ByteAt(d: Disk, ps: seq<nat>, x: nat): byte
    requires ValidDisk(d) && x / BLOCK_SIZE < |ps|
  {
    At(d, ps[x / BLOCK_SIZE])[x % BLOCK_SIZE]
  }

  /** The data blocks of file n. */
  function Data(d: Disk, n: nat): (ps: seq<nat>)
    requires ValidDisk(d) && n < MAX_FILES
    ensures |ps| == ENTRIES
  {
    Pointers(At(d, Head(d, n)))
  }

  /** len bytes, from byte position from, of the file whose data blocks are ps. */
  function FileBytes(d: Disk, ps: seq<nat>, from: nat, len: nat): (r: seq<byte>)
    requires ValidDisk(d) && |ps| == ENTRIES && from + len <= MAX_BYTES
    ensures |r| == len
    ensures forall x :: 0 <= x < len ==> r[x] == ByteAt(d, ps, from + x)
  {
    seq(len, x requires 0 <= x < len => ByteAt(d, ps, from + x))
  }

  /** The bytes of file n that its size field declares. */
  function Contents(d: Disk, n: nat): (c: seq<byte>)
    requires ValidDisk(d) && n < MAX_FILES && Size(d, n) <= MAX_BYTES
    ensures |c| == Size(d, n)
  {
    FileBytes(d, Data(d, n), 0, Size(d, n))
  }

  // ----- ownership

  /** Blocks held by file n: the indirect block and entries 0 .. size / BLOCK_SIZE. */
  function Held(d: Disk, n: nat): nat
    requires ValidDisk(d) && n < MAX_FILES
  {
    Size(d, n) / BLOCK_SIZE + 2
  }

  predicate Owns(d: Disk, n: nat, k: nat)
    requires ValidDisk(d)
  {
    n < MAX_FILES && Used(d, n) && Size(d, n) < MAX_BYTES && k < Held(d, n)
  }

  /** The k-th block of file n: its indirect block for k = 0, data entry k - 1 otherwise. */
  function Owned(d: Disk, n: nat, k: nat): nat
    requires ValidDisk(d) && Owns(d, n, k)
  {
    if k == 0 then Head(d, n) else Pointer(At(d, Head(d, n)), k - 1)
  }

  ghost predicate SizesOk(d: Disk)
    requires ValidDisk(d)
  {
    forall n :: 0 <= n < MAX_FILES && Used(d, n) ==> n <= INODE_BLOCKS && Size(d, n) < MAX_BYTES
  }

  ghost predicate InRange(d: Disk, m: nat)
    requires ValidDisk(d)
  {
    forall n: nat, k: nat :: Owns(d, n, k) ==> FIRST_ALLOCATABLE <= Owned(d, n, k) < m
  }

  ghost predicate Disjoint(d: Disk)
    requires ValidDisk(d)
  {
    forall n: nat, k: nat, n': nat, k': nat ::
      Owns(d, n, k) && Owns(d, n', k') && Owned(d, n, k) == Owned(d, n', k') ==> n == n' && k == k'
  }

  /** The number one above the last allocated block. */
  function Frontier(d: Disk): nat
    requires ValidDisk(d)
  {
    Lowest(d[BITMAP_BLOCK])
  }

  /** The global invariant: the marked blocks are exactly those below the frontier, the frontier
      is on the disk, and the blocks of all files are distinct marked blocks. */
  ghost predicate Inv(d: Disk) {
    && ValidDisk(d)
    && Prefix(d[BITMAP_BLOCK], Frontier(d))
    && Frontier(d) <= NUM_BLOCKS
    && SizesOk(d)
    && InRange(d, Frontier(d))
    && Disjoint(d)
  }

  /** The abstract file system. */
  ghost function Abs(d: Disk): (fs: Files)
    requires Inv(d)
    ensures forall n :: n in fs <==> 0 <= n < MAX_FILES && Used(d, n)
    ensures forall n :: n in fs ==> n <= INODE_BLOCKS && fs[n] == Contents(d, n) && |fs[n]| == Size(d, n) < MAX_BYTES
  {
    map n: nat | n < MAX_FILES && Used(d, n) :: Contents(d, n)
  }

  // ----- frames

  /** File n keeps its inode fields, and its indirect block if it has one. */
  predicate SameMeta(d: Disk, d': Disk, n: nat)
    requires ValidDisk(d) && ValidDisk(d') && n < MAX_FILES
  {
    && Used(d', n) == Used(d, n)
    && Size(d', n) == Size(d, n)
    && Head(d', n) == Head(d, n)
    && (Used(d, n) ==> At(d', Head(d, n)) == At(d, Head(d, n)))
  }

  /** A file whose metadata and data blocks are untouched reads the same. */
  lemma ContentsFrame(d: Disk, d': Disk, n: nat)
    requires Inv(d) && ValidDisk(d') && n < MAX_FILES && Used(d, n) && SameMeta(d, d', n)
    requires forall k: nat :: Owns(d, n, k) ==> At(d', Owned(d, n, k)) == At(d, Owned(d, n, k))
    ensures Size(d', n) <= MAX_BYTES && Contents(d', n) == Contents(d, n)
  {
    var ps := Data(d, n);
    forall x | 0 <= x < Size(d, n)
      ensures ByteAt(d', ps, x) == ByteAt(d, ps, x)
    {
      var k := x / BLOCK_SIZE + 1;
      assert Owns(d, n, k) && Owned(d, n, k) == ps[x / BLOCK_SIZE];
    }
  }
}
