/** The four-level page table: tables of 512 entries held in frames, grown on demand, read as a
    flat map from page numbers to entries. */
module PageTable {
  import opened Options
  import opened Bytes
  import opened Frames

  const TABLE: nat := 512
  const MEMORY: nat := 524288
  const PAGES: nat := 0x10_0000_0000
  const ADDRESS_LIMIT: nat := 0x10_0000_0000_0000

  /** The address field is 52 bits wide. */
  type Address = a: nat | a < ADDRESS_LIMIT

  datatype Entry = Entry(address: Address, flags: nat)

  const EMPTY: Entry := Entry(0, 0)

  /** The nine page-number bits that index the table at a level; the root takes the lowest. */
  function Index(page: nat, level: nat): (i: nat)
    requires level < 4
    ensures i < TABLE
  {
    match level
    case 0 => page % 512
    case 1 => page / 512 % 512
    case 2 => page / 0x4_0000 % 512
    case _ => page / 0x800_0000 % 512
  }

  /** Four indices determine the low 36 bits of the page number. */
  lemma IndicesDetermine(p: nat, q: nat)
    requires forall l :: 0 <= l < 4 ==> Index(p, l) == Index(q, l)
    ensures p % PAGES == q % PAGES
  {
    Compose(p);
    Compose(q);
    assert Index(p, 0) == Index(q, 0) && Index(p, 1) == Index(q, 1);
    assert Index(p, 2) == Index(q, 2) && Index(p, 3) == Index(q, 3);
  }

  lemma Compose(p: nat)
    ensures p % PAGES == Index(p, 0) + 512 * Index(p, 1) + 0x4_0000 * Index(p, 2) + 0x800_0000 * Index(p, 3)
  {
    var b := p / 512;
    var c := b / 512;
    var d := c / 512;
    DivideAgain(p);
    assert p == 512 * b + p % 512 && b == 512 * c + b % 512;
    assert c == 512 * d + c % 512 && d == 512 * (d / 512) + d % 512;
    PageRemainder(p, d / 512, p % 512 + 512 * (b % 512) + 0x4_0000 * (c % 512) + 0x800_0000 * (d % 512));
  }

  lemma DivideAgain(p: nat)
    ensures p / 512 / 512 == p / 0x4_0000 && p / 512 / 512 / 512 == p / 0x800_0000
  {}

  lemma PageRemainder(p: nat, k: nat, r: nat)
    requires p == PAGES * k + r && r < PAGES
    ensures p % PAGES == r
  {}

  // ----- tables in memory

  /** Entry number i of the table in frame f. */
  function Cell(mem: seq<Entry>, f: nat, i: nat): Entry
    requires |mem| == MEMORY && f < FRAMES && i < TABLE
  {
    mem[f * TABLE + i]
  }

  /** Address of a frame: the memory array starts at a non-zero host address. */
  function PtrOf(base: nat, f: nat): nat {
    base + 4096 * f
  }

  /** Which frames hold tables, and by which indices each is reached from the root. */
  type Paths = map<nat, seq<nat>>

  ghost predicate TableOk(mem: seq<Entry>, base: nat, paths: Paths, f: nat)
    requires |mem| == MEMORY && f in paths
  {
    && f < FRAMES && |paths[f]| <= 3
    && (|paths[f]| < 3 ==> forall i :: 0 <= i < TABLE ==> ChildOk(mem, base, paths, f, i))
  }

  /** A non-zero entry of an inner table is the address of the table reached by its index. */
  ghost predicate ChildOk(mem: seq<Entry>, base: nat, paths: Paths, f: nat, i: nat)
    requires |mem| == MEMORY && f in paths && f < FRAMES && i < TABLE
  {
    var a := Cell(mem, f, i).address;
    a != 0 ==>
      && a >= base && (a - base) % 4096 == 0
      && (a - base) / 4096 in paths && paths[(a - base) / 4096] == paths[f] + [i]
  }

  ghost predicate TreeOk(mem: seq<Entry>, base: nat, paths: Paths) {
    && |mem| == MEMORY && base > 0
    && (forall f :: f in paths ==> TableOk(mem, base, paths, f))
  }

  /** The table that entry i of inner table f points to, if any. */
  ghost function Child(mem: seq<Entry>, base: nat, paths: Paths, f: nat, i: nat): (g: Option<nat>)
    requires TreeOk(mem, base, paths) && f in paths && |paths[f]| < 3 && i < TABLE
    ensures g.Some? ==> g.value in paths && paths[g.value] == paths[f] + [i]
    ensures f < FRAMES
    ensures g.None? <==> Cell(mem, f, i).address == 0
    ensures g.Some? ==> Cell(mem, f, i).address == PtrOf(base, g.value)
  {
    assert TableOk(mem, base, paths, f) && ChildOk(mem, base, paths, f, i);
    var a := Cell(mem, f, i).address;
    if a == 0 then None else Some((a - base) / 4096)
  }

  /** The last-level table that the walk for a page reaches from table f, if it gets that far. */
  ghost function LeafFrom(mem: seq<Entry>, base: nat, paths: Paths, f: nat, page: nat): (r: Option<nat>)
    requires TreeOk(mem, base, paths) && f in paths
    ensures r.Some? ==> r.value in paths && r.value < FRAMES && |paths[r.value]| == 3
    decreases if |paths[f]| <= 3 then 3 - |paths[f]| else 0
  {
    assert TableOk(mem, base, paths, f);
    if |paths[f]| == 3 then Some(f)
    else
      var g := Child(mem, base, paths, f, Index(page, |paths[f]|));
      if g.None? then None else LeafFrom(mem, base, paths, g.value, page)
  }

  /** The entry that the walk for a page ends at; EMPTY if it stops early. */
  ghost function SlotFrom(mem: seq<Entry>, base: nat, paths: Paths, f: nat, page: nat): Entry
    requires TreeOk(mem, base, paths) && f in paths
  {
    var l := LeafFrom(mem, base, paths, f, page);
    if l.None? then EMPTY else Cell(mem, l.value, Index(page, 3))
  }

  predicate Follows(path: seq<nat>, page: nat) {
    |path| <= 3 && forall l :: 0 <= l < |path| ==> path[l] == Index(page, l)
  }

  /** The walk for a page only visits tables reached by that page's indices. */
  lemma {:induction false} LeafFollows(mem: seq<Entry>, base: nat, paths: Paths, f: nat, page: nat)
    requires TreeOk(mem, base, paths) && f in paths && Follows(paths[f], page)
    ensures var l := LeafFrom(mem, base, paths, f, page); l.Some? ==> Follows(paths[l.value], page)
    decreases 3 - |paths[f]|
  {
    if |paths[f]| < 3 {
      var g := Child(mem, base, paths, f, Index(page, |paths[f]|));
      if g.Some? {
        LeafFollows(mem, base, paths, g.value, page);
      }
    }
  }

  /** Pages with the same low 36 bits share their walk. */
  lemma {:induction false} LeafShared(mem: seq<Entry>, base: nat, paths: Paths, f: nat, p: nat, q: nat)
    requires TreeOk(mem, base, paths) && f in paths && forall l :: 0 <= l < 4 ==> Index(p, l) == Index(q, l)
    ensures LeafFrom(mem, base, paths, f, p) == LeafFrom(mem, base, paths, f, q)
    decreases if |paths[f]| <= 3 then 3 - |paths[f]| else 0
  {
    assert TableOk(mem, base, paths, f);
    if |paths[f]| < 3 {
      var g := Child(mem, base, paths, f, Index(p, |paths[f]|));
      if g.Some? {
        LeafShared(mem, base, paths, g.value, p, q);
      }
    }
  }

  lemma SamePageIndices(p: nat, q: nat)
    requires p % PAGES == q % PAGES
    ensures forall l :: 0 <= l < 4 ==> Index(p, l) == Index(q, l)
  {
    IndexMod(p);
    IndexMod(q);
  }

  lemma IndexMod(p: nat)
    ensures forall l :: 0 <= l < 4 ==> Index(p, l) == Index(p % PAGES, l)
  {
    var k := p / PAGES;
    var r := p % PAGES;
    assert p == r + PAGES * k;
    Index1(r, k);
    Index2(r, k);
    Index3(r, k);
  }

  lemma Index1(r: nat, k: nat)
    ensures (r + PAGES * k) % 512 == r % 512
    ensures (r + PAGES * k) / 512 % 512 == r / 512 % 512
  {
    assert (r + PAGES * k) / 512 == r / 512 + 0x800_0000 * k;
  }

  lemma Index2(r: nat, k: nat)
    ensures (r + PAGES * k) / 0x4_0000 % 512 == r / 0x4_0000 % 512
  {
    assert (r + PAGES * k) / 0x4_0000 == r / 0x4_0000 + 0x4_0000 * k;
  }

  lemma Index3(r: nat, k: nat)
    ensures (r + PAGES * k) / 0x800_0000 % 512 == r / 0x800_0000 % 512
  {
    assert (r + PAGES * k) / 0x800_0000 == r / 0x800_0000 + 512 * k;
  }

  // ----- growing the tree by one zeroed table

  ghost predicate Grown(mem: seq<Entry>, mem': seq<Entry>, base: nat, f: nat, i: nat, g: nat) {
    && |mem| == |mem'| == MEMORY && f < FRAMES && g < FRAMES && i < TABLE && f != g
    && PtrOf(base, g) < ADDRESS_LIMIT
    && Cell(mem', f, i) == Cell(mem, f, i).(address := PtrOf(base, g))
    && (forall j :: 0 <= j < TABLE ==> Cell(mem', g, j) == EMPTY)
    && forall h, j :: 0 <= h < FRAMES && 0 <= j < TABLE && h != g && !(h == f && j == i) ==>
         Cell(mem', h, j) == Cell(mem, h, j)
  }

  lemma GrowTree(mem: seq<Entry>, mem': seq<Entry>, base: nat, paths: Paths, paths': Paths, f: nat, i: nat, g: nat)
    requires TreeOk(mem, base, paths) && f in paths && |paths[f]| < 3 && g !in paths && Grown(mem, mem', base, f, i, g)
    requires Cell(mem, f, i).address == 0 && paths' == paths[g := paths[f] + [i]]
    ensures TreeOk(mem', base, paths')
  {
    forall h | h in paths'
      ensures TableOk(mem', base, paths', h)
    {
      if h != g {
        assert TableOk(mem, base, paths, h);
        if |paths[h]| < 3 {
          forall j | 0 <= j < TABLE
            ensures ChildOk(mem', base, paths', h, j)
          {
            assert ChildOk(mem, base, paths, h, j);
          }
        }
      }
    }
  }

  /** Growing changes no page's entry: an absent table and a zeroed one read the same. */
  lemma {:induction false} GrowSlot(mem: seq<Entry>, mem': seq<Entry>, base: nat, paths: Paths, paths': Paths,
                                    f: nat, i: nat, g: nat, h: nat, page: nat)
    requires TreeOk(mem, base, paths) && f in paths && |paths[f]| < 3 && g !in paths && Grown(mem, mem', base, f, i, g)
    requires Cell(mem, f, i).address == 0 && paths' == paths[g := paths[f] + [i]]
    requires TreeOk(mem', base, paths') && h in paths
    ensures SlotFrom(mem', base, paths', h, page) == SlotFrom(mem, base, paths, h, page)
    decreases if |paths[h]| <= 3 then 3 - |paths[h]| else 0
  {
    assert TableOk(mem, base, paths, h);
    if |paths[h]| < 3 {
      var j := Index(page, |paths[h]|);
      var c := Child(mem, base, paths, h, j);
      var c' := Child(mem', base, paths', h, j);
      if h == f && j == i {
        assert c' == Some(g);
        ZeroedSlot(mem', base, paths', g, page);
      } else {
        assert c' == c;
        if c.Some? {
          GrowSlot(mem, mem', base, paths, paths', f, i, g, c.value, page);
        }
      }
    }
  }

  /** From a zeroed table every walk ends in EMPTY. */
  lemma ZeroedSlot(mem: seq<Entry>, base: nat, paths: Paths, g: nat, page: nat)
    requires TreeOk(mem, base, paths) && g in paths && g < FRAMES
    requires forall j :: 0 <= j < TABLE ==> Cell(mem, g, j) == EMPTY
    ensures SlotFrom(mem, base, paths, g, page) == EMPTY
  {
    assert TableOk(mem, base, paths, g);
  }

  // ----- changing one last-level entry

  ghost predicate CellSet(mem: seq<Entry>, mem': seq<Entry>, f: nat, d: nat, e: Entry) {
    && |mem| == |mem'| == MEMORY && f < FRAMES && d < TABLE
    && Cell(mem', f, d) == e
    && forall h, j :: 0 <= h < FRAMES && 0 <= j < TABLE && !(h == f && j == d) ==> Cell(mem', h, j) == Cell(mem, h, j)
  }

  lemma SetLeafTree(mem: seq<Entry>, mem': seq<Entry>, base: nat, paths: Paths, f: nat, d: nat, e: Entry)
    requires TreeOk(mem, base, paths) && f in paths && f < FRAMES && |paths[f]| == 3 && d < TABLE
    requires CellSet(mem, mem', f, d, e)
    ensures TreeOk(mem', base, paths)
  {
    forall h | h in paths
      ensures TableOk(mem', base, paths, h)
    {
      assert TableOk(mem, base, paths, h);
      if |paths[h]| < 3 {
        forall j | 0 <= j < TABLE
          ensures ChildOk(mem', base, paths, h, j)
        {
          assert ChildOk(mem, base, paths, h, j);
        }
      }
    }
  }

  lemma {:induction false} SetLeafWalk(mem: seq<Entry>, mem': seq<Entry>, base: nat, paths: Paths, f: nat, d: nat,
                                       e: Entry, h: nat, page: nat)
    requires TreeOk(mem, base, paths) && f in paths && f < FRAMES && |paths[f]| == 3 && d < TABLE
    requires TreeOk(mem', base, paths) && h in paths && CellSet(mem, mem', f, d, e)
    ensures LeafFrom(mem', base, paths, h, page) == LeafFrom(mem, base, paths, h, page)
    decreases if |paths[h]| <= 3 then 3 - |paths[h]| else 0
  {
    assert TableOk(mem, base, paths, h);
    if |paths[h]| < 3 {
      var j := Index(page, |paths[h]|);
      var c := Child(mem, base, paths, h, j);
      assert Child(mem', base, paths, h, j) == c;
      if c.Some? {
        SetLeafWalk(mem, mem', base, paths, f, d, e, c.value, page);
      }
    }
  }

  /** Writing the entry that page p's walk ends at changes the entry of p, and of no page that
      differs from p in its low 36 bits. */
  lemma SetLeafSlot(mem: seq<Entry>, mem': seq<Entry>, base: nat, paths: Paths, root: nat, p: nat, e: Entry, q: nat)
    requires TreeOk(mem, base, paths) && root in paths && paths[root] == []
    requires LeafFrom(mem, base, paths, root, p).Some?
    requires CellSet(mem, mem', LeafFrom(mem, base, paths, root, p).value, Index(p, 3), e)
    ensures TreeOk(mem', base, paths)
    ensures SlotFrom(mem', base, paths, root, q)
            == if q % PAGES == p % PAGES then e else SlotFrom(mem, base, paths, root, q)
  {
    var f := LeafFrom(mem, base, paths, root, p).value;
    var d := Index(p, 3);
    SetLeafTree(mem, mem', base, paths, f, d, e);
    SetLeafWalk(mem, mem', base, paths, f, d, e, root, q);
    LeafFollows(mem, base, paths, root, p);
    LeafFollows(mem, base, paths, root, q);
    var l := LeafFrom(mem, base, paths, root, q);
    if q % PAGES == p % PAGES {
      SamePageIndices(p, q);
      LeafShared(mem, base, paths, root, p, q);
    } else if l == Some(f) && Index(q, 3) == d {
      forall k | 0 <= k < 4
        ensures Index(p, k) == Index(q, k)
      {
        if k < 3 {
          assert paths[f][k] == Index(p, k);
        }
      }
      IndicesDetermine(p, q);
    }
  }

  // ----- how many tables a walk still lacks

  ghost function MissingFrom(mem: seq<Entry>, base: nat, paths: Paths, f: nat, page: nat): (n: nat)
    requires TreeOk(mem, base, paths) && f in paths
    ensures |paths[f]| <= 3 && n <= 3 - |paths[f]|
    decreases if |paths[f]| <= 3 then 3 - |paths[f]| else 0
  {
    assert TableOk(mem, base, paths, f);
    if |paths[f]| == 3 then 0
    else
      var g := Child(mem, base, paths, f, Index(page, |paths[f]|));
      if g.None? then 3 - |paths[f]| else MissingFrom(mem, base, paths, g.value, page)
  }

  lemma ZeroedMissing(mem: seq<Entry>, base: nat, paths: Paths, g: nat, page: nat)
    requires TreeOk(mem, base, paths) && g in paths && g < FRAMES
    requires forall j :: 0 <= j < TABLE ==> Cell(mem, g, j) == EMPTY
    ensures |paths[g]| <= 3 && MissingFrom(mem, base, paths, g, page) == 3 - |paths[g]|
  {
    assert TableOk(mem, base, paths, g);
  }

  /** Every table and every pointer that was there still is. */
  ghost predicate Kept(mem: seq<Entry>, paths: Paths, mem': seq<Entry>, paths': Paths, base: nat)
    requires TreeOk(mem, base, paths) && TreeOk(mem', base, paths')
  {
    && (forall h :: h in paths ==> h in paths' && paths'[h] == paths[h])
    && forall h, j :: h in paths && |paths[h]| < 3 && 0 <= j < TABLE && Child(mem, base, paths, h, j).Some? ==>
         Child(mem', base, paths', h, j) == Child(mem, base, paths, h, j)
  }

  lemma GrowKept(mem: seq<Entry>, mem': seq<Entry>, base: nat, paths: Paths, paths': Paths, f: nat, i: nat, g: nat)
    requires TreeOk(mem, base, paths) && f in paths && |paths[f]| < 3 && g !in paths && Grown(mem, mem', base, f, i, g)
    requires Cell(mem, f, i).address == 0 && paths' == paths[g := paths[f] + [i]]
    requires TreeOk(mem', base, paths')
    ensures Kept(mem, paths, mem', paths', base)
    ensures Child(mem', base, paths', f, i) == Some(g)
  {
    hide SlotFrom;
    assert PtrOf(base, g) > 0;
  }

  /** Three linked tables below the root are the walk for a page. */
  lemma LeafOfChain(mem: seq<Entry>, base: nat, paths: Paths, f0: nat, f1: nat, f2: nat, f3: nat, page: nat)
    requires TreeOk(mem, base, paths)
    requires f0 in paths && f1 in paths && f2 in paths && f3 in paths
    requires |paths[f0]| == 0 && |paths[f1]| == 1 && |paths[f2]| == 2 && |paths[f3]| == 3
    requires Child(mem, base, paths, f0, Index(page, 0)) == Some(f1)
    requires Child(mem, base, paths, f1, Index(page, 1)) == Some(f2)
    requires Child(mem, base, paths, f2, Index(page, 2)) == Some(f3)
    ensures LeafFrom(mem, base, paths, f0, page) == Some(f3) && f3 < FRAMES
    ensures SlotFrom(mem, base, paths, f0, page) == Cell(mem, f3, Index(page, 3))
  {
    assert LeafFrom(mem, base, paths, f3, page) == Some(f3);
    assert LeafFrom(mem, base, paths, f2, page) == Some(f3);
    assert LeafFrom(mem, base, paths, f1, page) == Some(f3);
  }

  // ----- the flat map of pages that a run of calls leaves behind

  datatype VmOp = MapPage(page: nat, frame: nat) | UnmapPage(page: nat)

  /** Keyed by the low 36 bits of the page number. */
  type Flat = map<nat, Entry>

  function Lookup(m: Flat, page: nat): Entry {
    if page % PAGES in m then m[page % PAGES] else EMPTY
  }

  /** The map after one call, and what the call returns. */
  function FlatStep(m: Flat, op: VmOp): (Flat, int) {
    match op
    case MapPage(page, frame) =>
      if page != 0 && Lookup(m, page).address == 0 then (m[page % PAGES := Entry(frame % ADDRESS_LIMIT, 1)], 1)
      else (m, 0)
    case UnmapPage(page) =>
      if page != 0 then (m[page % PAGES := Lookup(m, page).(flags := 0)], 1) else (m, 0)
  }

  function FlatRun(ops: seq<VmOp>): Flat {
    if ops == [] then map[] else FlatStep(FlatRun(ops[..|ops| - 1]), ops[|ops| - 1]).0
  }

  /** What call number i of the run returns. */
  function CodeAt(ops: seq<VmOp>, i: nat): int
    requires i < |ops|
  {
    FlatStep(FlatRun(ops[..i]), ops[i]).1
  }

  /** Only mapped pages are unmapped; page 0 is refused anyway. */
  predicate Applies(ops: seq<VmOp>) {
    forall i :: 0 <= i < |ops| && ops[i].UnmapPage? && ops[i].page != 0 ==>
      Lookup(FlatRun(ops[..i]), ops[i].page).flags == 1
  }

  /** Call number i concerns page q and takes effect. */
  predicate Sets(ops: seq<VmOp>, i: nat, q: nat)
    requires i < |ops|
  {
    ops[i].page % PAGES == q % PAGES && CodeAt(ops, i) == 1
  }

  /** The last call that took effect on page q. */
  predicate LastSet(ops: seq<VmOp>, i: nat, q: nat) {
    i < |ops| && Sets(ops, i, q) && forall j :: i < j < |ops| ==> !Sets(ops, j, q)
  }

  lemma SetsBefore(ops: seq<VmOp>, i: nat, q: nat)
    requires i < |ops| - 1
    ensures Sets(ops, i, q) <==> Sets(ops[..|ops| - 1], i, q)
  {
    assert ops[..|ops| - 1][..i] == ops[..i];
  }

  lemma LastSetBefore(ops: seq<VmOp>, before: seq<VmOp>, i: nat, q: nat)
    requires ops != [] && before == ops[..|ops| - 1] && !Sets(ops, |ops| - 1, q)
    ensures LastSet(ops, i, q) <==> LastSet(before, i, q)
  {
    hide Sets;
    forall j: nat | j < |before|
      ensures Sets(before, j, q) == Sets(ops, j, q)
    {
      SetsBefore(ops, j, q);
    }
    if LastSet(before, i, q) {
      forall j | i < j < |ops|
        ensures !Sets(ops, j, q)
      {
        assert j < |before| ==> !Sets(before, j, q);
      }
    }
    if LastSet(ops, i, q) {
      forall j | i < j < |before|
        ensures !Sets(before, j, q)
      {
        assert !Sets(ops, j, q);
      }
    }
  }

  /** After any run of calls, a page is mapped if and only if the last call that took effect on it was
      a mapping, and then its entry is the one that call asked for. */
  lemma {:induction false} MappedIff(ops: seq<VmOp>, q: nat)
    ensures forall i: nat :: LastSet(ops, i, q) && ops[i].MapPage? ==>
              Lookup(FlatRun(ops), q) == Entry(ops[i].frame % ADDRESS_LIMIT, 1)
    ensures Lookup(FlatRun(ops), q).flags == 1 ==> exists i: nat :: LastSet(ops, i, q) && ops[i].MapPage?
    decreases |ops|
  {
    if ops != [] {
      var n := |ops| - 1;
      MappedIff(ops[..n], q);
      if Sets(ops, n, q) {
        assert LastSet(ops, n, q);
      } else {
        forall i: nat
          ensures LastSet(ops, i, q) <==> LastSet(ops[..n], i, q)
        {
          LastSetBefore(ops, ops[..n], i, q);
        }
        Unset(ops, q);
        if Lookup(FlatRun(ops), q).flags == 1 {
          var i: nat :| LastSet(ops[..n], i, q) && ops[..n][i].MapPage?;
          assert LastSet(ops, i, q) && ops[i].MapPage?;
        }
      }
    }
  }

  lemma Unset(ops: seq<VmOp>, q: nat)
    requires ops != [] && !Sets(ops, |ops| - 1, q)
    ensures Lookup(FlatRun(ops), q) == Lookup(FlatRun(ops[..|ops| - 1]), q)
  {}

  /** A page mapped to a frame can never be mapped again, even after it was unmapped: its entry keeps
      the address. */
  lemma {:induction false} MappedOnce(ops: seq<VmOp>, i: nat, j: nat)
    requires i < j < |ops| && ops[i].MapPage? && CodeAt(ops, i) == 1 && ops[i].frame % ADDRESS_LIMIT != 0
    requires ops[j].MapPage? && ops[j].page % PAGES == ops[i].page % PAGES
    ensures CodeAt(ops, j) == 0
  {
    assert ops[..j][..i] == ops[..i];
    AddressStays(ops[..j], i);
  }

  lemma {:induction false} AddressStays(ops: seq<VmOp>, i: nat)
    requires i < |ops| && ops[i].MapPage? && CodeAt(ops, i) == 1 && ops[i].frame % ADDRESS_LIMIT != 0
    ensures Lookup(FlatRun(ops), ops[i].page).address != 0
    decreases |ops|
  {
    var n := |ops| - 1;
    if i < n {
      assert ops[..n][..i] == ops[..i];
      AddressStays(ops[..n], i);
    }
  }

  /** The walk for a page spelled out: the root is indexed by the lowest nine bits of the page number,
      each next table by the next nine, and `at` is where the fourth index leads. */
  predicate Walks(mem: seq<Entry>, base: nat, root: nat, page: nat, at: nat) {
    |mem| == MEMORY && root < FRAMES &&
    var a1: int := mem[root * 512 + page % 512].address;
    var f1 := (a1 - base) / 4096;
    a1 >= base && f1 < FRAMES &&
    var a2: int := mem[f1 * 512 + page / 512 % 512].address;
    var f2 := (a2 - base) / 4096;
    a2 >= base && f2 < FRAMES &&
    var a3: int := mem[f2 * 512 + page / 0x4_0000 % 512].address;
    var f3 := (a3 - base) / 4096;
    a3 >= base && f3 < FRAMES &&
    at == f3 * 512 + page / 0x800_0000 % 512
  }

  class VirtualMemory {
    const frames: FrameAllocator
    const memory: array<Entry>
    const base: nat
    var root: Option<nat>
    ghost var paths: Paths
    ghost var flat: Flat

    /** The table root, if any, heads a tree of tables that all live in allocated frames. */
    ghost predicate Valid()
      reads this`root, this`paths, memory, frames, frames.bitmap
    {
      && frames.Valid() && memory.Length == MEMORY && base > 0 && base + 4096 * FRAMES <= ADDRESS_LIMIT
      && TreeOk(memory[..], base, paths)
      && (if root.None? then paths == map[] else root.value in paths && paths[root.value] == [])
      && forall f :: f in paths ==> f < FRAMES && Frames.Used(frames.bitmap[..], f)
    }

    /** The entry of a page in the flat map that the tree represents. */
    ghost function Slot(page: nat): Entry
      requires Valid()
      reads this`root, this`paths, memory, frames, frames.bitmap
    {
      if root.None? then EMPTY else SlotFrom(memory[..], base, paths, root.value, page)
    }

    /** The tree holds exactly the flat map. */
    ghost predicate Represents()
      requires Valid()
      reads this, memory, frames, frames.bitmap
    {
      forall page: nat :: Slot(page) == Lookup(flat, page)
    }

    /** Frames that mapping a page would take: four at most. */
    ghost function Needed(page: nat): (n: nat)
      requires Valid()
      reads this`root, this`paths, memory, frames, frames.bitmap
      ensures n <= 4
    {
      if root.None? then 4 else MissingFrom(memory[..], base, paths, root.value, page)
    }

    ghost function LiveFrames(): nat
      requires frames.Valid()
      reads frames, frames.bitmap
    {
      |Live(frames.bitmap[..])|
    }

    constructor (frames: FrameAllocator, base: nat)
      requires frames.Valid() && base > 0 && base + 4096 * FRAMES <= ADDRESS_LIMIT
      ensures Valid() && this.frames == frames && this.base == base
      ensures Represents() && flat == map[]
    {
      this.frames := frames;
      this.base := base;
      memory := new Entry[MEMORY](_ => EMPTY);
      root := None;
      paths := map[];
      flat := map[];
    }

    /** Takes the lowest free frame and zeroes it. */
    method MakeNode() returns (g: nat)
      requires frames.Valid() && memory.Length == MEMORY && LiveFrames() < FRAMES
      modifies memory, frames, frames.bitmap
      ensures g < FRAMES && !Frames.Used(old(frames.bitmap[..]), g)
      ensures forall f :: 0 <= f < g ==> Frames.Used(old(frames.bitmap[..]), f)
      ensures frames.bitmap[..] == SetBit(old(frames.bitmap[..]), g)
      ensures LiveFrames() == old(LiveFrames()) + 1
      ensures old(Accounted(frames.Value())) ==> Accounted(frames.Value())
      ensures forall j :: 0 <= j < TABLE ==> Cell(memory[..], g, j) == EMPTY
      ensures forall h, j :: 0 <= h < FRAMES && h != g && 0 <= j < TABLE ==>
                Cell(memory[..], h, j) == Cell(old(memory[..]), h, j)
    {
      hide Frames.Used, SetBit, Live, Accounted, Grant;
      FreeFrameExists(frames.bitmap[..]);
      ghost var before := frames.Value();
      var r := frames.AllocateFrame(1);
      GrantOne(before, r);
      NoneBelow(before.bitmap, r);
      g := r;
      forall j | 0 <= j < TABLE {
        memory[g * TABLE + j] := EMPTY;
      }
    }

    /** The table behind entry i of table f, created if the entry is zero. */
    method Descend(f: nat, i: nat) returns (g: nat)
      requires Valid() && f in paths && |paths[f]| < 3 && i < TABLE
      requires Child(memory[..], base, paths, f, i).None? ==> LiveFrames() < FRAMES
      modifies this`paths, memory, frames, frames.bitmap
      ensures Valid() && g in paths && paths[g] == old(paths)[f] + [i]
      ensures old(Accounted(frames.Value())) ==> Accounted(frames.Value())
      ensures forall page: nat :: Slot(page) == old(Slot(page))
      ensures Kept(old(memory[..]), old(paths), memory[..], paths, base) && Child(memory[..], base, paths, f, i) == Some(g)
      ensures old(Child(memory[..], base, paths, f, i)).Some? ==>
                && memory[..] == old(memory[..]) && paths == old(paths) && LiveFrames() == old(LiveFrames())
                && g == old(Child(memory[..], base, paths, f, i)).value
      ensures old(Child(memory[..], base, paths, f, i)).None? ==>
                && LiveFrames() == old(LiveFrames()) + 1
                && forall j :: 0 <= j < TABLE ==> Cell(memory[..], g, j) == EMPTY
    {
      hide Frames.Used, SetBit, Live, SlotFrom, TreeOk, Accounted;
      ghost var mem, ps, bm := memory[..], paths, frames.bitmap[..];
      ghost var child := Child(mem, base, ps, f, i);
      var at := f * TABLE + i;
      assert memory[at] == Cell(mem, f, i);
      if memory[at].address == 0 {
        g := MakeNode();
        assert f in ps && f != g;
        ghost var mid, entry := memory[..], memory[at].(address := base + 4096 * g);
        memory[at] := memory[at].(address := base + 4096 * g);
        CellUpdate(mid, memory[..], f, i, entry);
        paths := paths[g := paths[f] + [i]];
        forall h | h in paths
          ensures h < FRAMES && Frames.Used(frames.bitmap[..], h)
        {
          SetBitUsed(bm, g, h);
        }
        GrowTree(mem, memory[..], base, ps, paths, f, i, g);
        GrowKept(mem, memory[..], base, ps, paths, f, i, g);
        forall h | h in ps
          ensures forall page: nat :: SlotFrom(memory[..], base, paths, h, page) == SlotFrom(mem, base, ps, h, page)
        {
          forall page: nat
            ensures SlotFrom(memory[..], base, paths, h, page) == SlotFrom(mem, base, ps, h, page)
          {
            GrowSlot(mem, memory[..], base, ps, paths, f, i, g, h, page);
          }
        }
      } else {
        g := (memory[at].address - base) / 4096;
      }
    }

    /** The frames a page still lacks, from one of the tables on its walk. */
    ghost function Missing(f: nat, page: nat): nat
      requires Valid() && f in paths
      reads this`root, this`paths, memory, frames, frames.bitmap
    {
      MissingFrom(memory[..], base, paths, f, page)
    }

    /** One step down the walk for a page. */
    method Step(f: nat, page: nat, level: nat) returns (g: nat)
      requires Valid() && f in paths && |paths[f]| == level < 3
      requires LiveFrames() + Missing(f, page) <= FRAMES
      modifies this`paths, memory, frames, frames.bitmap
      ensures Valid() && g in paths && |paths[g]| == level + 1
      ensures old(Accounted(frames.Value())) ==> Accounted(frames.Value())
      ensures forall q: nat :: Slot(q) == old(Slot(q))
      ensures Kept(old(memory[..]), old(paths), memory[..], paths, base)
      ensures Child(memory[..], base, paths, f, Index(page, level)) == Some(g)
      ensures LiveFrames() + Missing(g, page) == old(LiveFrames() + Missing(f, page))
    {
      hide Frames.Used, Live, SlotFrom, TreeOk, Index, Kept, Accounted;
      g := Descend(f, Index(page, level));
      if old(Child(memory[..], base, paths, f, Index(page, level))).None? {
        ZeroedMissing(memory[..], base, paths, g, page);
      }
    }

    /** Follows a page's indices from the root to its last-level table, creating missing tables. */
    method WalkDown(page: nat) returns (f: nat)
      requires Valid() && root.Some? && LiveFrames() + Needed(page) <= FRAMES
      modifies this`paths, memory, frames, frames.bitmap
      ensures Valid()
      ensures old(Accounted(frames.Value())) ==> Accounted(frames.Value())
      ensures LeafFrom(memory[..], base, paths, root.value, page) == Some(f) && f < FRAMES
      ensures Slot(page) == Cell(memory[..], f, Index(page, 3))
      ensures forall q: nat :: Slot(q) == old(Slot(q))
      ensures LiveFrames() == old(LiveFrames() + Needed(page))
    {
      hide Frames.Used, Live, SlotFrom, TreeOk, Index, MissingFrom, Accounted;
      var f0 := root.value;
      var f1 := Step(f0, page, 0);
      var f2 := Step(f1, page, 1);
      f := Step(f2, page, 2);
      LeafOfChain(memory[..], base, paths, f0, f1, f2, f, page);
    }

    /** Writes the entry that a page's walk ends at. */
    method WriteLeaf(page: nat, ghost f: nat, at: nat, e: Entry)
      requires Valid() && root.Some? && LeafFrom(memory[..], base, paths, root.value, page) == Some(f)
      requires f < FRAMES && at == f * TABLE + Index(page, 3)
      modifies memory
      ensures Valid()
      ensures forall q: nat :: Slot(q) == if q % PAGES == page % PAGES then e else old(Slot(q))
    {
      hide Frames.Used, SlotFrom, TreeOk, Index, LeafFrom;
      ghost var mem := memory[..];
      memory[at] := e;
      CellUpdate(mem, memory[..], f, Index(page, 3), e);
      SetLeafSlot(mem, memory[..], base, paths, root.value, page, e, page);
      forall q: nat
        ensures SlotFrom(memory[..], base, paths, root.value, q)
                == if q % PAGES == page % PAGES then e else SlotFrom(mem, base, paths, root.value, q)
      {
        SetLeafSlot(mem, memory[..], base, paths, root.value, page, e, q);
      }
    }

    /** Maps one page: it takes effect exactly when the page is not 0 and its entry holds no address
        yet, and then changes that page's entry and no other page's.  An address left behind by an
        unmapping still blocks the entry. */
    method Map(page: nat, frame: nat) returns (rc: int)
      requires Valid() && (page != 0 ==> LiveFrames() + Needed(page) <= FRAMES)
      modifies this, memory, frames, frames.bitmap
      ensures Valid()
      ensures rc == if page != 0 && old(Slot(page)).address == 0 then 1 else 0
      ensures forall q: nat :: Slot(q) ==
                if rc == 1 && q % PAGES == page % PAGES then Entry(frame % ADDRESS_LIMIT, 1) else old(Slot(q))
      ensures LiveFrames() == old(LiveFrames() + if page == 0 then 0 else Needed(page))
      ensures page != 0 ==> root.Some?
      ensures old(Accounted(frames.Value())) ==> Accounted(frames.Value())
      ensures old(Represents()) ==> Represents() && (flat, rc) == FlatStep(old(flat), MapPage(page, frame))
    {
      hide Frames.Used, SetBit, Live, SlotFrom, TreeOk, Index, LeafFrom, Accounted;
      if page == 0 {
        return 0;
      }
      if root == None {
        ghost var bm := frames.bitmap[..];
        var r := MakeNode();
        SetBitUsed(bm, r, r);
        PlantRoot(memory[..], base, r);
        paths := map[r := []];
        root := Some(r);
        forall q: nat
          ensures SlotFrom(memory[..], base, paths, r, q) == EMPTY
        {
          ZeroedSlot(memory[..], base, paths, r, q);
        }
        ZeroedMissing(memory[..], base, paths, r, page);
      }
      var third := WalkDown(page);
      var at := third * TABLE + Index(page, 3);
      assert memory[at] == Cell(memory[..], third, Index(page, 3)) == Slot(page);
      if memory[at].address != 0 {
        return 0;
      }
      WriteLeaf(page, third, at, Entry(frame % ADDRESS_LIMIT, 1));
      flat := flat[page % PAGES := Entry(frame % ADDRESS_LIMIT, 1)];
      return 1;
    }

    /** The position of a mapped page's last-level entry. */
    method Find(page: nat) returns (r: Option<nat>)
      requires Valid() && (page == 0 || root.Some?)
      ensures r.None? <==> page == 0 || Slot(page).flags != 1
      ensures r.Some? ==>
                && root.Some? && r.value < MEMORY && memory[r.value] == Slot(page)
                && var l := LeafFrom(memory[..], base, paths, root.value, page);
                   l.Some? && r.value == l.value * TABLE + Index(page, 3)
      ensures r.Some? ==> Walks(memory[..], base, root.value, page, r.value)
    {
      hide Frames.Used, Index, TreeOk, LeafFrom, SlotFrom;
      if page == 0 {
        return None;
      }
      ghost var mem := memory[..];
      var f0 := root.value;
      var e0 := memory[f0 * TABLE + Index(page, 0)];
      assert e0 == Cell(mem, f0, Index(page, 0));
      WalkStep(mem, base, paths, f0, page);
      if e0.address == 0 {
        return None;
      }
      var f1 := (e0.address - base) / 4096;
      var e1 := memory[f1 * TABLE + Index(page, 1)];
      assert e1 == Cell(mem, f1, Index(page, 1));
      WalkStep(mem, base, paths, f1, page);
      if e1.address == 0 {
        return None;
      }
      var f2 := (e1.address - base) / 4096;
      var e2 := memory[f2 * TABLE + Index(page, 2)];
      assert e2 == Cell(mem, f2, Index(page, 2));
      WalkStep(mem, base, paths, f2, page);
      if e2.address == 0 {
        return None;
      }
      var f3 := (e2.address - base) / 4096;
      WalkStep(mem, base, paths, f3, page);
      var at := f3 * TABLE + Index(page, 3);
      assert memory[at] == Cell(mem, f3, Index(page, 3));
      WalksAre(mem, base, f0, f1, f2, f3, page);
      return if memory[at].flags == 1 then Some(at) else None;
    }

    /** Unmaps one mapped page and no other; its address stays in the entry.  The loop of the original
        ends in its first iteration, so any positive count unmaps the first page only. */
    method Unmap(page: nat, number: int) returns (rc: int)
      requires Valid()
      requires page != 0 && number > 0 ==> root.Some? && Slot(page).flags == 1
      modifies this`flat, memory
      ensures Valid()
      ensures rc == if page != 0 && number > 0 then 1 else 0
      ensures forall q: nat :: Slot(q) ==
                if rc == 1 && q % PAGES == page % PAGES then old(Slot(page)).(flags := 0) else old(Slot(q))
      ensures number > 0 && old(Represents()) ==> Represents() && (flat, rc) == FlatStep(old(flat), UnmapPage(page))
    {
      hide Frames.Used, SlotFrom, TreeOk, Index, LeafFrom;
      if page == 0 || number <= 0 {
        return 0;
      }
      var r := Find(page);
      var e := memory[r.value].(flags := 0);
      WriteLeaf(page, LeafFrom(memory[..], base, paths, root.value, page).value, r.value, e);
      flat := flat[page % PAGES := Lookup(flat, page).(flags := 0)];
      return 1;
    }

    /** Makes the calls in order, stopping early only where fewer than four frames are free before a
        mapping.  The tree then holds exactly the flat map of the calls made, and each call returned
        what the flat map says. */
    method Run(ops: seq<VmOp>) returns (done: nat, codes: seq<int>)
      requires Valid() && Represents() && flat == map[] && Accounted(frames.Value()) && Applies(ops)
      modifies this, memory, frames, frames.bitmap
      ensures Valid() && done <= |ops| && (done < |ops| ==> LiveFrames() > FRAMES - 4)
      ensures forall page: nat :: Slot(page) == Lookup(FlatRun(ops[..done]), page)
      ensures |codes| == done && forall i :: 0 <= i < done ==> codes[i] == CodeAt(ops, i)
    {
      hide Frames.Used, Live, SlotFrom, TreeOk, VirtualMemory.Slot, Lookup, FlatStep, MissingFrom;
      done, codes := 0, [];
      while done < |ops|
        invariant 0 <= done <= |ops| && Valid() && Represents() && Accounted(frames.Value())
        invariant flat == FlatRun(ops[..done])
        invariant |codes| == done && forall i :: 0 <= i < done ==> codes[i] == CodeAt(ops, i)
      {
        assert ops[..done + 1][..done] == ops[..done];
        var rc;
        match ops[done] {
          case MapPage(page, frame) =>
            if frames.framesAvailable < 4 {
              return;
            }
            rc := Map(page, frame);
          case UnmapPage(page) =>
            MappedRoot(page);
            rc := Unmap(page, 1);
        }
        codes := codes + [rc];
        done := done + 1;
      }
    }

    lemma MappedRoot(page: nat)
      requires Valid() && Represents()
      ensures Slot(page) == Lookup(flat, page) && (Lookup(flat, page).flags == 1 ==> root.Some?)
    {}

    /** The physical address of a mapped virtual address, or all ones. */
    method Translate(va: nat) returns (pa: nat)
      requires Valid() && va <= U64_MAX && (va / 4096 == 0 || root.Some?)
      ensures pa == if va / 4096 == 0 || Slot(va / 4096).flags != 1 then U64_MAX
                    else Slot(va / 4096).address * 4096 + va % 4096
      ensures Represents() && va / 4096 != 0 ==>
                var e := Lookup(flat, va / 4096); pa == if e.flags == 1 then e.address * 4096 + va % 4096 else U64_MAX
    {
      var r := Find(va / 4096);
      if r == None {
        return U64_MAX;
      }
      return memory[r.value].address * 4096 + va % 4096;
    }
  }

  /** What one level of a read-only walk establishes. */
  lemma WalkStep(mem: seq<Entry>, base: nat, paths: Paths, f: nat, page: nat)
    requires TreeOk(mem, base, paths) && f in paths
    ensures f < FRAMES && |paths[f]| <= 3
    ensures |paths[f]| == 3 ==>
              && LeafFrom(mem, base, paths, f, page) == Some(f)
              && SlotFrom(mem, base, paths, f, page) == Cell(mem, f, Index(page, 3))
    ensures |paths[f]| < 3 ==>
              var e := Cell(mem, f, Index(page, |paths[f]|));
              if e.address == 0 then
                LeafFrom(mem, base, paths, f, page) == None && SlotFrom(mem, base, paths, f, page) == EMPTY
              else
                && e.address >= base
                && var g := (e.address - base) / 4096;
                   && g in paths && |paths[g]| == |paths[f]| + 1
                   && LeafFrom(mem, base, paths, f, page) == LeafFrom(mem, base, paths, g, page)
                   && SlotFrom(mem, base, paths, f, page) == SlotFrom(mem, base, paths, g, page)
  {
    assert TableOk(mem, base, paths, f);
    if |paths[f]| < 3 {
      assert ChildOk(mem, base, paths, f, Index(page, |paths[f]|));
    }
  }

  lemma WalksAre(mem: seq<Entry>, base: nat, f0: nat, f1: nat, f2: nat, f3: nat, page: nat)
    requires |mem| == MEMORY && f0 < FRAMES && f1 < FRAMES && f2 < FRAMES && f3 < FRAMES
    requires var a: int := Cell(mem, f0, Index(page, 0)).address; a >= base && f1 == (a - base) / 4096
    requires var a: int := Cell(mem, f1, Index(page, 1)).address; a >= base && f2 == (a - base) / 4096
    requires var a: int := Cell(mem, f2, Index(page, 2)).address; a >= base && f3 == (a - base) / 4096
    ensures Walks(mem, base, f0, page, f3 * TABLE + Index(page, 3))
  {}

  /** The answer "not mapped" is ambiguous for one mapped byte only: the last one of all. */
  lemma TranslationSentinel(address: Address, offset: nat)
    requires offset < 4096
    ensures address * 4096 + offset <= U64_MAX
    ensures address * 4096 + offset == U64_MAX <==> address == ADDRESS_LIMIT - 1 && offset == 4095
  {}

  lemma PlantRoot(mem: seq<Entry>, base: nat, r: nat)
    requires |mem| == MEMORY && base > 0 && r < FRAMES && forall j :: 0 <= j < TABLE ==> Cell(mem, r, j) == EMPTY
    ensures TreeOk(mem, base, map[r := []])
  {
    var paths: Paths := map[r := []];
    forall f | f in paths
      ensures TableOk(mem, base, paths, f)
    {
      forall i | 0 <= i < TABLE
        ensures ChildOk(mem, base, paths, r, i)
      {}
    }
  }

  lemma CellUpdateAt(mem: seq<Entry>, f: nat, i: nat, e: Entry, h: nat, j: nat)
    requires |mem| == MEMORY && f < FRAMES && i < TABLE && h < FRAMES && j < TABLE
    ensures Cell(mem[f * TABLE + i := e], h, j) == if h == f && j == i then e else Cell(mem, h, j)
  {
    if h < f {
      assert h * TABLE + j < f * TABLE + i;
    } else if h > f {
      assert h * TABLE + j > f * TABLE + i;
    }
  }

  /** An array write changes one cell. */
  lemma CellUpdate(mem: seq<Entry>, mem': seq<Entry>, f: nat, i: nat, e: Entry)
    requires |mem| == MEMORY && f < FRAMES && i < TABLE && mem' == mem[f * TABLE + i := e]
    ensures CellSet(mem, mem', f, i, e)
  {
    hide Cell;
    CellUpdateAt(mem, f, i, e, f, i);
    forall h, j | 0 <= h < FRAMES && 0 <= j < TABLE && !(h == f && j == i)
      ensures Cell(mem', h, j) == Cell(mem, h, j)
    {
      CellUpdateAt(mem, f, i, e, h, j);
    }
  }

  lemma FreeFrameExists(bm: seq<byte>)
    requires |bm| == BITMAP_BYTES && |Live(bm)| < FRAMES
    ensures exists s: nat :: FreeRun(bm, s, 1)
  {
    LowestRun(bm);
  }

  lemma NoneBelow(bm: seq<byte>, r: nat)
    requires |bm| == BITMAP_BYTES && r < FRAMES && forall s: nat :: s < r ==> !FreeRun(bm, s, 1)
    ensures forall f :: 0 <= f < r ==> Frames.Used(bm, f)
  {
    hide Frames.Used;
    forall f | 0 <= f < r
      ensures Frames.Used(bm, f)
    {
      assert !FreeRun(bm, f, 1);
    }
  }

  lemma GrantOne(s: Frames.State, r: nat)
    requires Frames.WF(s) && FreeRun(s.bitmap, r, 1)
    ensures !Frames.Used(s.bitmap, r) && Grant(s, r, 1).bitmap == SetBit(s.bitmap, r)
    ensures |Live(SetBit(s.bitmap, r))| == |Live(s.bitmap)| + 1
    ensures Accounted(s) ==> Accounted(Grant(s, r, 1))
  {
    hide SetBit, Accounted;
    LiveSet(s.bitmap, r);
    if Accounted(s) {
      GrantAccountedIff(s, r, 1);
    }
  }
}
