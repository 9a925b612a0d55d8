/** The physical frame allocator: a bitmap of 1024 frames, a first-fit scan for runs, and two
    counters. */
module Frames {
  import opened Bytes

  const FRAMES: nat := 1024
  const BITMAP_BYTES: nat := 128
  const INT_MAX: nat := 0x7FFF_FFFF

  function Wrap64(x: int): (r: nat)
    ensures r <= U64_MAX && (0 <= x <= U64_MAX ==> r == x)
  {
    x % (U64_MAX + 1)
  }

  // ----- the bitmap as a value

  predicate Used(bm: seq<byte>, f: nat)
    requires |bm| == BITMAP_BYTES && f < FRAMES
  {
    bm[f / 8] & Mask(f % 8) != 0
  }

  function SetBit(bm: seq<byte>, f: nat): (r: seq<byte>)
    requires |bm| == BITMAP_BYTES && f < FRAMES
    ensures |r| == BITMAP_BYTES
  {
    bm[f / 8 := bm[f / 8] | Mask(f % 8)]
  }

  function ClearBit(bm: seq<byte>, f: nat): (r: seq<byte>)
    requires |bm| == BITMAP_BYTES && f < FRAMES
    ensures |r| == BITMAP_BYTES
  {
    bm[f / 8 := bm[f / 8] & !Mask(f % 8)]
  }

  lemma SetBitUsed(bm: seq<byte>, f: nat, x: nat)
    requires |bm| == BITMAP_BYTES && f < FRAMES && x < FRAMES
    ensures Used(SetBit(bm, f), x) <==> x == f || Used(bm, x)
  {
    if x / 8 == f / 8 {
      OrMask(bm[f / 8], f % 8, x % 8);
    }
  }

  lemma ClearBitUsed(bm: seq<byte>, f: nat, x: nat)
    requires |bm| == BITMAP_BYTES && f < FRAMES && x < FRAMES
    ensures Used(ClearBit(bm, f), x) <==> x != f && Used(bm, x)
  {
    if x / 8 == f / 8 {
      AndNotMask(bm[f / 8], f % 8, x % 8);
    }
  }

  /** The numbers below k. */
  function Below(k: nat): (r: set<nat>)
    ensures |r| == k && forall f: nat :: f in r <==> f < k
  {
    if k == 0 then {} else Below(k - 1) + {k - 1}
  }

  /** The frames marked in the bitmap. */
  function Live(bm: seq<byte>): set<nat>
    requires |bm| == BITMAP_BYTES
  {
    set f | f in Below(FRAMES) && Used(bm, f)
  }

  lemma LiveSet(bm: seq<byte>, f: nat)
    requires |bm| == BITMAP_BYTES && f < FRAMES
    ensures Live(SetBit(bm, f)) == Live(bm) + {f}
  {
    hide Used, SetBit;
    forall x: nat | x < FRAMES
      ensures Used(SetBit(bm, f), x) <==> x == f || Used(bm, x)
    {
      SetBitUsed(bm, f, x);
    }
  }

  lemma LiveClear(bm: seq<byte>, f: nat)
    requires |bm| == BITMAP_BYTES && f < FRAMES
    ensures Live(ClearBit(bm, f)) == Live(bm) - {f}
  {
    hide Used, ClearBit;
    forall x: nat | x < FRAMES
      ensures Used(ClearBit(bm, f), x) <==> x != f && Used(bm, x)
    {
      ClearBitUsed(bm, f, x);
    }
  }

  /** n consecutive free frames starting at s. */
  predicate FreeRun(bm: seq<byte>, s: nat, n: nat)
    requires |bm| == BITMAP_BYTES
  {
    s + n <= FRAMES && forall f :: s <= f < s + n ==> !Used(bm, f)
  }

  // ----- the state of the allocator as a value

  datatype State = State(bitmap: seq<byte>, taken: nat, available: nat)

  predicate WF(s: State) {
    |s.bitmap| == BITMAP_BYTES
  }

  function Fresh(): (s: State)
    ensures WF(s)
  {
    State(seq(BITMAP_BYTES, _ => 0), 0, FRAMES)
  }

  /** A successful request for n frames at r: only frame r is marked, all n are counted. */
  function Grant(s: State, r: nat, n: nat): State
    requires WF(s) && r < FRAMES
  {
    State(SetBit(s.bitmap, r), Wrap64(s.taken + n), Wrap64(s.available - n))
  }

  /** Giving back n frames at f: only frame f is cleared, all n are counted. */
  function Release(s: State, f: nat, n: nat): State
    requires WF(s) && f < FRAMES
  {
    if n == 0 then s else State(ClearBit(s.bitmap, f), Wrap64(s.taken - n), Wrap64(s.available + n))
  }

  /** The counters agree with the bitmap. */
  predicate Accounted(s: State)
    requires WF(s)
  {
    s.taken == |Live(s.bitmap)| && s.taken + s.available == FRAMES
  }

  lemma LiveBound(bm: seq<byte>)
    requires |bm| == BITMAP_BYTES
    ensures |Live(bm)| <= FRAMES
  {
    SubsetSize(Live(bm), Below(FRAMES));
  }

  lemma SubsetSize(a: set<nat>, b: set<nat>)
    requires a <= b
    ensures |a| <= |b|
  {
    assert b == a + (b - a);
  }

  /** The accounting survives a granted request of n >= 1 frames exactly when n is 1. */
  lemma GrantAccountedIff(s: State, r: nat, n: nat)
    requires WF(s) && Accounted(s) && 1 <= n <= FRAMES && FreeRun(s.bitmap, r, n)
    ensures Accounted(Grant(s, r, n)) <==> n == 1
  {
    hide Used, SetBit;
    LiveSet(s.bitmap, r);
    LiveBound(SetBit(s.bitmap, r));
    assert r !in Live(s.bitmap);
  }

  /** After a granted request for several frames the frames after the first are still free, so the
      next request may be given the same ones. */
  lemma GrantLeavesRestFree(s: State, r: nat, n: nat, f: nat)
    requires WF(s) && FreeRun(s.bitmap, r, n) && r < f < r + n
    ensures !Used(Grant(s, r, n).bitmap, f)
  {
    SetBitUsed(s.bitmap, r, f);
  }

  lemma FreshFree(f: nat)
    requires f < FRAMES
    ensures !Used(Fresh().bitmap, f)
  {
    assert Fresh().bitmap[f / 8] == 0;
  }

  /** A fresh allocator asked for two frames grants frames 0 and 1, and the next request for one gets
      frame 1 again; the counters are off from the first request on. */
  lemma TwoFramesOverlap()
    ensures FreeRun(Fresh().bitmap, 0, 2) && !Accounted(Grant(Fresh(), 0, 2))
    ensures LowestFree(Grant(Fresh(), 0, 2).bitmap, 0) == 1
  {
    hide Used, SetBit, LowestFree, Accounted;
    var bm := Fresh().bitmap;
    FreshAccounted();
    forall f | 0 <= f < 2
      ensures !Used(bm, f)
    {
      FreshFree(f);
    }
    GrantAccountedIff(Fresh(), 0, 2);
    SetBitUsed(bm, 0, 0);
    SetBitUsed(bm, 0, 1);
  }

  lemma LiveClearSize(bm: seq<byte>, f: nat)
    requires |bm| == BITMAP_BYTES && f < FRAMES
    ensures |Live(ClearBit(bm, f))| == |Live(bm)| - if Used(bm, f) then 1 else 0
  {
    hide Used, ClearBit;
    LiveClear(bm, f);
    assert f in Live(bm) <==> Used(bm, f);
  }

  /** The accounting survives a release, of any count a C int can hold, exactly when nothing is
      released, or one allocated frame. */
  lemma ReleaseAccountedIff(s: State, f: nat, n: nat)
    requires WF(s) && Accounted(s) && f < FRAMES && n <= INT_MAX
    ensures Accounted(Release(s, f, n)) <==> n == 0 || (n == 1 && Used(s.bitmap, f))
  {
    hide Used, ClearBit, Wrap64, Live;
    LiveClearSize(s.bitmap, f);
    LiveBound(s.bitmap);
    LiveBound(ClearBit(s.bitmap, f));
    WrapBelow(s.taken - n);
    WrapBelow(s.available + n);
  }

  /** A counter taken below zero wraps to a number no allocator of this size can count. */
  lemma WrapBelow(x: int)
    requires x + INT_MAX >= 0 && x <= U64_MAX
    ensures Wrap64(x) == if x < 0 then x + U64_MAX + 1 else x
  {
    ModUnique(x, if x < 0 then -1 else 0);
  }

  // ----- runs of single-frame requests

  datatype Op = Alloc | Free(f: nat)

  /** The lowest free frame, or FRAMES. */
  function LowestFree(bm: seq<byte>, from: nat): (r: nat)
    requires |bm| == BITMAP_BYTES && from <= FRAMES
    ensures from <= r <= FRAMES && (forall f :: from <= f < r ==> Used(bm, f)) && (r < FRAMES ==> !Used(bm, r))
    decreases FRAMES - from
  {
    if from == FRAMES || !Used(bm, from) then from else LowestFree(bm, from + 1)
  }

  function Step(s: State, op: Op): (r: State)
    requires WF(s)
    ensures WF(r)
  {
    match op
    case Alloc => var r := LowestFree(s.bitmap, 0); if r < FRAMES then Grant(s, r, 1) else s
    case Free(f) => if f < FRAMES then Release(s, f, 1) else s
  }

  function Exec(ops: seq<Op>): (s: State)
    ensures WF(s)
  {
    if ops == [] then Fresh() else Step(Exec(ops[..|ops| - 1]), ops[|ops| - 1])
  }

  /** Only frames that are allocated at the time are freed. */
  predicate Proper(ops: seq<Op>) {
    ops == [] ||
    (var before := ops[..|ops| - 1];
     var op := ops[|ops| - 1];
     Proper(before) && (op.Free? ==> op.f < FRAMES && Used(Exec(before).bitmap, op.f)))
  }

  /** In every proper run the counters equal the number of live and of free frames, and a frame
      handed out is one that is not live. */
  lemma {:induction false} RunAccounted(ops: seq<Op>)
    requires Proper(ops)
    ensures Accounted(Exec(ops))
    ensures var s := Exec(ops);
            var r := LowestFree(s.bitmap, 0);
            && (r < FRAMES ==> r !in Live(s.bitmap) && Live(Step(s, Alloc).bitmap) == Live(s.bitmap) + {r})
            && (r == FRAMES <==> s.available == 0)
    decreases |ops|
  {
    if ops == [] {
      FreshAccounted();
    } else {
      var before := ops[..|ops| - 1];
      RunAccounted(before);
      StepAccounted(Exec(before), ops[|ops| - 1]);
    }
    NextAlloc(Exec(ops));
  }

  lemma FreshAccounted()
    ensures Accounted(Fresh())
  {
    assert Live(Fresh().bitmap) == {};
  }

  lemma StepAccounted(s: State, op: Op)
    requires WF(s) && Accounted(s) && (op.Free? ==> op.f < FRAMES && Used(s.bitmap, op.f))
    ensures Accounted(Step(s, op))
  {
    hide Used, SetBit, ClearBit, Grant, Release, Accounted, LowestFree;
    match op
    case Alloc =>
      var r := LowestFree(s.bitmap, 0);
      if r < FRAMES {
        LowestRun(s.bitmap);
        GrantAccountedIff(s, r, 1);
      }
    case Free(f) => ReleaseAccountedIff(s, f, 1);
  }

  lemma LowestRun(bm: seq<byte>)
    requires |bm| == BITMAP_BYTES
    ensures var r := LowestFree(bm, 0);
            if r < FRAMES then FreeRun(bm, r, 1) && r !in Live(bm) else Live(bm) == Below(FRAMES)
  {
    hide Used;
  }

  /** For single frames first fit is the lowest free frame. */
  lemma FirstFitOne(bm: seq<byte>, r: nat)
    requires |bm| == BITMAP_BYTES && FreeRun(bm, r, 1) && forall s: nat :: s < r ==> !FreeRun(bm, s, 1)
    ensures LowestFree(bm, 0) == r
  {
    hide Used;
    LowestRun(bm);
    assert !Used(bm, r);
  }

  lemma NextAlloc(s: State)
    requires WF(s) && Accounted(s)
    ensures var r := LowestFree(s.bitmap, 0);
            && (r < FRAMES ==> r !in Live(s.bitmap) && Live(Step(s, Alloc).bitmap) == Live(s.bitmap) + {r})
            && (r == FRAMES <==> s.available == 0)
  {
    hide Used, SetBit, Wrap64, LowestFree, Live, FreeRun, Below;
    LowestRun(s.bitmap);
    var r := LowestFree(s.bitmap, 0);
    if r < FRAMES {
      LiveSet(s.bitmap, r);
      LiveBound(SetBit(s.bitmap, r));
    }
  }

  class FrameAllocator {
    const bitmap: array<byte>
    var framesAllocated: nat
    var framesAvailable: nat

    ghost predicate Valid() {
      bitmap.Length == BITMAP_BYTES
    }

    ghost function Value(): (s: State)
      requires Valid()
      reads this, bitmap
      ensures WF(s)
    {
      State(bitmap[..], framesAllocated, framesAvailable)
    }

    constructor ()
      ensures Valid() && fresh(bitmap)
      ensures Value() == Fresh()
    {
      bitmap := new byte[BITMAP_BYTES](_ => 0);
      framesAllocated := 0;
      framesAvailable := FRAMES;
    }

    method BitSet(f: nat)
      requires Valid() && f < FRAMES
      modifies bitmap
      ensures bitmap[..] == SetBit(old(bitmap[..]), f)
      ensures bitmap[f / 8] == old(bitmap[f / 8]) | ((1 as bv8) << (f % 8))
      ensures forall i :: 0 <= i < BITMAP_BYTES && i != f / 8 ==> bitmap[i] == old(bitmap[i])
    {
      bitmap[f / 8] := bitmap[f / 8] | Mask(f % 8);
    }

    method BitUnset(f: nat)
      requires Valid() && f < FRAMES
      modifies bitmap
      ensures bitmap[..] == ClearBit(old(bitmap[..]), f)
      ensures bitmap[f / 8] == old(bitmap[f / 8]) & !((1 as bv8) << (f % 8))
      ensures forall i :: 0 <= i < BITMAP_BYTES && i != f / 8 ==> bitmap[i] == old(bitmap[i])
    {
      bitmap[f / 8] := bitmap[f / 8] & !Mask(f % 8);
    }

    method GetValue(f: nat) returns (r: int)
      requires Valid() && f < FRAMES
      ensures r == if Used(bitmap[..], f) then 1 else 0
      ensures r == ((bitmap[f / 8] >> (f % 8)) & 1) as int
    {
      ShiftTest(bitmap[f / 8], f % 8);
      r := ((bitmap[f / 8] >> (f % 8)) & 1) as int;
    }

    /** First fit: the lowest start of a free run of the requested length, or -1 exactly when there
        is none or the request is not positive.  Only the first frame of the run is marked. */
    method AllocateFrame(numberFrames: int) returns (result: int)
      requires Valid()
      modifies this, bitmap
      ensures numberFrames <= 0 ==> result == -1
      ensures result == -1 ==> Value() == old(Value())
      ensures result == -1 && numberFrames > 0 ==> forall s: nat :: !FreeRun(old(bitmap[..]), s, numberFrames)
      ensures result != -1 ==>
                && 0 <= result < FRAMES && numberFrames > 0
                && FreeRun(old(bitmap[..]), result, numberFrames)
                && (forall s: nat :: s < result ==> !FreeRun(old(bitmap[..]), s, numberFrames))
                && Value() == Grant(old(Value()), result, numberFrames)
                && framesAllocated == Wrap64(old(framesAllocated) + numberFrames)
                && framesAvailable == Wrap64(old(framesAvailable) - numberFrames)
                && forall x :: 0 <= x < FRAMES ==> (Used(bitmap[..], x) <==> x == result || Used(old(bitmap[..]), x))
    {
      hide Used, SetBit, Wrap64;
      ghost var bm := bitmap[..];
      var consecutive := 0;
      var i := 0;
      while i < FRAMES
        invariant 0 <= consecutive <= i <= FRAMES
        invariant Value() == old(Value())
        invariant numberFrames > 0 ==> consecutive < numberFrames
        invariant forall f :: i - consecutive <= f < i ==> !Used(bm, f)
        invariant consecutive < i ==> Used(bm, i - consecutive - 1)
        invariant numberFrames > 0 ==> forall s: nat :: s + numberFrames <= i ==> !FreeRun(bm, s, numberFrames)
      {
        var v := GetValue(i);
        if v == 0 {
          consecutive := consecutive + 1;
          if consecutive == numberFrames {
            var start := i - numberFrames + 1;
            var j := 0;
            while j < numberFrames
              invariant 0 <= j <= numberFrames
              invariant bitmap[..] == if j == 0 then bm else SetBit(bm, start)
              invariant framesAllocated == old(framesAllocated) && framesAvailable == old(framesAvailable)
            {
              BitSet(start);
              SetTwice(bm, start);
              j := j + 1;
            }
            framesAllocated := Wrap64(framesAllocated + numberFrames);
            framesAvailable := Wrap64(framesAvailable - numberFrames);
            SetBitMarks(bm, start);
            return start;
          }
        } else {
          consecutive := 0;
        }
        if numberFrames > 0 {
          NoRunEndsAt(bm, i, consecutive, numberFrames);
        }
        i := i + 1;
      }
      return -1;
    }

    method DeallocateFrame(f: nat, numberFrames: int) returns (result: int)
      requires Valid() && f < FRAMES
      requires framesAllocated <= U64_MAX && framesAvailable <= U64_MAX
      modifies this, bitmap
      ensures result == -1
      ensures Value() == Release(old(Value()), f, if numberFrames > 0 then numberFrames else 0)
      ensures numberFrames <= 0 ==> Value() == old(Value())
      ensures numberFrames > 0 ==>
                && framesAllocated == Wrap64(old(framesAllocated) - numberFrames)
                && framesAvailable == Wrap64(old(framesAvailable) + numberFrames)
                && forall x :: 0 <= x < FRAMES ==> (Used(bitmap[..], x) <==> x != f && Used(old(bitmap[..]), x))
    {
      hide ClearBit, Wrap64, Release;
      ghost var s := Value();
      ReleaseNone(s, f);
      var i := 0;
      while i < numberFrames
        invariant 0 <= i && (i <= numberFrames || i == 0)
        invariant Value() == Release(s, f, i)
      {
        BitUnset(f);
        framesAllocated := Wrap64(framesAllocated - 1);
        framesAvailable := Wrap64(framesAvailable + 1);
        ReleaseOneMore(s, f, i);
        i := i + 1;
      }
      ReleaseEffect(s, f, i);
      return -1;
    }

    /** Executes single-frame requests and releases: the run that the accounting theorem is about. */
    method Execute(ops: seq<Op>)
      requires Valid() && Value() == Fresh() && Proper(ops)
      modifies this, bitmap
      ensures Value() == Exec(ops) && Accounted(Value())
      ensures framesAllocated + framesAvailable == FRAMES
    {
      hide Used, SetBit, ClearBit, Wrap64, Exec, Proper, Step, Accounted;
      var i := 0;
      ExecNext(ops, 0);
      while i < |ops|
        invariant 0 <= i <= |ops| && Value() == Exec(ops[..i])
      {
        ExecNext(ops, i);
        ProperAt(ops, i);
        match ops[i] {
          case Alloc =>
            OneFrame(Value());
            var _ := AllocateFrame(1);
          case Free(f) =>
            StepFree(Value(), f);
            var _ := DeallocateFrame(f, 1);
        }
        i := i + 1;
      }
      assert ops[..i] == ops;
      RunAccounted(ops);
      TotalOfCounters(Value());
    }
  }

  lemma TotalOfCounters(s: State)
    requires WF(s) && Accounted(s)
    ensures s.taken + s.available == FRAMES
  {}

  lemma ExecNext(ops: seq<Op>, i: nat)
    requires i <= |ops|
    ensures ops[..0] == [] && Exec(ops[..0]) == Fresh()
    ensures i < |ops| ==> Exec(ops[..i + 1]) == Step(Exec(ops[..i]), ops[i])
  {
    if i < |ops| {
      assert ops[..i + 1][..i] == ops[..i];
    }
  }

  /** What a proper run guarantees of its i-th operation and of the counters before it. */
  lemma {:induction false} ProperAt(ops: seq<Op>, i: nat)
    requires Proper(ops) && i < |ops|
    ensures Proper(ops[..i]) && (ops[i].Free? ==> ops[i].f < FRAMES)
    ensures Exec(ops[..i]).taken <= U64_MAX && Exec(ops[..i]).available <= U64_MAX
    decreases |ops|
  {
    var n := |ops| - 1;
    if i < n {
      ProperAt(ops[..n], i);
      assert ops[..n][..i] == ops[..i];
    } else {
      RunAccounted(ops[..i]);
    }
  }

  /** For one frame, what first fit finds is the lowest free frame, and it finds nothing when there is
      none. */
  lemma OneFrame(s: State)
    requires WF(s)
    ensures forall r: nat :: FreeRun(s.bitmap, r, 1) && (forall x: nat :: x < r ==> !FreeRun(s.bitmap, x, 1)) ==>
              r < FRAMES && Step(s, Alloc) == Grant(s, r, 1)
    ensures (forall x: nat :: !FreeRun(s.bitmap, x, 1)) ==> Step(s, Alloc) == s
  {
    hide Used, Grant, LowestFree;
    LowestRun(s.bitmap);
    forall r: nat | FreeRun(s.bitmap, r, 1) && forall x: nat :: x < r ==> !FreeRun(s.bitmap, x, 1)
      ensures r < FRAMES && Step(s, Alloc) == Grant(s, r, 1)
    {
      FirstFitOne(s.bitmap, r);
    }
  }

  lemma StepFree(s: State, f: nat)
    requires WF(s) && f < FRAMES
    ensures Step(s, Free(f)) == Release(s, f, 1)
  {}

  lemma SetBitMarks(bm: seq<byte>, f: nat)
    requires |bm| == BITMAP_BYTES && f < FRAMES
    ensures forall x :: 0 <= x < FRAMES ==> (Used(SetBit(bm, f), x) <==> x == f || Used(bm, x))
  {
    hide Used, SetBit;
    forall x | 0 <= x < FRAMES
      ensures Used(SetBit(bm, f), x) <==> x == f || Used(bm, x)
    {
      SetBitUsed(bm, f, x);
    }
  }

  lemma ReleaseEffect(s: State, f: nat, n: nat)
    requires WF(s) && f < FRAMES
    ensures var t := Release(s, f, n);
            && WF(t) && (n == 0 ==> t == s)
            && (n > 0 ==> t.taken == Wrap64(s.taken - n) && t.available == Wrap64(s.available + n))
            && (n > 0 ==> forall x :: 0 <= x < FRAMES ==> (Used(t.bitmap, x) <==> x != f && Used(s.bitmap, x)))
  {
    hide Used, ClearBit, Wrap64;
    forall x | 0 <= x < FRAMES
      ensures Used(ClearBit(s.bitmap, f), x) <==> x != f && Used(s.bitmap, x)
    {
      ClearBitUsed(s.bitmap, f, x);
    }
  }

  lemma SetTwice(bm: seq<byte>, f: nat)
    requires |bm| == BITMAP_BYTES && f < FRAMES
    ensures SetBit(SetBit(bm, f), f) == SetBit(bm, f)
  {
    var b := bm[f / 8];
    assert b | Mask(f % 8) | Mask(f % 8) == b | Mask(f % 8);
  }

  lemma ClearTwice(bm: seq<byte>, f: nat)
    requires |bm| == BITMAP_BYTES && f < FRAMES
    ensures ClearBit(ClearBit(bm, f), f) == ClearBit(bm, f)
  {
    var b := bm[f / 8];
    assert b & !Mask(f % 8) & !Mask(f % 8) == b & !Mask(f % 8);
  }

  lemma WrapStep(x: int)
    ensures Wrap64(Wrap64(x) - 1) == Wrap64(x - 1) && Wrap64(Wrap64(x) + 1) == Wrap64(x + 1)
  {
    var m := U64_MAX + 1;
    var q := x / m;
    assert x == m * q + x % m;
    ModUnique(x - 1, if x % m == 0 then q - 1 else q);
    ModUnique(x + 1, if x % m == m - 1 then q + 1 else q);
  }

  lemma ModUnique(x: int, q: int)
    requires 0 <= x - (U64_MAX + 1) * q <= U64_MAX
    ensures Wrap64(x) == x - (U64_MAX + 1) * q
  {}

  lemma ReleaseNone(s: State, f: nat)
    requires WF(s) && f < FRAMES
    ensures Release(s, f, 0) == s
  {}

  lemma ReleaseOneMore(s: State, f: nat, n: nat)
    requires WF(s) && f < FRAMES && s.taken <= U64_MAX && s.available <= U64_MAX
    ensures var t := Release(s, f, n);
            Release(s, f, n + 1) == State(ClearBit(t.bitmap, f), Wrap64(t.taken - 1), Wrap64(t.available + 1))
  {
    hide ClearBit, Wrap64;
    if n > 0 {
      ClearTwice(s.bitmap, f);
    }
    WrapStep(s.taken - n);
    WrapStep(s.available + n);
    if n == 0 {
      assert Wrap64(s.taken) == s.taken && Wrap64(s.available) == s.available;
    }
  }

  /** A run shorter than n that ends at i leaves no room for a free run of n ending at i. */
  lemma NoRunEndsAt(bm: seq<byte>, i: nat, consecutive: nat, n: nat)
    requires |bm| == BITMAP_BYTES && i < FRAMES && consecutive < n && consecutive <= i + 1
    requires consecutive <= i ==> Used(bm, i - consecutive)
    ensures i + 1 >= n ==> !FreeRun(bm, i + 1 - n, n)
  {}
}
