/** The thread table and the round-robin scan of the user-level scheduler. */
module Scheduler {

  const MAX_THREADS: nat := 128

  datatype ThreadState = Active | Blocked | Finished | Invalid

  /** The slot the scan looks at in its x-th iteration, starting after slot `from`. */
  function Slot(from: nat, x: nat, n: nat): (i: nat)
    requires n > 0
    ensures i < n
  {
    (from + 1 + x) % n
  }

  /** First ACTIVE slot among iterations x .. n-2 of the scan, or -1. */
  function Scan(st: seq<ThreadState>, from: nat, x: nat): (r: int)
    requires |st| > 0
    ensures -1 <= r < |st|
    ensures r >= 0 ==> st[r].Active?
    decreases |st| - x
  {
    if x >= |st| - 1 then -1
    else if st[Slot(from, x, |st|)].Active? then Slot(from, x, |st|)
    else Scan(st, from, x + 1)
  }

  function NextThread(st: seq<ThreadState>, from: nat): (r: int)
    requires |st| > 0
    ensures -1 <= r < |st|
    ensures r >= 0 ==> st[r].Active?
  {
    Scan(st, from, 0)
  }

  /** How many slots after `from` the slot t lies, going round. */
  function Distance(from: nat, t: nat, n: nat): (d: nat)
    requires from < n && t < n
    ensures d < n && (d == 0 <==> from == t)
  {
    if t >= from then t - from else t + n - from
  }

  lemma SlotIs(from: nat, x: nat, n: nat)
    requires from < n && x < n
    ensures Slot(from, x, n) == if from + 1 + x < n then from + 1 + x else from + 1 + x - n
  {}

  lemma SlotDistance(from: nat, x: nat, t: nat, n: nat)
    requires from < n && t < n && x < n
    ensures x + 1 == Distance(from, t, n) ==> Slot(from, x, n) == t
    ensures x + 1 <= Distance(from, t, n) ==> Distance(Slot(from, x, n), t, n) == Distance(from, t, n) - x - 1
  {
    hide Slot;
    SlotIs(from, x, n);
  }

  /** While t is ACTIVE and not running, the scan finds somebody, and somebody strictly closer
      to t. */
  lemma {:induction false} ScanCloser(st: seq<ThreadState>, from: nat, t: nat, x: nat)
    requires from < |st| && t < |st| && st[t].Active? && x < Distance(from, t, |st|)
    ensures Scan(st, from, x) >= 0
    ensures Distance(Scan(st, from, x), t, |st|) < Distance(from, t, |st|)
    decreases |st| - x
  {
    SlotDistance(from, x, t, |st|);
    if !st[Slot(from, x, |st|)].Active? {
      ScanCloser(st, from, t, x + 1);
    }
  }

  // ----- whole runs, with the number fields as they are

  /** The scan looks at the slot numbers modulo the table size only. */
  lemma {:induction false} ScanModulo(st: seq<ThreadState>, from: nat, x: nat)
    requires |st| > 0
    ensures Scan(st, from, x) == Scan(st, from % |st|, x)
    decreases |st| - x
  {
    if x < |st| - 1 {
      SlotModulo(from, x, |st|);
      ScanModulo(st, from, x + 1);
    }
  }

  lemma SlotModulo(from: nat, x: nat, n: nat)
    requires n > 0
    ensures Slot(from, x, n) == Slot(from % n, x, n)
  {
    var a := from % n + 1 + x;
    assert from == n * (from / n) + from % n && a == n * (a / n) + a % n;
    Distribute(n, from / n, a / n);
    RemainderIs(from + 1 + x, n, from / n + a / n, a % n);
  }

  lemma Distribute(n: nat, a: nat, b: nat)
    ensures n * (a + b) == n * a + n * b
  {}

  lemma RemainderIs(x: nat, n: nat, q: nat, r: nat)
    requires n > 0 && x == n * q + r && r < n
    ensures x % n == r
  {
    assert n * (x / n - q) == r - x % n;
    MultipleSize(n, x / n - q);
  }

  lemma MultipleSize(n: nat, d: int)
    ensures d > 0 ==> n * d >= n
    ensures d < 0 ==> n * d <= -(n as int)
  {}

  /** With nobody ACTIVE but t and `from`, the scan after slot `from` finds t: it never looks at
      `from` itself. */
  lemma {:induction false} ScanFinds(st: seq<ThreadState>, from: nat, t: nat, x: nat)
    requires from < |st| && t < |st| && st[t].Active? && x < Distance(from, t, |st|)
    requires forall u :: 0 <= u < |st| && st[u].Active? ==> u == t || u == from
    ensures Scan(st, from, x) == t
    decreases |st| - x
  {
    SlotDistance(from, x, t, |st|);
    SlotDistance(from, x, from, |st|);
    if !st[Slot(from, x, |st|)].Active? {
      ScanFinds(st, from, t, x + 1);
    }
  }

  /** The slot that runs after a yield of slot c. */
  function AfterYield(st: seq<ThreadState>, num: seq<nat>, c: nat): (next: nat)
    requires c < |st| == |num|
    ensures next < |st|
  {
    var r := NextThread(st, num[c]);
    if r == -1 then c else r
  }

  /** The scan never comes back to the slot it started from. */
  lemma {:induction false} ScanLeaves(st: seq<ThreadState>, from: nat, x: nat)
    requires from < |st|
    ensures Scan(st, from, x) != from
    decreases |st| - x
  {
    if x < |st| - 1 {
      SlotIs(from, x, |st|);
      ScanLeaves(st, from, x + 1);
    }
  }

  /** It finds somebody exactly when a slot other than its own is ACTIVE. */
  lemma FindsIff(st: seq<ThreadState>, from: nat)
    requires from < |st|
    ensures NextThread(st, from) != from
    ensures NextThread(st, from) != -1 <==> exists t :: 0 <= t < |st| && t != from && st[t].Active?
  {
    ScanLeaves(st, from, 0);
    if t :| 0 <= t < |st| && t != from && st[t].Active? {
      ScanCloser(st, from, t, 0);
    }
    var r := NextThread(st, from);
    assert r != -1 ==> st[r].Active?;
  }

  /** Whom it finds is the nearest: every other ACTIVE slot lies further on, going round. */
  lemma FindsNearest(st: seq<ThreadState>, from: nat)
    requires from < |st| && NextThread(st, from) != -1
    ensures var r := NextThread(st, from);
            && 0 <= r < |st| && r != from && st[r].Active?
            && forall t :: 0 <= t < |st| && t != from && st[t].Active? ==>
                 Distance(from, r, |st|) <= Distance(from, t, |st|)
  {
    ScanLeaves(st, from, 0);
    var r := NextThread(st, from);
    forall t | 0 <= t < |st| && t != from && st[t].Active?
      ensures Distance(from, r, |st|) <= Distance(from, t, |st|)
    {
      ScanCloser(st, from, t, 0);
    }
  }

  /** What a scan that starts after any number yields. */
  lemma NextIs(st: seq<ThreadState>, num: nat)
    requires |st| > 0
    ensures var from := num % |st|;
            var r := NextThread(st, num);
            if forall t :: 0 <= t < |st| && st[t] == Active ==> t == from then r == -1
            else
              && 0 <= r < |st| && r != from && st[r] == Active
              && forall t :: 0 <= t < |st| && t != from && st[t] == Active ==>
                   Distance(from, r, |st|) <= Distance(from, t, |st|)
  {
    hide Scan, Distance;
    ScanModulo(st, num, 0);
    FindsIff(st, num % |st|);
    if NextThread(st, num) != -1 {
      FindsNearest(st, num % |st|);
    }
  }

  /** A run of yields over a table with these number fields: the states may change in any way between
      them. */
  ghost predicate YieldRun(tables: seq<seq<ThreadState>>, current: seq<nat>, num: seq<nat>) {
    && |current| == |tables| + 1
    && (forall k :: 0 <= k < |current| ==> current[k] < |num|)
    && (forall k :: 0 <= k < |tables| ==> |tables[k]| == |num|)
    && forall k :: 0 <= k < |tables| ==> current[k + 1] == AfterYield(tables[k], num, current[k])
  }

  ghost predicate StaysActive(tables: seq<seq<ThreadState>>, t: nat) {
    forall k :: 0 <= k < |tables| ==> t < |tables[k]| && tables[k][t].Active?
  }

  /** Each slot's number field leads the scan to start right after the slot. */
  predicate Numbered(num: seq<nat>) {
    forall c :: 0 <= c < |num| ==> num[c] % |num| == c
  }

  /** Bounded bypass: a thread that stays ACTIVE runs within its distance, hence within n - 1
      yields, whatever happens to the other threads. */
  lemma {:induction false} BoundedBypass(tables: seq<seq<ThreadState>>, current: seq<nat>, num: seq<nat>,
                                         t: nat, k: nat)
    returns (j: nat)
    requires YieldRun(tables, current, num) && Numbered(num) && t < |num| && k < |current|
    requires StaysActive(tables, t)
    requires k + Distance(current[k], t, |num|) < |current|
    ensures k <= j <= k + Distance(current[k], t, |num|) < k + |num| && current[j] == t
    decreases Distance(current[k], t, |num|)
  {
    if current[k] == t {
      return k;
    }
    ScanModulo(tables[k], num[current[k]], 0);
    ScanCloser(tables[k], current[k], t, 0);
    j := BoundedBypass(tables, current, num, t, k + 1);
  }

  /** In every run, whoever stays ACTIVE runs within n - 1 yields of any moment. */
  ghost predicate EveryoneRuns(num: seq<nat>) {
    forall tables: seq<seq<ThreadState>>, current: seq<nat>, t: nat, k: nat ::
      YieldRun(tables, current, num) && t < |num| && StaysActive(tables, t) && k + |num| - 1 < |current| ==>
        RunsWithin(current, t, k, |num|)
  }

  ghost predicate RunsWithin(current: seq<nat>, t: nat, k: nat, n: nat) {
    exists j :: k <= j < k + n && j < |current| && current[j] == t
  }

  function OnlyTwo(n: nat, c: nat, t: nat): (st: seq<ThreadState>)
    ensures |st| == n && forall u :: 0 <= u < n ==> (st[u].Active? <==> u == c || u == t)
  {
    seq(n, u => if u == c || u == t then Active else Blocked)
  }

  /** If slot c is numbered as another slot, then with only these two ACTIVE every yield of c comes
      back to c: in runs of every length the other slot never gets its turn. */
  lemma MisnumberedStarves(num: seq<nat>, c: nat, len: nat) returns (tables: seq<seq<ThreadState>>, current: seq<nat>)
    requires c < |num| && num[c] % |num| != c
    ensures YieldRun(tables, current, num) && |tables| == len && StaysActive(tables, num[c] % |num|)
    ensures forall k :: 0 <= k <= len ==> current[k] == c != num[c] % |num|
  {
    var n, t := |num|, num[c] % |num|;
    var st := OnlyTwo(n, c, t);
    tables := seq(len, _ => st);
    current := seq(len + 1, _ => c);
    ScanModulo(st, num[c], 0);
    ScanFinds(st, t, c, 0);
  }

  /** The bound holds in every run exactly when every slot's number is its index modulo the table
      size. */
  lemma EveryoneRunsIff(num: seq<nat>)
    ensures EveryoneRuns(num) <==> Numbered(num)
  {
    if Numbered(num) {
      forall tables: seq<seq<ThreadState>>, current: seq<nat>, t: nat, k: nat |
        YieldRun(tables, current, num) && t < |num| && StaysActive(tables, t) && k + |num| - 1 < |current|
        ensures RunsWithin(current, t, k, |num|)
      {
        var _ := BoundedBypass(tables, current, num, t, k);
      }
    } else {
      var c :| 0 <= c < |num| && num[c] % |num| != c;
      var tables, current := MisnumberedStarves(num, c, |num|);
      assert !RunsWithin(current, num[c] % |num|, 0, |num|);
    }
  }

  /** With all number fields 0, as static storage leaves them, every scan starts after slot 0: while
      slot 1 stays ACTIVE it is the only one that runs from the first yield on. */
  lemma {:induction false} UnnumberedStarves(tables: seq<seq<ThreadState>>, current: seq<nat>, num: seq<nat>, k: nat)
    requires YieldRun(tables, current, num) && |num| >= 2 && forall c :: 0 <= c < |num| ==> num[c] == 0
    requires StaysActive(tables, 1) && 0 < k < |current|
    ensures current[k] == 1
  {
    assert Slot(0, 0, |num|) == 1;
    assert current[k - 1 + 1] == AfterYield(tables[k - 1], num, current[k - 1]);
  }

  class ThreadTable {
    const state: array<ThreadState>
    const number: array<nat>
    var current: nat

    ghost predicate Valid()
      reads this
    {
      state.Length == MAX_THREADS && number.Length == MAX_THREADS && current < MAX_THREADS
    }

    /** Each slot's number field holds its index. */
    ghost predicate WellNumbered()
      requires Valid()
      reads this, number
    {
      forall i :: 0 <= i < MAX_THREADS ==> number[i] == i
    }

    constructor ()
      ensures Valid() && current == 0 && state[0] == Active
      ensures forall i :: 0 < i < MAX_THREADS ==> state[i] == Invalid
      ensures forall i :: 0 <= i < MAX_THREADS ==> number[i] == 0
      ensures fresh(state) && fresh(number)
    {
      state := new ThreadState[MAX_THREADS](_ => Invalid);
      number := new nat[MAX_THREADS](_ => 0);
      current := 0;
      new;
      state[0] := Active;
    }

    /** Hands the processor to the first ACTIVE thread after the current one; reports 0 and keeps
        the current thread when there is none.  One call is one step of a run of yields over the
        table's number fields. */
    method Yield() returns (rc: int)
      requires Valid()
      modifies this
      ensures Valid()
      ensures var next := NextThread(state[..], number[old(current)]);
              if next == -1 then rc == 0 && current == old(current) else rc == 1 && current == next
      ensures YieldRun([state[..]], [old(current), current], number[..])
      ensures WellNumbered() ==> Numbered(number[..])
      ensures var from := number[old(current)] % MAX_THREADS;
              if forall t :: 0 <= t < MAX_THREADS && state[t] == Active ==> t == from then
                rc == 0 && current == old(current)
              else
                && rc == 1 && state[current] == Active && current != from
                && forall t :: 0 <= t < MAX_THREADS && t != from && state[t] == Active ==>
                     Distance(from, current, MAX_THREADS) <= Distance(from, t, MAX_THREADS)
    {
      NextIs(state[..], number[current]);
      var x := 0;
      while x < MAX_THREADS - 1
        invariant 0 <= x <= MAX_THREADS - 1 && current == old(current)
        invariant NextThread(state[..], number[current]) == Scan(state[..], number[current], x)
      {
        var i := (number[current] + 1 + x) % MAX_THREADS;
        if state[i] == Active {
          current := i;
          return 1;
        }
        x := x + 1;
      }
      return 0;
    }
  }
}
