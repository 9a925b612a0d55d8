/** No lost wakeup: where every waiting thread is in every run in which a waiter that yields finds
    somebody to yield to, and exactly which runs lose a waiter. */
module Wakeup {
  import opened Scheduler
  import opened CondProtocol

  predicate BeingWoken(s: State, t: nat) {
    exists u :: 0 <= u < |s.pcs| && s.pcs[u] == SWake(t)
  }

  /** What a thread's program counter says about its state and its place on the waiter list. */
  predicate ThreadOk(s: State, t: nat)
    requires t < |s.pcs| == |s.states|
  {
    var on := t in s.waiters;
    match s.pcs[t]
    case Rest => !on
    case WBlock => s.states[t] == Active && on
    case WUnlockM | WUnlockI => s.states[t] == Blocked && on
    case WYield | WRelSpin | WRelCas =>
      if on then s.states[t] == Blocked
      else s.states[t] == Active || (s.states[t] == Blocked && BeingWoken(s, t))
    case _ => s.states[t] == Active && !on
  }

  ghost predicate ThreadsOk(s: State)
    requires WF(s)
  {
    forall t :: 0 <= t < |s.pcs| ==> ThreadOk(s, t)
  }

  /** A thread taken off the list and not yet made ACTIVE is parked and blocked. */
  ghost predicate WakesOk(s: State)
    requires WF(s)
  {
    forall u :: 0 <= u < |s.pcs| && s.pcs[u].SWake? ==>
      Parked(s.pcs[s.pcs[u].w]) && s.states[s.pcs[u].w] == Blocked && s.pcs[u].w !in s.waiters
  }

  /** A blocked thread runs only until its own yield. */
  predicate CurrentOk(s: State)
    requires WF(s)
  {
    s.states[s.cur] == Active || s.pcs[s.cur] in {WUnlockM, WUnlockI, WYield, Rest}
  }

  ghost predicate Distinct(q: seq<nat>) {
    forall i, j :: 0 <= i < j < |q| ==> q[i] != q[j]
  }

  ghost predicate ParkInv(s: State)
    requires WF(s)
  {
    ThreadsOk(s) && WakesOk(s) && CurrentOk(s) && Distinct(s.waiters)
  }

  /** A blocked waiter that yields finds another ACTIVE thread. */
  predicate Fair(s: State)
    requires WF(s)
  {
    s.pcs[s.cur].WYield? && s.states[s.cur] == Blocked ==> NextThread(s.states, s.cur) != -1
  }

  // ----- the waiter list as a set

  lemma AppendMember(q: seq<nat>, t: nat)
    requires Distinct(q) && t !in q
    ensures Distinct(q + [t])
    ensures forall x :: x in q + [t] <==> x in q || x == t
  {}

  lemma DropMember(q: seq<nat>)
    requires Distinct(q) && q != []
    ensures Distinct(q[1..])
    ensures forall x :: x in q[1..] <==> x in q && x != q[0]
  {
    forall x | x in q && x != q[0]
      ensures x in q[1..]
    {
      var i :| 0 <= i < |q| && q[i] == x;
      assert q[1..][i - 1] == x;
    }
  }

  // ----- one statement

  /** While t holds the internal mutex nobody else does, so only t can be waking anybody. */
  lemma OnlyHolder(s: State, t: nat)
    requires WF(s) && Exclusive(s) && t < |s.pcs| && HoldsInternal(s.pcs[t])
    ensures forall u :: 0 <= u < |s.pcs| && u != t ==> !HoldsInternal(s.pcs[u]) && !s.pcs[u].SWake?
    ensures forall x :: BeingWoken(s, x) <==> s.pcs[t] == SWake(x)
  {
    forall u | 0 <= u < |s.pcs| && u != t
      ensures !HoldsInternal(s.pcs[u]) && !s.pcs[u].SWake?
    {}
  }

  lemma WokenKept(s: State, s': State, t: nat, pc': Pc)
    requires t < |s.pcs| && s'.pcs == s.pcs[t := pc'] && !s.pcs[t].SWake? && !pc'.SWake?
    ensures forall x :: BeingWoken(s', x) <==> BeingWoken(s, x)
  {
    forall x | BeingWoken(s, x)
      ensures BeingWoken(s', x)
    {
      var u :| 0 <= u < |s.pcs| && s.pcs[u] == SWake(x);
      assert s'.pcs[u] == SWake(x);
    }
  }

  predicate Stepped(s: State, s': State, t: nat, pc': Pc) {
    WF(s) && WF(s') && t == s.cur && |s'.pcs| == |s.pcs| && Effect(s, s', t, pc')
  }

  lemma EnqueueKeeps(s: State, s': State, t: nat, pc': Pc)
    requires Stepped(s, s', t, pc') && Exclusive(s) && Exclusive(s') && ParkInv(s)
    requires s.pcs[t].WEnq?
    ensures ParkInv(s')
  {
    hide LockEffect, CounterEffect, LoadEffect, Exclusive, BeingWoken;
    OnlyHolder(s, t);
    OnlyHolder(s', t);
    assert ThreadOk(s, t);
    AppendMember(s.waiters, t);
    forall u | 0 <= u < |s.pcs|
      ensures ThreadOk(s', u)
    {
      assert ThreadOk(s, u);
    }
  }

  lemma RemoveKeeps(s: State, s': State, t: nat, pc': Pc)
    requires Stepped(s, s', t, pc') && Exclusive(s) && Exclusive(s') && ParkInv(s)
    requires s.pcs[t].SRemove? && s.waiters != []
    ensures ParkInv(s')
  {
    hide LockEffect, CounterEffect, LoadEffect, Exclusive, BeingWoken;
    OnlyHolder(s, t);
    OnlyHolder(s', t);
    assert ThreadOk(s, t) && ThreadOk(s, s.waiters[0]) && s.waiters[0] in s.waiters;
    DropMember(s.waiters);
    forall u | 0 <= u < |s.pcs|
      ensures ThreadOk(s', u)
    {
      assert ThreadOk(s, u);
    }
  }

  lemma WakeKeeps(s: State, s': State, t: nat, pc': Pc)
    requires Stepped(s, s', t, pc') && Exclusive(s) && Exclusive(s') && ParkInv(s)
    requires s.pcs[t].SWake? && pc'.SUnlock?
    ensures ParkInv(s')
  {
    hide LockEffect, CounterEffect, LoadEffect, Exclusive, BeingWoken;
    OnlyHolder(s, t);
    OnlyHolder(s', t);
    forall u | 0 <= u < |s.pcs|
      ensures ThreadOk(s', u)
    {
      assert ThreadOk(s, u);
    }
  }

  /** Statements that leave the list alone and wake nobody. */
  predicate Plain(s: State, t: nat)
    requires t < |s.pcs|
  {
    !s.pcs[t].WEnq? && !s.pcs[t].SWake? && (s.pcs[t].SRemove? ==> s.waiters == [])
  }

  lemma PlainOthers(s: State, s': State, t: nat, pc': Pc, u: nat)
    requires Stepped(s, s', t, pc') && ThreadsOk(s) && Plain(s, t) && u < |s.pcs| && u != t
    requires BeingWoken(s', u) <==> BeingWoken(s, u)
    ensures ThreadOk(s', u) && s'.waiters == s.waiters && !pc'.SWake?
  {
    hide LockEffect, CounterEffect, LoadEffect, BeingWoken, HoldsQueue, HoldsInternal;
    assert ThreadOk(s, u);
  }

  lemma PlainSelf(s: State, s': State, t: nat, pc': Pc)
    requires Stepped(s, s', t, pc') && ThreadsOk(s) && CurrentOk(s) && Plain(s, t) && Moves(s.pcs[t], pc')
    requires BeingWoken(s', t) <==> BeingWoken(s, t)
    ensures ThreadOk(s', t) && (CurrentOk(s') <==> Fair(s))
  {
    hide LockEffect, CounterEffect, LoadEffect, BeingWoken, HoldsQueue, HoldsInternal;
    assert ThreadOk(s, t);
  }

  lemma PlainWakes(s: State, s': State, t: nat, pc': Pc)
    requires Stepped(s, s', t, pc') && WakesOk(s) && Plain(s, t) && Moves(s.pcs[t], pc')
    requires s'.waiters == s.waiters && !pc'.SWake?
    requires Parked(s.pcs[t]) ==> s.states[t] == Active || Parked(pc')
    ensures WakesOk(s')
  {
    hide LockEffect, CounterEffect, LoadEffect, ListEffect, HoldsQueue, HoldsInternal;
  }

  lemma PlainKeeps(s: State, s': State, t: nat, pc': Pc)
    requires Stepped(s, s', t, pc') && ParkInv(s) && Plain(s, t) && Moves(s.pcs[t], pc')
    ensures ParkInv(s') <==> Fair(s)
  {
    hide LockEffect, CounterEffect, LoadEffect, StateEffect, BeingWoken, HoldsQueue, HoldsInternal, ThreadOk, WakesOk, Fair;
    WokenKept(s, s', t, pc');
    PlainSelf(s, s', t, pc');
    forall u | 0 <= u < |s.pcs| && u != t
      ensures ThreadOk(s', u)
    {
      PlainOthers(s, s', t, pc', u);
    }
    PlainWakes(s, s', t, pc');
  }

  /** The control flow of the wait and of everything else. */
  predicate Moves(pc: Pc, pc': Pc) {
    match pc
    case WEnq => pc'.WBlock?
    case WBlock => pc'.WUnlockM?
    case WUnlockM => pc'.WUnlockI?
    case WUnlockI => pc'.WYield?
    case WYield => pc'.WRelSpin?
    case WRelSpin => pc'.WRelSpin? || pc'.WRelCas?
    case WRelCas => pc'.WRelSpin? || pc'.CTest?
    case Rest => pc'.Rest?
    case SWake(_) => pc'.SUnlock?
    case PStore => pc'.SSpin?
    case SSpin => pc'.SSpin? || pc'.SCas?
    case SCas => pc'.SSpin? || pc'.SRemove?
    case SRemove => pc'.SWake? || pc'.SUnlock?
    case CTest => pc'.WSpin? || pc'.CLoad?
    case CLoad => pc'.CStore?
    case CStore => pc'.CUnlock?
    case _ => !Waiting(pc') && !Announcing(pc') && !pc'.Rest? && !pc'.CLoad? && !pc'.CStore?
  }

  lemma ExecMoves(s: State)
    requires WF(s) && |Exec(s).pcs| == |s.pcs|
    ensures Moves(s.pcs[s.cur], Exec(s).pcs[s.cur])
  {
    hide Exec;
    ExecFollows(s);
  }

  /** One statement keeps the invariant exactly when it is not a yield that finds nobody. */
  lemma ExecKeepsIff(s: State)
    requires Safe(s) && ParkInv(s)
    ensures Safe(Exec(s))
    ensures ParkInv(Exec(s)) <==> Fair(s)
  {
    hide Exec, Effect, LocksHeld, Counted, Fifo, ParkInv, Exclusive, Moves;
    ExecSafe(s);
    ExecMoves(s);
    ExecStepKeeps(s, Exec(s), s.cur, Exec(s).pcs[s.cur]);
  }

  lemma ExecStepKeeps(s: State, s': State, t: nat, pc': Pc)
    requires Stepped(s, s', t, pc') && Exclusive(s) && Exclusive(s') && ParkInv(s) && Moves(s.pcs[t], pc')
    ensures ParkInv(s') <==> Fair(s)
  {
    hide Effect, Exclusive, ParkInv;
    match s.pcs[t]
    case WEnq => EnqueueKeeps(s, s', t, pc');
    case SWake(_) => WakeKeeps(s, s', t, pc');
    case _ =>
      if Plain(s, t) {
        PlainKeeps(s, s', t, pc');
      } else {
        RemoveKeeps(s, s', t, pc');
      }
  }

  lemma SwitchKeeps(s: State)
    requires WF(s) && ParkInv(s)
    ensures WF(Switch(s)) && ParkInv(Switch(s))
  {
    var s' := Switch(s);
    forall t | 0 <= t < |s.pcs|
      ensures ThreadOk(s', t)
    {
      assert ThreadOk(s, t);
      if BeingWoken(s, t) {
        var u :| 0 <= u < |s.pcs| && s.pcs[u] == SWake(t);
        assert s'.pcs[u] == SWake(t);
      }
    }
  }

  lemma InitPark(s: State)
    requires Init(s) && (s.states[s.cur] == Active || s.pcs[s.cur] == Rest)
    ensures ParkInv(s)
  {}

  // ----- no stranded sleeper

  /** Consumers that are awake, or on their way, and have not yet tested the queue again. */
  predicate PendingAt(s: State, t: nat) {
    && t < |s.pcs|
    && (if Parked(s.pcs[t]) then t !in s.waiters else s.pcs[t].CTest? || s.pcs[t].CLoad? || s.pcs[t].CStore?)
  }

  ghost function Pending(s: State): set<nat> {
    set t | 0 <= t < |s.pcs| && PendingAt(s, t)
  }

  /** A producer has stored its item and not yet taken a waiter off the list. */
  predicate Announcing(pc: Pc) {
    pc.SSpin? || pc.SCas? || pc.SRemove?
  }

  ghost predicate SomeAnnouncing(s: State) {
    exists t :: 0 <= t < |s.pcs| && Announcing(s.pcs[t])
  }

  /** While threads sleep on the list, every item in the queue has its own awake consumer,
      except the one item whose producer is about to signal. */
  ghost predicate Covered(s: State) {
    s.waiters != [] ==> s.queueSize <= |Pending(s)| + if SomeAnnouncing(s) then 1 else 0
  }

  /** Only the running thread holds the queue lock here, so announcing is up to it alone. */
  lemma AnnouncingIs(s: State, t: nat)
    requires WF(s) && Exclusive(s) && t < |s.pcs| && HoldsQueue(s.pcs[t])
    ensures SomeAnnouncing(s) <==> Announcing(s.pcs[t])
  {
    if SomeAnnouncing(s) {
      var u :| 0 <= u < |s.pcs| && Announcing(s.pcs[u]);
      assert HoldsQueue(s.pcs[u]);
    }
  }

  lemma AnnouncingKept(s: State, s': State, t: nat, pc': Pc)
    requires t < |s.pcs| && s'.pcs == s.pcs[t := pc'] && !Announcing(s.pcs[t]) && !Announcing(pc')
    ensures SomeAnnouncing(s') <==> SomeAnnouncing(s)
  {
    if SomeAnnouncing(s) {
      var u :| 0 <= u < |s.pcs| && Announcing(s.pcs[u]);
      assert Announcing(s'.pcs[u]);
    }
    if SomeAnnouncing(s') {
      var u :| 0 <= u < |s'.pcs| && Announcing(s'.pcs[u]);
      assert Announcing(s.pcs[u]);
    }
  }

  /** Away from the list operations, only the running thread can enter or leave Pending. */
  lemma PendingSame(s: State, s': State, t: nat, pc': Pc)
    requires t < |s.pcs| && s'.pcs == s.pcs[t := pc'] && s'.waiters == s.waiters
    ensures PendingAt(s', t) == PendingAt(s, t) ==> Pending(s') == Pending(s)
    ensures PendingAt(s', t) && !PendingAt(s, t) ==> Pending(s') == Pending(s) + {t} && t !in Pending(s)
    ensures !PendingAt(s', t) && PendingAt(s, t) ==> Pending(s') == Pending(s) - {t} && t in Pending(s)
  {
    forall u | u != t
      ensures u in Pending(s') <==> u in Pending(s)
    {
      assert PendingAt(s', u) == PendingAt(s, u);
    }
  }

  lemma RemovePending(s: State, s': State, t: nat)
    requires WF(s) && ParkInv(s) && t < |s.pcs| && s.pcs[t].SRemove? && s.waiters != []
    requires s'.pcs == s.pcs[t := SWake(s.waiters[0])] && s'.waiters == s.waiters[1..]
    requires Parked(s.pcs[s.waiters[0]])
    ensures Pending(s') == Pending(s) + {s.waiters[0]} && s.waiters[0] !in Pending(s)
  {
    hide ThreadsOk, WakesOk;
    DropMember(s.waiters);
    forall u
      ensures u in Pending(s') <==> u in Pending(s) || u == s.waiters[0]
    {
      assert PendingAt(s', u) <==> PendingAt(s, u) || u == s.waiters[0];
    }
  }

  lemma CoveredEnqueue(s: State, s': State, t: nat, pc': Pc)
    requires Stepped(s, s', t, pc') && Counted(s) && s.pcs[t].WEnq?
    ensures Covered(s')
  {
    hide LockEffect, LoadEffect, ListEffect, StateEffect;
  }

  lemma CoveredRemove(s: State, s': State, t: nat, pc': Pc)
    requires Stepped(s, s', t, pc') && Exclusive(s) && Exclusive(s') && ParkInv(s) && Covered(s)
    requires s.pcs[t].SRemove? && s.waiters != []
    ensures Covered(s')
  {
    hide LockEffect, LoadEffect, StateEffect, Exclusive, WakesOk, SomeAnnouncing;
    AnnouncingIs(s, t);
    AnnouncingIs(s', t);
    OnlyHolder(s, t);
    assert ThreadOk(s, s.waiters[0]);
    RemovePending(s, s', t);
  }

  /** The queue counter moves: a store by a producer, or by a consumer. */
  lemma CoveredStore(s: State, s': State, t: nat, pc': Pc)
    requires Stepped(s, s', t, pc') && Exclusive(s) && Exclusive(s') && Counted(s) && Covered(s)
    requires (s.pcs[t].PStore? || s.pcs[t].CStore?) && Moves(s.pcs[t], pc')
    ensures Covered(s')
  {
    hide LockEffect, LoadEffect, StateEffect, Exclusive, SomeAnnouncing;
    AnnouncingIs(s, t);
    AnnouncingIs(s', t);
    PendingSame(s, s', t, pc');
  }

  /** The test: an empty queue needs no cover, and a consumer that goes on stays pending. */
  lemma CoveredTest(s: State, s': State, t: nat, pc': Pc)
    requires Stepped(s, s', t, pc') && Exclusive(s) && Exclusive(s') && Counted(s) && Covered(s)
    requires s.pcs[t].CTest? && Moves(s.pcs[t], pc')
    ensures Covered(s')
  {
    hide LockEffect, StateEffect, Exclusive, SomeAnnouncing;
    PendingSame(s, s', t, pc');
    AnnouncingIs(s, t);
    AnnouncingIs(s', t);
  }

  lemma CoveredAnnouncing(s: State, s': State, t: nat, pc': Pc)
    requires Stepped(s, s', t, pc') && Exclusive(s) && Exclusive(s') && Covered(s)
    requires (s.pcs[t].SSpin? || s.pcs[t].SCas?) && Moves(s.pcs[t], pc')
    ensures Covered(s')
  {
    hide LockEffect, LoadEffect, StateEffect, Exclusive, SomeAnnouncing;
    PendingSame(s, s', t, pc');
    AnnouncingIs(s, t);
    AnnouncingIs(s', t);
  }

  /** The remaining statements announce nothing and take nobody out of Pending. */
  predicate Quiet(pc: Pc) {
    match pc
    case PStore | SSpin | SCas | SRemove | WEnq | CTest | CStore => false
    case _ => true
  }

  lemma QuietMoves(s: State, t: nat, pc': Pc)
    requires t < |s.pcs| == |s.states| && Quiet(s.pcs[t]) && Moves(s.pcs[t], pc')
    ensures !Announcing(s.pcs[t]) && !Announcing(pc')
    ensures PendingAt(s, t) ==> PendingAt(s.(pcs := s.pcs[t := pc']), t)
  {}

  lemma CoveredQuiet(s: State, s': State, t: nat, pc': Pc)
    requires Stepped(s, s', t, pc') && Covered(s) && Quiet(s.pcs[t]) && Moves(s.pcs[t], pc')
    ensures Covered(s')
  {
    hide LockEffect, LoadEffect, StateEffect, SomeAnnouncing, Announcing, Moves, HoldsQueue, HoldsInternal;
    QuietMoves(s, t, pc');
    PendingSame(s, s', t, pc');
    AnnouncingKept(s, s', t, pc');
  }

  lemma ExecCovered(s: State)
    requires Safe(s) && ParkInv(s) && Covered(s)
    ensures Covered(Exec(s))
  {
    hide Exec, Effect, LocksHeld, Counted, Fifo, ParkInv, Exclusive, Moves, Covered;
    ExecSafe(s);
    ExecMoves(s);
    StepCovered(s, Exec(s), s.cur, Exec(s).pcs[s.cur]);
  }

  lemma StepCovered(s: State, s': State, t: nat, pc': Pc)
    requires Stepped(s, s', t, pc') && Exclusive(s) && Exclusive(s') && Counted(s) && ParkInv(s) && Covered(s)
    requires Moves(s.pcs[t], pc')
    ensures Covered(s')
  {
    hide Effect, Exclusive, Counted, ParkInv, Moves, Covered;
    match s.pcs[t]
    case WEnq => CoveredEnqueue(s, s', t, pc');
    case PStore | CStore => CoveredStore(s, s', t, pc');
    case CTest => CoveredTest(s, s', t, pc');
    case SSpin | SCas => CoveredAnnouncing(s, s', t, pc');
    case SRemove =>
      if s.waiters == [] {
        CoveredEmpty(s, s', t, pc');
      } else {
        CoveredRemove(s, s', t, pc');
      }
    case _ => CoveredQuiet(s, s', t, pc');
  }

  lemma CoveredEmpty(s: State, s': State, t: nat, pc': Pc)
    requires Stepped(s, s', t, pc') && s.pcs[t].SRemove? && s.waiters == []
    ensures Covered(s')
  {
    hide LockEffect, LoadEffect, StateEffect, CounterEffect;
  }

  lemma SwitchCovered(s: State)
    requires WF(s) && Covered(s)
    ensures Covered(Switch(s))
  {
    assert Pending(Switch(s)) == Pending(s);
    assert SomeAnnouncing(s) == SomeAnnouncing(Switch(s)) by {
      assert Switch(s).pcs == s.pcs;
    }
  }

  // ----- whole runs

  ghost predicate IsRun(run: seq<State>) {
    && run != [] && Init(run[0]) && (run[0].states[run[0].cur] == Active || run[0].pcs[run[0].cur] == Rest)
    && forall i :: 0 <= i < |run| - 1 ==> WF(run[i]) && Next(run[i], run[i + 1])
  }

  /** In the run's steps every blocked waiter that yields finds another ACTIVE thread. */
  ghost predicate FairRun(run: seq<State>) {
    IsRun(run) && forall i :: 0 <= i < |run| - 1 && run[i + 1] != Switch(run[i]) ==> Fair(run[i])
  }

  /** Every interleaving, early returns of the wait included, is safe. */
  lemma {:induction false} RunSafe(run: seq<State>, i: nat)
    requires IsRun(run) && i < |run|
    ensures Safe(run[i])
  {
    hide Init, Exec, Switch, Safe;
    if i == 0 {
      InitSafe(run[0]);
    } else {
      RunSafe(run, i - 1);
      ExecSafe(run[i - 1]);
      SwitchSafe(run[i - 1]);
    }
  }

  /** Producer/consumer safety: in every state of every run at most one thread is in a critical
      section of queue_lock, and with nobody there the lock is free and the queue size is what
      was produced less what was consumed; threads are signalled in the order they waited. */
  lemma MutualExclusion(run: seq<State>, i: nat)
    requires IsRun(run) && i < |run|
    ensures var s := run[i];
            && WF(s)
            && (forall t, u :: 0 <= t < |s.pcs| && 0 <= u < |s.pcs| && HoldsQueue(s.pcs[t]) && HoldsQueue(s.pcs[u]) ==> t == u)
            && (s.queueLock <==> exists t :: 0 <= t < |s.pcs| && HoldsQueue(s.pcs[t]))
            && s.queueSize == s.produced - s.consumed >= 0
            && s.dequeued <= s.enqueued && s.waiters == s.enqueued[|s.dequeued|..]
  {
    hide Init, Exec, Switch, HoldsQueue, HoldsInternal;
    RunSafe(run, i);
  }

  lemma {:induction false} RunPark(run: seq<State>, i: nat)
    requires FairRun(run) && i < |run|
    ensures Safe(run[i]) && ParkInv(run[i]) && Covered(run[i])
  {
    hide Init, Exec, Switch, Safe, ParkInv, Covered, Fair;
    RunSafe(run, i);
    if i == 0 {
      InitPark(run[0]);
      InitCovered(run[0]);
    } else {
      var s := run[i - 1];
      RunPark(run, i - 1);
      if run[i] == Switch(s) {
        SwitchKeeps(s);
        SwitchCovered(s);
      } else {
        ExecKeepsIff(s);
        ExecCovered(s);
      }
    }
  }

  lemma InitCovered(s: State)
    requires Init(s)
    ensures Covered(s)
  {}

  /** A thread between its enqueue and its relock is either BLOCKED and on the list exactly once, or
      ACTIVE and absent from it; and nobody else is on the list. */
  predicate Placed(s: State, t: nat)
    requires t < |s.pcs| == |s.states|
  {
    if Waiting(s.pcs[t]) then
      if t in s.waiters then s.states[t] == Blocked && multiset(s.waiters)[t] == 1 else s.states[t] == Active
    else
      t !in s.waiters
  }

  lemma ParkPlaces(s: State, t: nat)
    requires WF(s) && Exclusive(s) && ParkInv(s) && !s.internal && t < |s.pcs|
    ensures Placed(s, t)
  {
    hide WakesOk, CurrentOk;
    assert ThreadOk(s, t);
    if t in s.waiters {
      DistinctOnce(s.waiters, t);
    }
  }

  /** No lost wakeup: whenever the internal mutex is free, every thread is where it should be. */
  lemma NoLostWakeup(run: seq<State>, i: nat, t: nat)
    requires FairRun(run) && i < |run| && WF(run[i]) && t < |run[i].pcs| && !run[i].internal
    ensures Placed(run[i], t)
  {
    hide Init, Exec, Switch, Next, Covered, Fair, Placed, ParkInv;
    RunPark(run, i);
    ParkPlaces(run[i], t);
  }

  lemma {:induction false} DistinctOnce(q: seq<nat>, t: nat)
    requires Distinct(q) && t in q
    ensures multiset(q)[t] == 1
  {
    assert q == [q[0]] + q[1..];
    DropMember(q);
    if q[0] != t {
      DistinctOnce(q[1..], t);
    }
  }

  /** No stranded sleeper: if threads sleep on the list while both locks are free and the queue
      holds items, then for each item there is an ACTIVE consumer on its way to test the queue. */
  lemma NoStrandedSleeper(run: seq<State>, i: nat)
    requires FairRun(run) && i < |run| && WF(run[i])
    requires !run[i].internal && !run[i].queueLock && run[i].waiters != []
    ensures run[i].queueSize <= |Pending(run[i])|
    ensures forall t :: t in Pending(run[i]) ==>
              Parked(run[i].pcs[t]) && run[i].states[t] == Active && t !in run[i].waiters
  {
    hide Init, Exec, Switch, Next, Fair;
    RunPark(run, i);
    var s := run[i];
    forall u | 0 <= u < |s.pcs|
      ensures !Announcing(s.pcs[u])
    {
      assert !HoldsQueue(s.pcs[u]);
    }
    forall t | t in Pending(s)
      ensures Parked(s.pcs[t]) && s.states[t] == Active && t !in s.waiters
    {
      assert ThreadOk(s, t) && !HoldsQueue(s.pcs[t]);
    }
  }

  // ----- the exact condition

  /** BLOCKED, with the internal mutex still to be released. */
  predicate Releasing(pc: Pc) {
    pc.WUnlockM? || pc.WUnlockI?
  }

  /** Off the processor while BLOCKED and holding the internal mutex. */
  predicate Stuck(s: State, t: nat) {
    && t < |s.pcs| == |s.states| && t != s.cur
    && Releasing(s.pcs[t]) && s.states[t] == Blocked
  }

  ghost predicate NoneStuck(s: State) {
    forall t: nat :: !Stuck(s, t)
  }

  /** A switch now would take the processor from a BLOCKED thread that holds the internal mutex. */
  predicate Torn(s: State)
    requires WF(s)
  {
    Releasing(s.pcs[s.cur]) && NextThread(s.states, s.cur) != -1
  }

  lemma SwitchStuckIff(s: State)
    requires WF(s) && ParkInv(s) && NoneStuck(s)
    ensures NoneStuck(Switch(s)) <==> !Torn(s)
  {
    FindsIff(s.states, s.cur);
    assert ThreadOk(s, s.cur);
    var s' := Switch(s);
    if Torn(s) {
      assert Stuck(s', s.cur);
    } else {
      forall t: nat
        ensures !Stuck(s', t)
      {
        assert !Stuck(s, t);
      }
    }
  }

  lemma ExecStuck(s: State)
    requires Safe(s) && ParkInv(s) && NoneStuck(s)
    ensures NoneStuck(Exec(s))
  {
    hide Exec, Effect, LocksHeld, Counted, Fifo, ParkInv, Exclusive, Moves;
    ExecSafe(s);
    ExecMoves(s);
    StepStuck(s, Exec(s), s.cur, Exec(s).pcs[s.cur]);
  }

  lemma StepStuck(s: State, s': State, t: nat, pc': Pc)
    requires Stepped(s, s', t, pc') && ParkInv(s) && NoneStuck(s) && Moves(s.pcs[t], pc')
    ensures NoneStuck(s')
  {
    hide LockEffect, CounterEffect, LoadEffect, ListEffect, HoldsQueue, HoldsInternal, WakesOk, BeingWoken;
    assert ThreadsOk(s);
    forall u: nat
      ensures !Stuck(s', u)
    {
      assert !Stuck(s, u);
      if u < |s.pcs| {
        assert ThreadOk(s, u);
      }
    }
  }

  /** A stuck thread stays stuck whatever is executed: it keeps the internal mutex, nobody joins or
      leaves the waiter list, and if it was to release the queue lock too then nothing is produced
      or consumed any more. */
  lemma StuckStep(s: State, s': State, t: nat)
    requires Safe(s) && Stuck(s, t) && Next(s, s')
    ensures Stuck(s', t) && s'.pcs[t] == s.pcs[t] && s.internal && s'.internal && s'.waiters == s.waiters
    ensures s.pcs[t].WUnlockM? ==> s.queueLock && s'.queueLock && SameCounts(s, s')
  {
    hide Exec, Effect, LocksHeld, Counted, Fifo;
    if s' == Switch(s) {
      return;
    }
    ExecSafe(s);
    StuckEffect(s, s', t, s'.pcs[s.cur]);
  }

  predicate SameCounts(s: State, s': State) {
    s'.queueSize == s.queueSize && s'.produced == s.produced && s'.consumed == s.consumed
  }

  lemma StuckEffect(s: State, s': State, t: nat, pc': Pc)
    requires Stepped(s, s', s.cur, pc') && Exclusive(s) && Stuck(s, t)
    ensures Stuck(s', t) && s'.pcs[t] == s.pcs[t] && s.internal && s'.internal && s'.waiters == s.waiters
    ensures s.pcs[t].WUnlockM? ==> s.queueLock && s'.queueLock && SameCounts(s, s')
  {
    hide LoadEffect;
    OnlyHolder(s, t);
  }

  /** A waiter switched out while it holds the internal mutex is lost for the rest of the run, and
      every other waiter with it. */
  lemma {:induction false} StuckForever(run: seq<State>, i: nat, j: nat, t: nat)
    requires IsRun(run) && i <= j < |run| && Stuck(run[i], t)
    ensures Stuck(run[j], t) && run[j].pcs[t] == run[i].pcs[t] && run[j].internal && run[j].waiters == run[i].waiters
    ensures run[i].pcs[t].WUnlockM? ==> run[j].queueLock && SameCounts(run[i], run[j])
  {
    hide Init, Exec, Switch, Next, Safe, Stuck;
    RunSafe(run, j);
    if i < j {
      StuckForever(run, i, j - 1, t);
      RunSafe(run, j - 1);
      StuckStep(run[j - 1], run[j], t);
    } else {
      StuckHolds(run[i], t);
    }
  }

  lemma StuckHolds(s: State, t: nat)
    requires Safe(s) && Stuck(s, t)
    ensures s.internal && (s.pcs[t].WUnlockM? ==> s.queueLock)
  {}

  /** When a BLOCKED waiter that yields finds nobody, and nobody is stuck, both locks are free: no
      other thread can be in a section that holds one. */
  lemma UnfairAlone(s: State)
    requires Safe(s) && ParkInv(s) && NoneStuck(s) && !Fair(s)
    ensures !s.queueLock && !s.internal
  {
    hide Counted, Fifo, Exclusive, BeingWoken, WakesOk;
    FindsIff(s.states, s.cur);
    forall t | 0 <= t < |s.pcs|
      ensures !HoldsQueue(s.pcs[t]) && !HoldsInternal(s.pcs[t])
    {
      assert ThreadOk(s, t) && !Stuck(s, t);
    }
  }

  /** Then its wait returns at once: three statements later it holds the queue lock, is BLOCKED, and
      is still on the waiter list; on the way there nobody is misplaced. */
  lemma UnfairReturns(s: State)
    requires Safe(s) && ParkInv(s) && !Fair(s) && !s.queueLock && !s.internal
    ensures Exec(s) == Goto(s, WRelSpin) && WF(Exec(s))
    ensures var s2 := Goto(s, WRelCas);
            var s3 := Goto(s, CTest).(queueLock := true);
            && Exec(Exec(s)) == s2 && WF(s2) && Exec(s2) == s3
            && s3.states[s.cur] == Blocked && s.cur in s3.waiters && s3.pcs[s.cur] == CTest
  {
    hide Exclusive, LocksHeld, Counted, Fifo, WakesOk;
    assert ThreadOk(s, s.cur);
    assert !BeingWoken(s, s.cur) by {
      if BeingWoken(s, s.cur) {
        NobodyWaking(s);
      }
    }
    assert s.pcs[s.cur := WRelSpin][s.cur := WRelCas] == s.pcs[s.cur := WRelCas];
    assert s.pcs[s.cur := WRelCas][s.cur := CTest] == s.pcs[s.cur := CTest];
  }

  lemma NobodyWaking(s: State)
    requires WF(s) && Exclusive(s) && !s.internal
    ensures forall t :: !BeingWoken(s, t)
  {}

  /** No thread is stuck, and while the internal mutex is free every thread is where it should be. */
  ghost predicate NothingLost(s: State)
    requires WF(s)
  {
    NoneStuck(s) && (!s.internal ==> forall t :: 0 <= t < |s.pcs| ==> Placed(s, t))
  }

  /** The state after k more statements of the running thread. */
  ghost function Ahead(s: State, k: nat): (r: State)
    requires Safe(s)
    ensures Safe(r) && WF(r)
  {
    if k == 0 then s else
      ExecSafe(Ahead(s, k - 1));
      Exec(Ahead(s, k - 1))
  }

  ghost predicate Sound(s: State) {
    Safe(s) && ParkInv(s) && NoneStuck(s)
  }

  lemma SoundLosesNothing(s: State)
    requires Sound(s)
    ensures NothingLost(s)
  {
    hide ParkInv, Placed, NoneStuck, LocksHeld, Counted, Fifo, Exclusive;
    if !s.internal {
      forall t | 0 <= t < |s.pcs|
        ensures Placed(s, t)
      {
        ParkPlaces(s, t);
      }
    }
  }

  lemma ExecSound(s: State)
    requires Sound(s) && Fair(s)
    ensures Sound(Exec(s))
  {
    hide Exec, ParkInv, NoneStuck, Safe, Fair;
    ExecKeepsIff(s);
    ExecStuck(s);
  }

  lemma SwitchSound(s: State)
    requires Sound(s)
    ensures Safe(Switch(s)) && ParkInv(Switch(s)) && (Sound(Switch(s)) <==> !Torn(s))
  {
    hide Switch, ParkInv, NoneStuck, Torn;
    SwitchSafe(s);
    SwitchKeeps(s);
    SwitchStuckIff(s);
  }

  /** The waiter whose wait returned by itself: its next two states lose nothing, the third does. */
  lemma UnfairLoses(s: State)
    requires Sound(s) && !Fair(s)
    ensures NothingLost(Ahead(s, 1)) && NothingLost(Ahead(s, 2)) && !NothingLost(Ahead(s, 3))
  {
    hide Exec, ParkInv, LocksHeld, Counted, Fifo, Exclusive, Placed, NoneStuck;
    UnfairAlone(s);
    UnfairReturns(s);
    SoundLosesNothing(s);
    AheadThree(s);
    ParkedOn(s, WRelSpin);
    ParkedOn(s, WRelCas);
    assert !Placed(Ahead(s, 3), s.cur) by {
      NotPlaced(Ahead(s, 3), s.cur);
    }
  }

  lemma NotPlaced(s: State, t: nat)
    requires t < |s.pcs| == |s.states| && s.pcs[t] == CTest && t in s.waiters
    ensures !Placed(s, t)
  {}

  lemma AheadThree(s: State)
    requires Safe(s)
    ensures Safe(Exec(s)) && Safe(Exec(Exec(s)))
    ensures Ahead(s, 1) == Exec(s) && Ahead(s, 2) == Exec(Exec(s)) && Ahead(s, 3) == Exec(Exec(Exec(s)))
  {
    hide Exec, Exclusive, LocksHeld, Counted, Fifo;
    assert Ahead(s, 0) == s;
    assert Ahead(s, 1) == Exec(Ahead(s, 0));
    assert Ahead(s, 2) == Exec(Ahead(s, 1));
    assert Ahead(s, 3) == Exec(Ahead(s, 2));
  }

  /** Between its yield and its relock a waiter can move without changing who is placed. */
  lemma ParkedOn(s: State, pc: Pc)
    requires WF(s) && NothingLost(s) && Parked(s.pcs[s.cur]) && Parked(pc)
    ensures WF(Goto(s, pc)) && NothingLost(Goto(s, pc))
  {
    var s' := Goto(s, pc);
    forall t: nat
      ensures !Stuck(s', t)
    {
      assert !Stuck(s, t);
    }
    if !s.internal {
      forall t | 0 <= t < |s.pcs|
        ensures Placed(s', t)
      {
        assert Placed(s, t);
      }
    }
  }

  /** Three more statements from a state with no unfair yield lose nothing, even if they bring the
      thread to one. */
  lemma AheadOfFair(s: State, k: nat)
    requires Sound(s) && Fair(s) && k <= 3
    ensures NothingLost(Ahead(s, k))
  {
    hide Exec, Sound, NothingLost, Fair;
    SoundSafe(s);
    AheadThree(s);
    SoundLosesNothing(s);
    ExecSound(s);
    SoundLosesNothing(Exec(s));
    var s1, s2 := Exec(s), Exec(Exec(s));
    SoundSafe(s1);
    AheadThree(s1);
    if !Fair(s1) {
      UnfairLoses(s1);
    } else {
      ExecSound(s1);
      SoundLosesNothing(s2);
      SoundSafe(s2);
      AheadThree(s2);
      if !Fair(s2) {
        UnfairLoses(s2);
      } else {
        ExecSound(s2);
        SoundLosesNothing(Exec(s2));
      }
    }
  }

  lemma SafeWF(s: State)
    requires Safe(s)
    ensures WF(s)
  {}

  lemma SoundSafe(s: State)
    requires Sound(s)
    ensures Safe(s) && WF(s)
  {}

  /** No state of the run is a BLOCKED waiter's yield that finds nobody, and no step takes the
      processor from a waiter between its blocking and its release of the internal mutex. */
  ghost predicate Disciplined(run: seq<State>) {
    && (forall i :: 0 <= i < |run| ==> WF(run[i]) && Fair(run[i]))
    && forall i :: 0 <= i < |run| - 1 ==> Untorn(run[i], run[i + 1])
  }

  /** The step from s to s' is no switch away from a BLOCKED holder of the internal mutex. */
  predicate Untorn(s: State, s': State) {
    WF(s) && (s' == Switch(s) ==> !Torn(s))
  }

  lemma InitSound(s: State)
    requires Init(s) && (s.states[s.cur] == Active || s.pcs[s.cur] == Rest)
    ensures Sound(s)
  {
    hide ParkInv, Safe;
    InitSafe(s);
    InitPark(s);
  }

  lemma {:induction false} RunSound(run: seq<State>, i: nat)
    requires IsRun(run) && Disciplined(run) && i < |run|
    ensures Sound(run[i])
  {
    hide Init, Exec, Switch, Sound, Fair, Untorn;
    if i == 0 {
      InitSound(run[0]);
    } else {
      RunSound(run, i - 1);
      NextSound(run[i - 1], run[i]);
    }
  }

  lemma NextSound(s: State, s': State)
    requires Sound(s) && Fair(s) && Next(s, s') && Untorn(s, s')
    ensures Sound(s')
  {
    hide Exec, Switch, Sound, Fair, Torn;
    SoundSafe(s);
    if s' == Switch(s) {
      SwitchSound(s);
    } else {
      ExecSound(s);
    }
  }

  /** In no state of the run, nor in the next three statements of its running thread, is a waiter
      lost. */
  ghost predicate LosesNothing(run: seq<State>) {
    forall i, k :: 0 <= i < |run| && 0 <= k <= 3 ==> LosesNothingAt(run[i], k)
  }

  ghost predicate LosesNothingAt(s: State, k: nat) {
    Safe(s) && NothingLost(Ahead(s, k))
  }

  lemma {:induction false} LosesNothingSound(run: seq<State>, i: nat)
    requires IsRun(run) && LosesNothing(run) && i < |run|
    ensures Sound(run[i]) && Fair(run[i])
    ensures i > 0 ==> Untorn(run[i - 1], run[i])
  {
    hide Init, Exec, Switch, Sound, Fair, Untorn, Safe, NothingLost;
    RunSafe(run, i);
    SafeWF(run[i]);
    if i == 0 {
      InitSound(run[0]);
    } else {
      LosesNothingSound(run, i - 1);
      assert LosesNothingAt(run[i], 0);
      StepLosesNothing(run[i - 1], run[i]);
    }
    SoundSafe(run[i]);
    assert LosesNothingAt(run[i], 3);
    if !Fair(run[i]) {
      UnfairLoses(run[i]);
    }
  }

  lemma StepLosesNothing(s: State, s': State)
    requires Sound(s) && Fair(s) && Next(s, s') && Safe(s') && NothingLost(s')
    ensures Sound(s') && Untorn(s, s')
  {
    hide Exec, Switch, Torn, Fair, ParkInv, NoneStuck, Exclusive, LocksHeld, Counted, Fifo;
    if s' == Switch(s) {
      SwitchSound(s);
    } else {
      ExecSound(s);
    }
  }

  lemma RunFair(run: seq<State>, i: nat)
    requires Disciplined(run) && i < |run|
    ensures WF(run[i]) && Fair(run[i])
  {}

  lemma DisciplinedLosesNothing(run: seq<State>)
    requires IsRun(run) && Disciplined(run)
    ensures LosesNothing(run)
  {
    hide IsRun, Disciplined, Sound, Fair, Safe, NothingLost;
    forall i, k | 0 <= i < |run| && 0 <= k <= 3
      ensures LosesNothingAt(run[i], k)
    {
      RunSound(run, i);
      SoundSafe(run[i]);
      RunFair(run, i);
      AheadOfFair(run[i], k);
    }
  }

  lemma LosesNothingDisciplined(run: seq<State>)
    requires IsRun(run) && LosesNothing(run)
    ensures Disciplined(run)
  {
    hide IsRun, Sound, Fair, Untorn, LosesNothing;
    forall i | 0 <= i < |run|
      ensures WF(run[i]) && Fair(run[i])
    {
      LosesNothingSound(run, i);
      SoundSafe(run[i]);
    }
    forall i | 0 <= i < |run| - 1
      ensures Untorn(run[i], run[i + 1])
    {
      LosesNothingSound(run, i + 1);
    }
  }

  /** The exact condition: a run loses no waiter if and only if every BLOCKED waiter that yields finds
      another ACTIVE thread and no waiter is switched out while it is BLOCKED and holds the
      internal mutex. */
  lemma LosesNothingIff(run: seq<State>)
    requires IsRun(run)
    ensures LosesNothing(run) <==> Disciplined(run)
  {
    hide IsRun, LosesNothing, Disciplined;
    if Disciplined(run) {
      DisciplinedLosesNothing(run);
    }
    if LosesNothing(run) {
      LosesNothingDisciplined(run);
    }
  }

  /** In a disciplined run whoever holds a lock is ACTIVE or running, so it can always go on to
      release it. */
  lemma HoldersCanRun(run: seq<State>, i: nat, t: nat)
    requires IsRun(run) && Disciplined(run) && i < |run| && t < |run[i].pcs|
    requires HoldsQueue(run[i].pcs[t]) || HoldsInternal(run[i].pcs[t])
    ensures t < |run[i].states| && (run[i].states[t] == Active || t == run[i].cur)
  {
    hide Init, Exec, Switch, Next, Fair, Torn, LocksHeld, Counted, Fifo, Exclusive, WakesOk, BeingWoken;
    RunSound(run, i);
    assert ThreadOk(run[i], t) && !Stuck(run[i], t);
  }

  // ----- runs in which a waiter is lost

  /** Thread 0 of a table whose other threads are about to start. */
  function First(pc: Pc, st: ThreadState, queueLock: bool, internal: bool, waiters: seq<nat>, rest: seq<Pc>): State {
    State([pc] + rest, [st] + seq(|rest|, _ => Active), seq(1 + |rest|, _ => 0), 0, queueLock, internal, waiters,
          0, 0, 0, waiters, [])
  }

  /** A consumer waiting on an empty queue, statement by statement. */
  function Lone(k: nat, rest: seq<Pc>): State {
    match k
    case 0 => First(CSpin, Active, false, false, [], rest)
    case 1 => First(CCas, Active, false, false, [], rest)
    case 2 => First(CTest, Active, true, false, [], rest)
    case 3 => First(WSpin, Active, true, false, [], rest)
    case 4 => First(WCas, Active, true, false, [], rest)
    case 5 => First(WEnq, Active, true, true, [], rest)
    case 6 => First(WBlock, Active, true, true, [0], rest)
    case 7 => First(WUnlockM, Blocked, true, true, [0], rest)
    case 8 => First(WUnlockI, Blocked, false, true, [0], rest)
    case 9 => First(WYield, Blocked, false, false, [0], rest)
    case 10 => First(WRelSpin, Blocked, false, false, [0], rest)
    case 11 => First(WRelCas, Blocked, false, false, [0], rest)
    case _ => First(CTest, Blocked, true, false, [0], rest)
  }

  predicate Starting(rest: seq<Pc>) {
    forall t :: 0 <= t < |rest| ==> rest[t] in {PSpin, CSpin}
  }

  lemma Replaced<T>(a: T, b: T, q: seq<T>)
    ensures ([a] + q)[0 := b] == [b] + q
  {}

  lemma LoneLocks(k: nat, rest: seq<Pc>)
    requires k < 5 && Starting(rest)
    ensures WF(Lone(k, rest)) && Lone(k + 1, rest) == Exec(Lone(k, rest))
  {
    Replaced(Lone(k, []).pcs[0], Lone(k + 1, []).pcs[0], rest);
  }

  lemma LoneBlocks(k: nat, rest: seq<Pc>)
    requires 5 <= k < 7 && Starting(rest)
    ensures WF(Lone(k, rest)) && Lone(k + 1, rest) == Exec(Lone(k, rest))
  {
    Replaced(Lone(k, []).pcs[0], Lone(k + 1, []).pcs[0], rest);
    Replaced(Active, Blocked, seq(|rest|, _ => Active));
    assert [] + [0 as nat] == [0];
  }

  lemma LoneUnlocks(k: nat, rest: seq<Pc>)
    requires 7 <= k < 9 && Starting(rest)
    ensures WF(Lone(k, rest)) && Lone(k + 1, rest) == Exec(Lone(k, rest))
  {
    Replaced(Lone(k, []).pcs[0], Lone(k + 1, []).pcs[0], rest);
  }

  lemma LoneReturns(k: nat)
    requires 9 <= k < 12
    ensures WF(Lone(k, [])) && Lone(k + 1, []) == Exec(Lone(k, []))
  {
    Replaced(Lone(k, []).pcs[0], Lone(k + 1, []).pcs[0], []);
    assert NextThread(Lone(k, []).states, 0) == -1;
  }

  lemma LoneStep(k: nat, rest: seq<Pc>)
    requires k < 9 && Starting(rest)
    ensures WF(Lone(k, rest)) && Lone(k + 1, rest) == Exec(Lone(k, rest))
  {
    hide Exec, Lone;
    if k < 5 {
      LoneLocks(k, rest);
    } else if k < 7 {
      LoneBlocks(k, rest);
    } else {
      LoneUnlocks(k, rest);
    }
  }

  /** The wait of a lone thread returns at once: in this run the thread holds the queue lock again,
      the internal mutex is free, and it is BLOCKED and still on the waiter list. */
  lemma EarlyReturn() returns (run: seq<State>)
    ensures IsRun(run) && |run| == 13
    ensures var r := run[12];
            && WF(r) && !r.internal && r.pcs[0] == CTest && HoldsQueue(r.pcs[0])
            && r.states[0] == Blocked && r.waiters == [0] && !Placed(r, 0)
  {
    hide Exec, Lone;
    run := seq(13, k requires 0 <= k < 13 => Lone(k, []));
    LoneStarts([]);
    LoneEnds();
    forall i | 0 <= i < 12
      ensures WF(run[i]) && Next(run[i], run[i + 1])
    {
      if i < 9 {
        LoneStep(i, []);
      } else {
        LoneReturns(i);
      }
    }
  }

  lemma LoneStarts(rest: seq<Pc>)
    requires Starting(rest)
    ensures Init(Lone(0, rest)) && Lone(0, rest).states[Lone(0, rest).cur] == Active
  {}

  lemma LoneEnds()
    ensures var r := Lone(12, []);
            && WF(r) && !r.internal && r.pcs[0] == CTest && r.states[0] == Blocked && r.waiters == [0] && !Placed(r, 0)
  {}

  /** With any other thread about to start, the alarm can strike when the consumer has blocked and
      holds both locks: in this run every yield is fair, and it ends with the consumer stuck. */
  lemma AlarmStrands(rest: seq<Pc>) returns (run: seq<State>)
    requires Starting(rest) && rest != []
    ensures FairRun(run) && |run| == 9
    ensures var r := run[8]; Stuck(r, 0) && r.pcs[0] == WUnlockM && r.queueLock && r.internal && r.waiters == [0]
  {
    hide Exec, Lone, Switch, Fair;
    LoneStep(7, rest);
    run := seq(8, k requires 0 <= k < 8 => Lone(k, rest)) + [Switch(Lone(7, rest))];
    LoneStarts(rest);
    LoneSwitch(rest);
    forall i | 0 <= i < 8
      ensures WF(run[i]) && Next(run[i], run[i + 1]) && Fair(run[i])
    {
      LoneStep(i, rest);
      LoneFair(i, rest);
    }
  }

  lemma LoneFair(k: nat, rest: seq<Pc>)
    requires k < 8 && WF(Lone(k, rest))
    ensures Fair(Lone(k, rest))
  {}

  lemma LoneSwitch(rest: seq<Pc>)
    requires rest != [] && Starting(rest)
    ensures var r := Switch(Lone(7, rest));
            Stuck(r, 0) && r.pcs[0] == WUnlockM && r.queueLock && r.internal && r.waiters == [0]
  {
    var s := Lone(7, rest);
    assert s.states[1] == Active;
    FindsIff(s.states, 0);
  }
}
