/** Signal and broadcast as they run when nobody interferes: the internal mutex is free on entry. */
module CondVar {
  import opened Scheduler
  import opened LinkedList
  import CondProtocol

  /** The thread states once every thread of q has been made ACTIVE. */
  function Woken(st: seq<ThreadState>, q: seq<nat>): (r: seq<ThreadState>)
    requires forall i :: 0 <= i < |q| ==> q[i] < |st|
    ensures |r| == |st|
    decreases |q|
  {
    if q == [] then st else Woken(st[q[0] := Active], q[1..])
  }

  /** Waking all of q makes exactly the threads of q ACTIVE and changes no other state. */
  lemma {:induction false} WokenExactly(st: seq<ThreadState>, q: seq<nat>, t: nat)
    requires (forall i :: 0 <= i < |q| ==> q[i] < |st|) && t < |st|
    ensures Woken(st, q)[t] == if t in q then Active else st[t]
    decreases |q|
  {
    if q != [] {
      WokenExactly(st[q[0] := Active], q[1..], t);
      assert q == [q[0]] + q[1..];
    }
  }

  /** Signalling one waiter first and the rest later wakes the same threads. */
  lemma {:induction false} WokenAppend(st: seq<ThreadState>, q: seq<nat>, r: seq<nat>)
    requires (forall i :: 0 <= i < |q| ==> q[i] < |st|) && (forall i :: 0 <= i < |r| ==> r[i] < |st|)
    ensures Woken(st, q + r) == Woken(Woken(st, q), r)
    decreases |q|
  {
    if q == [] {
      assert q + r == r;
    } else {
      assert (q + r)[1..] == q[1..] + r;
      WokenAppend(st[q[0] := Active], q[1..], r);
    }
  }

  /** The two statements of the protocol machine that remove a waiter and wake it have, together, the
      effect that Signal has here. */
  lemma SignalInProtocol(s: CondProtocol.State)
    requires CondProtocol.WF(s) && s.pcs[s.cur].SRemove? && s.waiters != []
    ensures var s1 := CondProtocol.Exec(s);
            && CondProtocol.WF(s1) && s1.cur == s.cur
            && var s2 := CondProtocol.Exec(s1);
               s2.waiters == s.waiters[1..] && s2.states == s.states[s.waiters[0] := Active] && s2.pcs[s.cur].SUnlock?
  {
    var s1 := CondProtocol.Exec(s);
    assert s1.pcs[s.cur] == CondProtocol.SWake(s.waiters[0]);
    assert forall i :: 0 <= i < |s1.waiters| ==> s1.waiters[i] == s.waiters[i + 1];
  }

  class Cond {
    const waiters: List<nat>
    const state: array<ThreadState>
    var internalLocked: bool

    /** Every waiter is a slot of the thread table. */
    ghost predicate Valid()
      reads this, waiters, waiters.nodes
    {
      && waiters.Valid()
      && forall i :: 0 <= i < |waiters.Model()| ==> waiters.Model()[i] < state.Length
    }

    ghost function Queue(): (q: seq<nat>)
      requires Valid()
      reads this, waiters, waiters.nodes
      ensures forall i :: 0 <= i < |q| ==> q[i] < state.Length
    {
      waiters.Model()
    }

    constructor (state: array<ThreadState>)
      ensures Valid() && Queue() == [] && !internalLocked && this.state == state
    {
      waiters := new List();
      this.state := state;
      internalLocked := false;
    }

    /** Spins until the mutex is free, then sets it; free on entry, it does not spin. */
    method Lock()
      requires !internalLocked
      modifies this`internalLocked
      ensures internalLocked
    {
      internalLocked := true;
    }

    method Unlock()
      modifies this`internalLocked
      ensures !internalLocked
    {
      internalLocked := false;
    }

    /** Wakes the thread that has waited longest; reports 1 when nobody waits. */
    method Signal() returns (rc: int)
      requires Valid() && !internalLocked
      modifies this`internalLocked, waiters, waiters.nodes, state
      ensures Valid() && !internalLocked
      ensures forall i :: 0 <= i < |waiters.nodes| ==> waiters.nodes[i] in old(waiters.nodes)
      ensures old(Queue()) == [] ==> rc == 1 && Queue() == [] && state[..] == old(state[..])
      ensures old(Queue()) != [] ==>
                rc == 0 && Queue() == old(Queue())[1..] && state[..] == old(state[..])[old(Queue())[0] := Active]
    {
      hide List.Valid, List.Model;
      Lock();
      var removed := waiters.RemoveHead();
      if removed != null {
        var threadId := removed.data;
        state[threadId] := Active;
        Unlock();
        return 0;
      }
      Unlock();
      return 1;
    }

    /** Signals until nobody waits: one signal per waiter and a last one that finds nobody. */
    method Broadcast() returns (ghost signals: nat)
      requires Valid() && !internalLocked
      modifies this`internalLocked, waiters, waiters.nodes, state
      ensures Valid() && !internalLocked
      ensures signals == |old(Queue())| + 1
      ensures Queue() == []
      ensures state[..] == Woken(old(state[..]), old(Queue()))
    {
      ghost var q0 := Queue();
      var rc := Signal();
      signals := 1;
      while rc == 0
        invariant Valid() && !internalLocked && (rc == 0 || rc == 1)
        invariant forall i :: 0 <= i < |waiters.nodes| ==> waiters.nodes[i] in old(waiters.nodes)
        invariant if rc == 0 then signals + |Queue()| == |q0| else signals == |q0| + 1 && Queue() == []
        invariant Woken(state[..], Queue()) == Woken(old(state[..]), q0)
        decreases |q0| + 1 - signals
      {
        rc := Signal();
        signals := signals + 1;
      }
    }
  }
}
