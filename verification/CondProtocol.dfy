/** The condition-variable protocol as a machine that takes one statement at a time: any number of
    producers and consumers, each at a program counter, one of them running, and a switch possible
    between any two statements. */
module CondProtocol {
  import opened Scheduler

  /** P.. and S.. : producer and the signal it sends; C.. and W.. : consumer and its wait. */
  datatype Pc =
    | PSpin | PCas | PLoad | PStore
    | SSpin | SCas | SRemove | SWake(w: nat) | SUnlock
    | PUnlock
    | CSpin | CCas | CTest
    | WSpin | WCas | WEnq | WBlock | WUnlockM | WUnlockI | WYield | WRelSpin | WRelCas
    | CLoad | CStore | CUnlock
    | Rest

  /** enqueued, dequeued, produced and consumed record history; no statement reads them. */
  datatype State = State(
    pcs: seq<Pc>,
    states: seq<ThreadState>,
    tmp: seq<int>,
    cur: nat,
    queueLock: bool,
    internal: bool,
    waiters: seq<nat>,
    queueSize: int,
    produced: nat,
    consumed: nat,
    enqueued: seq<nat>,
    dequeued: seq<nat>)

  predicate WF(s: State) {
    && |s.pcs| == |s.states| == |s.tmp| > s.cur
    && (forall i :: 0 <= i < |s.waiters| ==> s.waiters[i] < |s.pcs|)
    && (forall t :: 0 <= t < |s.pcs| && s.pcs[t].SWake? ==> s.pcs[t].w < |s.pcs|)
  }

  function Goto(s: State, pc: Pc): State
    requires s.cur < |s.pcs|
  {
    s.(pcs := s.pcs[s.cur := pc])
  }

  /** Spin while the lock is set, then try to set it; a lost race goes back to spinning. */
  function Spin(s: State, locked: bool, spin: Pc, cas: Pc): State
    requires s.cur < |s.pcs|
  {
    Goto(s, if locked then spin else cas)
  }

  /** The producer's loop: lock, queue_size++ as a load and a store, signal, unlock. */
  function ProducerStep(s: State): State
    requires WF(s)
  {
    var t := s.cur;
    match s.pcs[t]
    case PSpin => Spin(s, s.queueLock, PSpin, PCas)
    case PCas => if s.queueLock then Goto(s, PSpin) else Goto(s, PLoad).(queueLock := true)
    case PLoad => Goto(s, PStore).(tmp := s.tmp[t := s.queueSize])
    case PStore => Goto(s, SSpin).(queueSize := s.tmp[t] + 1, produced := s.produced + 1)
    case PUnlock => Goto(s, PSpin).(queueLock := false)
    case pc => Goto(s, pc)
  }

  /** The signal: lock the internal mutex, take the first waiter, make it ACTIVE, unlock. */
  function SignalStep(s: State): State
    requires WF(s)
  {
    match s.pcs[s.cur]
    case SSpin => Spin(s, s.internal, SSpin, SCas)
    case SCas => if s.internal then Goto(s, SSpin) else Goto(s, SRemove).(internal := true)
    case SRemove =>
      if s.waiters == [] then Goto(s, SUnlock)
      else Goto(s, SWake(s.waiters[0])).(waiters := s.waiters[1..], dequeued := s.dequeued + [s.waiters[0]])
    case SWake(w) => Goto(s, SUnlock).(states := s.states[w := Active])
    case SUnlock => Goto(s, PUnlock).(internal := false)
    case pc => Goto(s, pc)
  }

  /** The consumer's loop: lock, wait while the queue is empty, queue_size--, unlock. */
  function ConsumerStep(s: State): State
    requires WF(s)
  {
    var t := s.cur;
    match s.pcs[t]
    case CSpin => Spin(s, s.queueLock, CSpin, CCas)
    case CCas => if s.queueLock then Goto(s, CSpin) else Goto(s, CTest).(queueLock := true)
    case CTest => Goto(s, if s.queueSize == 0 then WSpin else CLoad)
    case CLoad => Goto(s, CStore).(tmp := s.tmp[t := s.queueSize])
    case CStore => Goto(s, CUnlock).(queueSize := s.tmp[t] - 1, consumed := s.consumed + 1)
    case CUnlock => Goto(s, CSpin).(queueLock := false)
    case pc => Goto(s, pc)
  }

  /** The wait up to its yield: enqueue itself under the internal mutex, block, release both. */
  function WaitStep(s: State): State
    requires WF(s)
  {
    var t := s.cur;
    match s.pcs[t]
    case WSpin => Spin(s, s.internal, WSpin, WCas)
    case WCas => if s.internal then Goto(s, WSpin) else Goto(s, WEnq).(internal := true)
    case WEnq => Goto(s, WBlock).(waiters := s.waiters + [t], enqueued := s.enqueued + [t])
    case WBlock => Goto(s, WUnlockM).(states := s.states[t := Blocked])
    case WUnlockM => Goto(s, WUnlockI).(queueLock := false)
    case WUnlockI => Goto(s, WYield).(internal := false)
    case pc => Goto(s, pc)
  }

  /** The wait from its yield on: switch away, then take the queue lock again. */
  function RelockStep(s: State): State
    requires WF(s)
  {
    match s.pcs[s.cur]
    case WYield => Switch(Goto(s, WRelSpin))
    case WRelSpin => Spin(s, s.queueLock, WRelSpin, WRelCas)
    case WRelCas => if s.queueLock then Goto(s, WRelSpin) else Goto(s, CTest).(queueLock := true)
    case pc => Goto(s, pc)
  }

  /** The next statement of the running thread. */
  function Exec(s: State): State
    requires WF(s)
  {
    match s.pcs[s.cur]
    case PSpin | PCas | PLoad | PStore | PUnlock => ProducerStep(s)
    case SSpin | SCas | SRemove | SWake(_) | SUnlock => SignalStep(s)
    case CSpin | CCas | CTest | CLoad | CStore | CUnlock => ConsumerStep(s)
    case WSpin | WCas | WEnq | WBlock | WUnlockM | WUnlockI => WaitStep(s)
    case WYield | WRelSpin | WRelCas => RelockStep(s)
    case Rest => Goto(s, Rest)
  }

  /** thread_yield, called by a waiter or by the alarm handler: with no other ACTIVE thread it
      returns at once and the caller keeps running. */
  function Switch(s: State): State
    requires |s.states| > 0
  {
    var next := NextThread(s.states, s.cur);
    if next == -1 then s else s.(cur := next)
  }

  predicate Next(s: State, s': State)
    requires WF(s)
  {
    s' == Exec(s) || s' == Switch(s)
  }

  predicate Init(s: State) {
    && WF(s)
    && (forall t :: 0 <= t < |s.pcs| ==> s.pcs[t] in {PSpin, CSpin, Rest})
    && (forall t :: 0 <= t < |s.pcs| ==> s.pcs[t] == Rest || s.states[t] == Active)
    && !s.queueLock && !s.internal && s.waiters == [] && s.queueSize == 0
    && s.produced == 0 && s.consumed == 0 && s.enqueued == [] && s.dequeued == []
  }

  // ----- who holds what

  predicate HoldsQueue(pc: Pc) {
    match pc
    case PLoad | PStore | SSpin | SCas | SRemove | SWake(_) | SUnlock | PUnlock => true
    case CTest | WSpin | WCas | WEnq | WBlock | WUnlockM | CLoad | CStore | CUnlock => true
    case _ => false
  }

  predicate HoldsInternal(pc: Pc) {
    pc.SRemove? || pc.SWake? || pc.SUnlock? || pc.WEnq? || pc.WBlock? || pc.WUnlockM? || pc.WUnlockI?
  }

  /** Between the test that found the queue empty and giving up the lock. */
  predicate SawEmpty(pc: Pc) {
    pc.WSpin? || pc.WCas? || pc.WEnq? || pc.WBlock? || pc.WUnlockM?
  }

  /** Between enqueueing itself and taking the queue lock again. */
  predicate Waiting(pc: Pc) {
    pc.WBlock? || pc.WUnlockM? || pc.WUnlockI? || Parked(pc)
  }

  /** Past the release of the internal mutex. */
  predicate Parked(pc: Pc) {
    pc.WYield? || pc.WRelSpin? || pc.WRelCas?
  }

  // ----- safety, in every interleaving

  /** At most one holder of each lock, and a lock is set only if somebody holds it. */
  ghost predicate Exclusive(s: State)
    requires WF(s)
  {
    && (forall t :: 0 <= t < |s.pcs| && HoldsQueue(s.pcs[t]) ==> s.queueLock)
    && (forall t, u :: 0 <= t < |s.pcs| && 0 <= u < |s.pcs| && HoldsQueue(s.pcs[t]) && HoldsQueue(s.pcs[u]) ==> t == u)
    && (forall t :: 0 <= t < |s.pcs| && HoldsInternal(s.pcs[t]) ==> s.internal)
    && (forall t, u :: 0 <= t < |s.pcs| && 0 <= u < |s.pcs| && HoldsInternal(s.pcs[t]) && HoldsInternal(s.pcs[u]) ==> t == u)
  }

  ghost predicate LocksHeld(s: State)
    requires WF(s)
  {
    && (s.queueLock ==> exists t :: 0 <= t < |s.pcs| && HoldsQueue(s.pcs[t]))
    && (s.internal ==> exists t :: 0 <= t < |s.pcs| && HoldsInternal(s.pcs[t]))
  }

  /** The counter is what was produced less what was consumed, and the thread that is about to
      store has loaded its current value. */
  ghost predicate Counted(s: State)
    requires WF(s)
  {
    && s.queueSize == s.produced - s.consumed >= 0
    && (forall t :: 0 <= t < |s.pcs| && (s.pcs[t].PStore? || s.pcs[t].CStore?) ==> s.tmp[t] == s.queueSize)
    && (forall t :: 0 <= t < |s.pcs| && (s.pcs[t].CLoad? || s.pcs[t].CStore?) ==> s.queueSize > 0)
    && (forall t :: 0 <= t < |s.pcs| && SawEmpty(s.pcs[t]) ==> s.queueSize == 0)
  }

  /** Threads leave the waiter list in the order in which they entered it. */
  ghost predicate Fifo(s: State) {
    s.enqueued == s.dequeued + s.waiters
  }

  ghost predicate Safe(s: State) {
    WF(s) && Exclusive(s) && LocksHeld(s) && Counted(s) && Fifo(s)
  }

  // ----- the effect of one statement, field by field

  /** A lock changes exactly where a program counter enters or leaves its holding range. */
  predicate LockEffect(holds: bool, holds': bool, locked: bool, locked': bool) {
    if holds == holds' then locked' == locked else locked != holds' && locked' == holds'
  }

  predicate CounterEffect(s: State, s': State, t: nat)
    requires t < |s.pcs| == |s.tmp|
  {
    match s.pcs[t]
    case PStore => s'.queueSize == s.tmp[t] + 1 && s'.produced == s.produced + 1 && s'.consumed == s.consumed
    case CStore => s'.queueSize == s.tmp[t] - 1 && s'.produced == s.produced && s'.consumed == s.consumed + 1
    case _ => s'.queueSize == s.queueSize && s'.produced == s.produced && s'.consumed == s.consumed
  }

  predicate LoadEffect(s: State, s': State, t: nat, pc': Pc)
    requires t < |s.pcs| == |s.tmp|
  {
    var pc := s.pcs[t];
    && s'.tmp == (if pc.PLoad? || pc.CLoad? then s.tmp[t := s.queueSize] else s.tmp)
    && (pc'.PStore? ==> pc.PLoad?) && (pc'.CStore? ==> pc.CLoad?)
    && (pc'.CLoad? ==> pc.CTest? && s.queueSize != 0)
    && (SawEmpty(pc') && !SawEmpty(pc) ==> pc.CTest? && s.queueSize == 0)
  }

  predicate ListEffect(s: State, s': State, t: nat, pc': Pc)
    requires t < |s.pcs|
  {
    match s.pcs[t]
    case WEnq =>
      s'.waiters == s.waiters + [t] && s'.enqueued == s.enqueued + [t] && s'.dequeued == s.dequeued && pc' == WBlock
    case SRemove =>
      if s.waiters == [] then
        s'.waiters == s.waiters && s'.enqueued == s.enqueued && s'.dequeued == s.dequeued && pc' == SUnlock
      else
        && s'.waiters == s.waiters[1..] && s'.enqueued == s.enqueued
        && s'.dequeued == s.dequeued + [s.waiters[0]] && pc' == SWake(s.waiters[0])
    case _ =>
      s'.waiters == s.waiters && s'.enqueued == s.enqueued && s'.dequeued == s.dequeued && !pc'.SWake?
  }

  predicate StateEffect(s: State, s': State, t: nat, pc': Pc)
    requires t < |s.pcs| == |s.states|
  {
    match s.pcs[t]
    case WBlock => s'.states == s.states[t := Blocked] && s'.cur == t
    case SWake(w) => w < |s.states| && s'.states == s.states[w := Active] && s'.cur == t
    case WYield =>
      && s'.states == s.states
      && s'.cur == if NextThread(s.states, t) == -1 then t else NextThread(s.states, t)
    case _ => s'.states == s.states && s'.cur == t
  }

  /** Everything one statement of thread t does, when it moves t to program counter pc'. */
  predicate Effect(s: State, s': State, t: nat, pc': Pc)
    requires t < |s.pcs| == |s.states| == |s.tmp|
  {
    && s'.pcs == s.pcs[t := pc']
    && LockEffect(HoldsQueue(s.pcs[t]), HoldsQueue(pc'), s.queueLock, s'.queueLock)
    && LockEffect(HoldsInternal(s.pcs[t]), HoldsInternal(pc'), s.internal, s'.internal)
    && CounterEffect(s, s', t) && LoadEffect(s, s', t, pc')
    && ListEffect(s, s', t, pc') && StateEffect(s, s', t, pc')
  }

  /** A thread in a holding range finds the lock set. */
  predicate Held(s: State)
    requires WF(s)
  {
    && (HoldsQueue(s.pcs[s.cur]) ==> s.queueLock)
    && (HoldsInternal(s.pcs[s.cur]) ==> s.internal)
  }

  lemma ProducerEffect(s: State)
    requires WF(s) && Held(s)
    requires s.pcs[s.cur] in {PSpin, PCas, PLoad, PStore, PUnlock}
    ensures var s' := ProducerStep(s); |s'.pcs| == |s.pcs| && Effect(s, s', s.cur, s'.pcs[s.cur])
  {}

  lemma SignalEffect(s: State)
    requires WF(s) && Held(s)
    requires s.pcs[s.cur] in {SSpin, SCas, SRemove, SUnlock} || s.pcs[s.cur].SWake?
    ensures var s' := SignalStep(s); |s'.pcs| == |s.pcs| && Effect(s, s', s.cur, s'.pcs[s.cur])
  {}

  lemma ConsumerEffect(s: State)
    requires WF(s) && Held(s)
    requires s.pcs[s.cur] in {CSpin, CCas, CTest, CLoad, CStore, CUnlock}
    ensures var s' := ConsumerStep(s); |s'.pcs| == |s.pcs| && Effect(s, s', s.cur, s'.pcs[s.cur])
  {}

  lemma WaitEffect(s: State)
    requires WF(s) && Held(s)
    requires s.pcs[s.cur] in {WSpin, WCas, WEnq, WBlock, WUnlockM, WUnlockI}
    ensures var s' := WaitStep(s); |s'.pcs| == |s.pcs| && Effect(s, s', s.cur, s'.pcs[s.cur])
  {}

  lemma RelockEffect(s: State)
    requires WF(s) && Held(s)
    requires s.pcs[s.cur] in {WYield, WRelSpin, WRelCas}
    ensures var s' := RelockStep(s); |s'.pcs| == |s.pcs| && Effect(s, s', s.cur, s'.pcs[s.cur])
  {}

  lemma ExecEffect(s: State)
    requires WF(s) && Held(s)
    ensures |Exec(s).pcs| == |s.pcs| && Effect(s, Exec(s), s.cur, Exec(s).pcs[s.cur])
  {
    hide Effect, ProducerStep, SignalStep, ConsumerStep, WaitStep, RelockStep, Held;
    match s.pcs[s.cur]
    case PSpin | PCas | PLoad | PStore | PUnlock => ProducerEffect(s);
    case SSpin | SCas | SRemove | SWake(_) | SUnlock => SignalEffect(s);
    case CSpin | CCas | CTest | CLoad | CStore | CUnlock => ConsumerEffect(s);
    case WSpin | WCas | WEnq | WBlock | WUnlockM | WUnlockI => WaitEffect(s);
    case WYield | WRelSpin | WRelCas => RelockEffect(s);
    case Rest => RestEffect(s);
  }

  lemma RestEffect(s: State)
    requires WF(s) && s.pcs[s.cur] == Rest
    ensures Effect(s, Goto(s, Rest), s.cur, Rest)
  {}

  // ----- where every statement leads

  /** The program counter that follows the running thread's, depending on the locks, the queue and the
      list as it finds them. */
  predicate Follows(s: State, pc': Pc)
    requires WF(s)
  {
    match s.pcs[s.cur]
    case PSpin => pc' == if s.queueLock then PSpin else PCas
    case PCas => pc' == if s.queueLock then PSpin else PLoad
    case PLoad => pc' == PStore
    case PStore => pc' == SSpin
    case SSpin => pc' == if s.internal then SSpin else SCas
    case SCas => pc' == if s.internal then SSpin else SRemove
    case SRemove => pc' == if s.waiters == [] then SUnlock else SWake(s.waiters[0])
    case SWake(_) => pc' == SUnlock
    case SUnlock => pc' == PUnlock
    case PUnlock => pc' == PSpin
    case CSpin => pc' == if s.queueLock then CSpin else CCas
    case CCas => pc' == if s.queueLock then CSpin else CTest
    case CTest => pc' == if s.queueSize == 0 then WSpin else CLoad
    case WSpin => pc' == if s.internal then WSpin else WCas
    case WCas => pc' == if s.internal then WSpin else WEnq
    case WEnq => pc' == WBlock
    case WBlock => pc' == WUnlockM
    case WUnlockM => pc' == WUnlockI
    case WUnlockI => pc' == WYield
    case WYield => pc' == WRelSpin
    case WRelSpin => pc' == if s.queueLock then WRelSpin else WRelCas
    case WRelCas => pc' == if s.queueLock then WRelSpin else CTest
    case CLoad => pc' == CStore
    case CStore => pc' == CUnlock
    case CUnlock => pc' == CSpin
    case Rest => pc' == Rest
  }

  lemma ProducerFollows(s: State)
    requires WF(s) && s.pcs[s.cur] in {PSpin, PCas, PLoad, PStore, PUnlock}
    ensures |ProducerStep(s).pcs| == |s.pcs| && Follows(s, ProducerStep(s).pcs[s.cur])
  {}

  lemma SignalFollows(s: State)
    requires WF(s) && (s.pcs[s.cur] in {SSpin, SCas, SRemove, SUnlock} || s.pcs[s.cur].SWake?)
    ensures |SignalStep(s).pcs| == |s.pcs| && Follows(s, SignalStep(s).pcs[s.cur])
  {}

  lemma ConsumerFollows(s: State)
    requires WF(s) && s.pcs[s.cur] in {CSpin, CCas, CTest, CLoad, CStore, CUnlock}
    ensures |ConsumerStep(s).pcs| == |s.pcs| && Follows(s, ConsumerStep(s).pcs[s.cur])
  {}

  lemma WaitFollows(s: State)
    requires WF(s) && s.pcs[s.cur] in {WSpin, WCas, WEnq, WBlock, WUnlockM, WUnlockI}
    ensures |WaitStep(s).pcs| == |s.pcs| && Follows(s, WaitStep(s).pcs[s.cur])
  {}

  lemma RelockFollows(s: State)
    requires WF(s) && s.pcs[s.cur] in {WYield, WRelSpin, WRelCas}
    ensures |RelockStep(s).pcs| == |s.pcs| && Follows(s, RelockStep(s).pcs[s.cur])
  {}

  /** The control flow of the whole machine: every statement leads exactly where the code goes on. */
  lemma ExecFollows(s: State)
    requires WF(s)
    ensures |Exec(s).pcs| == |s.pcs| && Follows(s, Exec(s).pcs[s.cur])
  {
    hide ProducerStep, SignalStep, ConsumerStep, WaitStep, RelockStep, Follows;
    match s.pcs[s.cur]
    case PSpin | PCas | PLoad | PStore | PUnlock => ProducerFollows(s);
    case SSpin | SCas | SRemove | SWake(_) | SUnlock => SignalFollows(s);
    case CSpin | CCas | CTest | CLoad | CStore | CUnlock => ConsumerFollows(s);
    case WSpin | WCas | WEnq | WBlock | WUnlockM | WUnlockI => WaitFollows(s);
    case WYield | WRelSpin | WRelCas => RelockFollows(s);
    case Rest => RestFollows(s);
  }

  lemma RestFollows(s: State)
    requires WF(s) && s.pcs[s.cur] == Rest
    ensures |Goto(s, Rest).pcs| == |s.pcs| && Follows(s, Goto(s, Rest).pcs[s.cur])
  {}

  /** A switch changes who runs and nothing else: it goes to the nearest other ACTIVE thread, if any. */
  lemma SwitchTo(s: State)
    requires WF(s)
    ensures var s' := Switch(s);
            && s' == s.(cur := s'.cur)
            && if forall t :: 0 <= t < |s.states| && s.states[t] == Active ==> t == s.cur then s'.cur == s.cur
               else
                 && s'.cur < |s.states| && s'.cur != s.cur && s.states[s'.cur] == Active
                 && forall t :: 0 <= t < |s.states| && t != s.cur && s.states[t] == Active ==>
                      Distance(s.cur, s'.cur, |s.states|) <= Distance(s.cur, t, |s.states|)
  {
    hide Distance, Scan, NextThread;
    assert s.cur % |s.states| == s.cur;
    NextIs(s.states, s.cur);
  }

  // ----- safety is kept by every statement and every switch

  lemma EffectWF(s: State, s': State, t: nat, pc': Pc)
    requires WF(s) && t < |s.pcs| && Effect(s, s', t, pc')
    ensures WF(s')
  {
    hide LockEffect, CounterEffect, HoldsQueue, HoldsInternal, SawEmpty;
    assert |s'.pcs| == |s'.states| == |s'.tmp| > s'.cur;
    assert pc'.SWake? ==> s.pcs[t].SRemove? && s.waiters != [] && pc'.w == s.waiters[0];
    assert forall i :: 0 <= i < |s'.waiters| ==> s'.waiters[i] < |s.pcs|;
    forall u | 0 <= u < |s'.pcs| && s'.pcs[u].SWake?
      ensures s'.pcs[u].w < |s'.pcs|
    {
      assert u != t ==> s'.pcs[u] == s.pcs[u];
    }
  }

  lemma EffectExclusive(s: State, s': State, t: nat, pc': Pc)
    requires WF(s) && WF(s') && t < |s.pcs| && Effect(s, s', t, pc') && Exclusive(s)
    ensures Exclusive(s')
  {
    hide CounterEffect, LoadEffect, ListEffect, StateEffect, HoldsQueue, HoldsInternal, WF;
  }

  lemma EffectLocksHeld(s: State, s': State, t: nat, pc': Pc)
    requires WF(s) && WF(s') && t < |s.pcs| && Effect(s, s', t, pc') && Exclusive(s) && LocksHeld(s)
    ensures LocksHeld(s')
  {
    hide CounterEffect, LoadEffect, ListEffect, StateEffect, HoldsQueue, HoldsInternal, WF;
    if s'.queueLock && !HoldsQueue(pc') {
      var u :| 0 <= u < |s.pcs| && HoldsQueue(s.pcs[u]);
      assert HoldsQueue(s'.pcs[u]);
    }
    if s'.internal && !HoldsInternal(pc') {
      var u :| 0 <= u < |s.pcs| && HoldsInternal(s.pcs[u]);
      assert HoldsInternal(s'.pcs[u]);
    }
    assert s'.pcs[t] == pc';
  }

  lemma HoldingRanges()
    ensures forall pc: Pc :: pc.PStore? || pc.CStore? || pc.CLoad? || pc.CTest? || SawEmpty(pc) ==> HoldsQueue(pc)
    ensures forall pc: Pc :: pc.PStore? || pc.CStore? || pc.CLoad? ==> !SawEmpty(pc)
  {}

  lemma EffectCounted(s: State, s': State, t: nat, pc': Pc)
    requires WF(s) && WF(s') && t < |s.pcs| && Effect(s, s', t, pc') && Exclusive(s) && Counted(s)
    ensures Counted(s')
  {
    hide LockEffect, ListEffect, StateEffect, HoldsQueue, HoldsInternal, SawEmpty;
    HoldingRanges();
  }

  lemma EffectFifo(s: State, s': State, t: nat, pc': Pc)
    requires WF(s) && t < |s.pcs| && Effect(s, s', t, pc') && Fifo(s)
    ensures Fifo(s')
  {
    hide LockEffect, CounterEffect, LoadEffect, StateEffect, HoldsQueue, HoldsInternal, SawEmpty, WF;
  }

  lemma ExecSafe(s: State)
    requires Safe(s)
    ensures Safe(Exec(s)) && |Exec(s).pcs| == |s.pcs| && Effect(s, Exec(s), s.cur, Exec(s).pcs[s.cur])
  {
    hide Exec, Effect, LocksHeld, Counted, Fifo;
    ExecEffect(s);
    var s', pc' := Exec(s), Exec(s).pcs[s.cur];
    EffectWF(s, s', s.cur, pc');
    EffectExclusive(s, s', s.cur, pc');
    EffectLocksHeld(s, s', s.cur, pc');
    EffectCounted(s, s', s.cur, pc');
    EffectFifo(s, s', s.cur, pc');
  }

  lemma SwitchSafe(s: State)
    requires Safe(s)
    ensures Safe(Switch(s))
  {}

  lemma InitSafe(s: State)
    requires Init(s)
    ensures Safe(s)
  {}
}
