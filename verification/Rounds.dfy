/** Whole rounds of the producer's and the consumer's loop, run without interruption: how many
    statements they take and the state they end in. */
module Rounds {
  import opened Scheduler
  import opened CondProtocol
  import opened Wakeup

  lemma GotoTwice(s: State, a: Pc, b: Pc)
    requires s.cur < |s.pcs|
    ensures Goto(Goto(s, a), b) == Goto(s, b)
  {
    assert s.pcs[s.cur := a][s.cur := b] == s.pcs[s.cur := b];
  }

  lemma GotoSelf(s: State)
    requires s.cur < |s.pcs|
    ensures Goto(s, s.pcs[s.cur]) == s
  {}

  /** One statement, from a state given by its program counter to the state it leaves. */
  predicate Does(s: State, s': State) {
    WF(s) && s' == Exec(s)
  }

  /** What a chain of statements needs to know of its first state. */
  lemma Bounds(s: State)
    requires Safe(s)
    ensures WF(s) && s.cur < |s.pcs| == |s.tmp| == |s.states| && Ahead(s, 0) == s
  {
    hide Exec, Exclusive, LocksHeld, Counted, Fifo;
  }

  lemma Onward(s: State, k: nat, x: State, y: State)
    requires Safe(s) && Ahead(s, k) == x && Does(x, y)
    ensures Ahead(s, k + 1) == y
  {
    hide Safe, Exec;
  }

  lemma Onward4(s: State, k: nat, a: State, b: State, c: State, d: State, e: State)
    requires Safe(s) && Ahead(s, k) == a && Does(a, b) && Does(b, c) && Does(c, d) && Does(d, e)
    ensures Ahead(s, k + 4) == e
  {
    hide Safe, Does;
    Onward(s, k, a, b);
    Onward(s, k + 1, b, c);
    Onward(s, k + 2, c, d);
    Onward(s, k + 3, d, e);
  }

  // ----- a producer's round

  /** Item stored: the counter is one larger and the lock held. */
  function Produced(s: State): State
    requires WF(s)
  {
    s.(queueLock := true, tmp := s.tmp[s.cur := s.queueSize], queueSize := s.queueSize + 1, produced := s.produced + 1)
  }

  /** Signal sent: the first waiter, if any, is off the list and ACTIVE. */
  function Signalled(s: State): State
    requires WF(s)
  {
    if s.waiters == [] then s
    else
      s.(waiters := s.waiters[1..], dequeued := s.dequeued + [s.waiters[0]],
         states := s.states[s.waiters[0] := Active])
  }

  lemma Produces(s: State)
    requires WF(s) && s.pcs[s.cur] == PSpin && !s.queueLock
    ensures var t := s.tmp[s.cur := s.queueSize];
            && Does(s, Goto(s, PCas)) && Does(Goto(s, PCas), Goto(s.(queueLock := true), PLoad))
            && Does(Goto(s.(queueLock := true), PLoad), Goto(s.(queueLock := true, tmp := t), PStore))
            && Does(Goto(s.(queueLock := true, tmp := t), PStore), Goto(Produced(s), SSpin))
  {
    GotoTwice(s, PCas, PLoad);
    GotoTwice(s, PLoad, PStore);
    GotoTwice(s, PStore, SSpin);
  }

  lemma SignalLocks(s: State)
    requires WF(s) && s.pcs[s.cur] == SSpin && !s.internal
    ensures Does(s, Goto(s, SCas)) && Does(Goto(s, SCas), Goto(s.(internal := true), SRemove))
  {
    GotoTwice(s, SCas, SRemove);
  }

  lemma SignalWakes(s: State)
    requires WF(s) && s.pcs[s.cur] == SRemove && s.waiters != []
    ensures var q := s.(waiters := s.waiters[1..], dequeued := s.dequeued + [s.waiters[0]]);
            && Does(s, Goto(q, SWake(s.waiters[0])))
            && Does(Goto(q, SWake(s.waiters[0])), Goto(Signalled(s), SUnlock))
  {
    GotoTwice(s, SWake(s.waiters[0]), SUnlock);
  }

  lemma SignalFindsNobody(s: State)
    requires WF(s) && s.pcs[s.cur] == SRemove && s.waiters == []
    ensures Does(s, Goto(s, SUnlock))
  {}

  lemma SignalUnlocks(s: State)
    requires WF(s) && s.pcs[s.cur] == SUnlock
    ensures Does(s, Goto(s, PUnlock).(internal := false))
  {}

  lemma ProducerUnlocks(s: State)
    requires WF(s) && s.pcs[s.cur] == PUnlock
    ensures Does(s, Goto(s, PSpin).(queueLock := false))
  {}

  lemma ProducerStores(s: State)
    requires Safe(s) && s.pcs[s.cur] == PSpin && !s.queueLock
    ensures Ahead(s, 4) == Goto(Produced(s), SSpin)
  {
    hide Does, Safe, WF, Ahead, Goto;
    Bounds(s);
    Produces(s);
    var t := s.tmp[s.cur := s.queueSize];
    Onward4(s, 0, s, Goto(s, PCas), Goto(s.(queueLock := true), PLoad),
            Goto(s.(queueLock := true, tmp := t), PStore), Goto(Produced(s), SSpin));
  }

  lemma SignalPath(s: State, k: nat, p: State)
    requires Safe(s) && Ahead(s, k) == p && p.pcs[p.cur] == SSpin && !p.internal
    ensures Ahead(s, k + if p.waiters == [] then 4 else 5) == Goto(Signalled(p), PUnlock)
  {
    hide Does, Safe, Ahead;
    SignalLocks(p);
    var l := Goto(p.(internal := true), SRemove);
    Onward(s, k, p, Goto(p, SCas));
    Onward(s, k + 1, Goto(p, SCas), l);
    var u := Goto(Signalled(l), SUnlock);
    if p.waiters == [] {
      SignalFindsNobody(l);
      Onward(s, k + 2, l, u);
    } else {
      var q := l.(waiters := p.waiters[1..], dequeued := p.dequeued + [p.waiters[0]]);
      SignalWakes(l);
      Onward(s, k + 2, l, Goto(q, SWake(p.waiters[0])));
      Onward(s, k + 3, Goto(q, SWake(p.waiters[0])), u);
    }
    SignalUnlocks(u);
    Onward(s, k + if p.waiters == [] then 3 else 4, u, Goto(u, PUnlock).(internal := false));
    GotoTwice(p, SRemove, SUnlock);
    GotoTwice(p, SUnlock, PUnlock);
  }

  /** The ten statements of a round, nine if nobody waits. */
  lemma ProducerPath(s: State)
    requires Safe(s) && s.pcs[s.cur] == PSpin && !s.queueLock && !s.internal
    ensures Ahead(s, if s.waiters == [] then 9 else 10)
            == Goto(Signalled(Goto(Produced(s), SSpin)), PSpin).(queueLock := false)
  {
    hide Does, Ahead, Exclusive, LocksHeld, Counted, Fifo;
    var p := Goto(Produced(s), SSpin);
    ProducerStores(s);
    SignalPath(s, 4, p);
    var u := Goto(Signalled(p), PUnlock);
    ProducerUnlocks(u);
    GotoTwice(Signalled(p), PUnlock, PSpin);
    Onward(s, if s.waiters == [] then 8 else 9, u, Goto(u, PSpin).(queueLock := false));
  }

  /** A producer's round: from its loop head with both locks free, after nine statements, or ten if
      somebody waits, the producer is at its loop head again with both locks free, one more item is
      in the queue and counted, and the first waiter, if any, is off the list and ACTIVE.  Nothing
      else has changed. */
  lemma ProducerRound(s: State)
    requires Safe(s) && s.pcs[s.cur] == PSpin && !s.queueLock && !s.internal
    ensures var r := Ahead(s, if s.waiters == [] then 9 else 10);
            && r.pcs == s.pcs && r.cur == s.cur && !r.queueLock && !r.internal
            && r.queueSize == s.queueSize + 1 && r.produced == s.produced + 1 && r.consumed == s.consumed
            && (s.waiters == [] ==> r.waiters == [] && r.states == s.states)
            && (s.waiters != [] ==>
                  && s.waiters[0] < |s.states| && r.waiters == s.waiters[1..]
                  && r.states == s.states[s.waiters[0] := Active])
  {
    hide Ahead, Exclusive, LocksHeld, Counted, Fifo;
    ProducerPath(s);
    GotoTwice(s, SSpin, PSpin);
    GotoSelf(s);
  }

  // ----- a consumer's rounds

  function Consumed(s: State): State
    requires WF(s)
  {
    s.(tmp := s.tmp[s.cur := s.queueSize], queueSize := s.queueSize - 1, consumed := s.consumed + 1)
  }

  /** From the test with the lock held and an item in the queue. */
  lemma Consumes(s: State)
    requires WF(s) && s.pcs[s.cur] == CTest && s.queueSize != 0
    ensures var t := s.tmp[s.cur := s.queueSize];
            && Does(s, Goto(s, CLoad)) && Does(Goto(s, CLoad), Goto(s.(tmp := t), CStore))
            && Does(Goto(s.(tmp := t), CStore), Goto(Consumed(s), CUnlock))
  {
    GotoTwice(s, CLoad, CStore);
    GotoTwice(s, CStore, CUnlock);
  }

  lemma ConsumerUnlocks(s: State)
    requires WF(s) && s.pcs[s.cur] == CUnlock
    ensures Does(s, Goto(s, CSpin).(queueLock := false))
  {}

  lemma ConsumerLocks(s: State)
    requires WF(s) && s.pcs[s.cur] in {CSpin, WRelSpin} && !s.queueLock
    ensures var cas := if s.pcs[s.cur] == CSpin then CCas else WRelCas;
            Does(s, Goto(s, cas)) && Does(Goto(s, cas), Goto(s, CTest).(queueLock := true))
  {
    GotoTwice(s, CCas, CTest);
    GotoTwice(s, WRelCas, CTest);
  }

  lemma LockedConsumer(s: State)
    requires Safe(s) && s.pcs[s.cur] in {CSpin, WRelSpin} && !s.queueLock
    ensures Ahead(s, 2) == Goto(s, CTest).(queueLock := true)
  {
    hide Does, Safe, WF, Ahead, Goto;
    Bounds(s);
    ConsumerLocks(s);
    var cas := if s.pcs[s.cur] == CSpin then CCas else WRelCas;
    Onward(s, 0, s, Goto(s, cas));
    Onward(s, 1, Goto(s, cas), Goto(s, CTest).(queueLock := true));
  }

  lemma ConsumerPath(s: State, k: nat, c: State)
    requires Safe(s) && Ahead(s, k) == c && c.pcs[c.cur] == CTest && c.queueSize != 0
    ensures Ahead(s, k + 4) == Goto(Consumed(c), CSpin).(queueLock := false)
  {
    hide Does, Safe, Ahead;
    Consumes(c);
    var u := Goto(Consumed(c), CUnlock);
    ConsumerUnlocks(u);
    GotoTwice(Consumed(c), CUnlock, CSpin);
    Onward4(s, k, c, Goto(c, CLoad), Goto(c.(tmp := c.tmp[c.cur := c.queueSize]), CStore), u,
            Goto(u, CSpin).(queueLock := false));
  }

  /** A consumer's round, from its loop head or from the relock of its wait: with the queue lock free
      and an item in the queue, after six statements it is at its loop head with the lock free, one
      item less in the queue and one more counted.  Nothing else has changed. */
  lemma ConsumerRound(s: State)
    requires Safe(s) && s.pcs[s.cur] in {CSpin, WRelSpin} && !s.queueLock && s.queueSize > 0
    ensures var r := Ahead(s, 6);
            && r.pcs == s.pcs[s.cur := CSpin] && r.cur == s.cur && !r.queueLock && r.internal == s.internal
            && r.queueSize == s.queueSize - 1 && r.consumed == s.consumed + 1 && r.produced == s.produced
            && r.waiters == s.waiters && r.states == s.states
  {
    hide Safe, Ahead, WF;
    Bounds(s);
    LockedConsumer(s);
    ConsumerPath(s, 2, Goto(s, CTest).(queueLock := true));
    GotoTwice(s, CTest, CSpin);
  }

  lemma WaitLocks(s: State)
    requires WF(s) && s.pcs[s.cur] == WSpin && !s.internal
    ensures Does(s, Goto(s, WCas)) && Does(Goto(s, WCas), Goto(s.(internal := true), WEnq))
  {
    GotoTwice(s, WCas, WEnq);
  }

  lemma WaitBlocks(s: State)
    requires WF(s) && s.pcs[s.cur] == WEnq
    ensures var q := s.(waiters := s.waiters + [s.cur], enqueued := s.enqueued + [s.cur]);
            && Does(s, Goto(q, WBlock))
            && Does(Goto(q, WBlock), Goto(q.(states := s.states[s.cur := Blocked]), WUnlockM))
  {
    GotoTwice(s, WBlock, WUnlockM);
  }

  lemma WaitReleases(s: State)
    requires WF(s) && s.pcs[s.cur] == WUnlockM
    ensures var m := Goto(s, WUnlockI).(queueLock := false);
            Does(s, m) && Does(m, Goto(m, WYield).(internal := false))
  {
    GotoTwice(s, WUnlockI, WYield);
  }

  /** The state before the yield. */
  function Asleep(s: State): State
    requires WF(s)
  {
    Goto(s, WYield).(queueLock := false, internal := false, waiters := s.waiters + [s.cur],
                     enqueued := s.enqueued + [s.cur], states := s.states[s.cur := Blocked])
  }

  lemma WaitPath(s: State, k: nat, w: State)
    requires Safe(s) && Ahead(s, k) == w && w.pcs[w.cur] == WSpin && !w.internal
    ensures Ahead(s, k + 6) == Asleep(w)
  {
    hide Does, Safe, Ahead;
    WaitLocks(w);
    var e := Goto(w.(internal := true), WEnq);
    WaitBlocks(e);
    var q := e.(waiters := e.waiters + [e.cur], enqueued := e.enqueued + [e.cur]);
    var b := Goto(q.(states := e.states[e.cur := Blocked]), WUnlockM);
    Onward4(s, k, w, Goto(w, WCas), e, Goto(q, WBlock), b);
    WaitReleases(b);
    var m := Goto(b, WUnlockI).(queueLock := false);
    Onward(s, k + 4, b, m);
    Onward(s, k + 5, m, Goto(m, WYield).(internal := false));
    assert w.pcs[w.cur := WEnq][w.cur := WUnlockM][w.cur := WUnlockI][w.cur := WYield] == w.pcs[w.cur := WYield];
  }

  /** A consumer that finds the queue empty: after nine statements it stands before the yield of its
      wait with both locks free, BLOCKED, and last on the waiter list.  Nothing else has changed. */
  lemma ConsumerWaits(s: State)
    requires Safe(s) && s.pcs[s.cur] in {CSpin, WRelSpin} && !s.queueLock && !s.internal && s.queueSize == 0
    ensures var r := Ahead(s, 9);
            && r.pcs == s.pcs[s.cur := WYield] && r.cur == s.cur && !r.queueLock && !r.internal
            && r.queueSize == 0 && r.consumed == s.consumed && r.produced == s.produced
            && r.waiters == s.waiters + [s.cur] && r.states == s.states[s.cur := Blocked]
  {
    hide Safe, Ahead, WF, Does;
    Bounds(s);
    LockedConsumer(s);
    var c := Goto(s, CTest).(queueLock := true);
    TestsEmpty(s, c);
    Onward(s, 2, c, Goto(c, WSpin));
    WaitPath(s, 3, Goto(c, WSpin));
    GotoTwice(s, CTest, WSpin);
    GotoTwice(s, WSpin, WYield);
  }

  lemma TestsEmpty(s: State, c: State)
    requires WF(s) && c == Goto(s, CTest).(queueLock := true) && s.queueSize == 0
    ensures Does(c, Goto(c, WSpin)) && WF(Goto(c, WSpin))
  {}
}
