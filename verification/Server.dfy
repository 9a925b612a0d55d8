/** The list of accepted clients: insertion, search and removal by socket, one service round over
    the list, and the sweep that drops dead clients. */
module Server {
  import opened Options
  import opened LinkedList
  import opened Replies
  import opened Clients

  function Sockets(cs: seq<Client>): (q: seq<int>)
    reads cs
    ensures |q| == |cs| && forall i :: 0 <= i < |cs| ==> q[i] == cs[i].socket
  {
    seq(|cs|, i requires 0 <= i < |cs| reads cs => cs[i].socket)
  }

  /** The positions whose socket is not -1, in order. */
  function Alive(cs: seq<Client>, sockets: seq<int>): (r: seq<Client>)
    requires |cs| == |sockets|
  {
    if cs == [] then []
    else (if sockets[0] == -1 then [] else [cs[0]]) + Alive(cs[1..], sockets[1..])
  }

  /** Dropping one dead client does not change which clients are alive. */
  lemma {:induction false} AliveWithout(cs: seq<Client>, sockets: seq<int>, i: nat)
    requires |cs| == |sockets| && i < |cs| && sockets[i] == -1
    ensures Alive(Without(cs, i), Without(sockets, i)) == Alive(cs, sockets)
  {
    if i == 0 {
      assert Without(cs, 0) == cs[1..] && Without(sockets, 0) == sockets[1..];
    } else {
      AliveWithout(cs[1..], sockets[1..], i - 1);
      assert Without(cs, i)[1..] == Without(cs[1..], i - 1);
      assert Without(sockets, i)[1..] == Without(sockets[1..], i - 1);
    }
  }

  lemma {:induction false} AllAlive(cs: seq<Client>, sockets: seq<int>)
    requires |cs| == |sockets| && forall i :: 0 <= i < |cs| ==> sockets[i] != -1
    ensures Alive(cs, sockets) == cs
  {
    if cs != [] {
      AllAlive(cs[1..], sockets[1..]);
    }
  }

  /** Exactly the live clients survive. */
  lemma {:induction false} AliveMember(cs: seq<Client>, sockets: seq<int>, c: Client)
    requires |cs| == |sockets|
    ensures c in Alive(cs, sockets) <==> exists i :: 0 <= i < |cs| && cs[i] == c && sockets[i] != -1
  {
    if cs != [] {
      AliveMember(cs[1..], sockets[1..], c);
      if c in Alive(cs, sockets) && !(cs[0] == c && sockets[0] != -1) {
        var i :| 0 <= i < |cs[1..]| && cs[1..][i] == c && sockets[1..][i] != -1;
        assert cs[i + 1] == c && sockets[i + 1] != -1;
      }
      if i :| 0 <= i < |cs| && cs[i] == c && sockets[i] != -1 {
        if i > 0 {
          assert cs[1..][i - 1] == c && sockets[1..][i - 1] != -1;
        }
      }
    }
  }

  class ClientList {
    const list: List<Client>
    var operationsCompleted: nat

    ghost predicate Valid()
      reads list, list.nodes
    {
      list.Valid()
    }

    ghost function Members(): (cs: seq<Client>)
      reads list, list.nodes
    {
      list.Model()
    }

    constructor ()
      ensures Valid() && Members() == [] && operationsCompleted == 0
    {
      list := new List();
      operationsCompleted := 0;
    }

    method InsertClient(socket: int, memory: bool) returns (rc: int)
      requires Valid()
      modifies list, list.nodes
      ensures Valid()
      ensures rc == if memory then 1 else 0
      ensures !memory ==> Members() == old(Members())
      ensures memory ==>
                && |Members()| == |old(Members())| + 1 && Members()[1..] == old(Members())
                && fresh(Members()[0]) && fresh(Members()[0].buffer)
                && Members()[0].socket == socket && Receiving(Members()[0].Value())
                && Members()[0].past == Past(Members()[0].Value(), [])
      ensures socket != -1 && old(Apart(Members()) && AllLive(Values(Members()), Pasts(Members()))) ==>
                Apart(Members()) && AllLive(Values(Members()), Pasts(Members()))
    {
      hide Receiving, Lived, List.Valid, List.Model, Apart, AllLive, Values, Pasts;
      ghost var cs := Members();
      if !memory {
        return 0;
      }
      var c := new Client(socket);
      var _ := list.InsertHead(c, true);
      assert Members() == [c] + cs;
      if socket != -1 && Apart(cs) && AllLive(Values(cs), Pasts(cs)) {
        JoinLive(c, cs);
      }
      return 1;
    }

    /** The first client with the given socket. */
    method SearchClient(socket: int) returns (r: Node?<Client>)
      requires Valid()
      ensures var i := IndexOf(Sockets(Members()), socket);
              r == if i < |list.nodes| then list.nodes[i] else null
    {
      hide IndexOf;
      r := list.head;
      ghost var i := 0;
      while r != null
        invariant 0 <= i <= |list.nodes|
        invariant r == if i < |list.nodes| then list.nodes[i] else null
        invariant forall j :: 0 <= j < i ==> Sockets(Members())[j] != socket
        decreases |list.nodes| - i
      {
        assert list.Linked(list.nodes, i) && Members()[i] == r.data;
        if socket == r.data.socket {
          IndexIs(Sockets(Members()), socket, i);
          return;
        }
        r := r.next;
        i := i + 1;
      }
      IndexIs(Sockets(Members()), socket, |list.nodes|);
    }

    /** Unlinks the first client with the given socket. */
    method RemoveClient(socket: int) returns (rc: int)
      requires Valid()
      modifies list, list.nodes
      ensures Valid()
      ensures forall i :: 0 <= i < |list.nodes| ==> list.nodes[i] in old(list.nodes)
      ensures var i := old(IndexOf(Sockets(Members()), socket));
              if i < |old(Members())| then
                && rc == 1 && Members() == Without(old(Members()), i)
                && Sockets(Members()) == Without(old(Sockets(Members())), i)
              else
                rc == 0 && Members() == old(Members()) && Sockets(Members()) == old(Sockets(Members()))
    {
      hide Without, IndexOf, Sockets;
      ghost var cs, sockets, nodes := Members(), Sockets(Members()), list.nodes;
      var node := SearchClient(socket);
      if node == null {
        return 0;
      }
      ghost var i := IndexOf(sockets, socket);
      list.Unlink(node, i);
      WithoutSubset(nodes, i);
      SocketsWithout(cs, i);
      return 1;
    }

    /** Removes dead clients until there is none: exactly the live ones stay, in order. */
    method Sweep()
      requires Valid()
      modifies list, list.nodes
      ensures Valid()
      ensures Members() == old(Alive(Members(), Sockets(Members())))
      ensures forall i :: 0 <= i < |Members()| ==> Members()[i].socket != -1
    {
      hide Alive, Without, IndexOf, ClientList.Members;
      var rc := 1;
      while rc != 0
        invariant Valid() && (rc == 0 || rc == 1)
        invariant forall i :: 0 <= i < |list.nodes| ==> list.nodes[i] in old(list.nodes)
        invariant Alive(Members(), Sockets(Members())) == old(Alive(Members(), Sockets(Members())))
        invariant rc == 0 ==> forall i :: 0 <= i < |Members()| ==> Sockets(Members())[i] != -1
        decreases |Members()|, rc
      {
        SweepStep(Members(), Sockets(Members()));
        rc := RemoveClient(-1);
      }
      AllAlive(Members(), Sockets(Members()));
    }

    /** One pass over the list: each client that is ready is handled once. */
    method HandleReady(events: seq<Option<Event>>)
      requires Valid() && Apart(Members())
      requires |events| == |Members()| && AllReady(Values(Members()), events)
      modifies this, Members(), set c | c in Members() :: c.buffer
      ensures Valid() && Members() == old(Members())
      ensures Values(Members()) == AfterPass(old(Values(Members())), events, |events|)
      ensures Pasts(Members()) == AfterPasts(old(Pasts(Members())), events, |events|)
      ensures operationsCompleted == old(operationsCompleted) + Finished(old(Values(Members())), events, |events|)
    {
      hide Handle, Handleable, EventOk, Apart, AllReady, Finished, AfterPass, AfterPasts, Values, Pasts, Extended,
        Turned, List.Valid, List.Model;
      list.Walk(0);
      ghost var cs, vs, ps := Members(), Values(Members()), Pasts(Members());
      var current := list.head;
      var i := 0;
      TurnNone(vs, ps, events);
      while current != null
        invariant Valid() && Members() == cs && 0 <= i <= |cs|
        invariant current == if i < |list.nodes| then list.nodes[i] else null
        invariant operationsCompleted >= old(operationsCompleted)
        invariant Turned(vs, ps, events, i, Values(cs), Pasts(cs), operationsCompleted - old(operationsCompleted))
        decreases |cs| - i
      {
        list.Walk(i);
        TurnNext(vs, ps, events, i, Values(cs), Pasts(cs), operationsCompleted - old(operationsCompleted));
        if events[i].Some? {
          var counted := HandleOne(cs, i, current.data, events[i].value);
          if counted {
            operationsCompleted := operationsCompleted + 1;
          }
        }
        current := current.next;
        i := i + 1;
      }
      TurnedAll(vs, ps, events, i, Values(cs), Pasts(cs), operationsCompleted - old(operationsCompleted));
    }

    /** A round: handle the ready clients, then sweep.  Each client is what its past, extended by this
        round's event, makes of it, and answers the request in that past; dead clients are gone
        before the next round, and the counter has moved by exactly the clean STATUS_OK endings. */
    method Round(events: seq<Option<Event>>)
      requires Valid() && Apart(Members()) && AllLive(Values(Members()), Pasts(Members()))
      requires |events| == |Members()| && forall i :: 0 <= i < |events| && events[i].Some? ==> EventOk(events[i].value)
      modifies this, list, list.nodes, Members(), set c | c in Members() :: c.buffer
      ensures Valid() && Apart(Members()) && AllLive(Values(Members()), Pasts(Members()))
      ensures var cs := old(Members());
              && Members() == Alive(cs, Sockets(cs))
              && Pasts(cs) == AfterPasts(old(Pasts(Members())), events, |events|)
              && AllAnswer(Values(cs), Pasts(cs))
              && operationsCompleted == old(operationsCompleted)
                   + |set i: nat | i < |cs| && cs[i].socket == -1 && cs[i].status == Ok|
    {
      hide Alive, Finished, DeadOk, Values, Pasts, AfterPass, AfterPasts, AllReady, AllLive, AllLived, AllAnswer, Apart,
        Sockets, SocketsOf, List.Valid, List.Model;
      ghost var cs := Members();
      LiveReady(Values(cs), Pasts(cs), events);
      PassKeeps(Values(cs), Pasts(cs), events, |cs|);
      PassLives(Values(cs), Pasts(cs), events);
      HandleReady(events);
      ghost var vs, ps := Values(cs), Pasts(cs);
      SocketsValues(cs);
      AliveApart(cs, SocketsOf(vs));
      Sweep();
      assert Values(cs) == vs && Pasts(cs) == ps && Sockets(cs) == SocketsOf(vs);
      SurvivorsLive(cs, vs, ps);
      LivedAnswer(vs, ps);
      DeadOkCount(vs, |vs|);
      DeadClients(cs, vs);
    }
  }

  lemma DeadClients(cs: seq<Client>, vs: seq<Conn>)
    requires vs == Values(cs)
    ensures (set i: nat | i < |cs| && cs[i].socket == -1 && cs[i].status == Ok)
            == (set i: nat | i < |vs| && vs[i].socket == -1 && vs[i].status == Ok)
  {}

  function SocketsOf(vs: seq<Conn>): (q: seq<int>)
    ensures |q| == |vs|
  {
    seq(|vs|, i requires 0 <= i < |vs| => vs[i].socket)
  }

  lemma {:induction false} AliveApart(cs: seq<Client>, sockets: seq<int>)
    requires |cs| == |sockets| && Apart(cs)
    ensures Apart(Alive(cs, sockets))
  {
    if cs != [] {
      AliveApart(cs[1..], sockets[1..]);
      if sockets[0] != -1 {
        var r := Alive(cs[1..], sockets[1..]);
        forall j | 0 <= j < |r|
          ensures r[j] != cs[0] && r[j].buffer != cs[0].buffer
        {
          AliveMember(cs[1..], sockets[1..], r[j]);
        }
      }
    }
  }

  lemma JoinLive(c: Client, cs: seq<Client>)
    requires Apart(cs) && AllLive(Values(cs), Pasts(cs))
    requires forall i :: 0 <= i < |cs| ==> cs[i] != c && cs[i].buffer != c.buffer
    requires c.socket != -1 && Lived(c.Value(), c.past)
    ensures Apart([c] + cs) && AllLive(Values([c] + cs), Pasts([c] + cs))
  {
    hide Lived;
    var r := [c] + cs;
    forall i | 0 <= i < |r|
      ensures Values(r)[i].socket != -1 && Lived(Values(r)[i], Pasts(r)[i])
    {
      if i > 0 {
        assert Values(r)[i] == Values(cs)[i - 1] && Pasts(r)[i] == Pasts(cs)[i - 1];
      }
    }
  }

  /** Whatever holds of each live client's value holds of every survivor's value. */
  lemma SurvivorsLive(cs: seq<Client>, vs: seq<Conn>, ps: seq<Past>)
    requires vs == Values(cs) && ps == Pasts(cs) && AllLived(vs, ps)
    ensures AllLive(Values(Alive(cs, SocketsOf(vs))), Pasts(Alive(cs, SocketsOf(vs))))
  {
    hide Lived;
    var r := Alive(cs, SocketsOf(vs));
    forall j | 0 <= j < |r|
      ensures Values(r)[j].socket != -1 && Lived(Values(r)[j], Pasts(r)[j])
    {
      AliveMember(cs, SocketsOf(vs), r[j]);
      var i :| 0 <= i < |cs| && cs[i] == r[j] && SocketsOf(vs)[i] != -1;
      assert Values(r)[j] == vs[i] && Pasts(r)[j] == ps[i];
    }
  }

  /** Clients and their buffers are distinct objects. */
  ghost predicate Apart(cs: seq<Client>) {
    forall i, j :: 0 <= i < j < |cs| ==> cs[i] != cs[j] && cs[i].buffer != cs[j].buffer
  }

  ghost function Values(cs: seq<Client>): (vs: seq<Conn>)
    reads cs, set c | c in cs :: c.buffer
    ensures |vs| == |cs|
  {
    seq(|cs|, i requires 0 <= i < |cs| reads cs, set c | c in cs :: c.buffer => cs[i].Value())
  }

  ghost function Pasts(cs: seq<Client>): (ps: seq<Past>)
    reads cs
    ensures |ps| == |cs|
  {
    seq(|cs|, i requires 0 <= i < |cs| reads cs => cs[i].past)
  }

  predicate AllReady(vs: seq<Conn>, events: seq<Option<Event>>) {
    && |events| == |vs|
    && forall i :: 0 <= i < |vs| ==> Handleable(vs[i]) && (events[i].Some? ==> EventOk(events[i].value))
  }

  function After(c: Conn, e: Option<Event>): Conn
    requires Handleable(c) && (e.Some? ==> EventOk(e.value))
  {
    if e.Some? then Handle(c, e.value).0 else c
  }

  /** The clients once the first k have had their turn. */
  function AfterPass(vs: seq<Conn>, events: seq<Option<Event>>, k: nat): (r: seq<Conn>)
    requires AllReady(vs, events) && k <= |vs|
    ensures |r| == |vs|
  {
    seq(|vs|, i requires 0 <= i < |vs| => if i < k then After(vs[i], events[i]) else vs[i])
  }

  function Extended(p: Past, e: Option<Event>): Past {
    if e.Some? then p.(history := p.history + [e.value]) else p
  }

  /** Their pasts then. */
  function AfterPasts(ps: seq<Past>, events: seq<Option<Event>>, k: nat): (r: seq<Past>)
    requires |events| == |ps| && k <= |ps|
    ensures |r| == |ps|
  {
    seq(|ps|, i requires 0 <= i < |ps| => if i < k then Extended(ps[i], events[i]) else ps[i])
  }

  /** How many of the first k clients end cleanly with STATUS_OK in this pass. */
  function Finished(vs: seq<Conn>, events: seq<Option<Event>>, k: nat): nat
    requires AllReady(vs, events) && k <= |vs|
  {
    if k == 0 then 0
    else Finished(vs, events, k - 1) + if events[k - 1].Some? && Handle(vs[k - 1], events[k - 1].value).1 then 1 else 0
  }

  lemma SocketsValues(cs: seq<Client>)
    ensures Sockets(cs) == SocketsOf(Values(cs))
  {}

  /** The first k have had their turn: where the clients, their pasts and the counter are. */
  ghost predicate Turned(vs: seq<Conn>, ps: seq<Past>, events: seq<Option<Event>>, k: nat,
                         vs': seq<Conn>, ps': seq<Past>, count: nat) {
    && AllReady(vs, events) && |vs| == |ps| && k <= |vs|
    && vs' == AfterPass(vs, events, k) && ps' == AfterPasts(ps, events, k) && count == Finished(vs, events, k)
  }

  lemma TurnNone(vs: seq<Conn>, ps: seq<Past>, events: seq<Option<Event>>)
    requires AllReady(vs, events) && |ps| == |vs|
    ensures Turned(vs, ps, events, 0, vs, ps, 0)
  {}

  lemma TurnNext(vs: seq<Conn>, ps: seq<Past>, events: seq<Option<Event>>, i: nat,
                 vs': seq<Conn>, ps': seq<Past>, count: nat)
    requires Turned(vs, ps, events, i, vs', ps', count) && i < |vs|
    ensures |vs'| == |ps'| == |events| == |vs|
    ensures events[i].None? ==> Turned(vs, ps, events, i + 1, vs', ps', count)
    ensures events[i].Some? ==>
              && EventOk(events[i].value) && Handleable(vs'[i])
              && var (v, counted) := Handle(vs'[i], events[i].value);
                 Turned(vs, ps, events, i + 1, vs'[i := v], ps'[i := Extended(ps'[i], Some(events[i].value))],
                        count + if counted then 1 else 0)
  {
    hide Handle, Handleable, EventOk;
  }

  lemma TurnedAll(vs: seq<Conn>, ps: seq<Past>, events: seq<Option<Event>>, i: nat,
                  vs': seq<Conn>, ps': seq<Past>, count: nat)
    requires Turned(vs, ps, events, i, vs', ps', count) && i == |vs|
    ensures AllReady(vs, events) && |events| == |ps| == |vs|
    ensures vs' == AfterPass(vs, events, |events|) && ps' == AfterPasts(ps, events, |events|)
    ensures count == Finished(vs, events, |events|)
  {}

  /** Every client is what its past makes of it. */
  ghost predicate AllLived(vs: seq<Conn>, ps: seq<Past>) {
    |vs| == |ps| && forall i :: 0 <= i < |vs| ==> Lived(vs[i], ps[i])
  }

  ghost predicate AllLive(vs: seq<Conn>, ps: seq<Past>) {
    AllLived(vs, ps) && forall i :: 0 <= i < |vs| ==> vs[i].socket != -1
  }

  /** Every client answers the request that it made. */
  ghost predicate AllAnswer(vs: seq<Conn>, ps: seq<Past>) {
    AllLived(vs, ps) && forall i :: 0 <= i < |vs| ==> Answers(vs[i], Request(ps[i].born, ps[i].history))
  }

  lemma LivedAnswer(vs: seq<Conn>, ps: seq<Past>)
    requires AllLived(vs, ps)
    ensures AllAnswer(vs, ps)
  {
    hide Answers, Life, Request;
    forall i | 0 <= i < |vs|
      ensures Answers(vs[i], Request(ps[i].born, ps[i].history))
    {
      assert Lived(vs[i], ps[i]);
      WholeLife(ps[i].born, ps[i].history);
    }
  }

  lemma LiveReady(vs: seq<Conn>, ps: seq<Past>, events: seq<Option<Event>>)
    requires AllLive(vs, ps) && |events| == |vs|
    requires forall i :: 0 <= i < |events| && events[i].Some? ==> EventOk(events[i].value)
    ensures AllReady(vs, events)
  {
    hide EventOk;
    forall i | 0 <= i < |vs|
      ensures Handleable(vs[i])
    {
      assert Lived(vs[i], ps[i]);
    }
  }

  /** Clients of the first k that are dead with STATUS_OK. */
  function DeadOk(vs: seq<Conn>, k: nat): nat
    requires k <= |vs|
  {
    if k == 0 then 0 else DeadOk(vs, k - 1) + if vs[k - 1].socket == -1 && vs[k - 1].status.Ok? then 1 else 0
  }

  lemma {:induction false} DeadOkCount(vs: seq<Conn>, k: nat)
    requires k <= |vs|
    ensures DeadOk(vs, k) == |set i: nat | i < k && vs[i].socket == -1 && vs[i].status == Ok|
  {
    var d := set i: nat | i < k && vs[i].socket == -1 && vs[i].status == Ok;
    if k == 0 {
      assert d == {};
    } else {
      DeadOkCount(vs, k - 1);
      var p := set i: nat | i < k - 1 && vs[i].socket == -1 && vs[i].status == Ok;
      assert d == if vs[k - 1].socket == -1 && vs[k - 1].status == Ok then p + {k - 1} else p;
    }
  }

  /** A pass over live clients moves the operation counter by exactly the number of clients that are
      then dead with STATUS_OK. */
  lemma {:induction false} PassKeeps(vs: seq<Conn>, ps: seq<Past>, events: seq<Option<Event>>, k: nat)
    requires AllReady(vs, events) && AllLive(vs, ps) && k <= |vs|
    ensures Finished(vs, events, k) == DeadOk(AfterPass(vs, events, |vs|), k)
  {
    hide Handle, Live, Life;
    if k > 0 {
      PassKeeps(vs, ps, events, k - 1);
      assert Lived(vs[k - 1], ps[k - 1]);
      if events[k - 1].Some? {
        HandleKeeps(vs[k - 1], events[k - 1].value);
      }
    }
  }

  /** After it every client is what its past, extended by its event, makes of it. */
  lemma PassLives(vs: seq<Conn>, ps: seq<Past>, events: seq<Option<Event>>)
    requires AllReady(vs, events) && AllLive(vs, ps)
    ensures AllLived(AfterPass(vs, events, |events|), AfterPasts(ps, events, |events|))
  {
    hide Handle, Life, EventOk;
    forall i | 0 <= i < |vs|
      ensures Lived(After(vs[i], events[i]), Extended(ps[i], events[i]))
    {
      assert Lived(vs[i], ps[i]);
      if events[i].Some? {
        LifeNext(ps[i].born, ps[i].history, events[i].value);
      }
    }
  }

  method HandleOne(ghost cs: seq<Client>, ghost i: nat, c: Client, e: Event) returns (counted: bool)
    requires Apart(cs) && i < |cs| && cs[i] == c && EventOk(e) && Handleable(Values(cs)[i])
    modifies c, c.buffer
    ensures Values(cs) == old(Values(cs))[i := Handle(old(Values(cs)[i]), e).0]
    ensures counted == Handle(old(Values(cs)[i]), e).1
    ensures Pasts(cs) == old(Pasts(cs))[i := Extended(old(Pasts(cs)[i]), Some(e))]
  {
    hide Handle, Handleable;
    ghost var vs, ps := Values(cs), Pasts(cs);
    assert vs[i] == c.Value() && ps[i] == c.past;
    counted := c.HandleClient(e);
    forall j | 0 <= j < |cs|
      ensures Values(cs)[j] == vs[i := Handle(vs[i], e).0][j]
    {
      assert Values(cs)[j] == cs[j].Value();
    }
  }

  lemma WithoutSubset<T>(q: seq<T>, i: nat)
    requires i < |q|
    ensures forall j :: 0 <= j < |Without(q, i)| ==> Without(q, i)[j] in q
  {}

  lemma SocketsWithout(cs: seq<Client>, i: nat)
    requires i < |cs|
    ensures Sockets(Without(cs, i)) == Without(Sockets(cs), i)
  {}

  /** What one removal does to the survivors. */
  lemma SweepStep(cs: seq<Client>, sockets: seq<int>)
    requires |cs| == |sockets|
    ensures var i := IndexOf(sockets, -1);
            if i < |cs| then
              |Without(cs, i)| < |cs| && Alive(Without(cs, i), Without(sockets, i)) == Alive(cs, sockets)
            else
              forall j :: 0 <= j < |cs| ==> sockets[j] != -1
  {
    var i := IndexOf(sockets, -1);
    if i < |cs| {
      AliveWithout(cs, sockets, i);
    }
  }
}
