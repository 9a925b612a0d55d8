/** Clients of the event-driven server as objects: one client's fields and buffer, updated in
    place, and the list that the server walks and sweeps. */
module Clients {
  import opened Bytes
  import opened Options
  import opened Replies

  // ----- receiving

  /** Whether the bytes received so far complete a header, whether it parses, and what answering
      it would involve. */
  datatype Parse = Incomplete | Complete(valid: bool, header: seq<byte>, lookup: Lookup)

  /** What the environment answers to one call: bytes to read (none: closed or failed), the parse,
      and the result of a write. */
  datatype Event = Event(chunk: seq<byte>, parse: Parse, result: int)

  /** A response header is a C string that fits the buffer with its terminating zero. */
  predicate EventOk(e: Event) {
    e.parse.Complete? ==> |e.parse.header| < BUFFER_SIZE && 0 !in e.parse.header
  }

  predicate Receiving(c: Conn) {
    && |c.buffer| == BUFFER_SIZE && 0 <= c.nread < BUFFER_SIZE && c.nwritten == c.ntowrite == 0
    && c.phase.RecvRequest? && c.file == None && c.sent == [] && c.status.Ok?
  }

  function Received(c: Conn, chunk: seq<byte>): (k: seq<byte>)
    requires 0 <= c.nread < BUFFER_SIZE
    ensures k <= chunk && |k| <= BUFFER_SIZE - 1 - c.nread
    ensures k == chunk || |k| == BUFFER_SIZE - 1 - c.nread
  {
    if |chunk| <= BUFFER_SIZE - 1 - c.nread then chunk else chunk[..BUFFER_SIZE - 1 - c.nread]
  }

  function Append(c: Conn, k: seq<byte>): Conn
    requires |c.buffer| == BUFFER_SIZE && 0 <= c.nread && c.nread + |k| <= BUFFER_SIZE
  {
    c.(buffer := c.buffer[..c.nread] + k + c.buffer[c.nread + |k|..], nread := c.nread + |k|)
  }

  /** One read.  After an invalid header the client is finished and the reply is still prepared. */
  function RecvStep(c: Conn, e: Event): Conn
    requires |c.buffer| == BUFFER_SIZE && 0 <= c.nread < BUFFER_SIZE && EventOk(e)
  {
    var k := Received(c, e.chunk);
    if k == [] then Finish(c.(status := Bad)) else
      var c1 := Append(c, k);
      match e.parse
      case Incomplete => c1
      case Complete(valid, header, lookup) =>
        StartReply(if valid then c1 else Finish(c1.(status := Bad)), header, lookup)
  }

  /** A read appends to what was received before, without losing or reordering a byte, and never
      fills the last byte of the buffer. */
  lemma RecvAppends(c: Conn, e: Event)
    requires Receiving(c) && EventOk(e)
    ensures var k := Received(c, e.chunk);
            && k <= e.chunk
            && (k == [] <==> e.chunk == [] || c.nread == BUFFER_SIZE - 1)
            && (k == [] ==> RecvStep(c, e).socket == -1 && RecvStep(c, e).status.Bad?)
            && (k != [] && e.parse.Incomplete? ==>
                  var c' := RecvStep(c, e);
                  Receiving(c') && c'.buffer[..c'.nread] == c.buffer[..c.nread] + k && c'.socket == c.socket)
            && (k != [] && e.parse.Complete? && !e.parse.valid ==> RecvStep(c, e).socket == -1)
  {}

  predicate Handleable(c: Conn) {
    if c.phase.RecvRequest? then Receiving(c) else WindowOk(c)
  }

  function Handle(c: Conn, e: Event): (Conn, bool)
    requires EventOk(e) && Handleable(c)
  {
    match c.phase
    case RecvRequest => (RecvStep(c, e), false)
    case SendReply => SendStep(c, e.result)
  }

  /** A reply is under way. */
  predicate Sending(c: Conn) {
    c.phase.SendReply? && !c.status.Bad? && WindowOk(c)
  }

  predicate Live(c: Conn) {
    Receiving(c) || Sending(c)
  }

  /** The event with which a receiving client gets hold of a complete, valid request. */
  predicate Asks(c: Conn, e: Event) {
    Receiving(c) && Received(c, e.chunk) != [] && e.parse.Complete? && e.parse.valid
  }

  function StatusOf(lookup: Lookup): Status {
    match lookup
    case Missing => NotFound
    case Denied => Forbidden
    case Opened(_) => Ok
  }

  /** One event of a live client: until it asks it sends nothing; when it asks, exactly the reply to
      its request gets under way; from then on the stream stays that reply until the client has
      sent all of it or failed. */
  lemma HandleKeeps(c: Conn, e: Event)
    requires c.socket != -1 && Live(c) && EventOk(e)
    ensures var (c', counted) := Handle(c, e);
            && (c'.socket != -1 ==> c'.socket == c.socket && Live(c'))
            && (counted <==> c'.socket == -1 && c'.status.Ok?)
            && (Asks(c, e) ==>
                  && c'.socket != -1 && Sending(c') && c'.sent == []
                  && Stream(c') == Reply(e.parse.header, e.parse.lookup) && c'.status == StatusOf(e.parse.lookup))
            && (Receiving(c) && !Asks(c, e) ==>
                  c'.sent == [] && if c'.socket == -1 then !c'.status.Ok? else Receiving(c'))
            && (Sending(c) && c'.socket != -1 ==> Sending(c') && Stream(c') == Stream(c) && c'.status == c.status)
            && (Sending(c) && c'.socket == -1 ==>
                  if c'.status.Bad? then c'.sent <= Stream(c) else c'.sent == Stream(c) && c'.status == c.status)
  {
    if Sending(c) {
      SendStepKeeps(c, e.result, Stream(c));
    } else if Asks(c, e) {
      StartFlows(Append(c, Received(c, e.chunk)), e.parse.header, e.parse.lookup);
    }
  }

  // ----- one call, spelled out

  /** One read of a receiving client: at most as many bytes as leave the last one free are appended;
      with nothing read the client is finished; a complete header starts the reply, also when it did
      not parse and the client has just been finished. */
  predicate Took(c: Conn, e: Event, c': Conn)
    requires Receiving(c)
  {
    var room := BUFFER_SIZE - 1 - c.nread;
    var n := if |e.chunk| <= room then |e.chunk| else room;
    if n <= 0 then c' == c.(status := Bad, socket := -1)
    else
      var bytes := c.buffer[..c.nread] + e.chunk[..n] + c.buffer[c.nread + n..];
      match e.parse
      case Incomplete => c' == c.(buffer := bytes, nread := c.nread + n)
      case Complete(valid, header, lookup) =>
        && |header| < BUFFER_SIZE
        && c' == c.(nread := c.nread + n,
                    buffer := header + [0] + bytes[|header| + 1..],
                    ntowrite := |header|,
                    phase := SendReply,
                    socket := if valid then c.socket else -1,
                    file := if lookup.Opened? then Some(lookup.content) else None,
                    status := match lookup
                              case Missing => NotFound
                              case Denied => Forbidden
                              case Opened(_) => if valid then Ok else Bad)
  }

  lemma RecvTook(c: Conn, e: Event)
    requires Receiving(c) && EventOk(e)
    ensures Took(c, e, RecvStep(c, e))
  {
    var k := Received(c, e.chunk);
    assert k == e.chunk[..|k|];
  }

  /** One call for a writable client: a write of part of the window that moves the counters by what was
      taken, by -1 after an error; or the end, if nothing is left; or the next chunk. */
  predicate Sent(c: Conn, result: int, c': Conn, counted: bool)
    requires WindowOk(c)
  {
    if c.ntowrite > 0 then
      if result < 0 then
        !counted && c' == c.(status := Bad, socket := -1, nwritten := c.nwritten - 1, ntowrite := c.ntowrite + 1)
      else
        var r := if result <= c.ntowrite then result else c.ntowrite;
        && !counted
        && c' == c.(sent := c.sent + c.buffer[c.nwritten..c.nwritten + r],
                    nwritten := c.nwritten + r, ntowrite := c.ntowrite - r)
    else if c.file == None then
      (counted <==> c.status == Ok) && c' == c.(socket := -1)
    else
      var rest := c.file.value;
      var k := if |rest| < BUFFER_SIZE then |rest| else BUFFER_SIZE;
      && !counted
      && c' == c.(buffer := rest[..k] + c.buffer[k..], nwritten := 0, ntowrite := k,
                  file := if k < BUFFER_SIZE then None else Some(rest[k..]))
  }

  lemma SendSent(c: Conn, result: int)
    requires WindowOk(c)
    ensures Sent(c, result, SendStep(c, result).0, SendStep(c, result).1)
  {}

  // ----- a client's whole life

  predicate EventsOk(es: seq<Event>) {
    forall i :: 0 <= i < |es| ==> EventOk(es[i])
  }

  /** A client from its first event on, and how often it was counted; a dead one takes no events. */
  function Life(c: Conn, es: seq<Event>): (r: (Conn, nat))
    requires Receiving(c) && c.socket != -1 && EventsOk(es)
    ensures r.0.socket != -1 ==> Live(r.0)
  {
    if es == [] then (c, 0)
    else
      var (p, n) := Life(c, es[..|es| - 1]);
      if p.socket == -1 then (p, n)
      else
        HandleKeeps(p, es[|es| - 1]);
        var (p', counted) := Handle(p, es[|es| - 1]);
        (p', n + if counted then 1 else 0)
  }

  /** The event with which the client asked, if it ever did. */
  function Request(c: Conn, es: seq<Event>): (q: Option<Event>)
    requires Receiving(c) && c.socket != -1 && EventsOk(es)
    ensures q.Some? ==> q.value in es && q.value.parse.Complete? && q.value.parse.valid
  {
    if es == [] then None
    else
      var q := Request(c, es[..|es| - 1]);
      var p := Life(c, es[..|es| - 1]).0;
      if q.Some? || p.socket == -1 || !Asks(p, es[|es| - 1]) then q else Some(es[|es| - 1])
  }

  /** What a client has sent, given the request it made.  Without one it has sent nothing.  With one,
      while it lives sent ++ pending ++ unread is the reply to that request; dead, it has sent
      exactly that reply, with the status of the lookup, or else a part of it, with STATUS_BAD. */
  predicate Answers(e: Conn, q: Option<Event>) {
    match q
    case None => e.sent == [] && if e.socket == -1 then !e.status.Ok? else Receiving(e)
    case Some(ask) =>
      ask.parse.Complete? &&
      var total := Reply(ask.parse.header, ask.parse.lookup);
      if e.socket != -1 then Sending(e) && Stream(e) == total && e.status == StatusOf(ask.parse.lookup)
      else if e.status.Bad? then e.sent <= total
      else e.sent == total && e.status == StatusOf(ask.parse.lookup)
  }

  /** The life of a client, whatever the network does: it answers the request it made, and it is
      counted once if it ends with STATUS_OK, and never otherwise. */
  lemma {:induction false} WholeLife(c: Conn, es: seq<Event>)
    requires Receiving(c) && c.socket != -1 && EventsOk(es)
    ensures Answers(Life(c, es).0, Request(c, es))
    ensures Life(c, es).1 == if Life(c, es).0.socket == -1 && Life(c, es).0.status.Ok? then 1 else 0
    decreases |es|
  {
    hide Receiving, Sending, Handle, Asks;
    if es == [] {
      NothingSent(c);
    } else {
      WholeLife(c, es[..|es| - 1]);
      var p := Life(c, es[..|es| - 1]).0;
      if p.socket != -1 {
        OnePhase(p, es[|es| - 1]);
        HandleKeeps(p, es[|es| - 1]);
      }
    }
  }

  lemma NothingSent(c: Conn)
    requires Receiving(c)
    ensures c.sent == []
  {}

  lemma OnePhase(c: Conn, e: Event)
    ensures Receiving(c) ==> !Sending(c)
    ensures Asks(c, e) ==> Receiving(c) && e.parse.Complete?
  {}

  /** A client is counted only for a file that was opened and sent in full after its header. */
  lemma CountedSent(c: Conn, es: seq<Event>)
    requires Receiving(c) && c.socket != -1 && EventsOk(es) && Life(c, es).1 > 0
    ensures var q := Request(c, es);
            && Life(c, es).1 == 1 && q.Some? && q.value.parse.lookup.Opened?
            && Life(c, es).0.sent == q.value.parse.header + q.value.parse.lookup.content
  {
    hide Life, Request;
    WholeLife(c, es);
  }

  lemma LifeNext(c: Conn, es: seq<Event>, e: Event)
    requires Receiving(c) && c.socket != -1 && EventsOk(es) && EventOk(e) && Life(c, es).0.socket != -1
    ensures EventsOk(es + [e]) && Handleable(Life(c, es).0)
    ensures Life(c, es + [e]).0 == Handle(Life(c, es).0, e).0
  {
    hide Handle;
    assert (es + [e])[..|es|] == es;
  }

  // ----- every reply is completed

  /** Each event of a sending client that takes something brings it nearer to its end. */
  lemma HandleProgress(c: Conn, e: Event)
    requires c.socket != -1 && Sending(c) && EventOk(e) && e.result > 0
    ensures var c' := Handle(c, e).0; c'.socket != -1 ==> Sending(c') && 0 <= Measure(c') < Measure(c)
    ensures Handle(c, e).0.socket == -1 ==> !Handle(c, e).0.status.Bad?
  {}

  lemma MeasureBound(c: Conn)
    requires Sending(c)
    ensures 0 <= Measure(c) <= 2 * |Stream(c)| + 1
  {}

  /** A dead client's life is over. */
  lemma {:induction false} LifeOver(c: Conn, es: seq<Event>, more: seq<Event>)
    requires Receiving(c) && c.socket != -1 && EventsOk(es + more) && EventsOk(es) && Life(c, es).0.socket == -1
    ensures Life(c, es + more) == Life(c, es)
    decreases |more|
  {
    hide Receiving, Handle, Live;
    if more == [] {
      assert es + more == es;
    } else {
      var n := |more| - 1;
      assert (es + more)[..|es| + n] == es + more[..n];
      LifeOver(c, es, more[..n]);
    }
  }

  /** Once it has asked, a client's request is settled. */
  lemma {:induction false} RequestStays(c: Conn, es: seq<Event>, more: seq<Event>)
    requires Receiving(c) && c.socket != -1 && EventsOk(es + more) && EventsOk(es) && Request(c, es).Some?
    ensures Request(c, es + more) == Request(c, es)
    decreases |more|
  {
    hide Life, Asks, Receiving;
    if more == [] {
      assert es + more == es;
    } else {
      var n := |more| - 1;
      assert (es + more)[..|es| + n] == es + more[..n];
      RequestStays(c, es, more[..n]);
    }
  }

  lemma {:induction false} SendsOn(c: Conn, es: seq<Event>, more: seq<Event>)
    requires Receiving(c) && c.socket != -1 && EventsOk(es) && EventsOk(more)
    requires Life(c, es).0.socket != -1 && Sending(Life(c, es).0) && |more| > Measure(Life(c, es).0)
    requires forall i :: 0 <= i < |more| ==> more[i].result > 0
    ensures EventsOk(es + more)
    ensures Life(c, es + more).0.socket == -1 && !Life(c, es + more).0.status.Bad?
    decreases |more|
  {
    hide Life, Handle, Receiving, Sending, Measure, EventOk;
    MeasureBound(Life(c, es).0);
    HandleProgress(Life(c, es).0, more[0]);
    LifeNext(c, es, more[0]);
    var next := es + [more[0]];
    assert next + more[1..] == es + more;
    if Life(c, next).0.socket == -1 {
      LifeOver(c, next, more[1..]);
    } else {
      SendsOn(c, next, more[1..]);
    }
  }

  /** Every reply is completed: a live client that has asked is dead after more than 2 * |reply| + 1
      further events in which its writes take something; it has then sent exactly the reply to its
      request, and was counted if that was an opened file. */
  lemma LifeCompletes(c: Conn, es: seq<Event>, more: seq<Event>)
    requires Receiving(c) && c.socket != -1 && EventsOk(es) && EventsOk(more)
    requires Request(c, es).Some? && Life(c, es).0.socket != -1
    requires var p := Request(c, es).value.parse; |more| > 2 * |Reply(p.header, p.lookup)| + 1
    requires forall i :: 0 <= i < |more| ==> more[i].result > 0
    ensures EventsOk(es + more)
    ensures var p := Request(c, es).value.parse;
            var (e, n) := Life(c, es + more);
            && e.socket == -1 && e.status == StatusOf(p.lookup)
            && e.sent == p.header + (if p.lookup.Opened? then p.lookup.content else [])
            && n == if p.lookup.Opened? then 1 else 0
  {
    hide Life, Request, Receiving, Sending, Measure, EventOk;
    WholeLife(c, es);
    MeasureBound(Life(c, es).0);
    SendsOn(c, es, more);
    RequestStays(c, es, more);
    WholeLife(c, es + more);
  }

  /** How a client started and the events it has handled since. */
  datatype Past = Past(born: Conn, history: seq<Event>)

  /** The client is what its past makes of it. */
  predicate Lived(v: Conn, past: Past) {
    && Receiving(past.born) && past.born.socket != -1 && EventsOk(past.history)
    && Life(past.born, past.history).0 == v
  }

  /** The front part of the window has gone out, and nothing else has changed. */
  predicate Drained(c: Conn, c': Conn) {
    WindowOk(c) &&
    var r := c'.nwritten - c.nwritten;
    && 0 <= r <= c.ntowrite
    && c' == c.(sent := c.sent + c.buffer[c.nwritten..c.nwritten + r],
                nwritten := c.nwritten + r, ntowrite := c.ntowrite - r)
  }

  lemma DrainedNone(c: Conn)
    requires WindowOk(c)
    ensures Drained(c, c)
  {}

  lemma DrainedMore(c: Conn, before: Conn, r: nat)
    requires Drained(c, before) && WindowOk(before) && r <= before.ntowrite
    ensures Drained(c, Take(before, r))
  {
    var w := before.nwritten - c.nwritten;
    assert c.buffer[c.nwritten..c.nwritten + w] + c.buffer[before.nwritten..before.nwritten + r]
        == c.buffer[c.nwritten..before.nwritten + r];
  }

  /** Draining moves bytes from the window to those sent. */
  lemma DrainedStream(c: Conn, c': Conn)
    requires Drained(c, c')
    ensures WindowOk(c') && Stream(c') == Stream(c) && c.sent <= c'.sent <= Stream(c)
    ensures c'.socket == c.socket && c'.status == c.status && c'.file == c.file
  {
    TakeFlows(c, c'.nwritten - c.nwritten, Stream(c));
  }

  lemma TakeIs(c: Conn, r: nat, c': Conn)
    requires WindowOk(c) && r <= c.ntowrite
    requires c' == c.(sent := c.sent + c.buffer[c.nwritten..c.nwritten + r], nwritten := c.nwritten + r,
                      ntowrite := c.ntowrite - r)
    ensures c' == Take(c, r) && WindowOk(c')
  {}

  lemma FlushNext(c: Conn, results: seq<int>)
    requires WindowOk(c)
    ensures c.ntowrite == 0 ==> Flush(c, results) == (c, results, Done)
    ensures c.ntowrite > 0 && results == [] ==> Flush(c, results) == (c, results, Stalled)
    ensures c.ntowrite > 0 && results != [] ==>
              var r := Accepted(results[0], c.ntowrite);
              Flush(c, results) == if r < 0 then (c, results[1..], Failed) else Flush(Take(c, r), results[1..])
  {}

  lemma AllSent(c: Conn)
    requires WindowOk(c) && c.ntowrite == 0 && c.file == None
    ensures Stream(c) == c.sent
  {}

  class Client {
    var socket: int
    var phase: Phase
    var file: Option<seq<byte>>
    var nread: int
    var nwritten: int
    var ntowrite: int
    const buffer: array<byte>
    var status: Status
    ghost var sent: seq<byte>
    ghost var past: Past

    ghost function Value(): Conn
      reads this, buffer
    {
      Conn(socket, phase, file, nread, nwritten, ntowrite, buffer[..], status, sent)
    }

    constructor (socket: int)
      ensures Value() == Conn(socket, RecvRequest, None, 0, 0, 0, buffer[..], Ok, []) && Receiving(Value())
      ensures past == Past(Value(), []) && (socket != -1 ==> Lived(Value(), past))
      ensures fresh(buffer)
    {
      this.socket := socket;
      phase := RecvRequest;
      file := None;
      nread, nwritten, ntowrite := 0, 0, 0;
      buffer := new byte[BUFFER_SIZE];
      status := Ok;
      sent := [];
      new;
      past := Past(Value(), []);
    }

    method FinishClient()
      modifies this`socket
      ensures socket == -1
    {
      socket := -1;
    }

    method SwitchState(header: seq<byte>, lookup: Lookup)
      requires buffer.Length == BUFFER_SIZE && |header| < BUFFER_SIZE
      modifies this, buffer
      ensures past == old(past)
      ensures Value() == StartReply(old(Value()), header, lookup)
      ensures buffer[..] == header + [0] + old(buffer[..])[|header| + 1..]
      ensures nwritten == 0 && ntowrite == |header| && phase == SendReply
      ensures socket == old(socket) && nread == old(nread) && sent == old(sent)
      ensures file == if lookup.Opened? then Some(lookup.content) else old(file)
      ensures status == if lookup.Missing? then NotFound else if lookup.Denied? then Forbidden else old(status)
    {
      match lookup {
        case Missing => status := NotFound;
        case Denied => status := Forbidden;
        case Opened(content) => file := Some(content);
      }
      Store(header + [0], 0);
      ntowrite := |header|;
      nwritten := 0;
      phase := SendReply;
    }

    /** Copies k into the buffer at offset off. */
    method Store(k: seq<byte>, off: nat)
      requires off + |k| <= buffer.Length
      modifies buffer
      ensures buffer[..] == old(buffer[..])[..off] + k + old(buffer[..])[off + |k|..]
    {
      forall i | 0 <= i < |k| {
        buffer[off + i] := k[i];
      }
    }

    method ContinueReadingRequest(e: Event)
      requires Receiving(Value()) && EventOk(e)
      modifies this, buffer
      ensures past == old(past)
      ensures Value() == RecvStep(old(Value()), e)
      ensures Took(old(Value()), e, Value())
    {
      hide Took;
      ghost var c := Value();
      var room := BUFFER_SIZE - 1 - nread;
      var k := if |e.chunk| <= room then e.chunk else e.chunk[..room];
      if |k| <= 0 {
        status := Bad;
        FinishClient();
        RecvTook(c, e);
        return;
      }
      Store(k, nread);
      nread := nread + |k|;
      assert Value() == Append(c, Received(c, e.chunk));
      if e.parse.Complete? {
        if !e.parse.valid {
          status := Bad;
          FinishClient();
        }
        SwitchState(e.parse.header, e.parse.lookup);
      }
      RecvTook(c, e);
    }

    method ContinueSendingReply(result: int) returns (counted: bool)
      requires WindowOk(Value())
      modifies this, buffer
      ensures Sent(old(Value()), result, Value(), counted)
      ensures past == old(past)
      ensures (Value(), counted) == SendStep(old(Value()), result)
    {
      if ntowrite != 0 {
        var r := Accepted(result, ntowrite);
        if r == -1 {
          status := Bad;
          FinishClient();
        } else {
          sent := sent + buffer[nwritten..nwritten + r];
        }
        nwritten := nwritten + r;
        ntowrite := ntowrite - r;
        return false;
      }
      if file == None {
        FinishClient();
        return status == Ok;
      }
      ReadChunk();
      return false;
    }

    /** fread of one chunk; a short one closes the file. */
    method ReadChunk()
      requires WindowOk(Value()) && file.Some?
      modifies this, buffer
      ensures past == old(past)
      ensures Value() == Refill(old(Value()))
    {
      var k := Chunk(file.value);
      Store(k, 0);
      file := if |k| < BUFFER_SIZE then None else Some(file.value[|k|..]);
      nwritten := 0;
      ntowrite := |k|;
    }

    method HandleClient(e: Event) returns (counted: bool)
      requires Handleable(Value()) && EventOk(e)
      modifies this, buffer
      ensures (Value(), counted) == Handle(old(Value()), e)
      ensures past == old(past).(history := old(past).history + [e])
      ensures old(phase) == RecvRequest ==> Took(old(Value()), e, Value()) && !counted
      ensures old(phase) == SendReply ==> Sent(old(Value()), e.result, Value(), counted)
      ensures old(phase) == SendReply && 0 <= e.result <= old(ntowrite) && old(ntowrite) > 0 ==>
                && sent == old(sent) + old(buffer[nwritten..nwritten + e.result])
                && nwritten == old(nwritten) + e.result && ntowrite == old(ntowrite) - e.result
      ensures old(phase) == SendReply && old(ntowrite) == 0 && old(file) == None ==> socket == -1
    {
      match phase {
        case RecvRequest =>
          ContinueReadingRequest(e);
          counted := false;
        case SendReply =>
          counted := ContinueSendingReply(e.result);
      }
      past := past.(history := past.history + [e]);
    }

    // ----- the blocking sender

    method FlushBuffer(results: seq<int>) returns (rest: seq<int>, o: Outcome)
      requires WindowOk(Value())
      modifies this
      ensures (Value(), rest, o) == Flush(old(Value()), results)
      ensures past == old(past) && Drained(old(Value()), Value())
      ensures o == Done <==> ntowrite == 0
    {
      hide Drained, Flush, Take;
      rest := results;
      DrainedNone(Value());
      while ntowrite > 0
        invariant WindowOk(Value()) && past == old(past) && Drained(old(Value()), Value())
        invariant Flush(Value(), rest) == Flush(old(Value()), results)
        decreases |rest|
      {
        ghost var before := Value();
        FlushNext(before, rest);
        if rest == [] {
          return rest, Stalled;
        }
        var r := Accepted(rest[0], ntowrite);
        rest := rest[1..];
        if r < 0 {
          return rest, Failed;
        }
        sent := sent + buffer[nwritten..nwritten + r];
        nwritten := nwritten + r;
        ntowrite := ntowrite - r;
        TakeIs(before, r, Value());
        DrainedMore(old(Value()), before, r);
      }
      FlushNext(Value(), rest);
      return rest, Done;
    }

    method WriteReply(results: seq<int>) returns (rest: seq<int>, o: Outcome)
      requires WindowOk(Value())
      modifies this, buffer
      ensures (Value(), rest, o) == Replies.WriteReply(old(Value()), results)
      ensures past == old(past)
      ensures o == Failed ==> socket == -1 && status == Bad
      ensures o != Failed ==> socket == old(socket) && status == old(status)
      ensures o == Done ==> ntowrite == 0 && file == None && sent == old(Stream(Value()))
      ensures o != Done ==> old(sent) <= sent <= old(Stream(Value()))
    {
      hide Stream, Flush, Drained;
      ghost var c := Value();
      rest, o := FlushBuffer(results);
      DrainedStream(c, Value());
      if o.Stalled? {
        return;
      }
      if o.Failed? {
        status := Bad;
        FinishClient();
        return;
      }
      ghost var c1, rest1 := Value(), rest;
      var readResult := BUFFER_SIZE;
      if file != None {
        while readResult == BUFFER_SIZE
          invariant WindowOk(Value()) && o == Done && ntowrite == 0 && past == old(past)
          invariant socket == c.socket && status == c.status && Stream(Value()) == Stream(c) && c.sent <= sent
          invariant readResult == BUFFER_SIZE <==> file.Some?
          invariant if file.Some? then SendFile(Value(), rest) == SendFile(c1, rest1)
                    else (Value(), rest, Done) == SendFile(c1, rest1)
          decreases |Unread(file)|, if file.Some? then 1 else 0
        {
          RefillFlows(Value(), Stream(c));
          ReadChunk();
          readResult := ntowrite;
          ghost var before := Value();
          rest, o := FlushBuffer(rest);
          DrainedStream(before, Value());
          if o.Stalled? {
            return;
          }
          if o.Failed? {
            status := Bad;
            FinishClient();
            return;
          }
        }
      }
      AllSent(Value());
    }
  }
}
