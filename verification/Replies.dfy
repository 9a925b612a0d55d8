/** Sending one reply: the bytes of a connection as a value, the event-driven step, and the
    blocking loop, both driven by whatever the socket accepts. */
module Replies {
  import opened Bytes
  import opened Options

  const BUFFER_SIZE: nat := 4096

  datatype Phase = RecvRequest | SendReply
  datatype Status = Ok | Bad | Forbidden | NotFound

  /** file is the unread rest of the open file; sent is what the socket has accepted so far. */
  datatype Conn = Conn(
    socket: int,
    phase: Phase,
    file: Option<seq<byte>>,
    nread: int,
    nwritten: int,
    ntowrite: int,
    buffer: seq<byte>,
    status: Status,
    sent: seq<byte>)

  /** What looking up and opening the requested file yields. */
  datatype Lookup = Missing | Denied | Opened(content: seq<byte>)

  function Unread(file: Option<seq<byte>>): seq<byte> {
    match file
    case None => []
    case Some(rest) => rest
  }

  predicate WindowOk(c: Conn) {
    |c.buffer| == BUFFER_SIZE && 0 <= c.nwritten && 0 <= c.ntowrite && c.nwritten + c.ntowrite <= BUFFER_SIZE
  }

  /** The part of the buffer still to be written. */
  function Pending(c: Conn): seq<byte>
    requires WindowOk(c)
  {
    c.buffer[c.nwritten..c.nwritten + c.ntowrite]
  }

  /** Sent bytes, pending bytes and unread file bytes. */
  function Stream(c: Conn): seq<byte>
    requires WindowOk(c)
  {
    c.sent + Pending(c) + Unread(c.file)
  }

  /** They make up the whole reply. */
  predicate Flowing(c: Conn, total: seq<byte>) {
    WindowOk(c) && Stream(c) == total
  }

  // ----- starting the reply

  /** The header goes into the buffer, followed by its terminating zero byte. */
  function StartReply(c: Conn, header: seq<byte>, lookup: Lookup): (r: Conn)
    requires |c.buffer| == BUFFER_SIZE && |header| < BUFFER_SIZE
  {
    c.(buffer := header + [0] + c.buffer[|header| + 1..],
       ntowrite := |header|,
       nwritten := 0,
       phase := SendReply,
       file := if lookup.Opened? then Some(lookup.content) else c.file,
       status := match lookup case Missing => NotFound case Denied => Forbidden case Opened(_) => c.status)
  }

  function Reply(header: seq<byte>, lookup: Lookup): seq<byte> {
    header + if lookup.Opened? then lookup.content else []
  }

  lemma StartFlows(c: Conn, header: seq<byte>, lookup: Lookup)
    requires |c.buffer| == BUFFER_SIZE && |header| < BUFFER_SIZE && c.sent == [] && c.file == None
    ensures var r := StartReply(c, header, lookup);
            && Flowing(r, Reply(header, lookup)) && Pending(r) == header && r.buffer[|header|] == 0
            && r.phase.SendReply? && r.socket == c.socket
            && (r.status == NotFound <==> lookup.Missing? || (lookup.Opened? && c.status == NotFound))
            && (r.status == Forbidden <==> lookup.Denied? || (lookup.Opened? && c.status == Forbidden))
            && (r.file.Some? <==> lookup.Opened?)
  {}

  // ----- the event-driven step

  /** What write reports: an error, or how many of the n offered bytes were taken. */
  function Accepted(result: int, n: nat): (r: int)
    ensures -1 <= r <= n && (r == -1 <==> result < 0)
    ensures 0 <= result <= n ==> r == result
    ensures result > n ==> r == n
  {
    if result < 0 then -1 else if result > n then n else result
  }

  function Take(c: Conn, r: nat): Conn
    requires WindowOk(c) && r <= c.ntowrite
  {
    c.(sent := c.sent + c.buffer[c.nwritten..c.nwritten + r], nwritten := c.nwritten + r, ntowrite := c.ntowrite - r)
  }

  function Finish(c: Conn): Conn {
    c.(socket := -1)
  }

  /** One write; after an error the counters are still moved by the error value. */
  function WriteStep(c: Conn, result: int): Conn
    requires WindowOk(c)
  {
    var r := Accepted(result, c.ntowrite);
    if r == -1 then Finish(c.(status := Bad)).(nwritten := c.nwritten - 1, ntowrite := c.ntowrite + 1)
    else Take(c, r)
  }

  /** The next chunk of at most BUFFER_SIZE bytes of the file. */
  function Chunk(rest: seq<byte>): (k: seq<byte>)
    ensures k <= rest && (|k| == BUFFER_SIZE || (k == rest && |k| < BUFFER_SIZE))
  {
    if |rest| < BUFFER_SIZE then rest else rest[..BUFFER_SIZE]
  }

  /** A read that comes back short closes the file. */
  function Refill(c: Conn): Conn
    requires WindowOk(c) && c.file.Some?
  {
    var k := Chunk(c.file.value);
    c.(buffer := k + c.buffer[|k|..],
       file := if |k| < BUFFER_SIZE then None else Some(c.file.value[|k|..]),
       nwritten := 0,
       ntowrite := |k|)
  }

  /** One call for a writable client: the new state, and whether the operation counter moves. */
  function SendStep(c: Conn, result: int): (Conn, bool)
    requires WindowOk(c)
  {
    if c.ntowrite != 0 then (WriteStep(c, result), false)
    else if c.file.None? then (Finish(c), c.status.Ok?)
    else (Refill(c), false)
  }

  lemma TakeFlows(c: Conn, r: nat, total: seq<byte>)
    requires Flowing(c, total) && r <= c.ntowrite
    ensures Flowing(Take(c, r), total)
  {
    assert Pending(c) == c.buffer[c.nwritten..c.nwritten + r] + Pending(Take(c, r));
  }

  lemma RefillFlows(c: Conn, total: seq<byte>)
    requires Flowing(c, total) && c.ntowrite == 0 && c.file.Some?
    ensures Flowing(Refill(c), total)
  {
    var k := Chunk(c.file.value);
    assert Pending(c) == [] && Pending(Refill(c)) == k;
    assert c.file.value == k + Unread(Refill(c).file);
  }

  /** One step of a live client: it stays live and keeps the stream, or it ends cleanly having sent
      the whole reply, or it ends in error; and only a clean end with STATUS_OK is counted. */
  lemma SendStepKeeps(c: Conn, result: int, total: seq<byte>)
    requires Flowing(c, total) && c.socket != -1
    ensures var (c', counted) := SendStep(c, result);
            && (c'.socket != -1 ==> Flowing(c', total) && c'.status == c.status && !counted)
            && (c'.socket == -1 ==>
                  || (c'.sent == total && c'.status == c.status && (counted <==> c.status.Ok?))
                  || (c'.sent <= total && c'.status.Bad? && !counted))
  {
    if c.ntowrite != 0 {
      var r := Accepted(result, c.ntowrite);
      if r >= 0 {
        TakeFlows(c, r, total);
      }
    } else if c.file.Some? {
      RefillFlows(c, total);
    }
  }

  /** Repeated calls until the client is dead or the results run out. */
  function SendRun(c: Conn, results: seq<int>): (r: (Conn, nat))
    requires c.socket != -1 ==> WindowOk(c)
    decreases |results|
  {
    if c.socket == -1 || results == [] then (c, 0)
    else
      var (c', counted) := SendStep(c, results[0]);
      StepWindow(c, results[0]);
      var (e, n) := SendRun(c', results[1..]);
      (e, n + if counted then 1 else 0)
  }

  lemma StepWindow(c: Conn, result: int)
    requires WindowOk(c) && c.socket != -1
    ensures SendStep(c, result).0.socket != -1 ==> WindowOk(SendStep(c, result).0)
  {
    SendStepKeeps(c, result, Stream(c));
  }

  /** The reply stream: after any pattern of short writes, refills and errors, a live client has
      sent ++ pending ++ unread equal to the reply; a dead one has sent all of it or failed; and
      the operation counter has moved exactly if it ended cleanly with STATUS_OK. */
  lemma {:induction false} ReplyStream(c: Conn, results: seq<int>, total: seq<byte>)
    requires Flowing(c, total) && c.socket != -1 && !c.status.Bad?
    ensures var (e, n) := SendRun(c, results);
            && (e.socket != -1 ==> Flowing(e, total) && e.status == c.status && n == 0)
            && (e.socket == -1 && !e.status.Bad? ==> e.sent == total && e.status == c.status)
            && (e.socket == -1 && e.status.Bad? ==> e.sent <= total)
            && n == if e.socket == -1 && e.status.Ok? then 1 else 0
    decreases |results|
  {
    if results != [] {
      SendStepKeeps(c, results[0], total);
      var c' := SendStep(c, results[0]).0;
      if c'.socket != -1 {
        ReplyStream(c', results[1..], total);
      }
    }
  }

  /** An upper bound on the steps left. */
  function Measure(c: Conn): int {
    c.ntowrite + 2 * |Unread(c.file)| + if c.file.Some? then 1 else 0
  }

  /** If every write takes something, the reply is complete within a bounded number of calls. */
  lemma {:induction false} Completes(c: Conn, results: seq<int>, total: seq<byte>)
    requires Flowing(c, total) && c.socket != -1 && !c.status.Bad?
    requires forall i :: 0 <= i < |results| ==> results[i] > 0
    requires |results| > Measure(c)
    ensures var e := SendRun(c, results).0; e.socket == -1 && e.sent == total && e.status == c.status
    decreases |results|
  {
    SendStepKeeps(c, results[0], total);
    var c' := SendStep(c, results[0]).0;
    if c'.socket != -1 {
      assert Measure(c') < Measure(c);
      Completes(c', results[1..], total);
    }
  }

  // ----- the blocking sender

  /** Done: nothing left to write.  Failed: a write reported an error.  Stalled: the list of write
      results ran out, so the sender is still inside a write. */
  datatype Outcome = Done | Failed | Stalled

  /** Writes until the window is empty; one result is consumed per write. */
  function Flush(c: Conn, results: seq<int>): (r: (Conn, seq<int>, Outcome))
    requires WindowOk(c)
    ensures WindowOk(r.0) && r.0.file == c.file && |r.1| <= |results|
    ensures r.2.Done? ==> r.0.ntowrite == 0 && (c.ntowrite > 0 ==> |r.1| < |results|)
    decreases |results|
  {
    if c.ntowrite == 0 then (c, results, Done)
    else if results == [] then (c, results, Stalled)
    else
      var r := Accepted(results[0], c.ntowrite);
      if r < 0 then (c, results[1..], Failed) else Flush(Take(c, r), results[1..])
  }

  /** Reads and flushes chunks until one comes back short. */
  function SendFile(c: Conn, results: seq<int>): (r: (Conn, seq<int>, Outcome))
    requires WindowOk(c) && c.file.Some?
    ensures WindowOk(r.0)
    decreases |c.file.value|
  {
    var c1 := Refill(c);
    var (c2, rest, o) := Flush(c1, results);
    if o.Done? && c2.file.Some? then SendFile(c2, rest) else (c2, rest, o)
  }

  /** The header, then the file if there is one.  On success the socket is left open: the call that
      would close it comes after the return. */
  function WriteReply(c: Conn, results: seq<int>): (r: (Conn, seq<int>, Outcome))
    requires WindowOk(c)
  {
    var (c1, rest, o) := Flush(c, results);
    var (c2, rest2, o2) := if o.Done? && c1.file.Some? then SendFile(c1, rest) else (c1, rest, o);
    (if o2.Failed? then Finish(c2.(status := Bad)) else c2, rest2, o2)
  }

  /** The event-driven sender over the same results: a write consumes one, a refill none. */
  function EventReply(c: Conn, results: seq<int>): (r: (Conn, seq<int>))
    requires c.socket != -1 ==> WindowOk(c)
    decreases |results|, if c.file.Some? then |c.file.value| + 1 else 0
  {
    if c.socket == -1 then (c, results)
    else if c.ntowrite != 0 then
      if results == [] then (c, results)
      else (StepWindow(c, results[0]); EventReply(WriteStep(c, results[0]), results[1..]))
    else if c.file.Some? then (StepWindow(c, 0); EventReply(Refill(c), results))
    else (Finish(c), results)
  }

  /** Flushing is what the event-driven sender does until the window is empty. */
  lemma {:induction false} EventFlush(c: Conn, results: seq<int>)
    requires WindowOk(c) && c.socket != -1
    ensures var (c1, rest, o) := Flush(c, results);
            match o
            case Done => c1.socket == c.socket && c1.status == c.status && EventReply(c, results) == EventReply(c1, rest)
            case Stalled => EventReply(c, results) == (c1, rest) && c1.socket == c.socket && c1.status == c.status
            case Failed => Broke(EventReply(c, results), c1, rest)
    decreases |results|
  {
    if c.ntowrite != 0 && results != [] {
      var r := Accepted(results[0], c.ntowrite);
      if r >= 0 {
        EventFlush(Take(c, r), results[1..]);
      }
    }
  }

  /** The event-driven sender ended in error with the same bytes sent and the same results left. */
  predicate Broke(e: (Conn, seq<int>), c: Conn, rest: seq<int>) {
    e.0.socket == -1 && e.0.status.Bad? && e.0.sent == c.sent && e.1 == rest
  }

  lemma {:induction false} EventFile(c: Conn, results: seq<int>)
    requires WindowOk(c) && c.socket != -1 && c.ntowrite == 0 && c.file.Some?
    ensures var (c1, rest, o) := SendFile(c, results);
            match o
            case Done => EventReply(c, results) == (Finish(c1), rest) && c1.status == c.status
            case Stalled => EventReply(c, results) == (c1, rest) && c1.socket == c.socket && c1.status == c.status
            case Failed => Broke(EventReply(c, results), c1, rest)
    decreases |c.file.value|
  {
    var c1 := Refill(c);
    assert EventReply(c, results) == EventReply(c1, results);
    EventFlush(c1, results);
    var (c2, rest, o) := Flush(c1, results);
    if o.Done? && c2.file.Some? {
      EventFile(c2, rest);
    }
  }

  /** The two senders agree: on every reply and every list of write results they send the same
      bytes and use up the same results; one reports success exactly when the other has closed the
      connection cleanly, failure exactly when the other closed it in error. */
  lemma SendersAgree(c: Conn, results: seq<int>, total: seq<byte>)
    requires Flowing(c, total) && c.socket != -1 && !c.status.Bad?
    ensures var (b, rest, o) := WriteReply(c, results);
            var (e, rest') := EventReply(c, results);
            && b.sent == e.sent && rest == rest'
            && (o.Done? <==> e.socket == -1 && !e.status.Bad?)
            && (o.Failed? <==> e.socket == -1 && e.status.Bad?)
            && (o.Done? ==> b.sent == total)
  {
    EventFlush(c, results);
    var (c1, rest, o) := Flush(c, results);
    if o.Done? && c1.file.Some? {
      EventFile(c1, rest);
    }
    EventStream(c, results, total);
  }

  lemma {:induction false} EventStream(c: Conn, results: seq<int>, total: seq<byte>)
    requires Flowing(c, total) && c.socket != -1 && !c.status.Bad?
    ensures var e := EventReply(c, results).0;
            e.socket == -1 && !e.status.Bad? ==> e.sent == total
    decreases |results|, if c.file.Some? then |c.file.value| + 1 else 0
  {
    if c.ntowrite != 0 {
      if results != [] {
        SendStepKeeps(c, results[0], total);
        var c' := WriteStep(c, results[0]);
        if c'.socket != -1 {
          EventStream(c', results[1..], total);
        }
      }
    } else if c.file.Some? {
      RefillFlows(c, total);
      EventStream(Refill(c), results, total);
    }
  }
}
