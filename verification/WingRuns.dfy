/** Runs with which the connection does what one might not expect of it. Each is put together from the steps that the
    events in WingConnection take, with the choices of the kernel and of the handler made. */
module WingRuns {
  import opened Bytes
  import opened Options
  import opened HttpParser
  import opened HttpClassifier
  import opened HttpPipelining
  import opened HttpVerdicts
  import opened HttpSamples
  import opened WingStream
  import opened WingOutputs
  import opened WingSocket
  import opened WingConnection

  const OK: Bytes := [79, 75]

  // ---------------------------------------------------------------- steps

  /** A new connection; the read at its registration finds nothing. */
  method Accept(peer: Bytes, dispatchOf: Request -> Dispatch, answer: Bytes, size: nat) returns (c: Conn)
    requires size > 0
    ensures fresh(c) && fresh(c.readBuf) && fresh(c.sock)
    ensures c.peer == peer && c.dispatchOf == dispatchOf && c.lim == NO_LIMITS && c.readBuf.Length == size
    ensures c.maxInflight == 0 && forall r :: !c.upgradesOnly(r)
    ensures forall r, n :: c.handler(r, n) == answer
    ensures c.Quiet() && c.Ready() && c.readN == 0 && c.sendBuf == [] && c.outputs == [] && c.dispatched == []
    ensures c.sock.inbound == [] && c.sock.future == peer && !c.sock.hup && !c.sock.startled && !c.readSuppressed
    ensures !c.sock.failed && !c.sock.timedOut && !c.sock.outArmed
  {
    hide Conn.Valid, Conn.Quiet, Conn.SendsBody, Conn.DispatchesAsync, Conn.Responds, Parse;
    var sock := new Socket(peer);
    c := new Conn(NO_LIMITS, dispatchOf, _ => false, _ => OK, (_, _) => answer, 0, sock, size);
    FindsNothing(c);
  }

  /** The registration, and a read of an empty socket. */
  method FindsNothing(c: Conn)
    requires c.Valid() && c.Ready() && c.readN == 0 && c.sendBuf == [] && c.outputs == [] && !c.readSuppressed
    requires c.sock.inbound == [] && !c.sock.hup && c.readBuf.Length > 0 && !c.readDrained
    modifies c`muted, c`input, c`readN, c.readBuf, c.sock`inbound, c.sock`failed, c.sock`startled, c.sock`outArmed,
      c.sock`registered, c.sock`edge
    ensures c.Quiet() && c.readN == 0 && c.sock.inbound == [] && !c.sock.outArmed
    ensures c.sock.failed == old(c.sock.failed) && c.sock.startled == old(c.sock.startled)
  {
    hide Conn.HistoryOk, Conn.StreamOk, Conn.BodyOk, Conn.OrderOk, Conn.Owed, Conn.OutputOk, Conn.HandlerOk, Parse,
      Conn.EvidenceOk, Conn.PersistOk, Conn.SendsBody, Conn.DispatchesAsync, Conn.TakenLeave, Unservable;
    c.sock.SubmitRecv();
    var r := c.RecvNow();
    c.EmptyBuffer();
  }

  /** The next bytes arrive. */
  method Arrives(c: Conn, k: nat)
    requires c.Quiet() && 0 < k <= |c.sock.future| && !c.sock.hup
    modifies c.sock`inbound, c.sock`future, c.sock`edge
    ensures c.Quiet()
    ensures c.sock.inbound == old(c.sock.inbound + c.sock.future[..k]) && c.sock.future == old(c.sock.future[k..])
  {
    hide Conn.HistoryOk, Conn.StreamOk, Conn.BodyOk, Conn.OrderOk, Conn.Owed, Conn.OutputOk, Conn.EvidenceOk,
      Conn.PersistOk, Conn.SendsBody, Conn.DispatchesAsync, Parse;
    c.sock.Deliver(k);
    assert c.Rest() == old(c.Rest());
  }

  /** A read event up to its read. */
  method ReadEvent(c: Conn)
    requires c.Quiet() && c.Ready() && c.readN < c.readBuf.Length && c.sock.inbound != []
    modifies c`muted, c`input, c`readSuppressed, c`readDrained, c`readN, c.readBuf, c.sock`inbound, c.sock`edge,
      c.sock`failed, c.sock`startled
    ensures c.Valid() && c.Ready() && c.KeptOpen() && c.Addressed() && !c.sock.edge && c.readN <= c.readBuf.Length
    ensures var n :=
      old(if |c.sock.inbound| < c.readBuf.Length - c.readN then |c.sock.inbound| else c.readBuf.Length - c.readN);
      c.Buffered() == old(c.Buffered()) + old(c.sock.inbound)[..n] && c.sock.inbound == old(c.sock.inbound)[n..]
    ensures c.readN == |c.Buffered()| && !c.readSuppressed && c.readDrained == (c.readN < c.readBuf.Length)
    ensures c.sock.startled == old(c.sock.startled) && c.sock.failed == old(c.sock.failed)
    ensures c.input == Input(c.readN == c.readBuf.Length, false, false)
  {
    hide Conn.HistoryOk, Conn.StreamOk, Conn.BodyOk, Conn.OrderOk, Conn.Owed, Conn.OutputOk, Conn.HandlerOk, Parse,
      Conn.EvidenceOk, Conn.PersistOk, Conn.SendsBody, Conn.DispatchesAsync, Conn.Rest, Conn.TakenLeave, Unservable;
    c.TakeReport();
    Attended(c);
    var r := c.RecvNow(true);
    c.SetDrained(c.readN < c.readBuf.Length);
  }

  /** No event is remembered any more. */
  method Attended(c: Conn)
    requires c.Valid()
    modifies c`readSuppressed
    ensures c.Valid() && !c.readSuppressed
  {
    hide Conn.HistoryOk, Conn.StreamOk, Conn.BodyOk, Conn.OrderOk, Conn.Owed, Conn.OutputOk, Conn.HandlerOk,
      Conn.EvidenceOk, Conn.PersistOk, Conn.EdgeOk, Conn.BuffersOk, Conn.Rest, Conn.SendsBody, Conn.DispatchesAsync;
    c.readSuppressed := false;
  }

  /** The socket takes nothing of what is queued. */
  method Blocks(c: Conn)
    requires c.Valid() && c.Ready() && c.sendBuf != [] && c.Addressed()
    modifies c`readDrained, c.sock`outArmed, c.sock`registered, c.sock`edge
    ensures c.Quiet()
  {
    hide Conn.HistoryOk, Conn.StreamOk, Conn.BodyOk, Conn.OrderOk, Conn.Owed, Conn.OutputOk, Conn.HandlerOk, Parse,
      Conn.EvidenceOk, Conn.PersistOk, Conn.SendsBody, Conn.DispatchesAsync;
    c.Block();
  }

  // ---------------------------------------------------------------- a read event on a full buffer

  lemma OneByte(d: Bytes, lim: Limits)
    requires |d| == 1
    ensures Parse(d, lim).None? && Classify(d, lim).status == NeedHeaderMore
  {
    assert BlankPrefix(d) == 0 && d[0..] == d;
    assert IndexTerminator(d) == -1;
  }

  /** The header fills the buffer, and the error response is blocked. The next read event indexes behind the buffer. */
  method FullBuffer() returns (c: Conn, panics: bool)
    ensures panics
  {
    hide Conn.Valid, Conn.Quiet, Conn.KeptOpen, Conn.Refuses, Conn.Excused, Conn.SendsBody, Conn.DispatchesAsync,
      Parse, Classify, HasFailure, LAST_REQUEST;
    c := Accept([65, 66], _ => Inline, OK, 1);
    Arrives(c, 2);
    ReadEvent(c);
    OneByte(c.Buffered(), c.lim);
    c.MayRefuse();
    c.QueueError(431);
    Blocks(c);
    ghost var seen;
    panics, seen := c.OnReadable();
  }

  // ---------------------------------------------------------------- a request behind the last

  /** The response to a request that ends the connection is blocked. Another request arrives, and is dispatched. */
  method BehindLast() returns (c: Conn)
    ensures c.Quiet() && |c.dispatched| >= 2 && !c.dispatched[0].keepAlive
  {
    hide Conn.Valid, Conn.Quiet, Conn.KeptOpen, Conn.Refuses, Conn.Excused, Conn.SendsBody, Conn.DispatchesAsync,
      Parse, Classify, HasFailure, LAST_REQUEST;
    LastRequestParses();
    c := Accept(LAST_REQUEST + LAST_REQUEST, _ => Inline, OK, 2 * |LAST_REQUEST|);
    Arrives(c, |LAST_REQUEST|);
    assert c.sock.inbound == LAST_REQUEST == c.sock.future && c.Buffered() == [];
    ReadEvent(c);
    assert c.Buffered() == LAST_REQUEST;
    c.DispatchInline(Parse(LAST_REQUEST, NO_LIMITS).value, 0);
    Blocks(c);
    assert c.Final();
    Arrives(c, |LAST_REQUEST|);
    assert c.sock.inbound == LAST_REQUEST == c.Buffered() + c.sock.Unread() && c.Buffered() == [];
    var panics;
    ghost var seen;
    panics, seen := c.OnReadable();
    assert seen.Some? && seen.value <= LAST_REQUEST && |seen.value| == |LAST_REQUEST|;
    assert seen.value == LAST_REQUEST;
  }

  // ---------------------------------------------------------------- empty responses

  /** All of these requests are handled on the event loop and answered without bytes, for these choices, and all but
      the last let the connection persist. */
  ghost predicate EmptyRound(c: Conn, rs: seq<Request>, choices: seq<nat>) {
    && |choices| == |rs|
    && (forall k :: 0 <= k < |rs| ==> c.dispatchOf(rs[k]) == Inline && c.handler(rs[k], choices[k]) == [])
    && (forall k :: 0 <= k < |rs| - 1 ==> rs[k].keepAlive)
  }

  /** On any connection with nothing under way, whatever came before: requests that fill the buffer exactly are answered
      without bytes. What waits behind them stays unread until more arrives: no report is pending, and nothing is
      queued that a write report would be for. */
  method Stalls(c: Conn, first: Bytes, rest: Bytes, choices: seq<nat>)
    requires c.Quiet() && c.Ready() && c.readN == 0 && c.sendBuf == [] && c.sock.inbound == [] && !c.sock.hup
    requires first + rest <= c.sock.future && |first| == c.readBuf.Length
    requires ConsumedAll(first, c.lim) == |first| && EmptyRound(c, ParseAll(first, c.lim), choices)
    modifies c, c.readBuf, c.sock
    ensures c.Quiet() && c.Ready() && c.dispatched == old(c.dispatched) + ParseAll(first, c.lim)
    ensures c.sock.inbound == rest && !c.sock.edge && c.sendBuf == [] && c.muted && !c.readDrained
    ensures c.keepAlive == ParseAll(first, c.lim)[|choices| - 1].keepAlive
    ensures rest != [] ==> !c.WillWake()
  {
    hide Conn.Valid, Conn.Quiet, Conn.KeptOpen, Conn.SendsBody, Conn.DispatchesAsync, Parse, ParseAll, ConsumedAll,
      Conn.Responds;
    ghost var before, all := c.dispatched, ParseAll(first, c.lim);
    BufferHasRoom(c);
    Arrives(c, |first| + |rest|);
    assert c.sock.inbound == first + rest;
    ReadEvent(c);
    assert c.Buffered() == first && c.sock.inbound == rest;
    var k := 0;
    while c.readN > 0
      invariant k <= |choices| && c.Valid() && c.Ready() && c.readN == |c.Buffered()| <= c.readBuf.Length
      invariant all[k..] == ParseAll(c.Buffered(), c.lim) && ConsumedAll(c.Buffered(), c.lim) == |c.Buffered()|
      invariant c.dispatched == before + all[..k] && c.sendBuf == []
      invariant if k > 0 then c.muted && c.keepAlive == all[k - 1].keepAlive else c.readN > 0
      invariant c.sock.inbound == rest && !c.sock.edge && !c.readDrained
      decreases c.readN
    {
      ghost var held := c.Buffered();
      OneOfRound(held, c.lim);
      assert all[k..][0] == all[k] && all[k..][1..] == all[k + 1..] && all[..k + 1] == all[..k] + [all[k]];
      var parsed := ParseHTTPRequest(c.readBuf[..c.readN], c.lim);
      c.DispatchInline(parsed.value, choices[k]);
      k := k + 1;
    }
    RoundIsOver(c.Buffered(), all[k..], c.lim);
    NothingToDo(c);
  }

  /** The same from the beginning: one request that persists, and a byte behind it. */
  method StallsAtOnce() returns (c: Conn)
    ensures c.Quiet() && c.Ready() && c.keepAlive && !c.WillWake()
  {
    hide Conn.Valid, Conn.Quiet, Conn.KeptOpen, Conn.SendsBody, Conn.DispatchesAsync, Parse, PERSISTENT;
    PersistentParses();
    OneRequest(PERSISTENT, NO_LIMITS);
    c := Accept(PERSISTENT + [65], _ => Inline, [], |PERSISTENT|);
    Stalls(c, PERSISTENT, [65], [0]);
  }

  /** On any connection with nothing under way: the last request is answered without bytes. What has come behind it
      is not dispatched, whole requests or not, although nothing waits in the socket and nothing is queued. */
  method LeavesBehindLast(c: Conn, first: Bytes, rest: Bytes, choice: nat)
    requires c.Quiet() && c.Ready() && c.readN == 0 && c.sendBuf == [] && c.sock.inbound == [] && !c.sock.hup
    requires first + rest <= c.sock.future && 0 < |first| && |first| + |rest| < c.readBuf.Length
    requires Parse(first, c.lim).Some? && Parse(first, c.lim).value.consumed == |first|
    requires var req := Parse(first, c.lim).value.request;
      !req.keepAlive && c.dispatchOf(req) == Inline && c.handler(req, choice) == []
    modifies c, c.readBuf, c.sock
    ensures c.Quiet() && c.Ready() && c.dispatched == old(c.dispatched) + [Parse(first, c.lim).value.request]
    ensures c.readN == |rest| <= c.readBuf.Length && c.Buffered() == rest
    ensures c.sendBuf == [] && c.sock.inbound == [] && c.LeavesOff()
  {
    hide Conn.Valid, Conn.Quiet, Conn.KeptOpen, Conn.SendsBody, Conn.DispatchesAsync, Parse, Conn.Responds;
    BufferHasRoom(c);
    Arrives(c, |first| + |rest|);
    assert c.sock.inbound == first + rest;
    ReadEvent(c);
    assert c.Buffered() == first + rest && c.sock.inbound == [];
    ParseExtends(first, rest, c.lim);
    c.DispatchInline(Parse(first + rest, c.lim).value, choice);
    assert c.Buffered() == rest;
    NothingToDo(c);
  }

  lemma OneRequest(data: Bytes, lim: Limits)
    requires Parse(data, lim).Some? && Parse(data, lim).value.consumed == |data|
    ensures ParseAll(data, lim) == [Parse(data, lim).value.request] && ConsumedAll(data, lim) == |data|
  {
    hide Parse;
    NothingConsumed(lim);
    assert data[|data|..] == [];
  }

  lemma OneOfRound(held: Bytes, lim: Limits)
    requires held != [] && ConsumedAll(held, lim) == |held|
    ensures Parse(held, lim).Some?
    ensures var p := Parse(held, lim).value;
      && ParseAll(held, lim) == [p.request] + ParseAll(held[p.consumed..], lim)
      && ConsumedAll(held[p.consumed..], lim) == |held[p.consumed..]|
  {
    hide Parse;
  }

  lemma RoundIsOver(held: Bytes, left: seq<Request>, lim: Limits)
    requires held == [] && left == ParseAll(held, lim)
    ensures left == []
  {
    hide Parse;
    NothingConsumed(lim);
  }

  lemma BufferHasRoom(c: Conn)
    requires c.Quiet() && c.readN == 0
    ensures 0 < c.readBuf.Length && c.Buffered() == [] && c.readN <= c.readBuf.Length
  {
    hide Conn.HistoryOk, Conn.StreamOk, Conn.BodyOk, Conn.OrderOk, Conn.Owed, Conn.OutputOk, Conn.HandlerOk, Parse,
      Conn.EvidenceOk, Conn.PersistOk, Conn.SuppressOk;
  }

  /** The loop has ended with nothing queued. */
  lemma NothingToDo(c: Conn)
    requires c.Valid() && c.Ready() && c.sendBuf == [] && c.muted && (c.readDrained ==> c.sock.inbound == [])
    requires c.collected || (c.readN < c.readBuf.Length && (!c.keepAlive || c.readN == 0))
    ensures c.Quiet()
  {
    hide Conn.HistoryOk, Conn.StreamOk, Conn.BodyOk, Conn.OrderOk, Conn.Owed, Conn.OutputOk, Conn.HandlerOk, Parse,
      Conn.EvidenceOk, Conn.PersistOk, Conn.SuppressOk;
    c.MutedBySilence();
    if c.readN == 0 {
      c.EmptyBuffer();
    }
  }

  // ---------------------------------------------------------------- empty lines before a body

  /** Two empty lines, a head and its body: the stream starts with a request, but what is collected for it is not
      one. */
  lemma EmptyLinesLoseRequest()
    ensures Parse(BEHIND_EMPTY + [120], NO_LIMITS).Some?
    ensures AwaitsBody(BEHIND_EMPTY, 4, 1, BEHIND_EMPTY + [120], NO_LIMITS)
    ensures Parse((BEHIND_EMPTY + [120])[..5], NO_LIMITS).None?
  {
    hide Parse, Classify, IndexTerminator, BlankPrefix;
    LostBehindEmptyLines();
    AwaitedBehindEmptyLines(BEHIND_EMPTY, 4, 1, BEHIND_EMPTY + [120], NO_LIMITS);
  }

  // ---------------------------------------------------------------- handlers in goroutines

  /** On any connection with nothing under way: a request that fills the buffer is answered in full by a goroutine. The
      completion finds nothing to do, and what waits behind the request stays unread until more arrives. */
  method Rests(c: Conn, first: Bytes, rest: Bytes)
    requires c.Quiet() && c.Ready() && c.readN == 0 && c.sendBuf == [] && c.sock.inbound == [] && !c.sock.hup
    requires first + rest <= c.sock.future && |first| == c.readBuf.Length && !c.sock.failed
    requires Parse(first, c.lim).Some? && Parse(first, c.lim).value.consumed == |first|
    requires var req := Parse(first, c.lim).value.request; req.keepAlive && c.dispatchOf(req) == Spawn
    modifies c, c.readBuf, c.sock
    ensures c.Quiet() && c.Ready() && c.keepAlive && c.readN == 0 && c.sendBuf == []
    ensures c.dispatched == old(c.dispatched) + [Parse(first, c.lim).value.request]
    ensures c.sock.inbound == rest && !c.sock.edge && c.input.rested && c.input.full
    ensures rest != [] ==> !c.WillWake()
  {
    hide Conn.Valid, Conn.Quiet, Conn.KeptOpen, Conn.SendsBody, Conn.DispatchesAsync, Parse, Conn.Responds,
      Conn.Onward;
    BufferHasRoom(c);
    Arrives(c, |first| + |rest|);
    assert c.sock.inbound == first + rest;
    ReadEvent(c);
    assert c.Buffered() == first && c.sock.inbound == rest && c.readN == c.readBuf.Length;
    c.DispatchAsync(Parse(first, c.lim).value, Spawn);
    InBounds(c);
    c.BufferedSize();
    assert first[|first|..] == [];
    FinishesFully(c);
    Persists(c);
    Completes(c);
    c.GoIdle();
  }

  // ---------------------------------------------------------------- a response before a body

  /** A request is answered, and behind it the head of one with a body has come. The body is waited for, and the
      response stays queued: no write event is registered for it. */
  method HeldBehindBody() returns (c: Conn)
    ensures c.Quiet() && !c.closed && c.bodyNeed > 0 && c.sendBuf == OK && !c.sock.outArmed && c.sock.inbound == []
    ensures |c.dispatched| == 1
  {
    hide Conn.Valid, Conn.Quiet, Conn.KeptOpen, Conn.SendsBody, Conn.DispatchesAsync, Parse, Classify, PERSISTENT,
      BODY_HEAD, WITH_BODY, Conn.Responds, Conn.Addressed;
    PersistentParses();
    c := Accept(PERSISTENT + WITH_BODY, _ => Inline, OK, |PERSISTENT| + |BODY_HEAD| + 1);
    BodyComesLast();
    Arrives(c, |PERSISTENT| + |BODY_HEAD|);
    assert c.sock.inbound == PERSISTENT + BODY_HEAD;
    ReadEvent(c);
    assert c.Buffered() == PERSISTENT + BODY_HEAD && c.sock.inbound == [];
    ParseExtends(PERSISTENT, BODY_HEAD, NO_LIMITS);
    c.DispatchInline(Parse(PERSISTENT + BODY_HEAD, NO_LIMITS).value, 0);
    assert (PERSISTENT + BODY_HEAD)[|PERSISTENT|..] == BODY_HEAD;
    WaitsBehind(c);
  }

  lemma BodyComesLast()
    ensures PERSISTENT + WITH_BODY == PERSISTENT + BODY_HEAD + [120]
  {
    hide PERSISTENT, BODY_HEAD;
  }

  /** The body is collected behind what is queued. */
  method WaitsBehind(c: Conn)
    requires c.Valid() && c.Ready() && c.readN <= c.readBuf.Length && c.Buffered() == BODY_HEAD
    requires c.lim == NO_LIMITS && c.maxInflight == 0 && c.sock.inbound == [] && !c.sock.hup
    modifies c`muted, c`input, c`readDrained, c`reserved, c`bodyNeed, c`headerSnapshot, c`bodyBuf, c`bodyHead, c`plain,
      c`readN, c.readBuf, c.sock`inbound, c.sock`failed, c.sock`startled
    ensures c.Quiet() && !c.closed && c.bodyNeed > 0 && c.sock.inbound == []
  {
    hide Conn.HistoryOk, Conn.StreamOk, Conn.OrderOk, Conn.Owed, Conn.OutputOk, Conn.HandlerOk, Conn.EvidenceOk,
      Conn.PersistOk, Conn.SendsBody, Conn.DispatchesAsync, AwaitsBody, Parse, Classify, IndexTerminator, BODY_HEAD,
      PERSISTENT;
    BodyHeadWaits();
    c.readDrained := false;
    ghost var charged;
    var fits;
    fits, charged := c.ChargeBody(1);
    c.SetHeaderAside(|BODY_HEAD|, 1);
    assert c.headerSnapshot == BODY_HEAD && c.bodyBuf + c.Buffered() == [];
    c.HasBody();
    var r := c.RecvNow();
    c.WaitsForBody();
  }

  // ---------------------------------------------------------------- a request behind a body

  /** Two requests that persist arrive together, and the first has a body, which is collected. It is answered without
      bytes, and the second is not dispatched although it is in the buffer. */
  method LeavesBehindBody() returns (c: Conn)
    ensures c.Quiet() && c.Ready() && c.keepAlive && |c.dispatched| == 1 && c.sendBuf == [] && c.sock.inbound == []
    ensures c.LeavesOff() && c.readN <= c.readBuf.Length && c.Buffered() == PERSISTENT && Parse(PERSISTENT, c.lim).Some?
  {
    hide Conn.Valid, Conn.Quiet, Conn.KeptOpen, Conn.SendsBody, Conn.DispatchesAsync, Parse, Classify, PERSISTENT,
      BODY_HEAD, WITH_BODY;
    PersistentParses();
    BodyHeadWaits();
    c := ReadsBodyHead();
    var full := CollectsBody(c);
    assert WITH_BODY != [];
    c.AnswerInHand(Parse(full, NO_LIMITS).value.request);
    NothingToDo(c);
  }

  /** The buffer takes no more than the head. */
  method ReadsBodyHead() returns (c: Conn)
    ensures fresh(c) && fresh(c.readBuf) && fresh(c.sock) && c.lim == NO_LIMITS && c.maxInflight == 0
    ensures c.Valid() && c.Ready() && c.readN <= c.readBuf.Length && c.Buffered() == BODY_HEAD
    ensures c.dispatched == [] && c.sendBuf == []
    ensures (forall r, n :: c.handler(r, n) == []) && forall r :: !c.upgradesOnly(r)
    ensures c.sock.inbound == [120] + PERSISTENT && !c.sock.hup && c.readBuf.Length > |PERSISTENT| + 1
  {
    hide Conn.Valid, Conn.Quiet, Conn.KeptOpen, Conn.SendsBody, Conn.DispatchesAsync, Parse, Classify;
    c := Accept(WITH_BODY + PERSISTENT, _ => Inline, [], |BODY_HEAD|);
    Arrives(c, |WITH_BODY + PERSISTENT|);
    assert WITH_BODY + PERSISTENT == BODY_HEAD + ([120] + PERSISTENT);
    ReadEvent(c);
    assert c.Buffered() == BODY_HEAD;
  }

  // ---------------------------------------------------------------- a remembered read event on an empty socket

  /** A read event while a handler is running. */
  method SuppressedEvent(c: Conn)
    requires c.Quiet() && c.pending > 0 && c.sock.Readable()
    modifies c`readSuppressed, c`readDrained, c`input, c.sock`edge
    ensures c.Quiet() && c.readSuppressed
  {
    hide Conn.HistoryOk, Conn.StreamOk, Conn.BodyOk, Conn.OrderOk, Conn.Owed, Conn.OutputOk, Parse, Conn.EvidenceOk,
      Conn.PersistOk, Conn.SendsBody, Conn.DispatchesAsync;
    c.TakeReport();
    c.PendingIsAsync();
    c.Suppress();
  }

  /** The handler's goroutine writes its whole response itself. */
  method FinishesFully(c: Conn)
    requires c.Quiet() && c.job.Some? && c.job.value.directWrite
    modifies c`job, c`done, c`outputs, c.sock`wire
    ensures c.Quiet() && c.job.None? && c.done == Some(DoneMsg([], old(c.job.value.keepAlive)))
    ensures |c.outputs| == |old(c.outputs)| + 1 && old(c.outputs) <= c.outputs && c.outputs[|old(c.outputs)|].Answer?
  {
    hide Conn.Rest, Conn.Unfinished, Conn.BudgetOk, Conn.SuppressOk, InOrder, Conn.HistoryOk, Conn.StreamOk,
      Conn.BodyOk, Conn.OrderOk, Conn.Owed, Conn.OutputOk, Parse, Conn.EvidenceOk, Conn.PersistOk, Conn.SendsBody,
      Conn.DispatchesAsync, Conn.Responds;
    c.PendingIsAsync();
    var data := c.Serve(c.job.value.req);
    ghost var before := c.sock.wire;
    c.BeforeReport();
    c.sock.Transmit(data);
    assert c.sock.wire + [] == before + data;
    c.Report(data, [], before);
  }

  /** Its completion is taken; the connection persists. */
  method Completes(c: Conn)
    requires c.Quiet() && c.done.Some? && c.done.value == DoneMsg([], true) && !c.closePending
    modifies c`pending, c`done, c`keepAlive, c`sendBuf
    ensures c.Valid() && c.Ready() && c.keepAlive && c.sendBuf == old(c.sendBuf)
  {
    hide Conn.HistoryOk, Conn.StreamOk, Conn.OrderOk, Conn.Owed, Conn.OutputOk, Parse, Conn.EvidenceOk,
      Conn.PersistOk, Conn.SendsBody, Conn.DispatchesAsync;
    c.TakeDone();
  }

  /** The body and the next request are read, and the body completes its request. */
  method CollectsBody(c: Conn) returns (full: Bytes)
    requires c.Valid() && c.Ready() && c.Buffered() == BODY_HEAD && c.lim == NO_LIMITS && c.maxInflight == 0
    requires c.sock.inbound == [120] + PERSISTENT && !c.sock.hup && c.readBuf.Length > |PERSISTENT| + 1
    modifies c`muted, c`input, c`readDrained, c`reserved, c`bodyNeed, c`headerSnapshot, c`bodyBuf, c`bodyHead, c`plain,
      c`readN, c`inHand, c.readBuf, c.sock`inbound, c.sock`failed, c.sock`startled
    ensures c.Valid() && !c.closed && c.pending == 0 && c.bodyNeed == 0 && c.inHand == full == WITH_BODY
      && !c.readDrained
    ensures c.readN <= c.readBuf.Length && c.Buffered() == PERSISTENT && c.sock.inbound == []
    ensures c.sock.failed == old(c.sock.failed) && c.sock.startled == old(c.sock.startled)
  {
    hide Conn.HistoryOk, Conn.StreamOk, Conn.OrderOk, Conn.Owed, Conn.OutputOk, Conn.HandlerOk, Conn.EvidenceOk,
      Conn.PersistOk, Conn.SendsBody, Conn.DispatchesAsync, AwaitsBody, Parse, Classify, IndexTerminator, BODY_HEAD,
      PERSISTENT;
    BodyHeadWaits();
    c.readDrained := false;
    ghost var charged;
    var fits;
    fits, charged := c.ChargeBody(1);
    c.SetHeaderAside(|BODY_HEAD|, 1);
    assert c.headerSnapshot == BODY_HEAD && c.bodyBuf + c.Buffered() == [];
    ReadsBody(c);
    ghost var taken, need;
    full, taken, need := c.TakeBody();
  }

  method ReadsBody(c: Conn)
    requires c.Valid() && c.bodyNeed == 1 && c.bodyBuf == [] && c.readN == 0 && c.readBuf.Length > |PERSISTENT| + 1
      && !c.readDrained
    requires c.sock.inbound == [120] + PERSISTENT && !c.sock.hup
    modifies c`muted, c`input, c`bodyBuf, c`readN, c.readBuf, c.sock`inbound, c.sock`failed, c.sock`startled
    ensures c.Valid() && c.bodyBuf == [120] && c.readN <= c.readBuf.Length && c.Buffered() == PERSISTENT
    ensures c.sock.inbound == [] && c.sock.failed == old(c.sock.failed) && c.sock.startled == old(c.sock.startled)
  {
    hide Conn.HistoryOk, Conn.StreamOk, Conn.OrderOk, Conn.Owed, Conn.OutputOk, Conn.HandlerOk, Conn.EvidenceOk,
      Conn.PersistOk, Conn.SendsBody, Conn.DispatchesAsync, AwaitsBody, Parse, PERSISTENT;
    c.HasBody();
    var r := c.RecvNow();
    assert c.Buffered() == [120] + PERSISTENT;
    c.FeedBody();
    OneByteBody(c.bodyBuf, c.Buffered());
    c.HasBody();
    r := c.RecvNow();
  }

  lemma OneByteBody(body: Bytes, rest: Bytes)
    requires body + rest == [120] + PERSISTENT && |body| == 1
    ensures body == [120] && rest == PERSISTENT
  {
    hide PERSISTENT;
    assert (body + rest)[..1] == body && (body + rest)[1..] == rest;
  }

  /** The collected request is answered, and the socket takes the whole response. */
  method AnswersBody(c: Conn, req: Request)
    requires c.Valid() && !c.closed && c.pending == 0 && c.bodyNeed == 0 && !c.readDrained && c.sendBuf == []
    requires c.inHand != [] && Parse(c.inHand, c.lim) == Some(Parsed(req, |c.inHand|)) && !c.upgradesOnly(req)
    modifies c`consumed, c`dispatched, c`collected, c`inHand, c`keepAlive, c`sendBuf, c`sendN, c`outputs, c`muted,
      c.sock`wire
    ensures c.Valid() && c.Ready() && c.sendBuf == [] && c.keepAlive == req.keepAlive
    ensures c.dispatched == old(c.dispatched) + [req]
    ensures |c.outputs| == |old(c.outputs)| + 1 && old(c.outputs) <= c.outputs && c.outputs[|old(c.outputs)|].Answer?
  {
    hide Conn.HistoryOk, Conn.StreamOk, Conn.Owed, Conn.EvidenceOk, Conn.PersistOk, Conn.SendsBody,
      Conn.DispatchesAsync, AwaitsBody, Parse, Classify, Render, InOrder;
    c.AnswerInHand(req);
    Taken(c);
  }

  /** The socket takes everything that is queued. */
  method Taken(c: Conn)
    requires c.Valid() && c.Ready()
    modifies c`sendBuf, c`sendN, c.sock`wire
    ensures c.Valid() && c.sendBuf == []
  {
    hide Conn.HistoryOk, Conn.StreamOk, Conn.BodyOk, Conn.Owed, Conn.EvidenceOk, Conn.PersistOk, Conn.SendsBody,
      Conn.DispatchesAsync, Parse, Classify, Render, InOrder;
    c.ReadyFacts();
    assert Render(c.outputs) == c.sock.wire + c.sendBuf[c.sendN..] + [];
    c.sock.Transmit(c.sendBuf[c.sendN..]);
    c.sendBuf, c.sendN := [], 0;
    assert Render(c.outputs) == c.sock.wire + [] + [];
  }

  /** The remembered read event: nothing is there to read, and the connection is closed. */
  method ReadsEmpty(c: Conn)
    requires c.Valid() && c.Ready() && c.readSuppressed && c.readN == 0 && !c.sock.Readable()
    modifies c`muted, c`input, c`readSuppressed, c`readDrained, c`readN, c.readBuf, c.sock`inbound, c.sock`failed,
      c.sock`startled, c`closed, c`bodyNeed, c`reserved, c`bodyBuf, c`headerSnapshot, c`inHand
    ensures c.Quiet() && c.closed && c.sock.startled && c.sock.failed == old(c.sock.failed)
  {
    hide Conn.HistoryOk, Conn.StreamOk, Conn.BodyOk, Conn.OrderOk, Conn.Owed, Conn.OutputOk, Conn.HandlerOk, Parse,
      Conn.EvidenceOk, Conn.PersistOk, Conn.SendsBody, Conn.DispatchesAsync, Conn.TakenLeave, Unservable;
    c.readSuppressed, c.readDrained := false, false;
    var r := c.RecvNow(true);
    c.Shut();
  }

  /** Nobody has done anything wrong: three persistent requests, three answers, no failure, no deadline. */
  ghost predicate Flawless(c: Conn)
    reads c, c.sock
  {
    && c.peer == PERSISTENT + WITH_BODY + PERSISTENT && c.lim == NO_LIMITS
    && !c.sock.failed && !c.sock.timedOut
    && (forall i :: 0 <= i < |c.outputs| ==> c.outputs[i].Answer?)
    && (forall i :: 0 <= i < |c.dispatched| ==> !c.Ends(c.dispatched[i]))
  }

  /** The first request and the head of the second arrive together and are read. */
  method ReadsTwo() returns (c: Conn)
    ensures fresh(c) && fresh(c.readBuf) && fresh(c.sock) && Flawless(c) && Settings(c)
    ensures c.Valid() && c.Ready() && c.readN <= c.readBuf.Length && c.Buffered() == PERSISTENT + BODY_HEAD
    ensures |c.dispatched| == |c.outputs| == 0
    ensures c.sendBuf == [] && c.sock.inbound == [] && c.sock.future == [120] + PERSISTENT && !c.sock.hup
      && !c.sock.startled
  {
    hide Conn.Valid, Conn.Quiet, Conn.KeptOpen, Conn.SendsBody, Conn.DispatchesAsync, Parse, Classify, PERSISTENT,
      BODY_HEAD;
    PersistentParses();
    var first := PERSISTENT + BODY_HEAD;
    c := Accept(PERSISTENT + WITH_BODY + PERSISTENT, _ => Spawn, OK, |PERSISTENT| + |BODY_HEAD| + 2);
    assert c.peer == first + ([120] + PERSISTENT);
    Arrives(c, |first|);
    assert c.sock.inbound == first && c.sock.future == [120] + PERSISTENT && c.Buffered() == [];
    ReadEvent(c);
    assert c.Buffered() == first && c.sock.inbound == [];
  }

  /** A request in front of the buffer goes to a goroutine. */
  method HandsOver(c: Conn, ghost rest: Bytes)
    requires c.Valid() && c.Ready() && Settings(c) && Flawless(c) && c.sendBuf == []
    requires c.readN <= c.readBuf.Length && c.Buffered() == PERSISTENT + rest
    modifies c`readN, c.readBuf, c`consumed, c`dispatched, c`collected, c`keepAlive, c`pending, c`job, c`done,
      c`outputs, c`plain, c`muted, c`input, c`readDrained, c.sock`outArmed, c.sock`registered, c.sock`edge
    ensures c.Quiet() && Flawless(c) && Direct(c) && c.readN <= c.readBuf.Length && c.Buffered() == rest
    ensures |c.dispatched| == |old(c.dispatched)| + 1 && c.outputs == old(c.outputs)
  {
    hide Conn.Valid, Conn.Quiet, Conn.KeptOpen, Conn.SendsBody, Conn.DispatchesAsync, Parse, Classify, PERSISTENT,
      BODY_HEAD, Conn.Onward, Conn.Addressed;
    PersistentParses();
    ParseExtends(PERSISTENT, rest, NO_LIMITS);
    InBounds(c);
    c.DispatchAsync(Parse(c.readBuf[..c.readN], NO_LIMITS).value, Spawn);
    InBounds(c);
    assert (PERSISTENT + rest)[|PERSISTENT|..] == rest;
  }

  lemma InBounds(c: Conn)
    requires c.Valid() || c.Quiet()
    ensures c.readN <= c.readBuf.Length
  {
    hide Conn.HistoryOk, Conn.StreamOk, Conn.BodyOk, Conn.OrderOk, Conn.Owed, Conn.OutputOk, Conn.HandlerOk, Parse,
      Conn.EvidenceOk, Conn.PersistOk, Conn.SendsBody, Conn.DispatchesAsync, Conn.TakenLeave, Unservable;
  }

  ghost predicate Settings(c: Conn) {
    && c.maxInflight == 0 && c.readBuf.Length == |PERSISTENT| + |BODY_HEAD| + 2
    && (forall r, n :: c.handler(r, n) == OK) && (forall r :: c.dispatchOf(r) == Spawn && !c.upgradesOnly(r))
  }

  /** A handler is running that may write its response itself, for a request that persists. */
  ghost predicate Direct(c: Conn)
    reads c
  {
    && c.pending == 1 && !c.closed && c.sendBuf == [] && c.bodyNeed == 0 && c.inHand == []
    && c.job.Some? && c.job.value.directWrite && c.job.value.keepAlive
  }

  lemma Persists(c: Conn)
    requires c.Quiet() && !c.sock.failed
    ensures !c.closePending
  {
    hide Conn.HistoryOk, Conn.StreamOk, Conn.BodyOk, Conn.OrderOk, Conn.Owed, Conn.OutputOk, Parse, Conn.EvidenceOk,
      Conn.PersistOk, Conn.SendsBody, Conn.DispatchesAsync, Conn.TakenLeave, Unservable;
  }

  /** The first completion: the second request is collected and answered. */
  method SecondAnswered(c: Conn)
    requires c.Quiet() && Settings(c) && Flawless(c) && c.done == Some(DoneMsg([], true)) && c.sendBuf == []
    requires c.bodyNeed == 0 && c.inHand == [] && !c.closed && c.readSuppressed
    requires c.readN <= c.readBuf.Length && c.Buffered() == BODY_HEAD
    requires c.sock.inbound == [120] + PERSISTENT && !c.sock.hup
    modifies c, c.readBuf, c.sock
    ensures c.Valid() && c.Ready() && Flawless(c) && c.sendBuf == [] && c.readSuppressed && !c.sock.Readable()
    ensures c.readN <= c.readBuf.Length && c.Buffered() == PERSISTENT
    ensures |c.dispatched| == |old(c.dispatched)| + 1 && |c.outputs| == |old(c.outputs)| + 1
  {
    hide Conn.Valid, Conn.Quiet, Conn.KeptOpen, Conn.SendsBody, Conn.DispatchesAsync, Parse, Classify, PERSISTENT,
      BODY_HEAD, WITH_BODY;
    BodyHeadWaits();
    Persists(c);
    Completes(c);
    var full := CollectsBody(c);
    assert WITH_BODY != [];
    AnswersBody(c, Parse(full, NO_LIMITS).value.request);
  }

  /** And the third goes to a goroutine. */
  method SecondBody(c: Conn)
    requires c.Quiet() && Settings(c) && Flawless(c) && c.done == Some(DoneMsg([], true)) && c.sendBuf == []
    requires c.bodyNeed == 0 && c.inHand == [] && !c.closed && c.readSuppressed
    requires c.readN <= c.readBuf.Length && c.Buffered() == BODY_HEAD
    requires c.sock.inbound == [120] + PERSISTENT && !c.sock.hup
    modifies c, c.readBuf, c.sock
    ensures c.Quiet() && Flawless(c) && Direct(c) && c.readN == 0 && c.readSuppressed && !c.sock.Readable()
    ensures |c.dispatched| == |old(c.dispatched)| + 2 && |c.outputs| == |old(c.outputs)| + 1
  {
    hide Conn.Valid, Conn.Quiet, Conn.KeptOpen, Conn.SendsBody, Conn.DispatchesAsync, Flawless, PERSISTENT,
      BODY_HEAD;
    SecondAnswered(c);
    assert PERSISTENT + [] == PERSISTENT;
    HandsOver(c, []);
  }

  /** Flawless requests, all of which persist, and their answers; and still the connection is closed. The rest of
      the second request and the third arrive while the first is being handled, and that event is remembered. The
      first completion goes on with the second request, whose body takes everything there is to read. The second
      completion goes on with the remembered event. */
  method Startled() returns (c: Conn)
    ensures Flawless(c) && c.Quiet() && c.closed && c.sock.startled && |c.dispatched| == |c.outputs| == 3
  {
    hide Conn.Valid, Conn.Quiet, Conn.KeptOpen, Conn.SendsBody, Conn.DispatchesAsync, Conn.Addressed, Settings,
      PERSISTENT, BODY_HEAD, WITH_BODY;
    c := SecondWaits();
    FinishesFully(c);
    SecondBody(c);
    FinishesFully(c);
    Persists(c);
    Completes(c);
    ReadsEmpty(c);
  }

  /** The first request is being handled, the head of the second is in the buffer, and the rest waits in the socket. */
  method SecondWaits() returns (c: Conn)
    ensures fresh(c) && fresh(c.readBuf) && fresh(c.sock) && Flawless(c) && Settings(c)
    ensures c.Quiet() && Direct(c) && c.readSuppressed && c.readN <= c.readBuf.Length && c.Buffered() == BODY_HEAD
    ensures c.sock.inbound == [120] + PERSISTENT && !c.sock.hup && |c.dispatched| == 1 && |c.outputs| == 0
  {
    hide Conn.Valid, Conn.Quiet, Conn.KeptOpen, Conn.SendsBody, Conn.DispatchesAsync, Conn.Addressed, Settings,
      PERSISTENT, BODY_HEAD, WITH_BODY;
    c := ReadsTwo();
    HandsOver(c, BODY_HEAD);
    Arrives(c, |[120] + PERSISTENT|);
    SuppressedEvent(c);
  }
}
