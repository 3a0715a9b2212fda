/** What the state of a connection promises, in every state that the event loop and its environment can reach:
    each step in WingConnection keeps `Quiet`, and these are its consequences. */
module WingResults {
  import opened Bytes
  import opened HttpParser
  import opened HttpClassifier
  import opened HttpPipelining
  import opened HttpVerdicts
  import opened WingStream
  import opened WingOutputs
  import opened WingConnection

  /** What has been read so far, in the order of the stream. */
  ghost function Received(c: Conn): Bytes
    reads c, c.readBuf
    requires c.readN <= c.readBuf.Length
  {
    c.consumed + (c.headerSnapshot + c.bodyBuf + c.readBuf[..c.readN])
  }

  /** Nothing received is lost, repeated or reordered. */
  lemma EveryByteIsAccountedFor(c: Conn)
    requires c.Quiet() && !c.closed
    ensures Received(c) + c.sock.Unread() == c.peer
    ensures Consumed(c.consumed, c.dispatched, c.lim)
  {
    hide Consumed, Conn.BodyOk, Conn.HandlerOk, Conn.OrderOk, Conn.OutputOk, Conn.EvidenceOk, Conn.PersistOk,
      Conn.Settled;
    Regroup(c.consumed, c.headerSnapshot + c.bodyBuf, c.readBuf[..c.readN], c.sock.Unread());
  }

  lemma Regroup(a: Bytes, b: Bytes, c: Bytes, d: Bytes)
    ensures a + ([] + (b + (c + d))) == a + (b + c) + d
  {
    assert b + (c + d) == b + c + d;
    assert a + (b + c + d) == a + (b + c) + d;
  }

  /** However the stream is cut into reads, and whenever the connection ends, the requests dispatched are the
      first ones of those that parsing the whole stream gives. */
  lemma DispatchedInStreamOrder(c: Conn)
    requires c.Valid()
    ensures c.dispatched <= ParseAll(c.peer, c.lim)
  {
    hide ParseAll, Consumed, ConsumedAll, Conn.BodyOk, Conn.HandlerOk, Conn.OrderOk, Conn.OutputOk, Conn.EvidenceOk;
    c.ConsumedIsPrefix();
    DispatchedIsPrefix(c.consumed, c.dispatched, c.peer[|c.consumed|..], c.lim);
    assert c.consumed + c.peer[|c.consumed|..] == c.peer;
  }

  /** Nothing else is going on that would come back to the bytes held: no handler, no unsent output. */
  ghost predicate CaughtUp(c: Conn)
    reads c
  {
    !c.closed && c.pending == 0 && (c.bodyNeed > 0 || c.sendBuf == [])
  }

  /** Parsing has been left off behind an empty response, and there is a request. */
  ghost predicate LeavesRequest(c: Conn)
    reads c, c.readBuf
    requires c.readN <= c.readBuf.Length
  {
    c.bodyNeed == 0 && c.LeavesOff() && Parse(c.Buffered(), c.lim).Some?
  }

  /** And nothing that could be answered waits: what the buffer holds then is the beginning of a header at most. Bytes
      that can never be a request have got their error response, and a body is waited for elsewhere. */
  lemma NothingHopelessWaits(c: Conn)
    requires c.Quiet() && CaughtUp(c) && c.bodyNeed == 0 && !c.LeavesOff()
    ensures !HasTerminator(c.Buffered())
  {
    hide Conn.Valid, Conn.Awake, Conn.KeptOpen, Conn.CloseOk, Conn.Addressed, Conn.Accounted, Parse, Classify,
      HasTerminator;
    NeedHeaderMoreExactly(c.Buffered(), c.lim);
  }

  /** Then every request received has been dispatched, and no other, except exactly where parsing has been left off in
      front of one. */
  lemma EverythingReceivedIsDispatched(c: Conn)
    requires c.Quiet() && CaughtUp(c)
    ensures c.dispatched == ParseAll(Received(c), c.lim) <==> !LeavesRequest(c)
  {
    hide Conn.EvidenceOk, Conn.PersistOk, Conn.EdgeOk, Conn.SuppressOk, Conn.FailedOk, Conn.BudgetOk, Conn.CloseOk,
      Conn.KeptOpen, Conn.HasRoom, Conn.Addressed, Conn.Awake, ParseAll, Consumed, ConsumedAll, Parse,
      Conn.HandlerOk, Conn.OrderOk, Conn.OutputOk, AwaitsBody, Conn.LeavesOff;
    var held := c.headerSnapshot + c.bodyBuf + c.readBuf[..c.readN];
    if c.bodyNeed > 0 {
      assert held + c.sock.Unread() == c.Rest();
      if Parse(held, c.lim).Some? {
        AwaitedRequest(c.bodyHead, |c.headerSnapshot|, c.bodyNeed, c.Rest(), held, c.lim);
      }
    } else {
      assert held == c.Buffered();
    }
    DispatchedIsAll(c.consumed, c.dispatched, held, c.lim);
  }

  /** Two connections that have read the same bytes, in whatever portions, have dispatched the same requests. */
  lemma SegmentationIndependence(c: Conn, d: Conn)
    requires c.Quiet() && CaughtUp(c) && !LeavesRequest(c) && d.Quiet() && CaughtUp(d) && !LeavesRequest(d)
    requires c.lim == d.lim && Received(c) == Received(d)
    ensures c.dispatched == d.dispatched
  {
    hide ParseAll, Conn.Quiet, Received, LeavesRequest;
    EverythingReceivedIsDispatched(c);
    EverythingReceivedIsDispatched(d);
  }

  /** The wire has a prefix of the outputs, which are in request order: one answer a request, which is a response to
      that very request, and at most one request is unanswered, the one a handler is working on. */
  lemma ResponsesInRequestOrder(c: Conn)
    requires c.Valid()
    ensures c.sock.wire <= Render(c.outputs)
    ensures InOrder(c.outputs)
    ensures c.pending <= 1
    ensures |AnswerList(c.outputs)| <= |c.dispatched| <= |AnswerList(c.outputs)| + c.pending
    ensures forall k :: 0 <= k < |AnswerList(c.outputs)| ==> c.Answered(c.dispatched[k], AnswerList(c.outputs)[k])
    ensures c.job.Some? ==> c.dispatched != [] && c.job.value.req == c.dispatched[|c.dispatched| - 1]
    ensures c.job.Some? && c.job.value.directWrite ==> c.sendBuf == []
  {
    hide Render, InOrder, Answers, AnswerList, Conn.BodyOk, Conn.StreamOk, Conn.HistoryOk, Conn.OutputOk,
      Conn.Answered, Conn.DispatchesAsync, Conn.SendsBody, Conn.Refuses, EndsEmptily;
    forall k | 0 <= k < |AnswerList(c.outputs)| ensures c.Answered(c.dispatched[k], AnswerList(c.outputs)[k]) {
      var i := AnswerAt(c.outputs, k);
      assert c.Due(c.outputs[i], c.dispatched);
    }
  }

  /** Without errors and interim responses the wire has a prefix of the answers, one after the other. */
  lemma WireIsAnswers(c: Conn)
    requires c.Valid() && forall i :: 0 <= i < |c.outputs| ==> c.outputs[i].Answer?
    ensures c.sock.wire <= Joined(AnswerList(c.outputs))
  {
    hide Render, AnswerList, Joined, Conn.BodyOk, Conn.StreamOk, Conn.HistoryOk, Conn.OutputOk, Conn.EvidenceOk;
    RenderIsJoined(c.outputs);
  }

  /** When nothing is queued and no handler is running, every answer is on the wire in full. */
  lemma AllAnswersSent(c: Conn)
    requires c.Quiet() && !c.closed && c.pending == 0 && c.sendBuf == []
    ensures c.sock.wire == Render(c.outputs) && |AnswerList(c.outputs)| == |c.dispatched|
  {
    hide Render, InOrder, Answers, Conn.BodyOk, Conn.StreamOk, Conn.HistoryOk, Conn.EvidenceOk;
    assert c.sendBuf[c.sendN..] == [];
    assert c.sock.wire + [] + [] == c.sock.wire;
  }

  /** Every output is on the wire in full, or a write event is registered that goes on with sending, or a completion is
      still to come, or a body is awaited, whose request is answered behind it. */
  lemma UnsentIsScheduled(c: Conn)
    requires c.Quiet() && !c.closed
    ensures c.sock.wire == Render(c.outputs) || c.sock.outArmed || c.pending > 0 || c.bodyNeed > 0
    ensures c.sendBuf != [] && c.bodyNeed == 0 ==> c.sock.outArmed
  {
    hide Render, InOrder, Answers, Conn.BodyOk, Conn.StreamOk, Conn.HistoryOk, Conn.EvidenceOk, EndsEmptily;
    assert c.sendBuf[c.sendN..] == [] ==> c.sock.wire + [] + [] == c.sock.wire;
  }

  /** No request of the peer has a body, and every request is handled on the event loop. */
  ghost predicate BodilessAndInline(c: Conn)
    reads c
  {
    && (forall i :: 0 <= i < |c.dispatched| ==> c.dispatchOf(c.dispatched[i]) == Inline)
    && (forall i, j :: 0 <= i <= j <= |c.peer| && ConsumedAll(c.peer[..i], c.lim) == i ==>
          Classify(c.peer[i..j], c.lim).status != NeedBody)
  }

  /** The last answer left the queue empty, and the read before it filled the buffer: nothing makes the connection read
      on, and there may be more to read. */
  ghost predicate LeftUnread(c: Conn)
    reads c
  {
    c.muted && !c.readDrained
  }

  /** Otherwise no readiness is lost: whatever waits unread will be reported, or the connection is waiting to send and
      will read after that. In that state exactly what no new report has come for is left waiting. */
  lemma NoLostEdge(c: Conn)
    requires c.Quiet() && !c.closed && BodilessAndInline(c)
    ensures !LeftUnread(c) ==> c.WillWake()
    ensures LeftUnread(c) ==> (c.WillWake() <==> c.sock.inbound == [] || c.sock.edge)
    ensures LeftUnread(c) ==> EndsEmptily(c.outputs) && c.sendBuf == []
  {
    hide Classify, EndsEmptily, Conn.BodyOk, Conn.StreamOk, Conn.HistoryOk, Conn.OrderOk, Conn.OutputOk;
  }

  /** The last answer was empty, or the last completion had nothing left to do; and the read before it filled the
      buffer, or a write event has used up a report of input since. */
  ghost predicate LeftForgotten(c: Conn)
    reads c
  {
    (c.muted || c.input.rested) && (c.input.full || c.input.spent || c.readSuppressed)
  }

  /** The same for every connection, whatever its requests and its handlers: bytes that wait with no report pending are
      read after the write event that is registered, or after the completion that is to come, or they are forgotten;
      while a body is collected, only a write event may have used up their report, or that of the end of the input. */
  lemma NothingElseIsForgotten(c: Conn)
    requires c.Quiet() && !c.closed && !c.sock.edge
    ensures c.sock.inbound != [] && c.pending == 0 && c.bodyNeed == 0 ==>
      (c.sendBuf != [] && c.sock.outArmed) || LeftForgotten(c)
    ensures c.sock.Readable() && c.bodyNeed > 0 ==> c.input.spent
    ensures c.sock.inbound != [] ==> !c.readDrained
  {
    hide EndsEmptily, Conn.BodyOk, Conn.StreamOk, Conn.HistoryOk, Conn.OrderOk, Conn.OutputOk, Conn.EvidenceOk;
  }

  /** An idle connection has room to read, unless a collected request was answered emptily; and unless its last response
      was empty, it is to be kept open by its last request. */
  lemma IdleIsPersistent(c: Conn)
    requires c.Quiet() && !c.closed && c.pending == 0 && c.bodyNeed == 0 && c.sendBuf == []
    ensures !(c.muted && c.collected) ==> c.readN < c.readBuf.Length
    ensures !EndsEmptily(c.outputs) && c.outputs != [] ==> c.keepAlive && !c.outputs[|c.outputs| - 1].Failure?
    ensures !EndsEmptily(c.outputs) && c.outputs != [] && c.dispatched != [] ==>
      c.dispatched[|c.dispatched| - 1].keepAlive
  {
    hide EndsEmptily, Conn.BodyOk, Conn.StreamOk, Conn.HistoryOk, Conn.OrderOk, Conn.OutputOk;
  }

  /** A read that follows a report of readiness finds something, unless a request has been handed to another goroutine
      and another one had a body to wait for. */
  lemma StartledByBoth(c: Conn)
    requires c.Valid() && c.sock.startled
    ensures c.DispatchesAsync(c.dispatched) && c.SendsBody()
  {
    hide Conn.BodyOk, Conn.StreamOk, Conn.HistoryOk, Conn.OrderOk, Conn.OutputOk, Conn.EvidenceOk, Conn.PersistOk,
      Conn.DispatchesAsync, Conn.SendsBody;
  }

  /** Neither the network nor a clock has got in the way, the last response had bytes, and handlers in other
      goroutines do not come together with bodies. */
  ghost predicate Undisturbed(c: Conn)
    reads c, c.sock
  {
    && !c.sock.failed && !c.sock.timedOut && !EndsEmptily(c.outputs)
    && !(c.DispatchesAsync(c.dispatched) && c.SendsBody())
  }

  /** An undisturbed connection on which the peer has not gone wrong is closed only after the last request or an
      error has asked for it, and then every answer is on the wire in full. */
  lemma AnsweredBeforeClosing(c: Conn)
    requires c.Quiet() && c.closed && Undisturbed(c)
    requires !Unservable(c.peer[|c.consumed|..], c.lim)
    ensures c.sock.wire == Render(c.outputs) && |AnswerList(c.outputs)| == |c.dispatched|
    ensures HasFailure(c.outputs) || (c.dispatched != [] && c.Ends(c.dispatched[|c.dispatched| - 1]))
  {
    hide Render, Answers, HasFailure, EndsEmptily, Unservable, Conn.BodyOk, Conn.StreamOk, Conn.HistoryOk,
      Conn.OrderOk, Conn.OutputOk, Conn.EvidenceOk, Conn.PersistOk, Conn.SuppressOk, Conn.DispatchesAsync,
      Conn.SendsBody;
    if c.sock.startled {
      StartledByBoth(c);
    }
  }

  /** In a stream that consists of requests, no bytes from the end of one on rule out a request. */
  lemma GoodStreamServes(peer: Bytes, i: nat, j: nat, lim: Limits)
    requires i <= j <= |peer| && peer != [] && ConsumedAll(peer, lim) == |peer| && ConsumedAll(peer[..i], lim) == i
    ensures !NeverARequest(peer[i..j], lim)
  {
    hide Parse;
    var rest := peer[i..];
    ParseAllExtends(peer[..i], rest, lim);
    assert peer[..i] + rest == peer && peer[..i][i..] + rest == rest;
    if rest == [] {
      assert peer[i..j] + peer == peer;
    } else {
      assert peer[i..j] + peer[j..] == rest;
    }
  }

  /** What is left of a stream of requests behind some of them is a stream of requests, the next one first. */
  lemma NextInGoodStream(peer: Bytes, i: nat, lim: Limits)
    requires i < |peer| && ConsumedAll(peer, lim) == |peer| && ConsumedAll(peer[..i], lim) == i
    ensures Parse(peer[i..], lim).Some? && |ParseAll(peer[..i], lim)| < |ParseAll(peer, lim)|
    ensures Parse(peer[i..], lim).value.request == ParseAll(peer, lim)[|ParseAll(peer[..i], lim)|]
  {
    hide Parse;
    var rest := peer[i..];
    ParseAllExtends(peer[..i], rest, lim);
    assert peer[..i] + rest == peer && peer[..i][i..] + rest == rest;
  }

  /** If bytes from the front of a stream of requests may be refused, then its first request has a body and there is a
      budget for bodies, or its head is longer than the buffer. */
  lemma RefusedForSize(rest: Bytes, d: Bytes, size: nat, budget: nat, lim: Limits)
    requires d <= rest && Refusable(d, size, budget, lim) && !NeverARequest(d, lim) && size > 0
    requires rest != [] ==> Parse(rest, lim).Some?
    ensures Parse(rest, lim).Some?
    ensures (budget > 0 && Parse(rest, lim).value.request.body != []) || HeadLength(rest, lim) > size
  {
    hide Parse, Classify, NeverARequest, HeadLength;
    var more := rest[|d|..];
    assert d + more == rest;
    NeedHeaderMoreExactly(d, lim);
    if Classify(d, lim).status == NeedBody {
      assert rest != [] by { NothingNeedsNoBody(d, lim); }
      OnlyBodyMissing(d, more, lim);
      Conn.NeedIsPositive(d, lim);
    } else if HeadLength(rest, lim) <= size {
      HeadHasTerminator(rest, d, lim);
    }
  }

  lemma NothingNeedsNoBody(d: Bytes, lim: Limits)
    requires Classify(d, lim).status == NeedBody
    ensures d != []
  {
    if d == [] {
      NeedHeaderMoreExactly(d, lim);
    }
  }

  /** An undisturbed connection whose peer sends requests that all let it persist is never dropped without a word:
      there has been an error response in place of the answer to some request, and that request has a body, while there
      is a budget for bodies, or its head is longer than the buffer. */
  lemma GoodPeerIsNotDropped(c: Conn) returns (f: nat, i: nat)
    requires c.Quiet() && c.closed && Undisturbed(c)
    requires c.peer != [] && ConsumedAll(c.peer, c.lim) == |c.peer|
    requires forall k :: 0 <= k < |c.dispatched| ==> !c.Ends(c.dispatched[k])
    requires BlankPrefix(c.peer[|c.consumed|..]) < 4
    ensures f < |c.outputs| && c.outputs[f].Failure? && i < |c.peer|
    ensures var k := c.outputs[f].k;
      && k < |ParseAll(c.peer, c.lim)| && Consumed(c.peer[..i], ParseAll(c.peer, c.lim)[..k], c.lim)
      && Parse(c.peer[i..], c.lim).Some? && Parse(c.peer[i..], c.lim).value.request == ParseAll(c.peer, c.lim)[k]
    ensures (c.maxInflight > 0 && Parse(c.peer[i..], c.lim).value.request.body != [])
         || HeadLength(c.peer[i..], c.lim) > c.readBuf.Length
  {
    hide Render, Answers, EndsEmptily, NeverARequest, ParseAll, Parse, Classify, BlankPrefix, Conn.BodyOk, Refusable,
      ConsumedAll, Conn.StreamOk, Conn.OrderOk, Conn.OutputOk, Conn.PersistOk, Conn.Ends, Conn.SuppressOk,
      Conn.SendsBody, Conn.DispatchesAsync;
    c.ConsumedIsPrefix();
    var n := |c.consumed|;
    assert c.peer[..n] == c.consumed;
    forall m | 0 <= m <= |c.peer[n..]| ensures !NeverARequest(c.peer[n..][..m], c.lim) {
      assert c.peer[n..][..m] == c.peer[n..n + m];
      GoodStreamServes(c.peer, n, n + m, c.lim);
    }
    AnsweredBeforeClosing(c);
    f :| 0 <= f < |c.outputs| && c.outputs[f].Failure?;
    assert c.Due(c.outputs[f], c.dispatched);
    i := WhereRefused(c, c.outputs[f].k);
  }

  lemma WhereRefused(c: Conn, k: nat) returns (i: nat)
    requires c.peer != [] && ConsumedAll(c.peer, c.lim) == |c.peer| && 0 < c.readBuf.Length
    requires k <= |c.dispatched| && c.Refuses(c.dispatched[..k])
    ensures i < |c.peer| && k < |ParseAll(c.peer, c.lim)|
    ensures Consumed(c.peer[..i], ParseAll(c.peer, c.lim)[..k], c.lim)
    ensures Parse(c.peer[i..], c.lim).Some? && Parse(c.peer[i..], c.lim).value.request == ParseAll(c.peer, c.lim)[k]
    ensures (c.maxInflight > 0 && Parse(c.peer[i..], c.lim).value.request.body != [])
         || HeadLength(c.peer[i..], c.lim) > c.readBuf.Length
  {
    hide NeverARequest, ParseAll, Parse, ConsumedAll, Refusable, HeadLength;
    var j: nat;
    i, j :| i <= j <= |c.peer| && Consumed(c.peer[..i], c.dispatched[..k], c.lim)
      && Refusable(c.peer[i..j], c.readBuf.Length, c.maxInflight, c.lim);
    GoodStreamServes(c.peer, i, j, c.lim);
    if i < |c.peer| {
      NextInGoodStream(c.peer, i, c.lim);
    }
    RefusedForSize(c.peer[i..], c.peer[i..j], c.readBuf.Length, c.maxInflight, c.lim);
    assert c.peer[i..] != [] by { NothingConsumed(c.lim); }
    ParseAllMonotone(c.peer[..i], c.peer[i..], c.lim);
    assert c.peer[..i] + c.peer[i..] == c.peer;
  }

  /** Any run: after the connection is opened, events and the environment take turns in any order. A panic in a read
      event is the end of the process. */
  method Run(c: Conn, steps: nat) returns (panics: bool)
    requires c.Valid() && c.Ready() && c.readN == 0 && c.sendBuf == [] && c.outputs == [] && c.plain
    requires !c.readDrained && !c.readSuppressed
    modifies c, c.readBuf, c.sock
    ensures !panics ==> c.Quiet() && c.sock.registered && c.dispatched <= ParseAll(c.peer, c.lim)
  {
    hide Conn.Valid, Conn.Settled, Conn.Awake, ParseAll;
    c.Open();
    panics := false;
    for i := 0 to steps
      invariant !panics && c.Quiet() && c.sock.registered
    {
      ghost var read;
      panics, read := Step(c);
      if panics {
        return;
      }
    }
    DispatchedInStreamOrder(c);
  }

  /** One step. While the last output is still queued, all but a read event leave what is dispatched and put out. */
  method Step(c: Conn) returns (panics: bool, ghost read: bool)
    requires c.Quiet()
    modifies c, c.readBuf, c.sock
    ensures !panics ==> c.Quiet() && (old(c.sock.registered) ==> c.sock.registered)
    ensures panics ==> read && old(c.readN) == c.readBuf.Length && old(c.pending) == 0
    ensures old(c.Final()) && !read ==>
      c.dispatched == old(c.dispatched) && c.outputs == old(c.outputs) && (c.closed || c.Final())
  {
    hide Conn.HistoryOk, Conn.StreamOk, Conn.BodyOk, Conn.OrderOk, Conn.Owed, Conn.OutputOk, Conn.EvidenceOk,
      Conn.PersistOk, Conn.SuppressOk, Parse, Classify;
    panics, read := false, false;
    if {
      case true => Arrive(c);
      case c.job.Some? => c.FinishJob();
      case c.done.Some? => c.OnDone();
      case !c.closed && c.sock.registered && c.sock.Readable() =>
        read := true;
        ghost var seen;
        panics, seen := c.OnReadable();
      case !c.closed && c.sock.outArmed => c.OnWritable();
      case !c.closed && c.pending == 0 => TimesOut(c);
    }
  }

  method TimesOut(c: Conn)
    requires c.Quiet() && !c.closed && c.pending == 0
    modifies c, c.sock`timedOut
    ensures c.Quiet() && c.closed && c.dispatched == old(c.dispatched) && c.outputs == old(c.outputs)
  {
    hide Conn.HistoryOk, Conn.StreamOk, Conn.BodyOk, Conn.OrderOk, Conn.Owed, Conn.OutputOk, Conn.EvidenceOk,
      Conn.PersistOk, Parse;
    c.sock.TimeOut();
    c.Expire();
  }

  method Arrive(c: Conn)
    requires c.Quiet()
    modifies c.sock`inbound, c.sock`future, c.sock`hup, c.sock`edge
    ensures c.Quiet()
  {
    hide Conn.DispatchesAsync, Conn.SendsBody, AwaitsBody, Conn.BudgetOk, Render, InOrder, Unservable,
      Conn.HistoryOk, Conn.StreamOk, Conn.BodyOk, Conn.OrderOk, Conn.Owed, Conn.OutputOk, Conn.EvidenceOk,
      Conn.PersistOk, Parse;
    c.sock.Arrive();
    assert c.Rest() == old(c.Rest());
  }
}
