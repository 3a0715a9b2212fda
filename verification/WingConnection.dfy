/** One connection of the Wing event loop (wing_transport.go), with its buffers, its body accumulation, its one
    asynchronous handler and its socket. `Valid` says where every byte is; the main results are in WingResults. */
module WingConnection {
  import opened Bytes
  import opened Options
  import opened HttpParser
  import opened HttpClassifier
  import opened HttpPipelining
  import opened HttpVerdicts
  import opened WingStream
  import opened WingOutputs
  import opened WingSocket

  datatype Dispatch = Inline | Pool | Spawn

  /** A request in the hands of another goroutine. */
  datatype Job = Job(req: Request, keepAlive: bool, directWrite: bool)

  /** What that goroutine reports: the part of the response it has not written itself. */
  datatype DoneMsg = DoneMsg(data: Bytes, keepAlive: bool)

  const CLOSE_HEADERS: Bytes := Ascii("Content-Length: 0\r\nConnection: close\r\n\r\n")

  /** What is known about unread input: the last read filled the buffer; a report has been used up without a read; the
      last completion has left nothing to do. */
  datatype Input = Input(full: bool, spent: bool, rested: bool)

  datatype SendOutcome = Sent | Blocked | Broke

  datatype ParseResult = More | Enough | Over

  class Conn {
    const lim: Limits
    const dispatchOf: Request -> Dispatch
    const upgradesOnly: Request -> bool
    const statusLine: nat -> Bytes
    const handler: (Request, nat) -> Bytes   // any of these may be the response, whatever the handler depends on
    const maxInflight: nat                   // the worker's budget for bodies; 0 means no limit
    const sock: Socket
    const readBuf: array<Byte>
    ghost const peer: Bytes          // everything the peer ever sends

    var readN: nat
    var sendBuf: Bytes
    var sendN: nat
    var keepAlive: bool
    var pending: nat
    var closePending: bool
    var closed: bool                 // gone from the connection table
    var readSuppressed: bool
    var readDrained: bool
    var bodyNeed: nat
    var headerSnapshot: Bytes
    var bodyBuf: Bytes
    var reserved: int                // this connection's part of the worker's counter of bodies in flight

    var job: Option<Job>
    var done: Option<DoneMsg>

    ghost var consumed: Bytes        // bytes of the requests dispatched
    ghost var dispatched: seq<Request>
    ghost var inHand: Bytes          // a complete request between accumulation and dispatch
    ghost var bodyHead: Bytes        // the buffer contents when accumulation began
    ghost var outputs: seq<Output>
    ghost var broken: bool           // a write has failed
    ghost var plain: bool            // so far only Inline requests and no accumulated body
    ghost var collected: bool        // the body of the last request dispatched was collected
    ghost var input: Input
    ghost var muted: bool            // the last answer left the queue empty, and nothing has been read since

    // -------------------------------------------------------------- the invariant

    ghost function Buffered(): Bytes
      reads this`readN, readBuf
      requires readN <= readBuf.Length
    {
      readBuf[..readN]
    }

    /** What the stream holds after the bytes consumed. */
    ghost function Rest(): Bytes
      reads this`headerSnapshot, this`bodyBuf, this`readN, readBuf, sock`inbound, sock`future
      requires readN <= readBuf.Length
    {
      headerSnapshot + bodyBuf + (Buffered() + sock.Unread())
    }

    ghost function HeldSize(): nat
      reads this`headerSnapshot, this`bodyBuf, this`readN
    {
      |headerSnapshot| + |bodyBuf| + readN
    }

    ghost predicate BuffersOk()
      reads this`readN, this`sendBuf, this`sendN, this`muted
    {
      && 0 < readBuf.Length && readN <= readBuf.Length
      && (muted ==> sendBuf == [])
      && (sendBuf == [] ==> sendN == 0)
      && (sendBuf != [] ==> sendN < |sendBuf|)
    }

    /** The bytes consumed are exactly the requests dispatched. */
    ghost predicate HistoryOk()
      reads this`consumed, this`dispatched
    {
      Consumed(consumed, dispatched, lim)
    }

    /** Nothing received is lost, repeated or out of order. */
    ghost predicate StreamOk(rest: Bytes)
      reads this`closed, this`consumed, this`inHand
    {
      if closed then consumed <= peer else consumed + (inHand + rest) == peer
    }

    ghost predicate BodyOk(rest: Bytes)
      reads this`bodyNeed, this`closed, this`plain, this`pending, this`inHand, this`bodyHead, this`headerSnapshot,
        this`bodyBuf
    {
      && (bodyNeed == 0 ==> headerSnapshot == [] && bodyBuf == [])
      && (bodyNeed > 0 ==>
            && !closed && !plain && pending == 0 && inHand == [] && |bodyBuf| <= bodyNeed
            && AwaitsBody(bodyHead, |headerSnapshot|, bodyNeed, rest, lim))
    }

    ghost predicate HandlerOk()
      reads this`pending, this`job, this`done, this`closed, this`plain, this`inHand, this`sendBuf, this`broken,
        this`closePending, this`keepAlive, this`muted
    {
      && (job.Some? ==> job.value.keepAlive == keepAlive)
      && (done.Some? ==> done.value.keepAlive == keepAlive)
      && pending == (if job.Some? || done.Some? then 1 else 0)
      && !(job.Some? && done.Some?)
      && (pending > 0 ==> !closed && !plain && inHand == [] && !muted)
      && (job.Some? && job.value.directWrite ==> sendBuf == [] && !broken)
      && (closePending ==> broken && (pending == 1 || closed))
      && (broken && !closed ==> closePending && sendBuf == [])
    }

    ghost function DoneData(): Bytes
      reads this`done
    {
      if done.Some? then done.value.data else []
    }

    /** Outputs are in request order, and the wire has a prefix of them. */
    ghost predicate OrderOk()
      reads this`outputs, sock`wire
    {
      InOrder(outputs) && sock.wire <= Render(outputs)
    }

    /** `n` requests have been dispatched and not answered yet. */
    ghost predicate Owed(n: nat)
      reads this`outputs, this`dispatched
    {
      |dispatched| == Answers(outputs) + n
    }

    ghost function InFlight(): nat
      reads this`job
    {
      if job.Some? then 1 else 0
    }

    /** What is not on the wire yet is still queued. */
    ghost predicate OutputOk()
      reads this`outputs, this`done, this`sendBuf, this`sendN, this`broken, this`closed, sock`wire
      requires sendN <= |sendBuf|
    {
      !broken && !closed ==>
        && Render(outputs) == sock.wire + sendBuf[sendN..] + DoneData()
        && (done.Some? && done.value.data == [] ==> sendBuf == [] || EndsEmptily(outputs))
    }

    ghost predicate EdgeOk()
      reads this`plain, this`closed, this`readDrained, sock`inbound, sock`edge
    {
      (plain && !closed && readDrained ==> sock.inbound == [] || sock.edge)
    }

    /** A socket that has been read out is empty, or a report of what has arrived since is pending. */
    ghost predicate InputOk()
      reads this`closed, this`pending, this`input, this`readDrained, this`readSuppressed, sock`inbound, sock`edge
    {
      !closed ==>
        && (!input.full && !input.spent ==> sock.inbound == [] || sock.edge)
        && (readDrained ==> !input.full && !input.spent && !readSuppressed)
        && (input.rested ==> pending == 0 && !readSuppressed)
    }

    /** Every answer is one to its request, every error was called for, and `plain` and `muted` have changed for a
        reason. */
    ghost predicate EvidenceOk()
      reads this`plain, this`muted, this`dispatched, this`outputs
    {
      Evidence(plain, muted, dispatched, outputs)
    }

    ghost predicate Evidence(plain: bool, muted: bool, rs: seq<Request>, outputs: seq<Output>) {
      && (muted ==> EndsEmptily(outputs))
      && (!plain ==> DispatchesAsync(rs) || SendsBody())
      && (forall i :: 0 <= i < |outputs| ==> Due(outputs[i], rs))
    }

    /** An answer is a response to the request that it is counted for, and an error follows the requests that it is
        counted behind. */
    ghost predicate Due(o: Output, rs: seq<Request>) {
      && (o.Answer? ==> o.k < |rs| && Answered(rs[o.k], o.data))
      && (o.Failure? ==> o.k <= |rs| && Refuses(rs[..o.k]))
    }

    /** A response of the handler, or the refusal of a body on a route that only upgrades. */
    ghost predicate Answered(req: Request, data: Bytes) {
      Responds(req, data) || (upgradesOnly(req) && data == StatusClose(400))
    }

    ghost predicate Responds(req: Request, data: Bytes) {
      exists choice: nat :: handler(req, choice) == data
    }

    /** Right behind these requests the stream has something that may be refused. */
    ghost predicate Refuses(rs: seq<Request>) {
      exists i, j :: 0 <= i <= j <= |peer|
        && Consumed(peer[..i], rs, lim) && Refusable(peer[i..j], readBuf.Length, maxInflight, lim)
    }

    ghost predicate DispatchesAsync(rs: seq<Request>) {
      exists i :: 0 <= i < |rs| && dispatchOf(rs[i]) != Inline
    }

    /** Somewhere behind whole requests the stream has one with an unfinished body. */
    ghost predicate SendsBody() {
      exists i, j :: 0 <= i <= j <= |peer| && ConsumedAll(peer[..i], lim) == i
        && Classify(peer[i..j], lim).status == NeedBody
    }

    /** The connection persists exactly as the last request and the errors since then have it. */
    ghost predicate PersistOk()
      reads this`keepAlive, this`dispatched, this`outputs, this`job
    {
      && (outputs != [] && outputs[|outputs| - 1].Failure? && job.None? ==> !keepAlive)
      && (job.Some? ==> dispatched != [] && job.value.req == dispatched[|dispatched| - 1])
      && (dispatched != [] ==> AsTold(dispatched[|dispatched| - 1], outputs))
    }

    ghost predicate AsTold(last: Request, outputs: seq<Output>)
      reads this`keepAlive
    {
      && (keepAlive ==> last.keepAlive)
      && (last.keepAlive && !keepAlive ==> upgradesOnly(last) || HasFailure(outputs))
    }

    lemma AsyncGrows(rs: seq<Request>, r: Request)
      requires DispatchesAsync(rs) || dispatchOf(r) != Inline
      ensures DispatchesAsync(rs + [r])
    {
      if DispatchesAsync(rs) {
        var i :| 0 <= i < |rs| && dispatchOf(rs[i]) != Inline;
        assert (rs + [r])[i] == rs[i];
      } else {
        assert (rs + [r])[|rs|] == r;
      }
    }

    /** One more request; what was evidence before still is. */
    lemma DispatchedGrows(rs: seq<Request>, r: Request)
      requires dispatched == rs + [r] && Evidence(plain, muted, rs, outputs) && Suppression(rs)
      ensures EvidenceOk() && SuppressOk()
    {
      hide DispatchesAsync, EndsEmptily, SendsBody, Answered, Refuses;
      if DispatchesAsync(rs) {
        AsyncGrows(rs, r);
      }
      forall i | 0 <= i < |outputs| ensures Due(outputs[i], dispatched) {
        assert Due(outputs[i], rs);
        assert outputs[i].k <= |rs| ==> dispatched[..outputs[i].k] == rs[..outputs[i].k];
      }
    }

    /** One more output. */
    lemma OutputsGrow(before: seq<Output>, o: Output, wasMuted: bool)
      requires outputs == before + [o] && Evidence(plain, wasMuted, dispatched, before) && Due(o, dispatched)
      requires muted ==> o.Answer? && o.data == []
      requires (o.Failure? ==> !keepAlive)
        && (job.Some? ==> dispatched != [] && job.value.req == dispatched[|dispatched| - 1])
      requires o.Failure? || (dispatched != [] ==> AsTold(dispatched[|dispatched| - 1], before))
      ensures EvidenceOk() && PersistOk()
    {
      hide DispatchesAsync, SendsBody, HasFailure, Due;
      EvidenceGrows(before, o);
      forall i | 0 <= i < |outputs| ensures Due(outputs[i], dispatched) {
        assert i < |before| ==> outputs[i] == before[i];
      }
    }

    /** A read event is remembered only while a handler is running, and only bodies are read in spite of that. So with
        either of them missing, no read is ever startled by an empty socket. */
    ghost predicate SuppressOk()
      reads this`readSuppressed, this`dispatched, sock`inbound, sock`hup, sock`startled
    {
      Suppression(dispatched)
    }

    ghost predicate Suppression(rs: seq<Request>)
      reads this`readSuppressed, sock`inbound, sock`hup, sock`startled
    {
      && (readSuppressed || sock.startled ==> DispatchesAsync(rs))
      && ((readSuppressed && !sock.Readable()) || sock.startled ==> SendsBody())
    }

    /** What is reserved is exactly what the body being collected needs. */
    ghost predicate BudgetOk()
      reads this`reserved, this`bodyNeed
    {
      reserved == Charge(bodyNeed)
    }

    function Charge(need: nat): nat {
      if maxInflight > 0 then need else 0
    }

    ghost predicate FailedOk()
      reads this`broken, sock`failed
    {
      broken ==> sock.failed
    }

    ghost predicate Valid()
      reads this, readBuf, sock
    {
      Sound() && BudgetOk()
    }

    ghost predicate Sound()
      reads this, readBuf, sock
    {
      BuffersOk() && HistoryOk() && StreamOk(Rest()) && BodyOk(Rest()) && HandlerOk() && FailedOk() && SuppressOk()
      && OrderOk() && Owed(InFlight()) && OutputOk() && EdgeOk() && EvidenceOk() && PersistOk() && InputOk()
    }

    /** Every request received has been dispatched, and whatever can be none has been answered, unless something else is
        going on that will come back to it. */
    ghost predicate Settled()
      reads this`closed, this`pending, this`sendBuf, this`muted, this`collected, this`keepAlive, this`bodyNeed,
        this`readN, readBuf
      requires readN <= readBuf.Length
    {
      closed || pending > 0 || sendBuf != [] || bodyNeed > 0 || Unfinished() || LeavesOff()
    }

    /** The buffer holds the beginning of a header, or nothing. */
    ghost predicate Unfinished()
      reads this`readN, readBuf
      requires readN <= readBuf.Length
    {
      Parse(Buffered(), lim).None? && Classify(Buffered(), lim).status == NeedHeaderMore
    }

    /** The last response was empty, and nothing is parsed behind it until the next read: its request has ended the
        connection, or its body was collected. */
    ghost predicate LeavesOff()
      reads this`muted, this`collected, this`keepAlive
    {
      muted && (!keepAlive || collected)
    }

    /** Nothing is queued and no handler is running, and the last response had something to send. */
    ghost predicate Idle()
      reads this`closed, this`pending, this`sendBuf, this`outputs
    {
      !closed && pending == 0 && sendBuf == [] && !EndsEmptily(outputs)
    }

    /** A connection that is not to be kept alive does not stay idle. */
    ghost predicate KeptOpen()
      reads this`closed, this`pending, this`sendBuf, this`bodyNeed, this`outputs, this`keepAlive
    {
      Idle() && bodyNeed == 0 && outputs != [] ==> keepAlive
    }

    /** An idle connection has room for the next read. */
    ghost predicate HasRoom()
      reads this`closed, this`pending, this`sendBuf, this`muted, this`collected, this`readN
    {
      !closed && pending == 0 && sendBuf == [] && !(muted && collected) ==> readN < readBuf.Length
    }

    /** An accumulated body is incomplete, and every buffered byte is part of it. */
    ghost predicate Waiting()
      reads this`bodyNeed, this`bodyBuf, this`readN
    {
      bodyNeed > 0 ==> |bodyBuf| < bodyNeed && readN == 0
    }

    /** Bytes waiting in the socket will wake the connection, by a read edge or because it is waiting to send. */
    ghost predicate WillWake()
      reads this`sendBuf, sock`inbound, sock`edge, sock`outArmed
    {
      sock.inbound != [] ==> sock.edge || (sendBuf != [] && sock.outArmed)
    }

    /** No readiness has been lost, unless there was nothing to send after a read that may have left something. */
    ghost predicate Awake()
      reads this`plain, this`muted, this`readDrained, this`closed, this`sendBuf, sock`inbound, sock`edge, sock`outArmed
    {
      plain && !closed ==> WillWake() || (muted && !readDrained)
    }

    /** A last request or an error has ended the connection, and everything owed has been sent. Only an empty
        response can be reported as sent before what is queued. */
    ghost predicate TakenLeave()
      reads this`outputs, this`dispatched, sock`wire
    {
      && (Render(outputs) == sock.wire || EndsEmptily(outputs))
      && (HasFailure(outputs) || (dispatched != [] && Ends(dispatched[|dispatched| - 1])))
    }

    ghost predicate Ends(last: Request) {
      !last.keepAlive || upgradesOnly(last)
    }

    /** A connection closes for one of these reasons. */
    ghost predicate Excused()
      reads this`consumed, this`outputs, this`dispatched, sock`wire, sock`failed, sock`startled, sock`timedOut
    {
      || sock.failed || sock.startled || sock.timedOut
      || TakenLeave() || (consumed <= peer && Unservable(peer[|consumed|..], lim))
    }

    ghost predicate CloseOk()
      reads this`closed, this`consumed, this`outputs, this`dispatched,
        sock`wire, sock`failed, sock`startled, sock`timedOut
    {
      closed ==> Excused()
    }

    /** A handler works for a request; what is queued, unless a body is awaited, is owed to a request or an error. */
    ghost predicate Addressed()
      reads this`closed, this`pending, this`sendBuf, this`bodyNeed, this`dispatched, this`outputs
    {
      && (pending > 0 ==> dispatched != [] && DispatchesAsync(dispatched))
      && (sendBuf != [] && !closed && bodyNeed == 0 ==> dispatched != [] || HasFailure(outputs))
    }

    /** Nothing unread is forgotten while nothing else is going on: reading goes on until the socket is found empty,
        unless the last answer was empty, or came from a handler that has written it in full. */
    ghost predicate Accounted()
      reads this`closed, this`pending, this`sendBuf, this`bodyNeed, this`muted, this`input, this`readSuppressed
    {
      !closed && pending == 0 && bodyNeed == 0 && sendBuf == [] && (input.full || input.spent || readSuppressed) ==>
        muted || input.rested
    }

    /** For a body the socket is read until it is found empty, with its end not yet come. */
    ghost predicate ReadOut()
      reads this`closed, this`bodyNeed, this`input, sock`inbound, sock`hup, sock`edge
    {
      !closed && bodyNeed > 0 ==> !input.full && (sock.Readable() ==> sock.edge || input.spent)
    }

    /** What is queued will be sent: a write event is registered for it, unless a body is being collected behind it. */
    ghost predicate Armed()
      reads this`closed, this`sendBuf, this`bodyNeed, sock`outArmed
    {
      !closed && sendBuf != [] && bodyNeed == 0 ==> sock.outArmed
    }

    /** What holds between events. */
    ghost predicate Quiet()
      reads this, readBuf, sock
    {
      Calm() && ReadOut()
    }

    ghost predicate Calm()
      reads this, readBuf, sock
    {
      Valid() && inHand == [] && Waiting() && Settled() && Awake() && KeptOpen() && HasRoom() && CloseOk()
        && Addressed() && Armed() && Accounted()
    }

    /** The last output is queued and not yet sent, and nothing may follow it. */
    ghost predicate Final()
      reads this`closed, this`keepAlive, this`sendBuf, this`pending, this`bodyNeed
    {
      !closed && !keepAlive && sendBuf != [] && pending == 0 && bodyNeed == 0
    }

    ghost predicate Ready()
      reads this`closed, this`pending, this`bodyNeed, this`inHand
    {
      !closed && pending == 0 && bodyNeed == 0 && inHand == []
    }

    // -------------------------------------------------------------- opening and closing

    constructor (lim: Limits, dispatchOf: Request -> Dispatch, upgradesOnly: Request -> bool, statusLine: nat -> Bytes,
        handler: (Request, nat) -> Bytes, maxInflight: nat, sock: Socket, bufSize: nat)
      requires bufSize > 0 && sock.wire == [] && !sock.startled
      ensures this.lim == lim && this.dispatchOf == dispatchOf && this.upgradesOnly == upgradesOnly
      ensures this.statusLine == statusLine && this.handler == handler && this.maxInflight == maxInflight
      ensures this.sock == sock && peer == sock.Unread() && outputs == [] && !readSuppressed
      ensures fresh(readBuf) && readBuf.Length == bufSize
      ensures Valid() && Ready() && readN == 0 && sendBuf == [] && dispatched == [] && plain && !readDrained
      ensures !keepAlive
    {
      this.lim, this.dispatchOf, this.upgradesOnly, this.sock := lim, dispatchOf, upgradesOnly, sock;
      this.statusLine, this.handler, this.maxInflight := statusLine, handler, maxInflight;
      readBuf := new Byte[bufSize];
      peer := sock.Unread();
      readN, sendBuf, sendN, keepAlive, pending := 0, [], 0, false, 0;
      closePending, closed, readSuppressed, readDrained := false, false, false, false;
      bodyNeed, headerSnapshot, bodyBuf, reserved, job, done := 0, [], [], 0, None, None;
      consumed, dispatched, inHand, bodyHead, outputs := [], [], [], [], [];
      broken, plain, collected, muted, input := false, true, false, false, Input(true, false, false);
      new;
      NothingConsumed(lim);
    }

    /** The connection leaves the table and its descriptor is closed; a handler must not be pending. */
    method CloseConn()
      requires BuffersOk() && HistoryOk() && OrderOk() && Owed(InFlight()) && EdgeOk() && EvidenceOk() && PersistOk()
      requires HandlerOk() || (job.None? && done.None? && closePending && broken)
      requires consumed <= peer && FailedOk() && SuppressOk() && BudgetOk()
      requires !closed && pending == 0
      modifies this`closed, this`bodyNeed, this`reserved, this`bodyBuf, this`headerSnapshot, this`inHand
      ensures Valid() && closed && inHand == [] && bodyNeed == 0
    {
      hide HistoryOk, OrderOk, Owed, EvidenceOk, PersistOk, SuppressOk, FailedOk, BuffersOk, HandlerOk, EdgeOk,
        BudgetOk, Valid, Sound;
      NothingPending();
      if bodyNeed > 0 && maxInflight > 0 {
        reserved := reserved - bodyNeed;
      }
      closed, bodyNeed, bodyBuf, headerSnapshot, inHand := true, 0, [], [], [];
      NothingLeft();
    }

    lemma NothingPending()
      requires HandlerOk() || (job.None? && done.None? && closePending && broken)
      requires EdgeOk() && BudgetOk() && pending == 0
      ensures job.None? && done.None? && (closePending ==> broken)
      ensures reserved == Charge(bodyNeed)
    {
    }

    lemma NothingLeft()
      requires BuffersOk() && HistoryOk() && OrderOk() && Owed(0) && EvidenceOk() && PersistOk() && FailedOk()
      requires SuppressOk()
      requires closed && consumed <= peer && pending == 0 && job.None? && done.None? && (closePending ==> broken)
      requires bodyNeed == 0 && reserved == 0
      requires bodyBuf == [] && headerSnapshot == [] && inHand == []
      ensures Valid()
    {
      hide HistoryOk, OrderOk, Owed, EvidenceOk, PersistOk, SuppressOk, FailedOk, Rest, Buffered, Render, InOrder;
    }

    lemma ConsumedIsPrefix()
      requires Valid()
      ensures consumed <= peer
    {
      if !closed {
        assert consumed + (inHand + Rest()) == peer;
      }
    }

    /** Closing a connection, for a reason, in any state with no handler pending. */
    method Shut()
      requires Valid() && !closed && pending == 0 && Excused()
      modifies this`closed, this`bodyNeed, this`reserved, this`bodyBuf, this`headerSnapshot, this`inHand
      ensures Quiet() && closed && inHand == [] && bodyNeed == 0
    {
      hide HistoryOk, StreamOk, BodyOk, HandlerOk, OrderOk, Owed, OutputOk, EdgeOk, Parse, EvidenceOk, PersistOk,
        Excused, DispatchesAsync, SendsBody, TakenLeave, Unservable;
      ConsumedIsPrefix();
      CloseConn();
    }

    // -------------------------------------------------------------- buffer steps

    /** One read into the free part of the buffer, while more may arrive. */
    method Recv(ghost reported: bool := false) returns (r: ReadResult)
      requires Valid() && !closed && readN < readBuf.Length && MayRead(reported) && !readDrained
      modifies this`muted, this`input, this`readN, readBuf, sock`inbound, sock`future, sock`hup, sock`edge, sock`failed,
        sock`startled
      ensures Valid() && Rest() == old(Rest())
      ensures r.Eof? || r.ReadFailed? ==> sock.failed
      ensures r.ReadAgain? <==> !old(sock.Readable()) && !sock.hup && sock.future == old(sock.future)
      ensures |sock.future| <= |old(sock.future)| - (if r.Data? && old(sock.inbound) == [] then 1 else 0)
      ensures sock.startled == (old(sock.startled) || (reported && r.ReadAgain?))
      ensures old(sock.inbound) != [] ==> r.Data?
      ensures r.Data? ==> Buffered() <= old(Buffered() + sock.Unread())
      ensures readN >= old(if readN + |sock.inbound| < readBuf.Length then readN + |sock.inbound| else readBuf.Length)
      ensures r.Data? ==> |sock.Unread()| + readN == old(|sock.Unread()| + readN) && readN > old(readN)
      ensures r.Data? ==> old(Buffered()) <= Buffered()
      ensures r.Data? && readN < readBuf.Length ==> sock.inbound == []
      ensures !r.Data? ==> readN == old(readN) && Buffered() == old(Buffered()) && sock.inbound == []
      ensures !r.Data? ==> sock.Unread() == old(sock.Unread())
      ensures input == Input(r.Data? && readN == readBuf.Length, false, false)
    {
      hide HistoryOk, StreamOk, BodyOk, HandlerOk, OrderOk, Owed, OutputOk, EvidenceOk, PersistOk, DispatchesAsync,
        SendsBody, TakenLeave, Unservable;
      sock.Arrive();
      assert |sock.Unread()| == |sock.inbound| + |sock.future|;
      assert Rest() == old(Rest());
      r := RecvNow(reported);
    }

    /** A read while a read event is remembered happens only for a body, and one that answers a report finds something
        unless there has been such a body. */
    ghost predicate MayRead(reported: bool)
      reads this`readSuppressed, this`dispatched, sock`inbound, sock`hup
    {
      && (readSuppressed ==> SendsBody())
      && (reported && !sock.Readable() ==> DispatchesAsync(dispatched) && SendsBody())
    }

    method RecvNow(ghost reported: bool := false) returns (r: ReadResult)
      requires Valid() && !closed && readN < readBuf.Length && MayRead(reported) && !readDrained
      modifies this`muted, this`input, this`readN, readBuf, sock`inbound, sock`failed, sock`startled
      ensures Valid() && Rest() == old(Rest())
      ensures sock.failed == (old(sock.failed) || r.Eof? || r.ReadFailed?)
      ensures sock.startled == (old(sock.startled) || (reported && r.ReadAgain?))
      ensures old(sock.inbound) != [] ==>
        var n := if |old(sock.inbound)| < readBuf.Length - old(readN) then |old(sock.inbound)|
          else readBuf.Length - old(readN);
        r.Data? && Buffered() == old(Buffered()) + old(sock.inbound)[..n] && sock.inbound == old(sock.inbound)[n..]
      ensures old(sock.inbound) == [] ==> !r.Data? && sock.inbound == [] && (r.ReadAgain? <==> !sock.hup)
      ensures !r.Data? ==> readN == old(readN) && Buffered() == old(Buffered())
      ensures readN == |Buffered()|
      ensures input == Input(r.Data? && readN == readBuf.Length, false, false)
    {
      hide InFlight, HistoryOk, StreamOk, BodyOk, HandlerOk, OrderOk, Owed, OutputOk, EvidenceOk, PersistOk,
        DispatchesAsync, SendsBody, TakenLeave, Unservable, Buffered, Render, InOrder, AwaitsBody, BudgetOk,
        EndsEmptily;
      Unmute();
      r := Pull(reported);
      Note(r.Data? && readN == readBuf.Length);
    }

    /** What the socket gives goes behind what the buffer holds. */
    method Pull(ghost reported: bool) returns (r: ReadResult)
      requires Valid() && !closed && readN < readBuf.Length && MayRead(reported) && !readDrained && !muted
      requires input == Input(true, false, false)
      modifies this`readN, readBuf, sock`inbound, sock`failed, sock`startled
      ensures Valid() && Rest() == old(Rest()) && readN == |Buffered()|
      ensures sock.failed == (old(sock.failed) || r.Eof? || r.ReadFailed?)
      ensures sock.startled == (old(sock.startled) || (reported && r.ReadAgain?))
      ensures old(sock.inbound) != [] ==>
        var n := if |old(sock.inbound)| < readBuf.Length - old(readN) then |old(sock.inbound)|
          else readBuf.Length - old(readN);
        r.Data? && Buffered() == old(Buffered()) + old(sock.inbound)[..n] && sock.inbound == old(sock.inbound)[n..]
      ensures old(sock.inbound) == [] ==> !r.Data? && sock.inbound == [] && (r.ReadAgain? <==> !sock.hup)
      ensures r.Data? && readN < readBuf.Length ==> sock.inbound == []
      ensures !r.Data? ==> readN == old(readN) && Buffered() == old(Buffered())
    {
      hide InFlight, HistoryOk, StreamOk, BodyOk, HandlerOk, OrderOk, Owed, OutputOk, EvidenceOk, PersistOk,
        DispatchesAsync, SendsBody, TakenLeave, Unservable, Buffered, Render, InOrder, AwaitsBody, BudgetOk,
        EndsEmptily;
      BufferedSize();
      ghost var before := Buffered() + sock.Unread();
      r := sock.ReadNow(readBuf.Length - readN, reported);
      if r.Data? {
        Fill(r.bytes);
        assert Buffered() + sock.Unread() == before;
        BufferedSize();
      }
    }

    /** What a read has shown. */
    ghost method Note(full: bool)
      requires Valid() && !readDrained && (full || sock.inbound == [])
      modifies this`input
      ensures Valid() && input == Input(full, false, false)
    {
      hide HistoryOk, StreamOk, BodyOk, OrderOk, Owed, OutputOk, HandlerOk, EvidenceOk, PersistOk, SuppressOk,
        BudgetOk, FailedOk, BuffersOk, EdgeOk, Rest;
      input := Input(full, false, false);
    }

    /** A read is about to happen: nothing is known of what it leaves. */
    ghost method Unmute()
      requires Valid() && !readDrained
      modifies this`muted, this`input
      ensures Valid() && !muted && input == Input(true, false, false)
    {
      hide HistoryOk, StreamOk, BodyOk, OrderOk, Owed, OutputOk, PersistOk, SuppressOk, DispatchesAsync, SendsBody,
        TakenLeave, Unservable, Rest, Due, EndsEmptily;
      muted, input := false, Input(true, false, false);
    }

    lemma BufferedSize()
      requires readN <= readBuf.Length
      ensures |Buffered()| == readN
    {
    }

    /** The bytes read go behind those in the buffer. */
    method Fill(bytes: Bytes)
      requires readN + |bytes| <= readBuf.Length
      modifies this`readN, readBuf
      ensures readN == old(readN) + |bytes| && Buffered() == old(Buffered()) + bytes
    {
      forall i | 0 <= i < |bytes| {
        readBuf[readN + i] := bytes[i];
      }
      readN := readN + |bytes|;
    }

    /** Drops the first `n` buffered bytes and moves the others to the front. */
    method Compact(n: nat)
      requires n <= readN <= readBuf.Length
      modifies this`readN, readBuf
      ensures readN == old(readN) - n && Buffered() == old(Buffered())[n..]
    {
      var rest := readN - n;
      forall i | 0 <= i < rest {
        readBuf[i] := readBuf[n + i];
      }
      readN := rest;
    }

    /** Moves as many buffered bytes into the body as it still needs (accumBody). */
    method AccumBody()
      requires readN <= readBuf.Length && |bodyBuf| <= bodyNeed
      modifies this`bodyBuf, this`readN, readBuf
      ensures readN <= readBuf.Length && |bodyBuf| <= bodyNeed
      ensures bodyBuf + Buffered() == old(bodyBuf + Buffered())
      ensures |bodyBuf| < bodyNeed ==> readN == 0
    {
      var take := bodyNeed - |bodyBuf|;
      if take > readN {
        take := readN;
      }
      bodyBuf := bodyBuf + readBuf[..take];
      Compact(take);
    }

    // -------------------------------------------------------------- sending

    /** One write of what is queued; a queue that has been written out is emptied. */
    method WriteSome() returns (w: WriteResult)
      requires Valid() && !closed && sendBuf != []
      modifies this`sendBuf, this`sendN, sock`inbound, sock`future, sock`hup, sock`edge, sock`wire, sock`failed,
        sock`attempts
      ensures Valid() && sock.Unread() == old(sock.Unread()) && (w.WriteFailed? ==> sock.failed)
      ensures |sock.future| <= |old(sock.future)|
      ensures w.Wrote? ==> sendBuf == [] || (sendBuf == old(sendBuf) && sendN > old(sendN))
      ensures !w.Wrote? ==> sendBuf == old(sendBuf)
      ensures sock.Readable() && !sock.edge ==> old(sock.Readable() && !sock.edge)
    {
      hide HistoryOk, StreamOk, BodyOk, OrderOk, OutputOk, Owed, Render, InOrder, Answers, Parse, Classify,
        EvidenceOk, PersistOk, DispatchesAsync, SendsBody, TakenLeave, Unservable;
      assert HandlerOk() && !broken;
      w := Transfer();
      assert Rest() == old(Rest());
    }

    method Transfer() returns (w: WriteResult)
      requires BuffersOk() && OrderOk() && OutputOk() && !closed && !broken && sendBuf != []
      modifies this`sendBuf, this`sendN, sock`inbound, sock`future, sock`hup, sock`edge, sock`wire, sock`failed,
        sock`attempts
      ensures BuffersOk() && OrderOk() && OutputOk()
      ensures w.Wrote? ==> sendBuf == [] || (sendBuf == old(sendBuf) && sendN > old(sendN))
      ensures !w.Wrote? ==> sendBuf == old(sendBuf)
      ensures sock.failed == (old(sock.failed) || w.WriteFailed?)
      ensures sock.Unread() == old(sock.Unread()) && old(sock.inbound) <= sock.inbound
      ensures |sock.future| <= |old(sock.future)| && (old(sock.hup) ==> sock.hup)
      ensures (sock.inbound == old(sock.inbound) || sock.edge) && (old(sock.edge) ==> sock.edge)
      ensures sock.Readable() && !sock.edge ==> old(sock.Readable() && !sock.edge)
    {
      hide Render, InOrder, EndsEmptily;
      ghost var wire := sock.wire;
      var buf := sendBuf[sendN..];
      w := sock.Write(buf);
      if w.Wrote? {
        TailMoves(wire, sendBuf, sendN, w.n);
        sendN := sendN + w.n;
        if sendN == |sendBuf| {
          sendBuf, sendN := [], 0;
        }
      }
    }

    static lemma TailMoves(wire: Bytes, queue: Bytes, n: nat, k: nat)
      requires n + k <= |queue|
      ensures wire + queue[n..][..k] + queue[n + k..] == wire + queue[n..]
    {
      assert queue[n..] == queue[n..][..k] + queue[n + k..];
    }

    /** Writes queued output until it is all gone, the socket is full or the write fails. */
    method WriteOut() returns (r: SendOutcome)
      requires Valid() && !closed && sendBuf != []
      modifies this`sendBuf, this`sendN, this`readDrained, sock
      ensures sock.startled == old(sock.startled) && |sock.future| <= |old(sock.future)|
      ensures Valid() && sock.Unread() == old(sock.Unread())
      ensures r.Sent? ==> sendBuf == [] && readDrained == old(readDrained)
      ensures r.Blocked? ==> sendBuf == old(sendBuf) && sock.outArmed && !readDrained
      ensures r.Broke? ==> sendBuf == old(sendBuf) && sock.failed
      ensures (old(sock.registered) ==> sock.registered)
      ensures sock.Readable() && !sock.edge ==> old(sock.Readable() && !sock.edge)
    {
      hide HistoryOk, StreamOk, BodyOk, HandlerOk, OrderOk, Owed, OutputOk, EvidenceOk, PersistOk, DispatchesAsync,
        SendsBody, TakenLeave, Unservable;
      while sendBuf != []
        invariant Valid() && sock.Unread() == old(sock.Unread())
        invariant sock.startled == old(sock.startled) && |sock.future| <= |old(sock.future)|
        invariant readDrained == old(readDrained) && (sendBuf == [] || sendBuf == old(sendBuf))
        invariant (old(sock.registered) ==> sock.registered)
        invariant sock.Readable() && !sock.edge ==> old(sock.Readable() && !sock.edge)
        decreases if sendBuf == [] then 0 else |sendBuf| - sendN
      {
        var w := WriteSome();
        match w {
          case Wrote(_) =>
          case WriteAgain =>
            Block();
            return Blocked;
          case WriteFailed =>
            return Broke;
        }
      }
      return Sent;
    }

    /** The socket takes nothing more for now. */
    method Block()
      modifies this`readDrained, sock`outArmed, sock`registered, sock`edge
      ensures !readDrained && sock.outArmed && sock.registered && sock.edge == (old(sock.edge) || sock.Readable())
    {
      readDrained := false;
      sock.SubmitSend();
    }

    /** A hard write error: drop the queue, and close as soon as no handler owns the descriptor. */
    method FailSend()
      requires Valid() && !closed && sendBuf != [] && sock.failed
      modifies this`sendBuf, this`sendN, this`broken, this`closePending, this`closed, this`bodyNeed, this`reserved,
        this`bodyBuf, this`headerSnapshot, this`inHand
      ensures Valid() && sendBuf == []
      ensures inHand == [] || inHand == old(inHand)
      ensures if old(pending) > 0 then !closed && bodyNeed == old(bodyNeed) else closed && inHand == [] && bodyNeed == 0
    {
      hide HistoryOk, OrderOk, Owed, AwaitsBody, EvidenceOk, PersistOk, DispatchesAsync, SendsBody, TakenLeave,
        Unservable, Render, InOrder, EndsEmptily, Rest, SuppressOk, Answers, Charge;
      ConsumedIsPrefix();
      sendBuf, sendN := [], 0;
      if pending > 0 {
        broken, closePending := true, true;
        return;
      }
      CloseConn();
    }

    /** Queues bytes for sending. */
    method Queue(data: Bytes, ghost o: Output)
      requires OutputBytes(o) == data
      requires BuffersOk() && OrderOk() && OutputOk() && !closed && !broken && done.None?
      requires o.k == Answers(outputs) && EvidenceOk() && (o.Failure? ==> !keepAlive) && Due(o, dispatched) && job.None?
      requires o.Failure? || (dispatched != [] ==> AsTold(dispatched[|dispatched| - 1], outputs))
      modifies this`sendBuf, this`outputs, this`muted
      ensures BuffersOk() && OrderOk() && OutputOk() && EvidenceOk() && PersistOk()
      ensures muted == (o.Answer? && sendBuf == [])
      ensures sendBuf == old(sendBuf) + data && outputs == old(outputs) + [o]
      ensures Answers(outputs) == old(Answers(outputs)) + (if o.Answer? then 1 else 0)
    {
      hide Render, Answers, InOrder, Evidence, Due, EndsEmptily, HasFailure;
      Append(outputs, o);
      ghost var before, were, wasMuted := sendBuf[sendN..], outputs, muted;
      sendBuf := sendBuf + data;
      outputs := outputs + [o];
      muted := o.Answer? && sendBuf == [];
      OutputsGrow(were, o, wasMuted);
      QueueGrows(old(sendBuf), sendN, data);
      assert sendBuf[sendN..] == before + data;
    }

    static lemma QueueGrows(queue: Bytes, n: nat, more: Bytes)
      requires n <= |queue|
      ensures (queue + more)[n..] == queue[n..] + more
    {
    }

    /** The route's handler: any of its responses. */
    method Serve(req: Request) returns (data: Bytes)
      ensures Responds(req, data)
    {
      var choice: nat :| true;
      data := handler(req, choice);
    }

    /** The error response for a status code (wingStatusClose). */
    function StatusClose(code: nat): (r: Bytes)
      ensures r != []
    {
      statusLine(code) + CLOSE_HEADERS
    }

    // -------------------------------------------------------------- dispatch

    /** Takes one parsed request off the front of the buffer. */
    method TakeRequest(p: Parsed)
      requires Valid() && Ready() && Parse(Buffered(), lim) == Some(p)
      modifies this`readN, readBuf, this`consumed, this`dispatched, this`collected
      ensures BuffersOk() && HistoryOk() && StreamOk(Rest()) && BodyOk(Rest())
      ensures Owed(1) && EvidenceOk() && SuppressOk()
      ensures readN == old(readN) - p.consumed && dispatched == old(dispatched) + [p.request]
      ensures Buffered() == old(Buffered())[p.consumed..]
    {
      hide OrderOk, OutputOk, EdgeOk, Consumed, Parse, Answers, PersistOk, Evidence, DispatchesAsync, SendsBody;
      ghost var all := Buffered();
      ghost var were := dispatched;
      ghost var next := all[..p.consumed];
      PrefixIsWhole(all, lim);
      ConsumeOne(consumed, dispatched, next, lim);
      Compact(p.consumed);
      consumed, dispatched, collected := consumed + next, dispatched + [p.request], false;
      DispatchedGrows(were, p.request);
      assert all == next + Buffered();
      Shift(old(consumed), next, Buffered(), sock.Unread());
    }

    /** What moves from the front of the buffer to the consumed bytes stays where the stream has it. */
    lemma Shift(before: Bytes, next: Bytes, held: Bytes, unread: Bytes)
      requires inHand == headerSnapshot == bodyBuf == []
      ensures before + (inHand + (headerSnapshot + bodyBuf + (next + held + unread)))
           == before + next + (inHand + (headerSnapshot + bodyBuf + (held + unread)))
    {
      assert headerSnapshot + bodyBuf == [];
      assert next + held + unread == next + (held + unread);
    }

    /** Runs the handler on the event loop and queues its response; `choice` is what the response may depend on besides
        the request. */
    method DispatchInline(p: Parsed, choice: nat)
      requires Valid() && Ready() && Parse(Buffered(), lim) == Some(p) && dispatchOf(p.request) == Inline
      modifies this`readN, readBuf, this`consumed, this`dispatched, this`collected, this`keepAlive, this`sendBuf,
        this`outputs, this`muted
      ensures Valid() && Ready() && keepAlive == p.request.keepAlive
      ensures readN == old(readN) - p.consumed && dispatched == old(dispatched) + [p.request]
      ensures muted == (sendBuf == []) && Buffered() == old(Buffered())[p.consumed..] && readN < readBuf.Length
      ensures |outputs| == |old(outputs)| + 1 && old(outputs) <= outputs
      ensures var o := outputs[|old(outputs)|];
        && o.Answer? && o.k == |old(dispatched)| && Responds(p.request, o.data)
        && o.data == handler(p.request, choice) && sendBuf == old(sendBuf) + o.data
    {
      hide HistoryOk, StreamOk, AwaitsBody, OrderOk, OutputOk, Answers, Parse, EvidenceOk, PersistOk, SuppressOk,
        Responds, DispatchesAsync, SendsBody, TakenLeave, Unservable, Rest, Buffered;
      TakeRequest(p);
      Respond(p.request, choice);
    }

    /** The handler of the newest request runs here, and the connection persists as the request has it. */
    method Respond(req: Request, choice: nat)
      requires BuffersOk() && OrderOk() && OutputOk() && Owed(1) && EdgeOk() && HandlerOk() && EvidenceOk()
      requires !closed && pending == 0 && dispatched != [] && dispatched[|dispatched| - 1] == req
      modifies this`keepAlive, this`sendBuf, this`outputs, this`muted
      ensures BuffersOk() && OrderOk() && OutputOk() && Owed(0) && EdgeOk() && HandlerOk() && EvidenceOk()
        && PersistOk()
      ensures keepAlive == req.keepAlive && muted == (sendBuf == [])
      ensures |outputs| == |old(outputs)| + 1 && old(outputs) <= outputs
      ensures var o := outputs[|old(outputs)|];
        && o.Answer? && o.k == |dispatched| - 1 && Responds(req, o.data)
        && o.data == handler(req, choice) && sendBuf == old(sendBuf) + o.data
    {
      hide OrderOk, OutputOk, Owed, EvidenceOk, PersistOk, HasFailure;
      var data := handler(req, choice);
      keepAlive := req.keepAlive;
      Answer(data);
    }

    /** Queues the answer to the oldest request that has none. */
    method Answer(data: Bytes)
      requires BuffersOk() && OrderOk() && OutputOk() && Owed(1) && EdgeOk() && HandlerOk() && EvidenceOk()
      requires !closed && pending == 0 && dispatched != [] && AsTold(dispatched[|dispatched| - 1], outputs)
      requires Answered(dispatched[|dispatched| - 1], data)
      modifies this`sendBuf, this`outputs, this`muted
      ensures BuffersOk() && OrderOk() && OutputOk() && Owed(0) && EdgeOk() && HandlerOk() && EvidenceOk()
        && PersistOk()
      ensures sendBuf == old(sendBuf) + data && muted == (sendBuf == [])
      ensures outputs == old(outputs) + [WingOutputs.Answer(|dispatched| - 1, data)]
    {
      hide OrderOk, OutputOk, Answers, PersistOk, DispatchesAsync, EndsEmptily, SendsBody, HasFailure, Answered;
      Queue(data, WingOutputs.Answer(|dispatched| - 1, data));
    }

    /** Hands the request to another goroutine, or runs it here if the pool is full. The goroutine may write the
        response itself only if nothing is queued before it. */
    method DispatchAsync(p: Parsed, mode: Dispatch)
      requires Valid() && Ready() && Parse(Buffered(), lim) == Some(p) && mode == dispatchOf(p.request) != Inline
      modifies this`readN, readBuf, this`consumed, this`dispatched, this`collected, this`keepAlive, this`pending,
        this`job, this`done, this`outputs, this`plain, this`muted, this`input, this`readDrained, sock`outArmed,
        sock`registered, sock`edge
      ensures Quiet() && pending == 1 && dispatched == old(dispatched) + [p.request] && Onward()
      ensures Buffered() == old(Buffered())[p.consumed..] && sendBuf == old(sendBuf)
      ensures mode == Spawn ==>
        job == Some(Job(p.request, p.request.keepAlive, sendBuf == [])) && outputs == old(outputs) && !closed
      ensures !plain && !readDrained && input == old(input).(rested := false)
      ensures sendBuf == [] ==> sock.edge == old(sock.edge)
    {
      hide Unfinished, Settled, HistoryOk, StreamOk, AwaitsBody, OrderOk, OutputOk, Owed, Parse, EvidenceOk,
        PersistOk, SuppressOk, DispatchesAsync, SendsBody, TakenLeave, Unservable, Rest, Buffered, Armed, BudgetOk,
        FailedOk, BuffersOk, WillWake, EndsEmptily;
      readDrained := false;
      TakeAsync(p);
      HandOff(p.request, mode);
    }

    method TakeAsync(p: Parsed)
      requires Valid() && Ready() && Parse(Buffered(), lim) == Some(p) && dispatchOf(p.request) != Inline
      modifies this`readN, readBuf, this`consumed, this`dispatched, this`collected, this`plain, this`muted, this`input
      ensures BuffersOk() && HistoryOk() && StreamOk(Rest()) && BodyOk(Rest()) && Owed(1) && EvidenceOk() && !muted
        && SuppressOk()
      ensures EdgeOk() && HandlerOk() && !plain && DispatchesAsync(dispatched)
      ensures dispatched == old(dispatched) + [p.request] && Buffered() == old(Buffered())[p.consumed..]
      ensures InputOk() && input == old(input).(rested := false)
    {
      hide HistoryOk, StreamOk, AwaitsBody, OrderOk, OutputOk, Owed, Parse, PersistOk, SuppressOk, DispatchesAsync,
        SendsBody, Due, Rest;
      ghost var were := dispatched;
      TakeRequest(p);
      AsyncGrows(were, p.request);
      plain, muted, input := false, false, input.(rested := false);
    }

    method HandOff(req: Request, mode: Dispatch)
      requires BuffersOk() && HistoryOk() && StreamOk(Rest()) && BodyOk(Rest()) && OrderOk() && OutputOk() && Owed(1)
      requires HandlerOk() && FailedOk() && Ready() && !readDrained && !plain && !muted && EvidenceOk() && EdgeOk()
      requires dispatched != [] && dispatched[|dispatched| - 1] == req && SuppressOk() && BudgetOk()
      requires DispatchesAsync(dispatched) && InputOk() && !input.rested
      modifies this`keepAlive, this`pending, this`job, this`done, this`outputs, sock`outArmed, sock`registered,
        sock`edge
      ensures Quiet() && pending == 1 && old(outputs) <= outputs && (old(sock.registered) ==> sock.registered)
      ensures mode == Spawn ==> job == Some(Job(req, req.keepAlive, sendBuf == [])) && outputs == old(outputs)
      ensures sendBuf == [] ==> sock.edge == old(sock.edge)
    {
      hide HistoryOk, StreamOk, AwaitsBody, OrderOk, OutputOk, HandlerOk, Parse, Answers, EvidenceOk, PersistOk,
        SuppressOk, DispatchesAsync, SendsBody, TakenLeave, Unservable, BudgetOk, Rest, Buffered, WillWake;
      var saturated := *;
      if mode == Pool && saturated {
        var data := Serve(req);
        CompleteHere(req, data);
      } else {
        StartJob(req);
      }
      if sendBuf != [] {
        sock.SubmitSend();
      }
    }

    method StartJob(req: Request)
      requires HandlerOk() && !closed && !plain && !muted && inHand == [] && pending == 0
      requires dispatched != [] && dispatched[|dispatched| - 1] == req
      modifies this`pending, this`job, this`keepAlive
      ensures HandlerOk() && PersistOk() && pending == 1 && job == Some(Job(req, req.keepAlive, sendBuf == []))
    {
      hide HasFailure;
      keepAlive := req.keepAlive;
      job, pending := Some(Job(req, keepAlive, sendBuf == [])), pending + 1;
    }

    /** The pool was full: the response goes through the completion channel like any other. */
    method CompleteHere(req: Request, data: Bytes)
      requires BuffersOk() && OrderOk() && OutputOk() && Owed(1) && HandlerOk() && EvidenceOk()
      requires !closed && !plain && !muted && inHand == [] && pending == 0
      requires dispatched != [] && dispatched[|dispatched| - 1] == req && Responds(req, data)
      modifies this`pending, this`done, this`outputs, this`keepAlive
      ensures OrderOk() && OutputOk() && Owed(0) && HandlerOk() && EvidenceOk() && PersistOk()
      ensures pending == 1 && InFlight() == 0 && old(outputs) <= outputs
    {
      hide Render, Answers, InOrder, Evidence, HasFailure, Responds;
      keepAlive := req.keepAlive;
      ghost var were := outputs;
      pending := pending + 1;
      done := Some(DoneMsg(data, keepAlive));
      ghost var o := WingOutputs.Answer(|dispatched| - 1, data);
      Append(outputs, o);
      outputs := outputs + [o];
      OutputsGrow(were, o, false);
      assert sock.wire + sendBuf[sendN..] + [] == sock.wire + sendBuf[sendN..];
    }

    /** What is dispatched and what is put out stay, and so does the registration; no read was startled. */
    twostate predicate Onward()
      reads this, sock
    {
      && old(dispatched) <= dispatched && old(outputs) <= outputs
      && sock.startled == old(sock.startled) && |sock.future| <= |old(sock.future)|
      && (old(sock.registered) ==> sock.registered)
    }

    // -------------------------------------------------------------- sending and reading, in turns
    //
    // The methods below call one another. Each round either reads bytes the socket had, consumes bytes that were
    // held, or writes out what was queued; the third component orders the calls that do none of these yet.

    /** Flushes the queue and goes on to whatever comes next on the connection. */
    method DirectSend()
      requires Valid() && !closed && inHand == [] && Waiting() && sendBuf != [] && Addressed()
      modifies this, readBuf, sock
      ensures Calm() && (old(ReadOut()) ==> ReadOut()) && Onward()
      ensures !old(keepAlive) ==> outputs == old(outputs) && dispatched == old(dispatched)
      ensures old(Final()) ==> closed || (Final() && sendBuf == old(sendBuf))
      ensures old(bodyNeed) > 0 ==> outputs == old(outputs) && dispatched == old(dispatched)
      ensures old(bodyNeed) > 0 && !closed ==>
        bodyNeed == old(bodyNeed) && Waiting() && pending == 0 && (sendBuf == [] || sock.outArmed)
        && |sock.Unread()| == old(|sock.Unread()|) && HeldSize() == old(HeldSize())
      decreases |sock.Unread()|, HeldSize(), if keepAlive && bodyNeed == 0 && pending == 0 then 10 else 0
    {
      hide HistoryOk, StreamOk, AwaitsBody, OrderOk, Owed, OutputOk, Parse, EvidenceOk, PersistOk, TakenLeave,
        Unservable, DispatchesAsync, SendsBody;
      var s := WriteOut();
      if s == Blocked {
        return;
      }
      if s == Broke {
        FailSend();
        return;
      }
      if bodyNeed > 0 {
        return;
      }
      if pending > 0 {
        return;
      }
      if !keepAlive {
        LeaveTaken();
        Shut();
        return;
      }
      if readN > 0 {
        TryParse();
        return;
      }
      ReadNext();
    }

    lemma LeaveTaken()
      requires Valid() && !closed && !broken && !keepAlive && DoneData() == [] && job.None?
      requires sendBuf == [] || EndsEmptily(outputs)
      requires dispatched != [] || HasFailure(outputs)
      ensures TakenLeave()
    {
      hide HistoryOk, StreamOk, BodyOk, OrderOk, Owed, Render, HasFailure, EndsEmptily, EvidenceOk, DispatchesAsync,
        SendsBody;
      if sendBuf == [] {
        assert sock.wire + [] + [] == sock.wire;
      }
    }

    /** Everything is sent and the buffer is empty: read on, unless the socket is known to be empty. */
    method ReadNext()
      requires Valid() && Ready() && readN == 0 && sendBuf == [] && keepAlive
      modifies this, readBuf, sock
      ensures Quiet() && Onward()
      ensures old(readDrained && !readSuppressed) ==> unchanged(this, readBuf, sock)
      decreases |sock.Unread()|, HeldSize(), 9
    {
      hide HistoryOk, StreamOk, BodyOk, OrderOk, Owed, OutputOk, HandlerOk, Parse, EvidenceOk, PersistOk,
        DispatchesAsync, SendsBody, TakenLeave, Unservable, Buffered, BudgetOk, Rest, FailedOk, EndsEmptily;
      EmptyBuffer();
      if readDrained && !readSuppressed {
        return;
      }
      readSuppressed, readDrained := false, false;
      ReadOn();
    }

    /** One read; what has come is parsed. */
    method ReadOn()
      requires Valid() && Ready() && readN == 0 && sendBuf == [] && (outputs != [] ==> keepAlive) && !readDrained
      requires Unfinished() && !readSuppressed
      modifies this, readBuf, sock
      ensures Quiet() && Onward()
      decreases |sock.Unread()|, HeldSize(), 9, 0
    {
      hide HistoryOk, StreamOk, BodyOk, OrderOk, Owed, OutputOk, HandlerOk, Parse, EvidenceOk, PersistOk,
        DispatchesAsync, SendsBody, TakenLeave, Unservable, Buffered, BudgetOk, Rest, FailedOk, EndsEmptily;
      var r := ReadOnce();
      if r.Data? {
        TryParse();
      }
    }

    /** A read that leaves nothing behind unless it fills the buffer. */
    method ReadOnce() returns (r: ReadResult)
      requires Valid() && Ready() && readN == 0 && sendBuf == [] && (outputs != [] ==> keepAlive) && !readDrained
      requires Unfinished() && !readSuppressed
      modifies this`muted, this`input, this`readDrained, this`readN, readBuf, sock`inbound, sock`future, sock`hup,
        sock`edge, sock`failed, sock`startled
      ensures sock.startled == old(sock.startled) && |sock.future| <= |old(sock.future)|
      ensures if r.Data? then Valid() && Ready() && readN > 0 && KeptOpen() && Addressed() else Quiet()
      ensures r.Data? ==> readDrained == (readN < readBuf.Length) && |sock.Unread()| < old(|sock.Unread()|)
      ensures !r.Data? ==> !readDrained
    {
      hide HistoryOk, StreamOk, BodyOk, OrderOk, Owed, OutputOk, HandlerOk, Parse, EvidenceOk, PersistOk,
        DispatchesAsync, SendsBody, TakenLeave, Unservable, Buffered, BudgetOk, Rest, FailedOk, EndsEmptily;
      r := Recv();
      if r.Data? {
        readDrained := readN < readBuf.Length;
      }
    }

    lemma EmptyBuffer()
      requires readN == 0 && readBuf.Length > 0
      ensures Unfinished()
    {
      hide Parse, Classify;
      NothingConsumed(lim);
      assert Buffered() == [];
      NeedHeaderMoreExactly([], lim);
    }

    /** The buffer holds neither a whole request nor a header with a body to wait for. */
    ghost predicate Stuck()
      reads this`readN, readBuf
      requires readN <= readBuf.Length
    {
      Parse(Buffered(), lim).None? && Classify(Buffered(), lim).status != NeedBody
    }

    /** Dispatches every complete request in the buffer. */
    method TryParse()
      requires Valid() && Ready() && readN > 0 && KeptOpen() && Addressed()
      modifies this, readBuf, sock
      ensures Quiet() && Onward()
      ensures old(Parse(Buffered(), lim)).Some? ==>
        old(dispatched) + [old(Parse(Buffered(), lim)).value.request] <= dispatched
      ensures old(Final() && Stuck()) ==> dispatched == old(dispatched)
      decreases |sock.Unread()|, HeldSize(), if sendBuf != [] then 12 else 8, 1
    {
      hide HistoryOk, StreamOk, BodyOk, OrderOk, Owed, OutputOk, HandlerOk, Parse, Classify, EvidenceOk, PersistOk,
        SuppressOk, DispatchesAsync, SendsBody, TakenLeave, Unservable, BudgetOk, FailedOk, Rest, EdgeOk;
      ghost var unread, held, queued := |sock.Unread()|, HeldSize(), sendBuf;
      ghost var first := Parse(Buffered(), lim);
      var r := ParseOne();
      while r == More && readN > 0
        invariant r == Over ==> Quiet()
        invariant r != Over ==> Valid() && Ready() && KeptOpen() && Addressed()
        invariant r != Over ==>
          || |sock.Unread()| < unread
          || (|sock.Unread()| == unread && HeldSize() < held)
          || (|sock.Unread()| == unread && HeldSize() == held && sendBuf == queued)
        invariant r == More && readN == 0 ==> sendBuf != [] || muted
        invariant r == Enough ==> CaughtUp()
        invariant Onward() && (first.Some? ==> old(dispatched) + [first.value.request] <= dispatched)
        invariant old(Final() && Stuck()) ==> dispatched == old(dispatched) && r != More && (r == Enough ==> !keepAlive)
        decreases if r == More then 1 else 0, |sock.Unread()|, HeldSize()
      {
        r := ParseOne();
      }
      if r == Over {
        return;
      }
      if readN == 0 {
        EmptyBuffer();
      }
      if sendBuf != [] {
        DirectSend();
      } else if muted {
        MutedBySilence();
      }
    }

    lemma MutedBySilence()
      requires Valid() && muted
      ensures EndsEmptily(outputs)
    {
      hide HistoryOk, StreamOk, BodyOk, OrderOk, Owed, OutputOk, HandlerOk, PersistOk, SuppressOk, EndsEmptily, Due,
        DispatchesAsync, SendsBody;
    }

    /** Nothing more is to be dispatched now, or something is queued whose sending goes on with it. */
    ghost predicate CaughtUp()
      reads this`sendBuf, this`muted, this`keepAlive, this`readN, this`readDrained, readBuf
      requires readN <= readBuf.Length
    {
      || sendBuf != []
      || (muted && !keepAlive && readN < readBuf.Length)
      || (readDrained && readN < readBuf.Length && Unfinished())
    }

    /** One round of the loop. */
    method ParseOne() returns (r: ParseResult)
      requires Valid() && Ready() && readN > 0 && KeptOpen() && Addressed()
      modifies this, readBuf, sock
      ensures Onward() && (r == Over ==> Quiet())
      ensures r != Over ==> Valid() && Ready() && KeptOpen() && Addressed() && (r == Enough ==> CaughtUp())
      ensures r == More ==>
        |sock.Unread()| < old(|sock.Unread()|)
          || (|sock.Unread()| == old(|sock.Unread()|) && HeldSize() < old(HeldSize()))
      ensures r == Enough ==>
        || (|sock.Unread()| == old(|sock.Unread()|) && HeldSize() < old(HeldSize()))
        || (|sock.Unread()| == old(|sock.Unread()|) && HeldSize() == old(HeldSize()) && sendBuf == old(sendBuf))
      ensures r == More && readN == 0 ==> sendBuf != [] || muted
      ensures old(Parse(Buffered(), lim)).Some? ==>
        old(dispatched) + [old(Parse(Buffered(), lim)).value.request] <= dispatched
      ensures old(Final() && Stuck()) ==> dispatched == old(dispatched) && r != More && (r == Enough ==> !keepAlive)
      decreases |sock.Unread()|, HeldSize(), if sendBuf != [] then 12 else 8, 0
    {
      hide HistoryOk, StreamOk, BodyOk, OrderOk, Owed, OutputOk, HandlerOk, Parse, Classify, EvidenceOk, PersistOk,
        SuppressOk, DispatchesAsync, SendsBody, TakenLeave, Unservable;
      var parsed := ParseHTTPRequest(readBuf[..readN], lim);
      if parsed.None? {
        var v := ClassifyIncomplete(readBuf[..readN], lim);
        if v.status != NeedHeaderMore || readN == readBuf.Length {
          Reject(v);
          return Over;
        }
        r := Refill();
        return;
      }
      var mode := dispatchOf(parsed.value.request);
      if mode != Inline {
        DispatchAsync(parsed.value, mode);
        return Over;
      }
      var choice: nat :| true;
      DispatchInline(parsed.value, choice);
      r := if keepAlive then More else Enough;
    }

    /** An unfinished header is in the buffer, which has room. Bytes behind it may have spent their edge already,
        so unless the socket is known to be empty they are read now; but first the queue is flushed. */
    method Refill() returns (r: ParseResult)
      requires Valid() && Ready() && readN < readBuf.Length && KeptOpen() && Addressed()
      modifies this, readBuf, sock
      ensures r != Over ==> KeptOpen() && Addressed()
      ensures r == Over ==> Quiet()
      ensures Onward() && (keepAlive == old(keepAlive) || r == Over)
      ensures r == More ==> old(sendBuf) == []
      ensures r != Over ==> dispatched == old(dispatched)
      ensures r == Over ==> Onward() && (old(Final()) ==> dispatched == old(dispatched))
      ensures r == More ==> Valid() && Ready() && readN > 0 && |sock.Unread()| < old(|sock.Unread()|)
      ensures r == Enough ==> Valid() && Ready() && readDrained && sendBuf == old(sendBuf)
      ensures r == Enough ==> |sock.Unread()| == old(|sock.Unread()|) && HeldSize() == old(HeldSize())
      ensures r == Enough ==> readN == old(readN) && Buffered() == old(Buffered())
      decreases |sock.Unread()|, HeldSize(), if sendBuf != [] then 11 else 7
    {
      hide HistoryOk, StreamOk, BodyOk, OrderOk, Owed, OutputOk, HandlerOk, Parse, EvidenceOk, PersistOk,
        DispatchesAsync, SendsBody, TakenLeave, Unservable;
      if readDrained {
        return Enough;
      }
      if sendBuf != [] {
        DirectSend();
        return Over;
      }
      r := ReadMore();
    }

    method ReadMore() returns (r: ParseResult)
      requires Valid() && Ready() && readN < readBuf.Length && KeptOpen() && sendBuf == [] && !readDrained
      modifies this`readSuppressed, this`readDrained, this`muted, this`input, this`readN, readBuf, sock`inbound,
        sock`future, sock`hup, sock`edge, sock`failed, sock`startled, this`closed, this`bodyNeed, this`reserved,
        this`bodyBuf, this`headerSnapshot, this`inHand
      ensures if r == Over then Quiet() else Valid() && Ready() && KeptOpen()
      ensures sock.startled == old(sock.startled) && |sock.future| <= |old(sock.future)|
      ensures r == More ==>
        readN > 0 && |sock.Unread()| < old(|sock.Unread()|) && readDrained == (readN < readBuf.Length)
      ensures r == Enough ==> readDrained && |sock.Unread()| == old(|sock.Unread()|)
      ensures r == Enough ==> readN == old(readN) && Buffered() == old(Buffered()) && HeldSize() == old(HeldSize())
    {
      hide Render, InOrder, AwaitsBody, BudgetOk, EndsEmptily, HistoryOk, StreamOk, BodyOk, OrderOk, Owed, OutputOk,
        HandlerOk, Parse, EvidenceOk, PersistOk, DispatchesAsync, SendsBody, TakenLeave, Unservable, Rest, Buffered;
      readSuppressed := false;
      var got := Recv();
      match got {
        case ReadAgain =>
          SetDrained(true);
          return Enough;
        case Data(_) =>
          SetDrained(readN < readBuf.Length);
          return More;
        case _ =>
          Shut();
          return Over;
      }
    }

    /** The socket was found empty, or it was not. */
    method SetDrained(empty: bool)
      requires Valid() && (empty ==> sock.inbound == [] && !input.full && !input.spent && !readSuppressed)
      modifies this`readDrained
      ensures Valid() && readDrained == empty
    {
      hide HistoryOk, StreamOk, BodyOk, OrderOk, Owed, OutputOk, HandlerOk, EvidenceOk, PersistOk, SuppressOk,
        BudgetOk, FailedOk, Rest;
      readDrained := empty;
    }

    /** The response to bytes that can never become a request; None if the connection closes without one. */
    static function RejectionCode(status: Status, full: bool): Option<nat> {
      match status
      case BadRequest => Some(400)
      case BodyTooLarge => Some(413)
      case HeaderTooLarge => Some(431)
      case Chunked => Some(if full then 431 else 501)
      case _ => if full then Some(431) else None
    }

    /** Bytes that the parser rejects and that are not simply an unfinished header. */
    method Reject(v: Verdict)
      requires Valid() && Ready() && readN > 0 && v == Classify(Buffered(), lim) && Parse(Buffered(), lim).None?
      requires v.status != NeedHeaderMore || readN == readBuf.Length
      modifies this, readBuf, sock
      ensures Quiet() && Onward()
      ensures v.status != NeedBody ==> dispatched == old(dispatched)
      ensures v.status == NeedBody && |outputs| > |old(outputs)| && outputs[|old(outputs)|].Failure? ==>
        outputs == old(outputs) + [Failure(Answers(old(outputs)), StatusClose(503))]
      ensures v.status != NeedBody ==>
        var code := RejectionCode(v.status, old(readN) == readBuf.Length);
        if code.None? then closed && outputs == old(outputs)
        else outputs == old(outputs) + [Failure(Answers(old(outputs)), StatusClose(code.value))]
      decreases |sock.Unread()|, HeldSize(), 6
    {
      hide HistoryOk, StreamOk, BodyOk, OrderOk, Owed, OutputOk, HandlerOk, Classify, Parse, StatusClose, Answers,
        EvidenceOk, PersistOk, DispatchesAsync, SendsBody, TakenLeave, Unservable;
      if v.status == NeedBody {
        if maxInflight > 0 {
          MayRefuse();
        }
        NeedBodyHasTerminator(Buffered(), lim);
        ghost var charged;
        var granted;
        granted, charged := BeginBodyAccum(v);
        if !granted {
          WriteAndClose(503);
        }
        return;
      }
      MayRefuse();
      if v.status == BadRequest {
        WriteAndClose(400);
      } else if v.status == BodyTooLarge {
        WriteAndClose(413);
      } else if readN == readBuf.Length {
        WriteAndClose(431);
      } else if v.status == Chunked {
        WriteAndClose(501);
      } else if v.status == HeaderTooLarge {
        WriteAndClose(431);
      } else {
        Shut();
      }
    }

    /** Bytes that the parser rejects may be refused, if the header does not fit the buffer, the body does not fit the
        budget, or they can never be a request; and if they are malformed, the connection may be closed. */
    lemma MayRefuse()
      requires Valid() && Ready() && Parse(Buffered(), lim).None?
      requires Classify(Buffered(), lim).status == NeedHeaderMore ==> readN == readBuf.Length
      requires Classify(Buffered(), lim).status == NeedBody ==> maxInflight > 0
      ensures Refuses(dispatched)
      ensures Classify(Buffered(), lim).status == Malformed ==> Excused()
    {
      hide Parse, Classify, HandlerOk, OrderOk, Owed, OutputOk, EvidenceOk, PersistOk, EdgeOk, NeverARequest,
        Unservable, TakenLeave, SuppressOk, Consumed;
      var d, n := Buffered(), |consumed|;
      assert peer == consumed + (d + sock.Unread());
      assert peer[..n] == consumed && peer[n..n + |d|] == d && d <= peer[n..];
      if Classify(d, lim).status != NeedHeaderMore && Classify(d, lim).status != NeedBody {
        RejectedForGood(d, lim);
        Hopeless(d, peer[n..], lim);
      }
      assert Refusable(peer[n..n + |d|], readBuf.Length, maxInflight, lim);
    }

    /** Queues an error response; the connection closes once it has been sent. */
    method WriteAndClose(code: nat)
      requires Valid() && Ready() && Refuses(dispatched)
      modifies this, readBuf, sock
      ensures Quiet() && dispatched == old(dispatched) && Onward()
      ensures outputs == old(outputs) + [Failure(Answers(old(outputs)), StatusClose(code))]
      decreases |sock.Unread()|, HeldSize(), 2
    {
      hide HistoryOk, StreamOk, BodyOk, OrderOk, OutputOk, Parse, Answers, StatusClose, EvidenceOk, PersistOk,
        SuppressOk, TakenLeave, Unservable;
      QueueError(code);
      DirectSend();
    }

    method QueueError(code: nat)
      requires Valid() && Ready() && Refuses(dispatched)
      modifies this`keepAlive, this`sendBuf, this`outputs, this`muted
      ensures Valid() && !keepAlive && sendBuf != [] && HasFailure(outputs)
      ensures outputs == old(outputs) + [Failure(Answers(old(outputs)), StatusClose(code))]
    {
      hide HistoryOk, StreamOk, BodyOk, OrderOk, OutputOk, Parse, Answers, StatusClose, EvidenceOk, PersistOk,
        SuppressOk, HasFailure, EndsEmptily, Refuses, TakenLeave, Unservable;
      ReadyFacts();
      assert dispatched[..|dispatched|] == dispatched;
      keepAlive := false;
      var data := StatusClose(code);
      ghost var were, o := outputs, Failure(Answers(outputs), data);
      Queue(data, o);
      EvidenceGrows(were, o);
    }

    lemma ReadyFacts()
      requires Valid() && Ready()
      ensures !broken && done.None? && job.None? && |dispatched| == Answers(outputs)
    {
      hide StreamOk, BodyOk, HistoryOk, OrderOk, OutputOk, Answers, EvidenceOk, PersistOk;
    }

    // -------------------------------------------------------------- bodies larger than the buffer

    /** The need is charged to the worker's budget; if the budget is exceeded then, by whatever others have charged, the
        charge is rolled back. */
    method ChargeBody(need: nat) returns (fits: bool, ghost charged: nat)
      requires BudgetOk() && bodyNeed == 0
      modifies this`reserved
      ensures reserved == if fits then Charge(need) else 0
      ensures fits <==> maxInflight == 0 || charged + need <= maxInflight
    {
      charged := 0;
      if maxInflight > 0 {
        var others: nat :| true;   // what other connections and goroutines have charged
        charged := others;
        reserved := reserved + need;
        if reserved + others > maxInflight {
          reserved := reserved - need;
          return false, charged;
        }
      }
      return true, charged;
    }

    /** The client waits for the interim response before it sends the rest of the body. */
    ghost predicate AsksToGoOn(v: Verdict)
      reads this`readN, readBuf
      requires readN <= readBuf.Length
    {
      v.expectContinue && readN < IndexTerminator(Buffered()) + 4 + v.need
    }

    /** Sets the header block aside and starts collecting the body, if its need fits the worker's budget. */
    method BeginBodyAccum(v: Verdict) returns (granted: bool, ghost charged: nat)
      requires Valid() && Ready() && readN > 0 && v == Classify(Buffered(), lim) && v.status == NeedBody
      modifies this, readBuf, sock
      ensures granted ==> Quiet() && Onward()
      ensures !granted ==>
        Valid() && Ready() && |sock.Unread()| == old(|sock.Unread()|) && HeldSize() == old(HeldSize())
      ensures !granted ==> dispatched == old(dispatched) && outputs == old(outputs)
      ensures !granted ==> sock.startled == old(sock.startled) && |sock.future| <= |old(sock.future)|
      ensures !granted ==> (old(sock.registered) ==> sock.registered)
      ensures granted <==>
        (maxInflight == 0 || charged + v.need <= maxInflight) && old(IndexTerminator(Buffered())) >= 0
      ensures granted && old(AsksToGoOn(v)) ==>
        && old(outputs) + [Continue(Answers(old(outputs)))] <= outputs
        && (dispatched == old(dispatched) && !closed ==> sendBuf == [] || sock.outArmed)
      ensures granted && !old(AsksToGoOn(v)) ==>
        |outputs| == |old(outputs)| || outputs[|old(outputs)|].Answer?
      decreases |sock.Unread()|, HeldSize(), 5
    {
      hide HistoryOk, StreamOk, AwaitsBody, OrderOk, OutputOk, Classify, Answers, IndexTerminator, Parse, EvidenceOk,
        PersistOk, SuppressOk, DispatchesAsync, SendsBody, TakenLeave, Unservable, Rest, WillWake, Accounted,
        FailedOk, CloseOk, Settled, Awake;
      readDrained := false;
      var fits;
      fits, charged := ChargeBody(v.need);
      if !fits {
        return false, charged;
      }
      var headerEnd := IndexTerminator(readBuf[..readN]);
      if headerEnd < 0 {
        if maxInflight > 0 {
          reserved := reserved - v.need;
        }
        return false, charged;
      }
      SetHeaderAside(headerEnd + 4, v.need);
      if v.expectContinue && |bodyBuf| < bodyNeed {
        SendContinue();
        if closed {
          return true, charged;
        }
      }
      DrainBodyAccum();
      return true, charged;
    }

    /** The interim response that the client waits for. */
    method SendContinue()
      requires Valid() && 0 < bodyNeed && |bodyBuf| < bodyNeed && readN == 0 && inHand == []
      modifies this, readBuf, sock
      ensures Calm() && Onward() && dispatched == old(dispatched)
      ensures outputs == old(outputs) + [Continue(Answers(old(outputs)))]
      ensures !closed ==> sendBuf == [] || sock.outArmed
      ensures !closed ==>
        bodyNeed > 0 && Waiting() && |sock.Unread()| == old(|sock.Unread()|) && HeldSize() == old(HeldSize())
      decreases |sock.Unread()|, HeldSize(), 4
    {
      hide HistoryOk, StreamOk, AwaitsBody, OrderOk, OutputOk, Classify, Answers, IndexTerminator, Parse, EvidenceOk,
        PersistOk, SuppressOk, DispatchesAsync, SendsBody, TakenLeave, Unservable;
      BodyFacts();
      Queue(CONTINUE_RESPONSE, Continue(Answers(outputs)));
      DirectSend();
    }

    lemma BodyFacts()
      requires Valid() && bodyNeed > 0
      ensures !broken && done.None? && job.None? && |dispatched| == Answers(outputs) && !closed && pending == 0
      ensures dispatched != [] ==> AsTold(dispatched[|dispatched| - 1], outputs)
    {
      hide StreamOk, HistoryOk, OrderOk, OutputOk, Answers, AwaitsBody, EvidenceOk, AsTold;
    }

    /** The buffer up to `headerEnd` becomes the header snapshot; what follows starts the body. */
    method SetHeaderAside(headerEnd: nat, need: nat)
      requires Sound() && Ready() && !readDrained && reserved == Charge(need)
      requires IndexTerminator(Buffered()) >= 0 && headerEnd == IndexTerminator(Buffered()) + 4
      requires Classify(Buffered(), lim).status == NeedBody && Classify(Buffered(), lim).need == need
      modifies this`bodyNeed, this`headerSnapshot, this`bodyBuf, this`bodyHead, this`plain, this`readN, readBuf
      ensures Valid() && bodyNeed == need > 0 && inHand == [] && (|bodyBuf| < bodyNeed ==> readN == 0)
      ensures HeldSize() == old(HeldSize())
      ensures headerSnapshot == old(Buffered())[..headerEnd]
      ensures bodyBuf + Buffered() == old(Buffered())[headerEnd..] && (readN == 0 || |bodyBuf| == bodyNeed)
    {
      hide HistoryOk, StreamOk, OrderOk, Owed, OutputOk, AwaitsBody, Classify, IndexTerminator, Rest, Buffered,
        PersistOk, DispatchesAsync, EndsEmptily, SendsBody, Due, SuppressOk, TakenLeave, Unservable, Charge;
      ghost var head := Buffered();
      RestStartsWith(head);
      NeedIsPositive(head, lim);
      SplitBuffer(headerEnd, need);
      RestStartsWith(head);
      StartsAwaiting(head, headerEnd, need, Rest(), lim);
      SawBody(head);
      plain, bodyHead := false, head;
    }

    lemma SawBody(head: Bytes)
      requires readN <= readBuf.Length && StreamOk(Rest()) && !closed && inHand == [] && head <= Rest()
      requires Classify(head, lim).status == NeedBody && HistoryOk()
      ensures SendsBody()
    {
      hide Classify, ParseAll, ConsumedAll;
      var n := |consumed|;
      assert peer[..n] == consumed && peer[n..n + |head|] == head;
    }

    lemma RestStartsWith(head: Bytes)
      requires readN <= readBuf.Length && (bodyNeed == 0 ==> headerSnapshot == [] && bodyBuf == [])
      requires if bodyNeed == 0 then head == Buffered() else head == headerSnapshot + (bodyBuf + Buffered())
      ensures Rest() == head + sock.Unread() && head <= Rest() && |Buffered()| == readN
    {
    }

    /** The bytes move, and stay in order. */
    method SplitBuffer(headerEnd: nat, need: nat)
      requires headerEnd <= readN <= readBuf.Length
      modifies this`bodyNeed, this`headerSnapshot, this`bodyBuf, this`readN, readBuf
      ensures readN <= readBuf.Length && headerSnapshot + (bodyBuf + Buffered()) == old(Buffered())
      ensures bodyNeed == need && headerSnapshot == old(Buffered())[..headerEnd] && |bodyBuf| <= need
      ensures |bodyBuf| < need ==> readN == 0
      ensures |headerSnapshot| + |bodyBuf| + readN == old(readN)
    {
      ghost var head := Buffered();
      bodyNeed, headerSnapshot, bodyBuf := need, readBuf[..headerEnd], [];
      Compact(headerEnd);
      assert head == headerSnapshot + Buffered();
      AccumBody();
    }

    static lemma StartsAwaiting(head: Bytes, taken: nat, need: nat, rest: Bytes, lim: Limits)
      requires head <= rest && IndexTerminator(head) >= 0 && taken == IndexTerminator(head) + 4
      requires Classify(head, lim).status == NeedBody && Classify(head, lim).need == need > 0
      ensures AwaitsBody(head, taken, need, rest, lim)
    {
      hide Classify, IndexTerminator;
    }

    static lemma NeedIsPositive(data: Bytes, lim: Limits)
      requires Classify(data, lim).status == NeedBody
      ensures Classify(data, lim).need > 0
    {
      hide IndexTerminator, BlankPrefix, IndexByte, ClassifyLines, SplitRequestLine;
      var d := data[BlankPrefix(data)..];
      var block := d[..IndexTerminator(d) + 2];
      NoStopMeansNeedBody(FieldBlock(block), NOTHING_SEEN, lim);
    }

    /** Reads until the body is complete or the socket is empty, and goes on with the completed request. */
    method DrainBodyAccum()
      requires Valid() && bodyNeed > 0 && (|bodyBuf| < bodyNeed ==> readN == 0)
      modifies this, readBuf, sock
      ensures Quiet() && Onward()
      ensures |outputs| == |old(outputs)| || outputs[|old(outputs)|].Answer?
      ensures dispatched == old(dispatched) && !closed ==>
        outputs == old(outputs) && sendBuf == old(sendBuf) && sock.outArmed == old(sock.outArmed)
      decreases |sock.Unread()|, HeldSize(), 4
    {
      hide Rest, HistoryOk, StreamOk, OrderOk, Owed, OutputOk, HandlerOk, AwaitsBody, Parse, EvidenceOk, PersistOk,
        SuppressOk, DispatchesAsync, SendsBody, TakenLeave, Unservable;
      var full := FillBody();
      if full {
        DrainPipelined();
        FinishBodyAccum();
      }
    }

    method FillBody() returns (full: bool)
      requires Valid() && bodyNeed > 0 && (|bodyBuf| < bodyNeed ==> readN == 0)
      modifies this`readDrained, this`muted, this`input, this`readN, this`bodyBuf, this`closed, this`bodyNeed,
        this`reserved, this`headerSnapshot, this`inHand, readBuf, sock`inbound, sock`future, sock`hup, sock`edge,
        sock`failed, sock`startled
      ensures if full then Valid() && bodyNeed > 0 && |bodyBuf| == bodyNeed else Quiet()
      ensures full ==>
        |sock.Unread()| < old(|sock.Unread()|)
          || (|sock.Unread()| == old(|sock.Unread()|) && HeldSize() == old(HeldSize()))
      ensures sock.startled == old(sock.startled) && |sock.future| <= |old(sock.future)|
    {
      hide Buffered, Rest, SuppressOk, Answers, HistoryOk, StreamOk, OrderOk, Owed, OutputOk, HandlerOk, AwaitsBody,
        Parse, EvidenceOk, PersistOk, DispatchesAsync, SendsBody, TakenLeave, Unservable, BudgetOk;
      readDrained := false;
      HasBody();
      while |bodyBuf| < bodyNeed
        invariant Valid() && bodyNeed > 0 && !readDrained && (|bodyBuf| < bodyNeed ==> readN == 0)
        invariant sock.startled == old(sock.startled) && |sock.future| <= |old(sock.future)|
        invariant |sock.Unread()| < old(|sock.Unread()|)
               || (|sock.Unread()| == old(|sock.Unread()|) && HeldSize() == old(HeldSize()))
        decreases |sock.Unread()|
      {
        var r := Recv();
        match r {
          case ReadAgain =>
            WaitsForBody();
            return false;
          case Data(_) =>
            FeedBody();
          case _ =>
            BodyFacts();
            Shut();
            return false;
        }
      }
      BodyBounds();
      return true;
    }

    lemma WaitsForBody()
      requires Valid() && 0 < bodyNeed && |bodyBuf| < bodyNeed && readN == 0 && !input.full && !sock.Readable()
      ensures Quiet()
    {
      hide HistoryOk, StreamOk, OrderOk, Owed, OutputOk, EvidenceOk, PersistOk, AwaitsBody, Parse, BudgetOk,
        FailedOk, SuppressOk, EdgeOk, InputOk, Rest, DispatchesAsync, SendsBody, TakenLeave, Unservable;
    }

    lemma BodyBounds()
      requires Valid() && bodyNeed > 0
      ensures |bodyBuf| <= bodyNeed
    {
      hide HistoryOk, StreamOk, HandlerOk, OrderOk, Owed, OutputOk, EvidenceOk, PersistOk, EdgeOk, SuppressOk,
        AwaitsBody, SendsBody, DispatchesAsync, Parse;
    }

    lemma HasBody()
      requires Valid() && bodyNeed > 0
      ensures SendsBody() && !closed
    {
      hide HistoryOk, StreamOk, HandlerOk, OrderOk, Owed, OutputOk, EvidenceOk, PersistOk, EdgeOk, SuppressOk,
        SendsBody, Classify, IndexTerminator, DispatchesAsync, TakenLeave, Unservable;
      SawBody(bodyHead);
    }

    /** AccumBody keeps every byte where the stream has it. */
    method FeedBody()
      requires Valid() && bodyNeed > 0
      modifies this`bodyBuf, this`readN, readBuf
      ensures Valid() && (|bodyBuf| < bodyNeed ==> readN == 0)
      ensures HeldSize() == old(HeldSize()) && bodyBuf + Buffered() == old(bodyBuf + Buffered())
    {
      hide HistoryOk, StreamOk, OrderOk, Owed, OutputOk, HandlerOk, EdgeOk, AwaitsBody, EvidenceOk, PersistOk,
        DispatchesAsync, SendsBody, TakenLeave, Unservable;
      ghost var before := bodyBuf + Buffered();
      AccumBody();
      assert headerSnapshot + bodyBuf + (Buffered() + sock.Unread())
          == headerSnapshot + (bodyBuf + Buffered()) + sock.Unread();
      assert headerSnapshot + before + sock.Unread() == old(Rest());
    }

    /** What has arrived behind a complete body is in the buffer, as far as there is room. */
    ghost predicate PickedUp()
      reads this`readN, sock`inbound, sock`hup, sock`failed
    {
      readN == readBuf.Length || !sock.Readable() || sock.failed
    }

    /** Picks up what has already arrived behind a complete body. */
    method DrainPipelined()
      requires Valid() && bodyNeed > 0
      modifies this`readDrained, this`muted, this`input, this`readN, readBuf, sock`inbound, sock`future, sock`hup,
        sock`edge, sock`failed, sock`startled
      ensures Valid() && readN >= old(readN) && PickedUp()
      ensures sock.startled == old(sock.startled) && |sock.future| <= |old(sock.future)|
      ensures |sock.Unread()| < old(|sock.Unread()|)
           || (|sock.Unread()| == old(|sock.Unread()|) && readN == old(readN))
    {
      hide HistoryOk, StreamOk, BodyOk, OrderOk, Owed, OutputOk, HandlerOk, EvidenceOk, PersistOk, DispatchesAsync,
        SendsBody, TakenLeave, Unservable;
      BodyFacts();
      HasBody();
      readDrained := false;
      while readN < readBuf.Length
        invariant Valid() && readN >= old(readN) && !readDrained
        invariant sock.startled == old(sock.startled) && |sock.future| <= |old(sock.future)|
        invariant |sock.Unread()| < old(|sock.Unread()|)
               || (|sock.Unread()| == old(|sock.Unread()|) && readN == old(readN))
        invariant !closed
        decreases |sock.Unread()|
      {
        var r := Recv();
        if !r.Data? {
          return;
        }
      }
    }

    /** The completed bytes are parsed again, and dispatched on the event loop whatever the route asks for. */
    method FinishBodyAccum()
      requires Valid() && bodyNeed > 0 && |bodyBuf| == bodyNeed && PickedUp()
      modifies this, readBuf, sock
      ensures Quiet() && Onward()
      ensures closed || |dispatched| > |old(dispatched)|
      ensures |outputs| == |old(outputs)| || outputs[|old(outputs)|].Answer?
      decreases |sock.Unread()|, HeldSize(), 1
    {
      hide HistoryOk, StreamOk, OrderOk, Owed, OutputOk, HandlerOk, AwaitsBody, Parse, EvidenceOk, PersistOk,
        DispatchesAsync, SendsBody, TakenLeave, Unservable;
      var full, taken, need := TakeBody();
      var parsed := ParseHTTPRequest(full, lim);
      if parsed.None? {
        InVain(taken, need);
        Shut();
        return;
      }
      AwaitedRequest(bodyHead, taken, need, full + Rest(), full, lim);
      DispatchAccumulated(parsed.value.request);
    }

    /** Header block and body become the request in hand, and the charge is refunded. */
    method TakeBody() returns (full: Bytes, ghost taken: nat, ghost need: nat)
      requires Valid() && bodyNeed > 0 && |bodyBuf| == bodyNeed
      modifies this`bodyNeed, this`reserved, this`headerSnapshot, this`bodyBuf, this`inHand
      ensures Valid() && !closed && pending == 0 && bodyNeed == 0 && inHand == full != []
      ensures |full| == taken + need && AwaitsBody(bodyHead, taken, need, full + Rest(), lim)
      ensures HeldSize() < old(HeldSize()) && full == old(headerSnapshot + bodyBuf) && reserved == 0
    {
      hide HistoryOk, OrderOk, Owed, OutputOk, EdgeOk, AwaitsBody, Parse, EvidenceOk, PersistOk, SuppressOk,
        DispatchesAsync, SendsBody, TakenLeave, Unservable, Buffered;
      if maxInflight > 0 {
        reserved := reserved - bodyNeed;
      }
      taken, need := |headerSnapshot|, bodyNeed;
      full := headerSnapshot + bodyBuf;
      bodyNeed, headerSnapshot, bodyBuf := 0, [], [];
      inHand := full;
      assert full + Rest() == old(Rest());
    }

    lemma InVain(taken: nat, need: nat)
      requires Valid() && !closed && |inHand| == taken + need && Parse(inHand, lim).None?
      requires AwaitsBody(bodyHead, taken, need, inHand + Rest(), lim)
      ensures Excused()
    {
      hide HistoryOk, BodyOk, HandlerOk, OrderOk, Owed, OutputOk, EvidenceOk, PersistOk, EdgeOk, Parse, AwaitsBody,
        Unservable, TakenLeave, DispatchesAsync, SendsBody;
      var rest := inHand + Rest();
      assert peer[|consumed|..] == rest && rest[..taken + need] == inHand;
      AwaitedInVain(bodyHead, taken, need, rest, lim);
    }

    method DispatchAccumulated(req: Request)
      requires Valid() && !closed && pending == 0 && bodyNeed == 0
      requires inHand != [] && Parse(inHand, lim) == Some(Parsed(req, |inHand|))
      modifies this, readBuf, sock
      ensures Quiet() && Onward() && old(dispatched) + [req] <= dispatched
      ensures |outputs| > |old(outputs)| && outputs[|old(outputs)|].Answer?
      decreases |sock.Unread()|, HeldSize(), 13
    {
      hide HistoryOk, StreamOk, BodyOk, OrderOk, Owed, OutputOk, HandlerOk, Parse, EvidenceOk, PersistOk,
        DispatchesAsync, SendsBody, TakenLeave, Unservable;
      readDrained := false;
      AnswerInHand(req);
      if sendBuf != [] {
        DirectSend();
      } else {
        MutedBySilence();
      }
    }

    method AnswerInHand(req: Request)
      requires Valid() && !closed && pending == 0 && bodyNeed == 0 && !readDrained
      requires inHand != [] && Parse(inHand, lim) == Some(Parsed(req, |inHand|))
      modifies this`consumed, this`dispatched, this`collected, this`inHand, this`keepAlive, this`sendBuf,
        this`outputs, this`muted
      ensures Valid() && Ready() && muted == (sendBuf == []) && collected && dispatched == old(dispatched) + [req]
      ensures |outputs| == |old(outputs)| + 1 && old(outputs) <= outputs
      ensures var o := outputs[|old(outputs)|];
        && o.Answer? && o.k == |old(dispatched)| && sendBuf == old(sendBuf) + o.data
        && (!upgradesOnly(req) ==> keepAlive == req.keepAlive && Responds(req, o.data))
    {
      hide BuffersOk, FailedOk, Render, InOrder, BudgetOk, SuppressOk, EdgeOk, EndsEmptily, HistoryOk, StreamOk,
        AwaitsBody, OrderOk, OutputOk, Owed, Parse, EvidenceOk, PersistOk, DispatchesAsync, SendsBody, TakenLeave,
        Unservable, Rest, Buffered, InputOk;
      CommitInHand();
      var data := ServeAccumulated(req);
      Answer(data);
    }

    /** A route that only upgrades the connection refuses a request with a body. */
    method ServeAccumulated(req: Request) returns (data: Bytes)
      modifies this`keepAlive
      ensures upgradesOnly(req) ==> data == StatusClose(400) && !keepAlive
      ensures !upgradesOnly(req) ==> Responds(req, data) && keepAlive == req.keepAlive
    {
      if upgradesOnly(req) {
        keepAlive := false;
        data := StatusClose(400);
      } else {
        data := Serve(req);
        keepAlive := req.keepAlive;
      }
    }

    /** The request in hand counts as dispatched. */
    method CommitInHand()
      requires Valid() && !closed && pending == 0 && bodyNeed == 0
      requires inHand != [] && Parse(inHand, lim).Some? && Parse(inHand, lim).value.consumed == |inHand|
      modifies this`consumed, this`dispatched, this`collected, this`inHand
      ensures inHand == [] && HistoryOk() && StreamOk(Rest()) && BodyOk(Rest()) && HandlerOk() && Owed(1)
        && EvidenceOk() && collected
      ensures SuppressOk()
      ensures dispatched == old(dispatched) + [Parse(old(inHand), lim).value.request]
    {
      hide OrderOk, OutputOk, EdgeOk, Consumed, Parse, Answers, AwaitsBody, PersistOk, Evidence, DispatchesAsync,
        SendsBody;
      ghost var were := dispatched;
      ConsumeOne(consumed, dispatched, inHand, lim);
      assert consumed + (inHand + Rest()) == consumed + inHand + ([] + Rest());
      consumed, dispatched := consumed + inHand, dispatched + [Parse(inHand, lim).value.request];
      DispatchedGrows(were, dispatched[|were|]);
      inHand, collected := [], true;
    }

    // -------------------------------------------------------------- events
    //
    // The event loop runs one of these at a time; between them bytes arrive and the handler's goroutine finishes.

    /** The connection is registered, which reports what has arrived already, and read at once. */
    method Open()
      requires Valid() && Ready() && readN == 0 && sendBuf == [] && outputs == [] && plain && !readDrained
        && !readSuppressed
      modifies this, readBuf, sock
      ensures Quiet() && Onward() && sock.registered
    {
      hide HistoryOk, StreamOk, BodyOk, OrderOk, Owed, OutputOk, HandlerOk, Parse, EvidenceOk, PersistOk,
        DispatchesAsync, SendsBody, TakenLeave, Unservable, BudgetOk, EndsEmptily, Rest, FailedOk;
      sock.SubmitRecv();
      EmptyBuffer();
      ReadOn();
    }

    /** An event has used up what was reported. */
    method TakeReport()
      requires Valid()
      modifies this`readDrained, this`input, sock`edge
      ensures Valid() && !readDrained && !sock.edge && input == old(input).(spent := true)
    {
      hide HistoryOk, StreamOk, BodyOk, OrderOk, Owed, OutputOk, HandlerOk, EvidenceOk, PersistOk, SuppressOk,
        BudgetOk, FailedOk, BuffersOk, Rest;
      readDrained := false;
      sock.edge, input := false, input.(spent := true);
    }

    /** What the buffer holds neither is a request nor waits for the body of one. */
    ghost predicate LeavesRequestsOut(seen: Option<Bytes>) {
      seen.Some? ==> Parse(seen.value, lim).None? && Classify(seen.value, lim).status != NeedBody
    }

    /** A read event; the report is used up. The source indexes the buffer behind its last byte, and panics exactly if
        no handler is running and the buffer is full. `seen` is what the buffer holds after the read. */
    method OnReadable() returns (panics: bool, ghost seen: Option<Bytes>)
      requires Quiet() && !closed && sock.Readable()
      modifies this, readBuf, sock
      ensures panics <==> old(pending == 0 && readN == readBuf.Length)
      ensures !panics ==> Quiet()
      ensures Onward()
      ensures old(pending) > 0 || panics ==> dispatched == old(dispatched) && outputs == old(outputs)
      ensures old(pending) > 0 ==> readSuppressed && !sock.edge
      ensures old(sock.inbound != [] && bodyNeed == 0 && pending == 0 && readN < readBuf.Length) ==> seen.Some?
      ensures seen.Some? ==> old(Buffered()) <= seen.value <= old(Buffered() + sock.Unread())
      ensures seen.Some? ==>
        |seen.value| >= old(if readN + |sock.inbound| < readBuf.Length then readN + |sock.inbound| else readBuf.Length)
      ensures seen.Some? && Parse(seen.value, lim).Some? ==>
        old(dispatched) + [Parse(seen.value, lim).value.request] <= dispatched
      ensures old(Final()) && LeavesRequestsOut(seen) ==> dispatched == old(dispatched)
    {
      hide HistoryOk, StreamOk, BodyOk, OrderOk, Owed, OutputOk, HandlerOk, Parse, Classify, EvidenceOk, PersistOk,
        DispatchesAsync, SendsBody, TakenLeave, Unservable;
      if pending == 0 && readN == readBuf.Length {
        return true, None;
      }
      TakeReport();
      PendingIsAsync();
      seen := HandleRecv();
      return false, seen;
    }

    lemma PendingIsAsync()
      requires HandlerOk()
      ensures pending > 0 ==> !plain
    {
    }

    method HandleRecv() returns (ghost seen: Option<Bytes>)
      requires Valid() && inHand == [] && Waiting() && !closed && KeptOpen() && HasRoom() && Addressed()
      requires pending == 0 ==> readN < readBuf.Length
      requires pending > 0 ==> Quiet() && sock.Readable()
      requires sock.Readable() || (DispatchesAsync(dispatched) && SendsBody())
      modifies this, readBuf, sock
      ensures Quiet() && old(dispatched) <= dispatched && old(outputs) <= outputs && |sock.future| <= |old(sock.future)|
      ensures old(sock.registered) ==> sock.registered
      ensures old(pending) > 0 ==>
        readSuppressed && dispatched == old(dispatched) && outputs == old(outputs) && sock.edge == old(sock.edge)
      ensures sock.startled == (old(sock.startled) || (old(pending) == 0 && old(!sock.Readable()) && NothingCame()))
      ensures old(pending) == 0 && old(!sock.Readable()) && NothingCame() ==> closed
      ensures old(sock.inbound != [] && bodyNeed == 0 && pending == 0 && readN < readBuf.Length) ==> seen.Some?
      ensures seen.Some? ==> old(Buffered()) <= seen.value <= old(Buffered() + sock.Unread())
      ensures seen.Some? ==>
        |seen.value| >= old(if readN + |sock.inbound| < readBuf.Length then readN + |sock.inbound| else readBuf.Length)
      ensures seen.Some? && Parse(seen.value, lim).Some? ==>
        old(dispatched) + [Parse(seen.value, lim).value.request] <= dispatched
      ensures old(Final()) && LeavesRequestsOut(seen) ==> dispatched == old(dispatched)
    {
      hide HistoryOk, StreamOk, AwaitsBody, OrderOk, Owed, OutputOk, HandlerOk, Parse, Classify, PersistOk, Evidence,
        SendsBody, DispatchesAsync, TakenLeave, Unservable;
      if pending > 0 {
        Suppress();
        return None;
      }
      seen := ReadAndGoOn();
    }

    /** The event is remembered until the handler is done. */
    method Suppress()
      requires Quiet() && pending > 0 && sock.Readable()
      modifies this`readSuppressed, this`readDrained
      ensures Quiet() && readSuppressed && !readDrained
    {
      hide HistoryOk, StreamOk, AwaitsBody, OrderOk, Owed, OutputOk, HandlerOk, Parse, Classify, PersistOk, Evidence,
        SendsBody, TakenLeave, Unservable;
      HandlerIsAsync();
      readSuppressed, readDrained := true, false;
    }

    lemma HandlerIsAsync()
      requires Valid() && pending > 0 && Addressed()
      ensures DispatchesAsync(dispatched)
    {
    }

    method ReadAndGoOn() returns (ghost seen: Option<Bytes>)
      requires Valid() && inHand == [] && Waiting() && !closed && KeptOpen() && Addressed()
      requires pending == 0 && readN < readBuf.Length
      requires sock.Readable() || (DispatchesAsync(dispatched) && SendsBody())
      modifies this, readBuf, sock
      ensures Quiet() && old(dispatched) <= dispatched && old(outputs) <= outputs && |sock.future| <= |old(sock.future)|
      ensures old(sock.registered) ==> sock.registered
      ensures sock.startled == (old(sock.startled) || (old(!sock.Readable()) && NothingCame()))
      ensures old(!sock.Readable()) && NothingCame() ==> closed
      ensures old(sock.inbound != [] && bodyNeed == 0 && pending == 0 && readN < readBuf.Length) ==> seen.Some?
      ensures seen.Some? ==> old(Buffered()) <= seen.value <= old(Buffered() + sock.Unread())
      ensures seen.Some? ==>
        |seen.value| >= old(if readN + |sock.inbound| < readBuf.Length then readN + |sock.inbound| else readBuf.Length)
      ensures seen.Some? && Parse(seen.value, lim).Some? ==>
        old(dispatched) + [Parse(seen.value, lim).value.request] <= dispatched
      ensures old(Final()) && LeavesRequestsOut(seen) ==> dispatched == old(dispatched)
    {
      hide Unfinished, Rest, BudgetOk, InputOk, HistoryOk, StreamOk, AwaitsBody, OrderOk, Owed, OutputOk, EvidenceOk,
        PersistOk, HandlerOk, Parse, Classify, SendsBody, DispatchesAsync, TakenLeave, Unservable;
      var more := ReadReported();
      if !more {
        return None;
      }
      if bodyNeed > 0 {
        FeedBody();
        DrainBodyAccum();
        return None;
      }
      seen := Some(Buffered());
      TryParse();
    }

    /** A read that answers a report of readiness; if it finds nothing, the connection is closed. */
    method ReadReported() returns (more: bool)
      requires Valid() && inHand == [] && !closed && KeptOpen() && pending == 0 && readN < readBuf.Length
      requires sock.Readable() || (DispatchesAsync(dispatched) && SendsBody())
      modifies this`readSuppressed, this`readDrained, this`muted, this`input, this`readN, readBuf, sock`inbound,
        sock`future, sock`hup, sock`edge, sock`failed, sock`startled, this`closed, this`bodyNeed, this`reserved,
        this`bodyBuf, this`headerSnapshot, this`inHand
      ensures if more then Valid() && readN > old(readN) && bodyNeed == old(bodyNeed) && !closed else Quiet() && closed
      ensures more ==> inHand == [] && bodyBuf == old(bodyBuf)
      ensures more ==> readDrained == (bodyNeed == 0 && readN < readBuf.Length)
      ensures |sock.future| <= |old(sock.future)| - (if more && old(sock.inbound) == [] then 1 else 0)
      ensures old(sock.inbound) != [] ==> more
      ensures more ==> old(Buffered()) <= Buffered() <= old(Buffered() + sock.Unread())
      ensures more ==>
        readN >= old(if readN + |sock.inbound| < readBuf.Length then readN + |sock.inbound| else readBuf.Length)
      ensures sock.startled == (old(sock.startled) || (old(!sock.Readable()) && NothingCame()))
      ensures old(!sock.Readable()) && NothingCame() ==> !more
    {
      hide HistoryOk, StreamOk, BodyOk, OrderOk, Owed, OutputOk, EvidenceOk, PersistOk, HandlerOk, Parse, Classify,
        SendsBody, DispatchesAsync, TakenLeave, Unservable, BudgetOk, EndsEmptily, Rest;
      readSuppressed, readDrained := false, false;
      var r := Recv(true);
      if !r.Data? {
        Shut();
        return false;
      }
      readDrained := bodyNeed == 0 && readN < readBuf.Length;
      return true;
    }

    /** Nothing to send: read interest only, which reports what waits. */
    method Disarm()
      requires Valid() && sendBuf == [] && !readDrained && input.spent
      modifies this`input, sock`outArmed, sock`registered, sock`edge
      ensures Valid() && input == old(input).(spent := false) && WillWake() && sock.registered
      ensures sock.Readable() ==> sock.edge
    {
      hide HistoryOk, StreamOk, BodyOk, OrderOk, Owed, OutputOk, HandlerOk, EvidenceOk, PersistOk, SuppressOk,
        BudgetOk, FailedOk, BuffersOk, Rest;
      sock.SubmitRecv();
      input := input.(spent := false);
    }

    /** A write event. A read report that came with it is used up too. */
    method OnWritable()
      requires Quiet() && !closed
      modifies this, readBuf, sock
      ensures Quiet() && Onward()
      ensures old(Final()) ==> dispatched == old(dispatched) && outputs == old(outputs) && (closed || Final())
    {
      hide HistoryOk, StreamOk, BodyOk, OrderOk, Owed, OutputOk, HandlerOk, Parse, EvidenceOk, PersistOk,
        DispatchesAsync, SendsBody, TakenLeave, Unservable, BudgetOk, FailedOk, Rest, Buffered;
      TakeReport();
      if sendBuf == [] {
        Disarm();
        return;
      }
      DirectSend();
    }

    /** The handler's goroutine finishes: it writes the response itself if it may, and reports the rest. It runs
        beside the event loop, which has nothing to write meanwhile. */
    method FinishJob()
      requires Quiet() && job.Some?
      modifies this`job, this`done, this`outputs, sock`inbound, sock`future, sock`hup, sock`edge, sock`wire,
        sock`failed, sock`attempts
      ensures Quiet() && done.Some? && job.None? && done.value.keepAlive == old(job.value.keepAlive)
      ensures !old(job.value.directWrite) ==> sock.wire == old(sock.wire)
      ensures |outputs| == |old(outputs)| + 1 && old(outputs) <= outputs && dispatched != []
      ensures var o := outputs[|old(outputs)|];
        && o.Answer? && o.k == |dispatched| - 1
        && dispatched[o.k] == old(job.value.req) && Responds(old(job.value.req), o.data)
        && (old(job.value.directWrite) && o.data != [] ==> sock.attempts == old(sock.attempts) + 1)
    {
      hide Valid, DispatchesAsync, Responds, TakenLeave, Unservable, Excused, Parse, Buffered;
      PendingNow();
      DoJob();
    }

    lemma PendingNow()
      requires Valid() && job.Some?
      ensures pending == 1 && !closed && !plain && bodyNeed == 0
    {
      hide HistoryOk, StreamOk, OrderOk, Owed, OutputOk, EvidenceOk, PersistOk, SuppressOk, AwaitsBody,
        DispatchesAsync, SendsBody;
    }

    method DoJob()
      requires Valid() && job.Some?
      modifies this`job, this`done, this`outputs, sock`inbound, sock`future, sock`hup, sock`edge, sock`wire,
        sock`failed, sock`attempts
      ensures Valid() && done.Some? && job.None? && done.value.keepAlive == old(job.value.keepAlive)
      ensures !old(job.value.directWrite) ==> sock.wire == old(sock.wire)
      ensures |outputs| == |old(outputs)| + 1 && old(outputs) <= outputs && dispatched != []
      ensures var o := outputs[|old(outputs)|];
        && o.Answer? && o.k == |dispatched| - 1
        && dispatched[o.k] == old(job.value.req) && Responds(old(job.value.req), o.data)
        && (old(job.value.directWrite) && o.data != [] ==> sock.attempts == old(sock.attempts) + 1)
    {
      hide Render, InOrder, Buffered, BudgetOk, AwaitsBody, HistoryOk, StreamOk, BodyOk, OrderOk, Owed, OutputOk,
        Parse, EvidenceOk, PersistOk, Responds, SendsBody, DispatchesAsync, TakenLeave, Unservable;
      PendingIsAsync();
      var data := Serve(job.value.req);
      ghost var before := sock.wire;
      BeforeReport();
      var left := RunJob(data);
      assert Rest() == old(Rest());
      Report(data, left, before);
    }

    lemma BeforeReport()
      requires Valid() && job.Some?
      ensures InOrder(outputs) && sock.wire <= Render(outputs)
      ensures !broken ==> Render(outputs) == sock.wire + sendBuf[sendN..]
      ensures dispatched != [] && job.value.req == dispatched[|dispatched| - 1]
    {
      hide HistoryOk, StreamOk, BodyOk, Owed, Render, InOrder, EvidenceOk, SuppressOk, DispatchesAsync, SendsBody,
        TakenLeave, Unservable;
    }

    method RunJob(data: Bytes) returns (left: Bytes)
      requires job.Some?
      modifies sock`inbound, sock`future, sock`hup, sock`edge, sock`wire, sock`failed,
        sock`attempts
      ensures old(sock.failed) ==> sock.failed
      ensures sock.wire + left == old(sock.wire) + data && old(sock.wire) <= sock.wire
      ensures !job.value.directWrite ==> sock.wire == old(sock.wire) && left == data
      ensures job.value.directWrite && data != [] ==> sock.attempts == old(sock.attempts) + 1
      ensures sock.Unread() == old(sock.Unread()) && old(sock.inbound) <= sock.inbound && (old(sock.hup) ==> sock.hup)
      ensures sock.inbound == old(sock.inbound) || sock.edge
      ensures old(sock.edge) ==> sock.edge
    {
      left := data;
      if job.value.directWrite && data != [] {
        var w := sock.Write(data);
        if w.Wrote? {
          left := data[w.n..];
          assert data == data[..w.n] + left;
        }
      }
    }

    method Report(data: Bytes, left: Bytes, ghost before: Bytes)
      requires job.Some? && sock.wire + left == before + data && before <= sock.wire
      requires !job.value.directWrite ==> sock.wire == before && left == data
      requires BuffersOk() && InOrder(outputs) && before <= Render(outputs) && HandlerOk() && Owed(1)
      requires EvidenceOk() && PersistOk() && Responds(job.value.req, data)
      requires dispatched != [] && job.value.req == dispatched[|dispatched| - 1]
      requires !broken ==> Render(outputs) == before + sendBuf[sendN..]
      modifies this`job, this`done, this`outputs
      ensures OrderOk() && OutputOk() && HandlerOk() && Owed(0) && EvidenceOk() && PersistOk()
      ensures job.None? && done == Some(DoneMsg(left, old(job.value.keepAlive)))
      ensures outputs == old(outputs) + [WingOutputs.Answer(|dispatched| - 1, data)]
    {
      hide Render, Answers, InOrder, Evidence, HasFailure, Responds;
      ghost var were := outputs;
      ghost var o := WingOutputs.Answer(|dispatched| - 1, data);
      Append(outputs, o);
      if job.value.directWrite {
        assert sendBuf[sendN..] == [];
        assert !broken ==> Render(outputs) + data == sock.wire + left;
      } else {
        assert sock.wire <= Render(outputs) + data;
      }
      outputs := outputs + [o];
      done, job := Some(DoneMsg(left, job.value.keepAlive)), None;
      OutputsGrow(were, o, false);
    }

    /** Nothing has arrived meanwhile. */
    twostate predicate NothingCame()
      reads sock
    {
      sock.future == old(sock.future) && !sock.hup
    }

    /** A completion that goes on to a remembered read event on a socket that is empty by now. */
    ghost predicate ReadsNothing()
      reads this`done, this`closePending, this`readN, this`readSuppressed, sock`inbound, sock`hup
    {
      && done.Some? && done.value.data == [] && done.value.keepAlive && !closePending
      && readN == 0 && readSuppressed && !sock.Readable()
    }

    /** A completion message. */
    method OnDone()
      requires Quiet() && done.Some?
      modifies this, readBuf, sock
      ensures Quiet() && old(dispatched) <= dispatched && old(outputs) <= outputs && |sock.future| <= |old(sock.future)|
      ensures old(sock.registered) ==> sock.registered
      ensures old(closePending) ==> closed
      ensures sock.startled == (old(sock.startled) || (old(ReadsNothing()) && NothingCame()))
      ensures old(ReadsNothing()) && NothingCame() ==> closed
    {
      hide Rest, Charge, Render, InOrder, AwaitsBody, BudgetOk, Buffered, EndsEmptily, HistoryOk, StreamOk, BodyOk,
        OrderOk, Owed, OutputOk, Parse, Classify, EvidenceOk, PersistOk, TakenLeave, Unservable, DispatchesAsync,
        SendsBody;
      var msg := done.value;
      ConsumedIsPrefix();
      if closePending {
        pending, done := pending - 1, None;
        CloseConn();
        return;
      }
      ReportFacts();
      TakeDone();
      if msg.data != [] {
        SendLater();
        return;
      }
      if !keepAlive {
        LeaveTaken();
        CloseConn();
      } else if readN > 0 {
        TryParse();
      } else if readSuppressed {
        var _ := HandleRecv();
      } else {
        GoIdle();
      }
    }

    /** What is left of the response goes out with a write event. */
    method SendLater()
      requires Valid() && Ready() && sendBuf != [] && Addressed() && !plain
      modifies sock`outArmed, sock`registered, sock`edge
      ensures Quiet() && sock.outArmed && sock.registered
    {
      hide HistoryOk, StreamOk, BodyOk, OrderOk, Owed, OutputOk, HandlerOk, EvidenceOk, PersistOk, SuppressOk,
        BudgetOk, FailedOk, BuffersOk, Rest, Parse, DispatchesAsync, TakenLeave, Unservable;
      FitsBuffer();
      sock.SubmitSend();
    }

    lemma FitsBuffer()
      requires Valid()
      ensures readN <= readBuf.Length && 0 < readBuf.Length
    {
      hide HistoryOk, StreamOk, BodyOk, OrderOk, Owed, OutputOk, HandlerOk, EvidenceOk, PersistOk, SuppressOk,
        BudgetOk, FailedOk, EdgeOk, InputOk, Rest;
    }

    /** The completion has left nothing to do. */
    ghost method GoIdle()
      requires Valid() && Ready() && readN == 0 && keepAlive && !readSuppressed && !plain && Armed() && Addressed()
      modifies this`input
      ensures Quiet() && input == old(input).(rested := true)
    {
      hide HistoryOk, StreamOk, BodyOk, OrderOk, Owed, OutputOk, HandlerOk, EvidenceOk, PersistOk, SuppressOk,
        BudgetOk, FailedOk, BuffersOk, Rest, Parse, DispatchesAsync, TakenLeave, Unservable;
      FitsBuffer();
      EmptyBuffer();
      input := input.(rested := true);
    }

    lemma ReportFacts()
      requires Valid() && done.Some? && !closePending
      ensures done.value.data == [] ==> sendBuf == [] || EndsEmptily(outputs)
      ensures bodyNeed == 0 && !plain && !closed
    {
      hide HistoryOk, StreamOk, AwaitsBody, OrderOk, Owed, Render, EndsEmptily, EvidenceOk, PersistOk,
        DispatchesAsync, SendsBody, TakenLeave, Unservable, Rest;
    }

    /** The handler is done; what it could not write is queued. */
    method TakeDone()
      requires Valid() && done.Some? && !closePending
      modifies this`pending, this`done, this`keepAlive, this`sendBuf
      ensures Valid() && !closed && pending == 0 && keepAlive == old(done.value.keepAlive)
      ensures sendBuf == old(sendBuf) + old(done.value.data)
    {
      hide HistoryOk, StreamOk, AwaitsBody, OrderOk, Owed, OutputOk, EvidenceOk, PersistOk, DispatchesAsync,
        SendsBody, TakenLeave, Unservable;
      assert Rest() == old(Rest());
      QueueLeft();
    }

    method QueueLeft()
      requires BuffersOk() && OutputOk() && HandlerOk() && done.Some? && !closePending
      modifies this`pending, this`done, this`keepAlive, this`sendBuf
      ensures BuffersOk() && OutputOk() && HandlerOk() && !closed && pending == 0
      ensures keepAlive == old(done.value.keepAlive) && sendBuf == old(sendBuf) + old(done.value.data)
    {
      hide Render, EndsEmptily;
      TailGrows(sock.wire, sendBuf, sendN, done.value.data);
      keepAlive := done.value.keepAlive;
      sendBuf := sendBuf + done.value.data;
      pending, done := pending - 1, None;
    }

    static lemma TailGrows(wire: Bytes, queue: Bytes, n: nat, more: Bytes)
      requires n <= |queue|
      ensures wire + (queue + more)[n..] + [] == wire + queue[n..] + more
    {
      QueueGrows(queue, n, more);
    }

    /** A timeout sweep closes connections with no handler running. */
    method Expire()
      requires Quiet() && !closed && pending == 0 && sock.timedOut
      modifies this`closed, this`bodyNeed, this`reserved, this`bodyBuf, this`headerSnapshot, this`inHand
      ensures Quiet() && closed
    {
      Shut();
    }
  }
}
