/** A WebSocket connection on the server's side (contrib/ws/conn.go): one reader, and writers that take turns under
    a mutex. */
module WsConn {
  import opened Bytes
  import opened Options
  import opened WsFrame
  import opened WsMessages
  import opened WsCodec
  import WsPing

  datatype ReadError =
    | BadFrame(cause: FrameError) | Unmasked | UnexpectedContinuation | ExpectedContinuation | MessageTooBig | BadUtf8
    | PingRate | WriteFailed | PeerClosed | BadClose

  datatype FrameResult = Got(frame: Frame) | Refused(error: ReadError)

  datatype MessageResult = Message(kind: Byte, data: Bytes) | Failed(error: ReadError)

  const PROTOCOL_ERROR := 1002
  const INVALID_PAYLOAD := 1007
  const POLICY_VIOLATION := 1008
  const MESSAGE_TOO_BIG := 1009

  const RATE_EXCEEDED: Bytes := Ascii("ping rate exceeded")
  const INVALID_REASON: Bytes := Ascii("invalid UTF-8 close reason")
  const INVALID_CLOSE: Bytes := Ascii("invalid close payload")
  const UNMASKED_FRAME: Bytes := Ascii("unmasked client frame")
  const TOO_BIG: Bytes := Ascii("message too big")
  const UNEXPECTED: Bytes := Ascii("unexpected continuation frame")
  const EXPECTED: Bytes := Ascii("expected continuation frame")
  const INVALID_TEXT: Bytes := Ascii("invalid UTF-8 text message")

  // ---------------------------------------------------------------- close frames

  /** Codes that a peer may send: registered, not reserved for local use. */
  predicate ValidReceivedCloseCode(code: nat) {
    if 3000 <= code <= 4999 then true
    else if code < 1000 || code > 1014 then false
    else code != 1004 && code != 1005 && code != 1006
  }

  /** The code to answer a bad close payload with; None if the payload is good. */
  function ValidateClosePayload(payload: Bytes, utf8: Bytes -> bool): (failure: Option<nat>)
    ensures failure.None? <==> (payload == []
      || (|payload| >= 2 && ValidReceivedCloseCode(FromBigEndian(payload[..2])) && utf8(payload[2..])))
    ensures failure == Some(INVALID_PAYLOAD) <==>
      |payload| >= 2 && ValidReceivedCloseCode(FromBigEndian(payload[..2])) && !utf8(payload[2..])
  {
    if payload == [] then None
    else if |payload| == 1 then Some(PROTOCOL_ERROR)
    else if !ValidReceivedCloseCode(FromBigEndian(payload[..2])) then Some(PROTOCOL_ERROR)
    else if !utf8(payload[2..]) then Some(INVALID_PAYLOAD)
    else None
  }

  function ClosePayload(code: nat, reason: Bytes): Bytes {
    if code == 0 then [] else BigEndian(code % MAX_16, 2) + reason
  }

  // ---------------------------------------------------------------- what has been sent

  predicate Sendable(f: Frame) {
    f.opcode < 128 && |f.payload| < MAX_63
  }

  ghost predicate AllSendable(fs: seq<Frame>) {
    forall i :: 0 <= i < |fs| ==> Sendable(fs[i])
  }

  function Wire(fs: seq<Frame>): Bytes
    requires forall i :: 0 <= i < |fs| ==> Sendable(fs[i])
  {
    if fs == [] then []
    else
      var f := fs[|fs| - 1];
      assert Sendable(f);
      Wire(fs[..|fs| - 1]) + Encode(f.fin, f.opcode, f.payload)
  }

  lemma WireMore(fs: seq<Frame>, f: Frame)
    requires AllSendable(fs) && Sendable(f)
    ensures AllSendable(fs + [f]) && Wire(fs + [f]) == Wire(fs) + Encode(f.fin, f.opcode, f.payload)
  {
    assert (fs + [f])[..|fs|] == fs;
  }

  // ---------------------------------------------------------------- what is to be read

  ghost predicate AllMasked(fs: seq<Frame>) {
    forall i :: 0 <= i < |fs| ==> fs[i].masked
  }

  /** `fs` is one message: any fragmentation, with pings and pongs anywhere between its frames. */
  ghost predicate OneMessage(fs: seq<Frame>, maxSize: int, utf8: Bytes -> bool) {
    && AllMasked(fs) && FeedAll(fs).Whole?
    && (maxSize > 0 ==> |FeedAll(fs).data| <= maxSize)
    && (FeedAll(fs).kind == TEXT ==> utf8(FeedAll(fs).data))
  }

  /** What a frame that was read may be. */
  lemma FrameRead(input: Bytes, maxSize: int)
    requires Decode(input, maxSize).Ok?
    ensures var d := Decode(input, maxSize).value;
      FrameOk(d.frame.fin, d.frame.opcode, |d.frame.payload|, maxSize) && |d.rest| < |input|
  {
    hide Encode, EncodeMasked;
    var d := Decode(input, maxSize).value;
    HeaderIsWritten(input, maxSize);
  }

  /** The input begins with the message `fs`, and goes on with `rest`. */
  ghost predicate Promised(input: Bytes, fs: seq<Frame>, rest: Bytes, maxSize: int, utf8: Bytes -> bool) {
    Took(input, fs, rest, maxSize) && OneMessage(fs, maxSize, utf8)
  }

  /** What stops a reader that has taken these frames of a message, and has `here` before it. */
  ghost predicate Stops(taken: seq<Frame>, here: Bytes, error: ReadError, maxSize: int, utf8: Bytes -> bool) {
    var a := FeedAll(taken);
    if error == BadUtf8 then a.Whole? && a.kind == TEXT && !utf8(a.data)
    else
      && (a.Idle? || a.Partial?)
      && match Decode(here, maxSize)
         case Err(cause) => error == BadFrame(cause)
         case Ok(d) => if d.frame.masked then Offends(a, d.frame, error, maxSize, utf8) else error == Unmasked
  }

  /** Why the reader does not go on with a frame. */
  ghost predicate Offends(a: Assembly, f: Frame, error: ReadError, maxSize: int, utf8: Bytes -> bool) {
    match error
    case PingRate => f.opcode == PING
    case WriteFailed => f.opcode == PING
    case PeerClosed => f.opcode == CLOSE && ValidateClosePayload(f.payload, utf8).None?
    case BadClose => f.opcode == CLOSE && ValidateClosePayload(f.payload, utf8).Some?
    case UnexpectedContinuation => a.Idle? && f.opcode == CONTINUATION
    case ExpectedContinuation => a.Partial? && f.opcode < CLOSE && f.opcode != CONTINUATION
    case MessageTooBig => a.Partial? && f.opcode == CONTINUATION && 0 < maxSize < |a.data| + |f.payload|
    case _ => false
  }

  /** What has been taken does not end before the message does, nor after it. */
  lemma WithinMessage(input: Bytes, taken: seq<Frame>, here: Bytes, fs: seq<Frame>, rest: Bytes, maxSize: int,
      utf8: Bytes -> bool)
    requires Promised(input, fs, rest, maxSize, utf8) && Took(input, taken, here, maxSize)
    requires !FeedAll(taken).Broken?
    ensures |taken| <= |fs| && taken == fs[..|taken|] && Took(here, fs[|taken|..], rest, maxSize)
    ensures FeedAll(taken).Whole? <==> |taken| == |fs|
    ensures |taken| == |fs| ==> taken == fs && here == rest
  {
    hide Decode, FeedAll;
    if |taken| <= |fs| {
      TookPrefix(input, taken, here, fs, rest, maxSize);
      if |taken| < |fs| {
        OnTheWay(fs, |taken|);
      } else {
        assert fs[..|fs|] == fs && fs[|fs|..] == [];
      }
    } else {
      TookPrefix(input, fs, rest, taken, here, maxSize);
      if FeedAll(taken).Whole? {
        OnTheWay(taken, |fs|);
      } else {
        OnTheWayTo(taken, |fs|);
      }
    }
  }

  /** Inside a promised message only a ping stops the reader. */
  lemma OnlyPingsStop(input: Bytes, taken: seq<Frame>, here: Bytes, error: ReadError, fs: seq<Frame>, rest: Bytes,
      maxSize: int, utf8: Bytes -> bool)
    requires Promised(input, fs, rest, maxSize, utf8) && Took(input, taken, here, maxSize)
    requires Stops(taken, here, error, maxSize, utf8)
    ensures error == PingRate || error == WriteFailed
    ensures |taken| < |fs| && taken == fs[..|taken|] && fs[|taken|].opcode == PING
    ensures |PayloadsOf(PING, taken)| < |PayloadsOf(PING, fs)|
  {
    hide Decode, FeedAll, PayloadsOf, ValidateClosePayload;
    WithinMessage(input, taken, here, fs, rest, maxSize, utf8);
    if |taken| < |fs| {
      var n := |taken|;
      assert fs[n..][0] == fs[n] && fs[..n + 1] == taken + [fs[n]];
      FedMore(taken, fs[n]);
      if n + 1 < |fs| {
        OnTheWay(fs, n + 1);
      } else {
        assert fs[..n + 1] == fs;
      }
      FewerBefore(PING, fs, n + 1);
    }
  }

  lemma {:induction false} FewerBefore(op: Byte, fs: seq<Frame>, n: nat)
    requires n <= |fs|
    ensures |PayloadsOf(op, fs[..n])| <= |PayloadsOf(op, fs)|
    decreases |fs|
  {
    if n == |fs| {
      assert fs[..n] == fs;
    } else {
      FewerBefore(op, fs[..|fs| - 1], n);
      assert fs[..|fs| - 1][..n] == fs[..n];
    }
  }

  class Conn {
    const rwc: Transport
    const br: Reader
    const bw: Writer
    const maxMessageSize: int
    const maxPingPerSec: int
    const utf8: Bytes -> bool

    var closed: bool
    var pingCount: nat
    var pingWindowStart: int

    ghost var sent: seq<Frame>
    ghost var forged: bool    // the application has sent a close frame as a message
    ghost var pongs: nat      // pongs attempted in the current window

    /** The wire holds the frames sent and, if a write failed, the beginning of one more. */
    ghost predicate Wired()
      reads this`sent, bw, rwc`taken
    {
      && bw.rwc == rwc && (!bw.failed ==> bw.buffered == [])
      && AllSendable(sent) && Wire(sent) <= rwc.taken && (!bw.failed ==> rwc.taken == Wire(sent))
    }

    /** A close frame is the last frame and the end of the wire. */
    ghost predicate ClosedBy(fs: seq<Frame>)
      requires AllSendable(fs)
      reads this`closed, rwc`taken
    {
      forall i :: 0 <= i < |fs| && fs[i].opcode == CLOSE ==> i == |fs| - 1 && closed && rwc.taken == Wire(fs)
    }

    /** The connection underneath is closed together with this one. */
    ghost predicate Valid()
      reads this, bw, rwc
    {
      && Wired() && rwc.open == !closed && (!forged ==> ClosedBy(sent))
      && (maxPingPerSec > 0 ==> pongs <= pingCount && pongs <= maxPingPerSec)
    }

    constructor (input: Bytes, maxMessageSize: int, maxPingPerSec: int, utf8: Bytes -> bool)
      ensures Valid() && !closed && sent == [] && br.rest == input && fresh(br) && fresh(bw) && fresh(rwc)
      ensures WsPing.Window(pingCount, pingWindowStart) == WsPing.Window(0, 0) && !forged
      ensures this.maxMessageSize == maxMessageSize && this.maxPingPerSec == maxPingPerSec && this.utf8 == utf8
    {
      var transport := new Transport();
      rwc := transport;
      br := new Reader(input);
      bw := new Writer(transport);
      this.maxMessageSize, this.maxPingPerSec, this.utf8 := maxMessageSize, maxPingPerSec, utf8;
      closed, pingCount, pingWindowStart, sent, forged, pongs := false, 0, 0, [], false, 0;
    }

    /** Once closed, nothing more is sent, and no byte reaches the wire. */
    twostate predicate Still()
      reads this, rwc
    {
      old(closed) ==> closed && sent == old(sent) && rwc.taken == old(rwc.taken)
    }

    /** A close frame is the last thing that the peer is sent. */
    lemma CloseFrameIsLast(i: nat)
      requires Valid() && !forged && i < |sent| && sent[i].opcode == CLOSE
      ensures closed && !rwc.open && i == |sent| - 1
      ensures rwc.taken == Wire(sent[..i]) + Encode(sent[i].fin, CLOSE, sent[i].payload)
    {
      assert Sendable(sent[i]);
    }

    // -------------------------------------------------------------- writing

    /** Writes a frame and flushes. It may fail with the frame on its way, with a part of it, or with nothing; after
        that, and once the connection underneath is closed, nothing more gets through. */
    method Send(op: Byte, payload: Bytes) returns (ok: bool)
      requires Wired() && |payload| < MAX_63
      modifies this`sent, bw, rwc`taken
      ensures Wired() && (ok <==> !bw.failed)
      ensures sent == old(sent)
        || (sent == old(sent) + [Frame(true, op % 128, false, payload)] && rwc.taken == Wire(sent))
      ensures ok ==> sent != old(sent) && rwc.open
      ensures !rwc.open || old(bw.failed) ==> !ok && sent == old(sent) && rwc.taken == old(rwc.taken)
    {
      hide Encode, Wire;
      var written := WriteFrame(bw, true, op, payload);
      if !written {
        return false;
      }
      ghost var f, all := Frame(true, op % 128, false, payload), bw.buffered;
      assert all == Encode(true, op % 128, payload);
      EncodedIsSome(op % 128, payload);
      ok := bw.Flush();
      WireMore(sent, f);
      if rwc.taken == old(rwc.taken) + all {
        sent := sent + [f];
      }
    }

    lemma EncodedIsSome(op: Byte, payload: Bytes)
      requires op < 128 && |payload| < MAX_63
      ensures Encode(true, op, payload) != []
    {
    }

    lemma LowBits(kind: int)
      ensures (kind % 256) as Byte % 128 == (kind % 128) as Byte
    {
      assert kind == 2 * (kind / 256) * 128 + kind % 256;
      var q, r := kind / 256, kind % 256;
      if r < 128 {
        assert kind == 128 * (2 * q) + r;
        Remainder(kind, 2 * q, r);
      } else {
        assert kind == 128 * (2 * q + 1) + (r - 128);
        Remainder(kind, 2 * q + 1, r - 128);
      }
    }

    lemma Remainder(n: int, q: int, r: int)
      requires n == 128 * q + r && 0 <= r < 128
      ensures n % 128 == r
    {
    }

    /** Any message type is written, as the low bits of the first byte. */
    method WriteMessage(kind: int, data: Bytes) returns (ok: bool)
      requires Valid() && |data| < MAX_63
      modifies this`sent, this`forged, bw, rwc`taken
      ensures Valid() && Still()
      ensures sent == old(sent) || sent == old(sent) + [Frame(true, (kind % 128) as Byte, false, data)]
      ensures if ok then !closed && sent != old(sent) else closed || bw.failed
      ensures old(closed) ==> unchanged(this, bw, rwc)
      ensures forged == (old(forged) || (kind % 128 == CLOSE as int && sent != old(sent)))
    {
      hide Encode, Wire;
      if closed {
        return false;
      }
      var op := (kind % 256) as Byte;
      LowBits(kind);
      ok := Send(op, data);
      forged := forged || (op % 128 == CLOSE && sent != old(sent));
    }

    /** The part that is common to all ways to close: one close frame if it gets through, and the end. */
    method Leave(payload: Bytes)
      requires Valid() && !closed && |payload| < MAX_63
      modifies this`sent, this`closed, bw, rwc
      ensures Valid() && closed
      ensures sent == old(sent) || sent == old(sent) + [Frame(true, CLOSE, false, payload)]
      ensures sent == old(sent) ==> bw.failed
      ensures PayloadsOf(PONG, sent) == PayloadsOf(PONG, old(sent))
    {
      hide Encode, Wire, PayloadsOf, AllSendable, Still;
      ghost var f := Frame(true, CLOSE, false, payload);
      FedMore(sent, f);
      if !forged {
        NoneBefore(sent, f);
      }
      closed := true;
      var _ := Send(CLOSE, payload);
      rwc.Close();
    }

    /** Before a connection is closed no close frame has been sent, so that one more is the last. */
    lemma NoneBefore(fs: seq<Frame>, f: Frame)
      requires AllSendable(fs) && ClosedBy(fs) && !closed
      ensures forall i :: 0 <= i < |fs| ==> fs[i].opcode != CLOSE
      ensures forall i :: 0 <= i < |fs + [f]| && (fs + [f])[i].opcode == CLOSE ==> i == |fs|
    {
    }

    /** Sends one close frame if none was sent, whether or not that succeeds, and closes the connection underneath. */
    method Close(code: nat, reason: Bytes)
      requires Valid() && |reason| + 2 < MAX_63
      modifies this`sent, this`closed, bw, rwc
      ensures Valid() && Still() && closed
      ensures sent == old(sent) || sent == old(sent) + [Frame(true, CLOSE, false, ClosePayload(code, reason))]
      ensures !old(closed) && sent == old(sent) ==> bw.failed
      ensures PayloadsOf(PONG, sent) == PayloadsOf(PONG, old(sent))
    {
      hide Encode, Wire, PayloadsOf;
      if closed {
        return;
      }
      Leave(ClosePayload(code, reason));
    }

    /** Other goroutines, between two frames of the reader. */
    method Interfere()
      requires Valid()
      modifies this`sent, this`forged, this`closed, bw, rwc
      ensures Valid() && Still() && PayloadsOf(PONG, sent) == PayloadsOf(PONG, old(sent))
    {
      hide Encode, Wire, PayloadsOf;
      var n: nat := *;
      var i := 0;
      while i < n
        invariant Valid() && Still() && PayloadsOf(PONG, sent) == PayloadsOf(PONG, old(sent))
      {
        ghost var before := sent;
        var data: Bytes := *;
        if |data| < MAX_16 {
          if {
            case true =>
              var kind: int := *;
              if kind % 128 != PONG as int {
                var _ := WriteMessage(kind, data);
                FedMore(before, Frame(true, (kind % 128) as Byte, false, data));
              }
            case true =>
              var code: nat := *;
              Close(code, data);
          }
        }
        i := i + 1;
      }
    }

    // -------------------------------------------------------------- control frames

    method SendPong(payload: Bytes) returns (ok: bool)
      requires Valid() && |payload| <= 125
      modifies this`sent, bw, rwc`taken
      ensures Valid() && Still()
      ensures sent == old(sent) || sent == old(sent) + [Frame(true, PONG, false, payload)]
      ensures if ok then !closed && sent != old(sent) else bw.failed
      ensures PayloadsOf(PONG, sent) == PayloadsOf(PONG, old(sent)) + if sent != old(sent) then [payload] else []
    {
      hide Encode, Wire, PayloadsOf;
      FedMore(sent, Frame(true, PONG, false, payload));
      ok := Send(PONG, payload);
    }

    /** A ping is answered with its own payload, unless there have been too many in this window. */
    method HandlePing(payload: Bytes) returns (err: Option<ReadError>, ghost now: int)
      requires Valid() && |payload| <= 125
      modifies this`sent, this`closed, this`pingCount, this`pingWindowStart, this`pongs, bw, rwc
      ensures Valid() && Still()
      ensures err == None ==> !closed && sent == old(sent) + [Frame(true, PONG, false, payload)]
      ensures err.Some? ==> err.value == WriteFailed || (err.value == PingRate && closed)
      ensures err == Some(WriteFailed) ==> bw.failed
      ensures err == Some(WriteFailed) ==>
        sent == old(sent) || sent == old(sent) + [Frame(true, PONG, false, payload)]
      ensures PayloadsOf(PONG, sent) == PayloadsOf(PONG, old(sent))
           || (err != Some(PingRate) && PayloadsOf(PONG, sent) == PayloadsOf(PONG, old(sent)) + [payload])
      ensures err == Some(PingRate) ==>
        sent == old(sent)
          || sent == old(sent) + [Frame(true, CLOSE, false, ClosePayload(POLICY_VIOLATION, RATE_EXCEEDED))]
      ensures maxPingPerSec > 0 ==>
        WsPing.Window(pingCount, pingWindowStart)
          == WsPing.CountPing(WsPing.Window(old(pingCount), old(pingWindowStart)), now)
      ensures maxPingPerSec <= 0 ==> pingCount == old(pingCount)
      ensures err == Some(PingRate) <==> maxPingPerSec > 0 && pingCount > maxPingPerSec
    {
      hide Encode, Wire, PayloadsOf, ClosedBy, AllSendable;
      now := 0;
      if maxPingPerSec > 0 {
        var clock: int := *;
        now := clock;
        if clock - pingWindowStart >= WsPing.SECOND {
          pingCount, pongs, pingWindowStart := 0, 0, clock;
        }
        pingCount := pingCount + 1;
        if pingCount > maxPingPerSec {
          Close(POLICY_VIOLATION, RATE_EXCEEDED);
          err := Some(PingRate);
          return;
        }
        pongs := pongs + 1;
      }
      var ok := SendPong(payload);
      err := if ok then None else Some(WriteFailed);
    }

    /** A good close frame is echoed, a bad one is answered with the reason. */
    method HandleClose(payload: Bytes) returns (err: Option<ReadError>)
      requires Valid() && |payload| <= 125
      modifies this`sent, this`closed, bw, rwc
      ensures Valid() && Still() && closed && PayloadsOf(PONG, sent) == PayloadsOf(PONG, old(sent))
      ensures err == if ValidateClosePayload(payload, utf8).None? then None else Some(BadClose)
      ensures !old(closed) && sent == old(sent) ==> bw.failed
      ensures sent == old(sent) || (!old(closed) && sent == old(sent) + [Frame(true, CLOSE, false,
        if err.None? then payload
        else if ValidateClosePayload(payload, utf8) == Some(INVALID_PAYLOAD)
        then ClosePayload(INVALID_PAYLOAD, INVALID_REASON)
        else ClosePayload(PROTOCOL_ERROR, INVALID_CLOSE))])
    {
      hide Encode, Wire, PayloadsOf;
      var failure := ValidateClosePayload(payload, utf8);
      if failure.Some? {
        Close(failure.value, if failure.value == INVALID_PAYLOAD then INVALID_REASON else INVALID_CLOSE);
        return Some(BadClose);
      }
      if !closed {
        Leave(payload);
      }
      return None;
    }

    // -------------------------------------------------------------- reading

    /** readClientFrame: a client must mask. */
    method ReadClientFrame() returns (r: FrameResult)
      requires Valid()
      modifies this`sent, this`forged, this`closed, br, bw, rwc
      ensures Valid() && Still()
      ensures match Decode(old(br.rest), maxMessageSize)
        case Err(e) => r == Refused(BadFrame(e)) && sent == old(sent)
        case Ok(d) =>
          if d.frame.masked then r == Got(d.frame) && br.rest == d.rest && sent == old(sent) && closed == old(closed)
          else r == Refused(Unmasked) && closed
      ensures PayloadsOf(PONG, sent) == PayloadsOf(PONG, old(sent))
    {
      hide Decode, Encode, Wire, PayloadsOf;
      var f := ReadFrame(br, maxMessageSize);
      if f.Err? {
        return Refused(BadFrame(f.error));
      }
      if !f.value.masked {
        Close(PROTOCOL_ERROR, UNMASKED_FRAME);
        return Refused(Unmasked);
      }
      return Got(f.value);
    }

    /** A ping is answered or the connection is at its end; a close frame ends it in any case. */
    method HandleControl(f: Frame) returns (err: Option<ReadError>)
      requires Valid() && KnownOpcode(f.opcode) && f.opcode >= CLOSE && |f.payload| <= 125
      modifies this`sent, this`closed, this`pingCount, this`pingWindowStart, this`pongs, bw, rwc
      ensures Valid() && Still() && (f.opcode == CLOSE ==> closed)
      ensures err == None ==> Echoed(f)
      ensures err.Some? && err.value != WriteFailed ==> PayloadsOf(PONG, sent) == PayloadsOf(PONG, old(sent))
      ensures err == Some(WriteFailed) ==> Echoed(f) || PayloadsOf(PONG, sent) == PayloadsOf(PONG, old(sent))
      ensures err == Some(WriteFailed) ==> f.opcode == PING && bw.failed
      ensures err == Some(PingRate) ==> f.opcode == PING && closed && 0 < maxPingPerSec < pingCount
      ensures f.opcode == PING ==> err in {None, Some(WriteFailed), Some(PingRate)}
      ensures f.opcode == PONG ==> err == None
      ensures f.opcode == CLOSE ==> err == if ValidateClosePayload(f.payload, utf8).None? then None else Some(BadClose)
      ensures pingCount <= old(pingCount) + if f.opcode == PING then 1 else 0
    {
      hide Encode, Wire, PayloadsOf, ValidateClosePayload;
      if f.opcode == PING {
        ghost var before := sent;
        ghost var now;
        err, now := HandlePing(f.payload);
        FedMore(before, Frame(true, PONG, false, f.payload));
      } else if f.opcode == PONG {
        err := None;
      } else {
        err := HandleClose(f.payload);
      }
    }

    /** The pongs sent have grown by the answer to this frame, if it is a ping. */
    twostate predicate Echoed(f: Frame)
      reads this`sent
    {
      PayloadsOf(PONG, sent) == PayloadsOf(PONG, old(sent)) + if f.opcode == PING then [f.payload] else []
    }

    /** The frames `taken` of `input` have been read and are the beginning of a message within the limit; the pings
        among them have been answered, and counted from `start`. */
    ghost predicate Reading(input: Bytes, taken: seq<Frame>, before: seq<Bytes>, start: nat)
      reads this, br, bw, rwc
    {
      && Valid() && Took(input, taken, br.rest, maxMessageSize) && AllMasked(taken)
      && (FeedAll(taken).Idle? || FeedAll(taken).Partial?) && WithinLimit(taken)
      && PayloadsOf(PONG, sent) == before + PayloadsOf(PING, taken)
      && pingCount <= start + |PayloadsOf(PING, taken)|
    }

    ghost predicate WithinLimit(taken: seq<Frame>) {
      maxMessageSize > 0 && (FeedAll(taken).Partial? || FeedAll(taken).Whole?) ==>
        |FeedAll(taken).data| <= maxMessageSize
    }

    /** A message: what has been taken, all its pings answered. */
    ghost predicate Delivered(kind: Byte, data: Bytes, taken: seq<Frame>, before: seq<Bytes>)
      reads this`sent
    {
      && OneMessage(taken, maxMessageSize, utf8) && FeedAll(taken) == Whole(kind, data)
      && PayloadsOf(PONG, sent) == before + PayloadsOf(PING, taken)
    }

    /** An error: what stopped the reader behind what has been taken. The pings before that have been answered. */
    ghost predicate Stopped(error: ReadError, taken: seq<Frame>, here: Bytes, before: seq<Bytes>, start: nat)
      reads this`sent, this`closed, this`pingCount, bw`failed
    {
      && Stops(taken, here, error, maxMessageSize, utf8) && WithinLimit(taken)
      && (error == PingRate ==> 0 < maxPingPerSec < pingCount <= start + |PayloadsOf(PING, taken)| + 1)
      && (error == WriteFailed ==> bw.failed)
      && (!error.BadFrame? && error != WriteFailed ==> closed)
      && (PayloadsOf(PONG, sent) == before + PayloadsOf(PING, taken)
          || (error == WriteFailed && Decode(here, maxMessageSize).Ok?
              && PayloadsOf(PONG, sent)
              == before + PayloadsOf(PING, taken) + [Decode(here, maxMessageSize).value.frame.payload]))
    }

    /** Others may write first; then one more frame is read. */
    method NextFrame(ghost input: Bytes, ghost taken: seq<Frame>, ghost before: seq<Bytes>, ghost start: nat)
        returns (c: FrameResult)
      requires Reading(input, taken, before, start)
      modifies this`sent, this`forged, this`closed, br, bw, rwc
      ensures Valid() && Still() && PayloadsOf(PONG, sent) == before + PayloadsOf(PING, taken)
      ensures c.Refused? ==>
        Stopped(c.error, taken, old(br.rest), before, start) && (c.error.BadFrame? || c.error == Unmasked)
      ensures c.Got? ==> Fetched(c.frame, input, taken, old(br.rest)) && |br.rest| < |old(br.rest)|
    {
      hide Encode, Wire, PayloadsOf, FeedAll, Took, Decode, OneMessage;
      Interfere();
      ghost var here := br.rest;
      c := ReadClientFrame();
      if c.Got? {
        FrameRead(here, maxMessageSize);
        TookMore(input, taken, here, maxMessageSize);
        FedMore(taken, c.frame);
      }
    }

    /** The frame behind what has been taken. */
    ghost predicate Fetched(f: Frame, input: Bytes, taken: seq<Frame>, here: Bytes)
      reads br
    {
      && Took(input, taken, here, maxMessageSize)
      && Decode(here, maxMessageSize) == Ok(Decoded(f, br.rest)) && f.masked
      && FrameOk(f.fin, f.opcode, |f.payload|, maxMessageSize)
      && Took(input, taken + [f], br.rest, maxMessageSize) && AllMasked(taken + [f])
      && FeedAll(taken + [f]) == Feed(FeedAll(taken), f)
      && PayloadsOf(PING, taken + [f]) == PayloadsOf(PING, taken) + (if f.opcode == PING then [f.payload] else [])
    }

    /** A control frame inside or before a message. */
    method PassControl(f: Frame, ghost input: Bytes, ghost taken: seq<Frame>, ghost here: Bytes,
        ghost before: seq<Bytes>, ghost start: nat) returns (err: Option<ReadError>)
      requires Valid() && f.opcode >= CLOSE && Fetched(f, input, taken, here)
      requires (FeedAll(taken).Idle? || FeedAll(taken).Partial?) && WithinLimit(taken)
      requires PayloadsOf(PONG, sent) == before + PayloadsOf(PING, taken)
      requires pingCount <= start + |PayloadsOf(PING, taken)|
      modifies this`sent, this`closed, this`pingCount, this`pingWindowStart, this`pongs, bw, rwc
      ensures Valid() && Still()
      ensures err == None ==> Reading(input, taken + [f], before, start) && FeedAll(taken + [f]) == FeedAll(taken)
      ensures err.Some? ==> Stopped(err.value, taken, here, before, start) && !err.value.BadFrame?
    {
      hide Encode, Wire, PayloadsOf, FeedAll, Took, Decode, OneMessage, ValidateClosePayload;
      err := HandleControl(f);
      if err == None && f.opcode == CLOSE {
        err := Some(PeerClosed);
      }
      if err == None {
        assert before + PayloadsOf(PING, taken + [f])
          == before + PayloadsOf(PING, taken) + (if f.opcode == PING then [f.payload] else []);
      }
    }

    /** ReadMessage. A message is returned, or an error that says what stopped the reader, `here` behind the frames
        `taken`. The other ghost parameters stand for any message and what follows it: if the stream begins with it,
        however it is fragmented and whatever pings and pongs lie between, then this message is what is returned,
        unless one of its pings cannot be answered: the limit on pings is set and this ping exceeds it, or the
        write of its pong fails. */
    method ReadMessage(ghost fs: seq<Frame>, ghost rest: Bytes)
        returns (r: MessageResult, ghost taken: seq<Frame>, ghost here: Bytes)
      requires Valid()
      modifies this, br, bw, rwc
      ensures Valid() && Still() && Took(old(br.rest), taken, here, maxMessageSize)
      ensures r.Message? ==> Delivered(r.kind, r.data, taken, PayloadsOf(PONG, old(sent))) && here == br.rest
      ensures r.Failed? ==> Stopped(r.error, taken, here, PayloadsOf(PONG, old(sent)), old(pingCount))
      ensures Promised(old(br.rest), fs, rest, maxMessageSize, utf8) && r.Message? ==> taken == fs && br.rest == rest
      ensures Promised(old(br.rest), fs, rest, maxMessageSize, utf8) && r.Failed? ==>
        && |taken| < |fs| && taken == fs[..|taken|] && fs[|taken|].opcode == PING && PayloadsOf(PING, fs) != []
        && (|| (r.error == WriteFailed && bw.failed)
            || (r.error == PingRate && 0 < maxPingPerSec < pingCount <= old(pingCount) + |PayloadsOf(PING, fs)|))
      ensures r == Failed(BadFrame(ExceedsMaxSize)) && FeedAll(taken).Idle? ==> closed
    {
      hide Encode, Wire, PayloadsOf, FeedAll, Took, Decode, OneMessage, Stops;
      ghost var input, start := br.rest, pingCount;
      r, taken, here := ReadFrames();
      if Promised(input, fs, rest, maxMessageSize, utf8) {
        if r.Message? {
          WithinMessage(input, taken, here, fs, rest, maxMessageSize, utf8);
        } else {
          OnlyPingsStop(input, taken, here, r.error, fs, rest, maxMessageSize, utf8);
        }
      }
    }

    /** No frame could be read. The connection is closed for its size, and for nothing else. */
    method RefuseFrame(error: ReadError)
      requires Valid()
      modifies this`sent, this`closed, bw, rwc
      ensures Valid() && Still() && PayloadsOf(PONG, sent) == PayloadsOf(PONG, old(sent))
      ensures if error == BadFrame(ExceedsMaxSize) then closed else unchanged(this, bw, rwc)
      ensures sent == old(sent)
        || sent == old(sent) + [Frame(true, CLOSE, false, ClosePayload(MESSAGE_TOO_BIG, TOO_BIG))]
      ensures error == BadFrame(ExceedsMaxSize) && !old(closed) && sent == old(sent) ==> bw.failed
    {
      if error == BadFrame(ExceedsMaxSize) {
        Close(MESSAGE_TOO_BIG, TOO_BIG);
      }
    }

    /** The loop of ReadMessage up to the first data frame. */
    method ReadFrames() returns (r: MessageResult, ghost taken: seq<Frame>, ghost here: Bytes)
      requires Valid()
      modifies this, br, bw, rwc
      ensures Valid() && Still() && Took(old(br.rest), taken, here, maxMessageSize)
      ensures r.Message? ==> Delivered(r.kind, r.data, taken, PayloadsOf(PONG, old(sent))) && here == br.rest
      ensures r.Failed? ==> Stopped(r.error, taken, here, PayloadsOf(PONG, old(sent)), old(pingCount))
      ensures r == Failed(BadFrame(ExceedsMaxSize)) && FeedAll(taken).Idle? ==> closed
    {
      hide Encode, Wire, PayloadsOf, FeedAll, Took, Decode, OneMessage, ValidateClosePayload;
      ghost var input, before, start := br.rest, PayloadsOf(PONG, sent), pingCount;
      taken := [];
      StartReading(input);
      while true
        invariant Reading(input, taken, before, start) && FeedAll(taken) == Idle && Still()
        decreases |br.rest|
      {
        here := br.rest;
        var c := NextFrame(input, taken, before, start);
        if c.Refused? {
          RefuseFrame(c.error);
          return Failed(c.error), taken, here;
        }
        var f := c.frame;
        if f.opcode >= CLOSE {
          var err := PassControl(f, input, taken, here, before, start);
          if err.Some? {
            return Failed(err.value), taken, here;
          }
          taken := taken + [f];
          continue;
        }
        if f.opcode == CONTINUATION {
          Close(PROTOCOL_ERROR, UNEXPECTED);
          return Failed(UnexpectedContinuation), taken, here;
        }
        taken := taken + [f];
        here := br.rest;
        if f.fin {
          r := Finish(f.opcode, f.payload, taken, here, before, start);
          return;
        }
        r, taken, here := ReadContinuations(f.opcode, f.payload, input, taken, before, start);
        return;
      }
    }

    lemma StartReading(input: Bytes)
      requires Valid() && input == br.rest
      ensures Reading(input, [], PayloadsOf(PONG, sent), pingCount) && FeedAll([]) == Idle
    {
      assert PayloadsOf(PONG, sent) + [] == PayloadsOf(PONG, sent);
    }

    /** All frames of the message are here; text must be UTF-8. */
    method Finish(kind: Byte, data: Bytes, ghost taken: seq<Frame>, ghost here: Bytes, ghost before: seq<Bytes>,
        ghost start: nat) returns (r: MessageResult)
      requires Valid() && FeedAll(taken) == Whole(kind, data) && AllMasked(taken) && WithinLimit(taken)
      requires PayloadsOf(PONG, sent) == before + PayloadsOf(PING, taken)
      modifies this`sent, this`closed, bw, rwc
      ensures Valid() && Still()
      ensures r.Message? ==> r == Message(kind, data) && Delivered(kind, data, taken, before)
      ensures r.Failed? ==> r.error == BadUtf8 && Stopped(BadUtf8, taken, here, before, start)
    {
      hide Encode, Wire, PayloadsOf, FeedAll, Took, Decode;
      if kind == TEXT && !utf8(data) {
        Close(INVALID_PAYLOAD, INVALID_TEXT);
        return Failed(BadUtf8);
      }
      return Message(kind, data);
    }

    /** The rest of a fragmented message. */
    method ReadContinuations(kind: Byte, first: Bytes, ghost input: Bytes, ghost begun: seq<Frame>,
        ghost before: seq<Bytes>, ghost start: nat)
        returns (r: MessageResult, ghost taken: seq<Frame>, ghost here: Bytes)
      requires Reading(input, begun, before, start) && FeedAll(begun) == Partial(kind, first)
      modifies this, br, bw, rwc
      ensures Valid() && Still() && Took(input, taken, here, maxMessageSize) && !FeedAll(taken).Idle?
      ensures r.Message? ==> Delivered(r.kind, r.data, taken, before) && here == br.rest
      ensures r.Failed? ==> Stopped(r.error, taken, here, before, start)
    {
      hide Encode, Wire, PayloadsOf, FeedAll, Took, Decode, OneMessage, ValidateClosePayload;
      var data := first;
      taken := begun;
      while true
        invariant Reading(input, taken, before, start) && FeedAll(taken) == Partial(kind, data) && Still()
        decreases |br.rest|
      {
        here := br.rest;
        var c := NextFrame(input, taken, before, start);
        if c.Refused? {
          return Failed(c.error), taken, here;
        }
        var f := c.frame;
        if f.opcode >= CLOSE {
          var err := PassControl(f, input, taken, here, before, start);
          if err.Some? {
            return Failed(err.value), taken, here;
          }
          taken := taken + [f];
          continue;
        }
        if f.opcode != CONTINUATION {
          Close(PROTOCOL_ERROR, EXPECTED);
          return Failed(ExpectedContinuation), taken, here;
        }
        if maxMessageSize > 0 && |data| + |f.payload| > maxMessageSize {
          Close(MESSAGE_TOO_BIG, TOO_BIG);
          return Failed(MessageTooBig), taken, here;
        }
        data := data + f.payload;
        taken := taken + [f];
        here := br.rest;
        if f.fin {
          r := Finish(kind, data, taken, here, before, start);
          return;
        }
      }
    }
  }
}
