/** One connected socket as the event loop sees it on Linux: a receive queue that fills on its own, a wire, and
    edge-triggered readiness. Everything the peer will ever send is fixed but unknown; how it is cut into
    reads is left open. */
module WingSocket {
  import opened Bytes

  datatype ReadResult = Data(bytes: Bytes) | ReadAgain | Eof | ReadFailed

  datatype WriteResult = Wrote(n: nat) | WriteAgain | WriteFailed

  class Socket {
    var inbound: Bytes   // arrived and not yet read
    var future: Bytes    // not yet arrived
    var wire: Bytes      // handed to the kernel for sending
    var hup: bool        // the end of the stream, or an error, has arrived
    var edge: bool       // a readiness report is pending
    var outArmed: bool   // EPOLLOUT is registered
    var registered: bool // EPOLLIN is
    ghost var attempts: nat    // calls of write
    ghost var failed: bool     // some call has seen the end of the stream or an error
    ghost var startled: bool   // a read after a readiness report has found nothing
    ghost var timedOut: bool

    constructor (peer: Bytes)
      ensures Unread() == future == peer && wire == [] && !hup && !edge && !failed && !startled && !timedOut
      ensures !registered
    {
      inbound, future, wire, hup, edge, outArmed, registered := [], peer, [], false, false, false, false;
      failed, startled, timedOut, attempts := false, false, false, 0;
    }

    ghost function Unread(): Bytes
      reads this`inbound, this`future
    {
      inbound + future
    }

    /** There is something to read; the kernel reports readiness of no other socket. */
    predicate Readable()
      reads this`inbound, this`hup
    {
      inbound != [] || hup
    }

    /** The next `k` bytes arrive, which raises an edge. */
    method Deliver(k: nat)
      requires 0 < k <= |future| && !hup
      modifies this`inbound, this`future, this`edge
      ensures inbound == old(inbound + future[..k]) && future == old(future[k..]) && edge
      ensures Unread() == old(Unread())
    {
      inbound, future, edge := inbound + future[..k], future[k..], true;
    }

    /** Anything may arrive that is still to come: bytes, the end or an error. */
    method Arrive()
      modifies this`inbound, this`future, this`hup, this`edge
      ensures Unread() == old(Unread()) && old(inbound) <= inbound && |future| <= |old(future)|
      ensures (inbound == old(inbound) && hup == old(hup)) || edge
      ensures future == old(future) <==> inbound == old(inbound)
      ensures (old(edge) ==> edge) && (old(hup) ==> hup)
    {
      var k: nat := *;
      if 0 < k <= |future| && !hup {
        Deliver(k);
      }
      if * {
        hup, edge := true, true;
      }
    }

    /** read(2) without blocking: all that is there, up to `max` bytes. `reported` says that readiness was. */
    method ReadNow(max: nat, ghost reported: bool) returns (r: ReadResult)
      requires max > 0
      modifies this`inbound, this`failed, this`startled
      ensures old(inbound) != [] ==>
        var n := if |old(inbound)| < max then |old(inbound)| else max;
        r == Data(old(inbound)[..n]) && inbound == old(inbound)[n..]
      ensures old(inbound) == [] ==> !r.Data? && inbound == [] && (r.ReadAgain? <==> !hup)
      ensures failed == (old(failed) || r.Eof? || r.ReadFailed?)
      ensures startled == (old(startled) || (reported && r.ReadAgain?))
    {
      if inbound != [] {
        var n := if |inbound| < max then |inbound| else max;
        r := Data(inbound[..n]);
        inbound := inbound[n..];
      } else if !hup {
        r := ReadAgain;
        startled := startled || reported;
      } else {
        if * { r := Eof; } else { r := ReadFailed; }
        failed := true;
      }
    }

    /** The same, while more may arrive. */
    method Read(max: nat, ghost reported: bool) returns (r: ReadResult)
      requires max > 0
      modifies this`inbound, this`future, this`hup, this`edge, this`failed, this`startled
      ensures failed == (old(failed) || r.Eof? || r.ReadFailed?)
      ensures startled == (old(startled) || (reported && r.ReadAgain?))
      ensures r.Data? ==> 0 < |r.bytes| <= max && r.bytes + Unread() == old(Unread())
      ensures r.Data? && |r.bytes| < max ==> inbound == []
      ensures !r.Data? ==> Unread() == old(Unread()) && inbound == []
      ensures old(inbound) != [] ==> r.Data?
      ensures r.ReadAgain? <==> !old(Readable()) && !hup && future == old(future)
      ensures |future| <= |old(future)|
      ensures inbound == [] || edge || old(inbound) != []
      ensures (old(edge) ==> edge) && (old(hup) ==> hup)
    {
      Arrive();
      r := ReadNow(max, reported);
    }

    /** write(2) without blocking: some of `buf`, or nothing. */
    method Write(buf: Bytes) returns (r: WriteResult)
      requires buf != []
      modifies this`inbound, this`future, this`hup, this`edge, this`wire, this`failed, this`attempts
      ensures failed == (old(failed) || r.WriteFailed?) && attempts == old(attempts) + 1
      ensures Unread() == old(Unread()) && old(inbound) <= inbound && |future| <= |old(future)|
      ensures (inbound == old(inbound) && hup == old(hup)) || edge
      ensures (old(edge) ==> edge) && (old(hup) ==> hup)
      ensures r.Wrote? ==> 0 < r.n <= |buf| && wire == old(wire) + buf[..r.n]
      ensures !r.Wrote? ==> wire == old(wire)
    {
      Arrive();
      attempts := attempts + 1;
      var n: nat := *;
      if 0 < n <= |buf| {
        Transmit(buf[..n]);
        r := Wrote(n);
      } else if * {
        r := WriteAgain;
      } else {
        r := WriteFailed;
        failed := true;
      }
    }

    /** The kernel takes these bytes. */
    method Transmit(bytes: Bytes)
      modifies this`wire
      ensures wire == old(wire) + bytes
    {
      wire := wire + bytes;
    }

    /** The clock passes one of the connection's deadlines. */
    ghost method TimeOut()
      modifies this`timedOut
      ensures timedOut
    {
      timedOut := true;
    }

    /** EPOLL_CTL_MOD to read and write interest; it reports readiness again if something is waiting. */
    method SubmitSend()
      modifies this`outArmed, this`registered, this`edge
      ensures outArmed && registered && edge == (old(edge) || Readable())
    {
      outArmed, registered, edge := true, true, edge || Readable();
    }

    /** EPOLL_CTL_MOD to read interest only. */
    method SubmitRecv()
      modifies this`outArmed, this`registered, this`edge
      ensures !outArmed && registered && edge == (old(edge) || Readable())
    {
      outArmed, registered, edge := false, true, edge || Readable();
    }
  }
}
