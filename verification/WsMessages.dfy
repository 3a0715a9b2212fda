/** Messages as sequences of frames (sections 5.4 and 5.5 of RFC 6455): what a reader has in hand after any frames. */
module WsMessages {
  import opened Bytes
  import opened WsFrame
  import opened WsCodec

  datatype Assembly =
    | Idle
    | Partial(kind: Byte, data: Bytes)
    | Whole(kind: Byte, data: Bytes)
    | Broken

  /** One more frame. Pings and pongs may come anywhere before the end. */
  function Feed(a: Assembly, f: Frame): Assembly {
    match a
    case Idle =>
      if f.opcode == PING || f.opcode == PONG then Idle
      else if f.opcode == TEXT || f.opcode == BINARY then
        if f.fin then Whole(f.opcode, f.payload) else Partial(f.opcode, f.payload)
      else Broken
    case Partial(kind, data) =>
      if f.opcode == PING || f.opcode == PONG then a
      else if f.opcode == CONTINUATION then
        if f.fin then Whole(kind, data + f.payload) else Partial(kind, data + f.payload)
      else Broken
    case Whole(_, _) => Broken
    case Broken => Broken
  }

  function FeedAll(fs: seq<Frame>): Assembly {
    if fs == [] then Idle else Feed(FeedAll(fs[..|fs| - 1]), fs[|fs| - 1])
  }

  /** The payloads of the frames with this opcode, in order. */
  function PayloadsOf(op: Byte, fs: seq<Frame>): seq<Bytes> {
    if fs == [] then []
    else PayloadsOf(op, fs[..|fs| - 1]) + (if fs[|fs| - 1].opcode == op then [fs[|fs| - 1].payload] else [])
  }

  /** The data frames, joined: what the message must be. */
  function DataOf(fs: seq<Frame>): Bytes {
    if fs == [] then []
    else DataOf(fs[..|fs| - 1]) + (if fs[|fs| - 1].opcode < CLOSE then fs[|fs| - 1].payload else [])
  }

  lemma FedMore(fs: seq<Frame>, f: Frame)
    ensures FeedAll(fs + [f]) == Feed(FeedAll(fs), f)
    ensures PayloadsOf(PING, fs + [f]) == PayloadsOf(PING, fs) + (if f.opcode == PING then [f.payload] else [])
    ensures PayloadsOf(PONG, fs + [f]) == PayloadsOf(PONG, fs) + (if f.opcode == PONG then [f.payload] else [])
    ensures PayloadsOf(CLOSE, fs + [f]) == PayloadsOf(CLOSE, fs) + (if f.opcode == CLOSE then [f.payload] else [])
  {
    assert (fs + [f])[..|fs|] == fs;
  }

  /** The reader's data is the join of the data frames, and its type that of the first of them. */
  lemma {:induction false} AssemblyIsJoin(fs: seq<Frame>)
    ensures FeedAll(fs).Idle? ==> DataOf(fs) == [] && forall i :: 0 <= i < |fs| ==> fs[i].opcode >= CLOSE
    ensures FeedAll(fs).Partial? || FeedAll(fs).Whole? ==>
      FeedAll(fs).data == DataOf(fs) && exists i: nat :: FirstData(fs, i) && fs[i].opcode == FeedAll(fs).kind
  {
    if fs != [] {
      var front, f := fs[..|fs| - 1], fs[|fs| - 1];
      AssemblyIsJoin(front);
      if FeedAll(front).Partial? {
        var i: nat :| FirstData(front, i) && front[i].opcode == FeedAll(front).kind;
        assert FirstData(fs, i) && fs[i].opcode == FeedAll(front).kind;
      } else if FeedAll(front).Idle? && f.opcode < CLOSE {
        assert FirstData(fs, |fs| - 1);
      }
    }
  }

  ghost predicate FirstData(fs: seq<Frame>, i: nat) {
    i < |fs| && fs[i].opcode < CLOSE && forall j :: 0 <= j < i ==> fs[j].opcode >= CLOSE
  }

  // ---------------------------------------------------------------- which frames are a message

  /** The message begins with frame `first`, which has its type; data frames after it go on with it, and pings and
      pongs may stand anywhere. */
  predicate InPlace(f: Frame, i: nat, first: nat) {
    if f.opcode == PING || f.opcode == PONG then i != first
    else if i == first then f.opcode == TEXT || f.opcode == BINARY
    else i > first && f.opcode == CONTINUATION
  }

  /** None of the frames from `first` to before `n` ends the message. */
  ghost predicate GoesOn(fs: seq<Frame>, first: nat, n: nat) {
    && first < |fs| && n <= |fs|
    && (forall i :: 0 <= i < |fs| ==> InPlace(fs[i], i, first))
    && (forall i :: 0 <= i < n && fs[i].opcode < CLOSE ==> !fs[i].fin)
  }

  ghost predicate Unfinished(fs: seq<Frame>) {
    exists first: nat :: GoesOn(fs, first, |fs|)
  }

  ghost predicate Finished(fs: seq<Frame>) {
    var n := |fs| - 1;
    n >= 0 && fs[n].opcode < CLOSE && fs[n].fin && exists first: nat :: GoesOn(fs, first, n)
  }

  /** Section 5.4: a first frame with the type, any number that go on, the last of them marked; pings and pongs
      between. */
  lemma {:induction false} MessageExactly(fs: seq<Frame>)
    ensures FeedAll(fs).Idle? <==> forall i :: 0 <= i < |fs| ==> fs[i].opcode == PING || fs[i].opcode == PONG
    ensures FeedAll(fs).Partial? <==> Unfinished(fs)
    ensures FeedAll(fs).Whole? <==> Finished(fs)
  {
    if fs != [] {
      var front, f := fs[..|fs| - 1], fs[|fs| - 1];
      MessageExactly(front);
      if FeedAll(front).Idle? {
        assert f.opcode == TEXT || f.opcode == BINARY ==> GoesOn(fs, |front|, |front|);
        assert (f.opcode == TEXT || f.opcode == BINARY) && !f.fin ==> GoesOn(fs, |front|, |fs|);
      } else if FeedAll(front).Partial? {
        var first: nat :| GoesOn(front, first, |front|);
        assert InPlace(f, |front|, first) ==> GoesOn(fs, first, |front|);
        assert InPlace(f, |front|, first) && (f.opcode < CLOSE ==> !f.fin) ==> GoesOn(fs, first, |fs|);
      }
      forall first: nat | GoesOn(fs, first, |front|) && first < |front| ensures GoesOn(front, first, |front|) {
        assert forall i :: 0 <= i < |front| ==> front[i] == fs[i];
      }
      forall first: nat | GoesOn(fs, first, |front|) && first == |front| ensures FeedAll(front).Idle? {
        assert forall i :: 0 <= i < |front| ==> InPlace(front[i], i, first);
      }
      assert forall first: nat :: GoesOn(fs, first, |fs|) ==> GoesOn(fs, first, |front|);
    }
  }

  /** Until the last frame, a message that will be whole is not begun, or is begun with a prefix of its data. */
  lemma {:induction false} OnTheWay(fs: seq<Frame>, n: nat)
    requires FeedAll(fs).Whole? && n < |fs|
    ensures FeedAll(fs[..n]).Idle?
         || (FeedAll(fs[..n]).Partial? && FeedAll(fs[..n]).kind == FeedAll(fs).kind
           && FeedAll(fs[..n]).data <= FeedAll(fs).data)
    decreases |fs|
  {
    OnTheWayTo(fs[..|fs| - 1], n);
    assert fs[..|fs| - 1][..n] == fs[..n];
  }

  lemma {:induction false} OnTheWayTo(fs: seq<Frame>, n: nat)
    requires (FeedAll(fs).Idle? || FeedAll(fs).Partial?) && n <= |fs|
    ensures FeedAll(fs[..n]).Idle?
         || (FeedAll(fs[..n]).Partial? && FeedAll(fs).Partial? && FeedAll(fs[..n]).kind == FeedAll(fs).kind
             && FeedAll(fs[..n]).data <= FeedAll(fs).data)
    decreases |fs|
  {
    if n == |fs| {
      assert fs[..n] == fs;
    } else {
      OnTheWayTo(fs[..|fs| - 1], n);
      assert fs[..|fs| - 1][..n] == fs[..n];
    }
  }

  // ---------------------------------------------------------------- frames in a stream

  /** Reading `fs` one after the other leads from `input` to `rest`. */
  ghost predicate Took(input: Bytes, fs: seq<Frame>, rest: Bytes, maxSize: int) {
    if fs == [] then input == rest
    else
      && Decode(input, maxSize).Ok? && Decode(input, maxSize).value.frame == fs[0]
      && Took(Decode(input, maxSize).value.rest, fs[1..], rest, maxSize)
  }

  lemma {:induction false} TookMore(input: Bytes, fs: seq<Frame>, mid: Bytes, maxSize: int)
    requires Took(input, fs, mid, maxSize) && Decode(mid, maxSize).Ok?
    ensures Took(input, fs + [Decode(mid, maxSize).value.frame], Decode(mid, maxSize).value.rest, maxSize)
    decreases |fs|
  {
    hide Decode;
    var f := Decode(mid, maxSize).value.frame;
    if fs == [] {
      assert ([] + [f])[1..] == [];
    } else {
      TookMore(Decode(input, maxSize).value.rest, fs[1..], mid, maxSize);
      assert (fs + [f])[1..] == fs[1..] + [f];
    }
  }

  /** Reading is deterministic: what has been taken is the beginning of what can be taken. */
  lemma {:induction false} TookPrefix(input: Bytes, fs: seq<Frame>, mid: Bytes, all: seq<Frame>, rest: Bytes,
      maxSize: int)
    requires Took(input, fs, mid, maxSize) && Took(input, all, rest, maxSize) && |fs| <= |all|
    ensures fs == all[..|fs|] && Took(mid, all[|fs|..], rest, maxSize)
    decreases |fs|
  {
    hide Decode;
    if fs == [] {
      assert all[0..] == all;
    } else {
      var tail, k := all[1..], |fs| - 1;
      TookPrefix(Decode(input, maxSize).value.rest, fs[1..], mid, tail, rest, maxSize);
      Tails(all, k);
      assert fs == [fs[0]] + fs[1..];
    }
  }

  lemma Tails(all: seq<Frame>, k: nat)
    requires k < |all|
    ensures all[1..][k..] == all[k + 1..] && all[..k + 1] == [all[0]] + all[1..][..k]
  {
  }

  predicate Legal(f: Frame, maxSize: int) {
    f.masked && FrameOk(f.fin, f.opcode, |f.payload|, maxSize)
  }

  /** What a client sends for these frames, with a key for each. */
  function ClientStream(fs: seq<Frame>, keys: seq<Key>, maxSize: int): Bytes
    requires |fs| == |keys| && forall i :: 0 <= i < |fs| ==> Legal(fs[i], maxSize)
  {
    if fs == [] then []
    else
      assert Legal(fs[0], maxSize);
      EncodeMasked(fs[0].fin, fs[0].opcode, keys[0], fs[0].payload) + ClientStream(fs[1..], keys[1..], maxSize)
  }

  /** Any legal frames that a client sends are read, one by one. */
  lemma {:induction false} ClientStreamIsTaken(fs: seq<Frame>, keys: seq<Key>, rest: Bytes, maxSize: int)
    requires |fs| == |keys| && forall i :: 0 <= i < |fs| ==> Legal(fs[i], maxSize)
    ensures Took(ClientStream(fs, keys, maxSize) + rest, fs, rest, maxSize)
  {
    hide Decode, EncodeMasked;
    if fs == [] {
      assert ClientStream(fs, keys, maxSize) + rest == rest;
    } else {
      assert Legal(fs[0], maxSize);
      var tail := ClientStream(fs[1..], keys[1..], maxSize);
      ReadsWhatWasMasked(fs[0].fin, fs[0].opcode, keys[0], fs[0].payload, tail + rest, maxSize);
      assert ClientStream(fs, keys, maxSize) + rest
          == EncodeMasked(fs[0].fin, fs[0].opcode, keys[0], fs[0].payload) + (tail + rest);
      ClientStreamIsTaken(fs[1..], keys[1..], rest, maxSize);
    }
  }
}
