/** WebSocket frames on the wire (contrib/ws/frame.go; section 5.2 of RFC 6455). */
module WsFrame {
  import opened Bytes
  import opened Options

  datatype Frame = Frame(fin: bool, opcode: Byte, masked: bool, payload: Bytes)

  datatype FrameError =
    | Eof | ReservedBits | ReservedOpcode | NonMinimal | Overflow | ExceedsMaxSize | FragmentedControl | LongControl

  datatype Result<+T> = Ok(value: T) | Err(error: FrameError)

  const CONTINUATION: Byte := 0
  const TEXT: Byte := 1
  const BINARY: Byte := 2
  const CLOSE: Byte := 8
  const PING: Byte := 9
  const PONG: Byte := 10

  predicate KnownOpcode(op: Byte) {
    op == CONTINUATION || op == TEXT || op == BINARY || op == CLOSE || op == PING || op == PONG
  }

  // ---------------------------------------------------------------- numbers in network order

  function Pow256(k: nat): (r: nat)
    ensures r > 0
  {
    if k == 0 then 1 else 256 * Pow256(k - 1)
  }

  function BigEndian(n: nat, k: nat): (s: Bytes)
    ensures |s| == k
  {
    if k == 0 then [] else BigEndian(n / 256, k - 1) + [(n % 256) as Byte]
  }

  function FromBigEndian(s: Bytes): nat {
    if s == [] then 0 else FromBigEndian(s[..|s| - 1]) * 256 + s[|s| - 1] as nat
  }

  lemma {:induction false} FromToBigEndian(n: nat, k: nat)
    requires n < Pow256(k)
    ensures FromBigEndian(BigEndian(n, k)) == n
  {
    if k > 0 {
      assert n / 256 < Pow256(k - 1);
      FromToBigEndian(n / 256, k - 1);
      var s := BigEndian(n, k);
      assert s[..|s| - 1] == BigEndian(n / 256, k - 1);
    }
  }

  lemma {:induction false} ToFromBigEndian(s: Bytes)
    ensures BigEndian(FromBigEndian(s), |s|) == s && FromBigEndian(s) < Pow256(|s|)
  {
    if s != [] {
      ToFromBigEndian(s[..|s| - 1]);
      assert s == s[..|s| - 1] + [s[|s| - 1]];
    }
  }

  /** The first byte counts most: network order. */
  lemma {:induction false} NetworkOrder(s: Bytes)
    requires s != []
    ensures FromBigEndian(s) == s[0] as nat * Pow256(|s| - 1) + FromBigEndian(s[1..])
  {
    var n := |s| - 1;
    if n == 0 {
      assert s[..0] == s[1..] == [];
    } else {
      NetworkOrder(s[..n]);
      assert s[..n][1..] == s[1..][..n - 1];
      var first, place := s[0] as nat, Pow256(n - 1);
      assert (first * place) * 256 == first * (256 * place);
    }
  }

  const MAX_16 := 0x1_0000
  const MAX_63 := 0x8000_0000_0000_0000

  lemma Powers()
    ensures Pow256(2) == MAX_16 && Pow256(8) == 2 * MAX_63
  {
    assert Pow256(4) == 0x1_0000_0000;
    assert Pow256(6) == 0x1_0000_0000_0000;
  }

  // ---------------------------------------------------------------- masking

  /** Exclusive or, bit by bit, of the lowest `bits` bits. */
  function XorBits(a: nat, b: nat, bits: nat): (r: nat)
    ensures r < Pow2(bits)
  {
    if bits == 0 then 0 else 2 * XorBits(a / 2, b / 2, bits - 1) + (a + b) % 2
  }

  function Pow2(k: nat): (r: nat)
    ensures r > 0
  {
    if k == 0 then 1 else 2 * Pow2(k - 1)
  }

  lemma {:induction false} XorBitsTwice(a: nat, b: nat, bits: nat)
    requires a < Pow2(bits)
    ensures XorBits(XorBits(a, b, bits), b, bits) == a
  {
    if bits > 0 {
      XorBitsTwice(a / 2, b / 2, bits - 1);
      OneBit(XorBits(a / 2, b / 2, bits - 1), a, b);
    }
  }

  lemma OneBit(q: nat, a: nat, b: nat)
    ensures var r := 2 * q + (a + b) % 2; r / 2 == q && (r + b) % 2 == a % 2
  {
  }

  function Xor(a: Byte, b: Byte): Byte {
    assert Pow2(8) == 256 by { assert Pow2(4) == 16; }
    XorBits(a as nat, b as nat, 8) as Byte
  }

  lemma XorTwice(a: Byte, b: Byte)
    ensures Xor(Xor(a, b), b) == a
  {
    assert Pow2(8) == 256 by { assert Pow2(4) == 16; }
    XorBitsTwice(a as nat, b as nat, 8);
  }

  /** Bit `j` of a number. */
  function Bit(n: nat, j: nat): bool
    decreases j
  {
    if j == 0 then n % 2 == 1 else Bit(n / 2, j - 1)
  }

  /** A number is its bits. */
  lemma {:induction false} BitsDetermine(a: nat, b: nat, bits: nat)
    requires a < Pow2(bits) && b < Pow2(bits) && forall j :: 0 <= j < bits ==> Bit(a, j) == Bit(b, j)
    ensures a == b
  {
    if bits > 0 {
      forall j | 0 <= j < bits - 1 ensures Bit(a / 2, j) == Bit(b / 2, j) {
        assert Bit(a, j + 1) == Bit(b, j + 1);
      }
      BitsDetermine(a / 2, b / 2, bits - 1);
      assert Bit(a, 0) == Bit(b, 0);
    }
  }

  lemma {:induction false} XorBit(a: nat, b: nat, bits: nat, j: nat)
    requires j < bits
    ensures Bit(XorBits(a, b, bits), j) <==> Bit(a, j) != Bit(b, j)
  {
    hide Bit;
    var q := XorBits(a / 2, b / 2, bits - 1);
    BitOfStep(q, (a + b) % 2, j);
    BitStep(a, j);
    BitStep(b, j);
    if j == 0 {
      LowBit(a, b);
    } else {
      XorBit(a / 2, b / 2, bits - 1, j - 1);
    }
  }

  lemma BitStep(n: nat, j: nat)
    ensures Bit(n, j) <==> if j == 0 then n % 2 == 1 else Bit(n / 2, j - 1)
  {
  }

  lemma BitOfStep(q: nat, low: nat, j: nat)
    requires low < 2
    ensures Bit(2 * q + low, j) <==> if j == 0 then low == 1 else Bit(q, j - 1)
  {
    assert (2 * q + low) / 2 == q;
  }

  lemma LowBit(a: nat, b: nat)
    ensures (a + b) % 2 == 1 <==> (a % 2 == 1) != (b % 2 == 1)
  {
  }

  /** Of the lowest eight bits, those are set in `c` that are set in one of `a` and `b`, and not in the other. */
  ghost predicate ExclusiveOr(a: nat, b: nat, c: nat) {
    forall j :: 0 <= j < 8 ==> (Bit(c, j) <==> Bit(a, j) != Bit(b, j))
  }

  lemma XorExactly(a: Byte, b: Byte, c: Byte)
    ensures c == Xor(a, b) <==> ExclusiveOr(a as nat, b as nat, c as nat)
  {
    hide XorBits, Bit;
    assert Pow2(8) == 256 by { assert Pow2(4) == 16; }
    var x, y, r, z := a as nat, b as nat, Xor(a, b) as nat, c as nat;
    forall j | 0 <= j < 8 ensures Bit(r, j) <==> Bit(x, j) != Bit(y, j) {
      XorBit(x, y, 8, j);
    }
    if ExclusiveOr(x, y, z) {
      BitsDetermine(z, r, 8);
    }
  }

  type Key = k: Bytes | |k| == 4 witness [0, 0, 0, 0]

  function Masked(key: Key, data: Bytes): (r: Bytes)
    ensures |r| == |data|
  {
    seq(|data|, i requires 0 <= i < |data| => Xor(data[i], key[i % 4]))
  }

  /** Byte `i` is combined with byte `i % 4` of the key (section 5.3 of RFC 6455). */
  lemma MaskedExactly(key: Key, data: Bytes, r: Bytes)
    ensures r == Masked(key, data) <==>
      |r| == |data| && forall i :: 0 <= i < |data| ==> ExclusiveOr(data[i] as nat, key[i % 4] as nat, r[i] as nat)
  {
    hide Xor, ExclusiveOr;
    forall i | 0 <= i < |data| && |r| == |data|
      ensures r[i] == Masked(key, data)[i] <==> ExclusiveOr(data[i] as nat, key[i % 4] as nat, r[i] as nat)
    {
      XorExactly(data[i], key[i % 4], r[i]);
    }
  }

  /** Masking twice with one key changes nothing. */
  lemma MaskedTwice(key: Key, data: Bytes)
    ensures Masked(key, Masked(key, data)) == data
  {
    hide Xor;
    forall i | 0 <= i < |data| ensures Masked(key, Masked(key, data))[i] == data[i] {
      XorTwice(data[i], key[i % 4]);
    }
  }

  /** maskBytes, in place. */
  method MaskBytes(key: Key, data: array<Byte>)
    modifies data
    ensures data[..] == Masked(key, old(data[..]))
    ensures forall i :: 0 <= i < data.Length ==>
      ExclusiveOr(old(data[i]) as nat, key[i % 4] as nat, data[i] as nat)
  {
    hide Xor, ExclusiveOr;
    var i := 0;
    while i < data.Length
      invariant 0 <= i <= data.Length
      invariant forall k :: 0 <= k < i ==> data[k] == Masked(key, old(data[..]))[k]
      invariant forall k :: i <= k < data.Length ==> data[k] == old(data[k])
    {
      data[i] := Xor(data[i], key[i % 4]);
      i := i + 1;
    }
    MaskedExactly(key, old(data[..]), data[..]);
  }

  // ---------------------------------------------------------------- decoding

  datatype Length = Length(n: nat, used: nat)

  datatype Decoded = Decoded(frame: Frame, rest: Bytes)

  /** The payload length: seven bits, or an extension that must be needed. */
  function DecodeLength(short: nat, input: Bytes): Result<Length>
    requires short < 128
  {
    if short == 126 then
      if |input| < 2 then Err(Eof)
      else
        var n := FromBigEndian(input[..2]);
        if n < 126 then Err(NonMinimal) else Ok(Length(n, 2))
    else if short == 127 then
      if |input| < 8 then Err(Eof)
      else
        var n := FromBigEndian(input[..8]);
        if n >= MAX_63 then Err(Overflow) else if n < MAX_16 then Err(NonMinimal) else Ok(Length(n, 8))
    else Ok(Length(short, 0))
  }

  /** The frame at the front of the input, and what follows it. */
  function Decode(input: Bytes, maxSize: int): Result<Decoded> {
    if |input| < 2 then Err(Eof)
    else
      var h0, h1 := input[0] as nat, input[1] as nat;
      var fin, op, masked := h0 >= 128, (h0 % 16) as Byte, h1 >= 128;
      if (h0 / 16) % 8 != 0 then Err(ReservedBits)
      else if !KnownOpcode(op) then Err(ReservedOpcode)
      else
        match DecodeLength(h1 % 128, input[2..])
        case Err(e) => Err(e)
        case Ok(length) =>
          if maxSize > 0 && op < CLOSE && length.n > maxSize then Err(ExceedsMaxSize)
          else if op >= CLOSE && !fin then Err(FragmentedControl)
          else if op >= CLOSE && length.n > 125 then Err(LongControl)
          else DecodeBody(fin, op, masked, length.n, input[2..], length.used)
  }

  function DecodeBody(fin: bool, op: Byte, masked: bool, n: nat, input: Bytes, used: nat): Result<Decoded> {
    var start := used + (if masked then 4 else 0);
    if |input| < start + n then Err(Eof)
    else
      var raw := input[start..start + n];
      var payload := if masked then Masked(input[used..used + 4], raw) else raw;
      Ok(Decoded(Frame(fin, op, masked, payload), input[start + n..]))
  }

  /** A stream that is read from the front. */
  class Reader {
    var rest: Bytes

    constructor (input: Bytes)
      ensures rest == input
    {
      rest := input;
    }

    /** io.ReadFull: all `n` bytes, or an error. */
    method ReadFull(n: nat) returns (r: Option<Bytes>)
      modifies this
      ensures if n <= |old(rest)| then r == Some(old(rest)[..n]) && rest == old(rest)[n..] else r == None
    {
      if n <= |rest| {
        r := Some(rest[..n]);
        rest := rest[n..];
      } else {
        rest := [];
        r := None;
      }
    }
  }

  method ReadLength(r: Reader, short: nat) returns (res: Result<nat>)
    requires short < 128
    modifies r
    ensures match DecodeLength(short, old(r.rest))
      case Err(e) => res == Err(e)
      case Ok(length) => res == Ok(length.n) && length.used <= |old(r.rest)| && r.rest == old(r.rest)[length.used..]
  {
    if short == 126 {
      var ext := r.ReadFull(2);
      if ext.None? {
        return Err(Eof);
      }
      var n := FromBigEndian(ext.value);
      return if n < 126 then Err(NonMinimal) else Ok(n);
    }
    if short == 127 {
      var ext := r.ReadFull(8);
      if ext.None? {
        return Err(Eof);
      }
      var n := FromBigEndian(ext.value);
      return if n >= MAX_63 then Err(Overflow) else if n < MAX_16 then Err(NonMinimal) else Ok(n);
    }
    return Ok(short);
  }

  /** readFrame. */
  method ReadFrame(r: Reader, maxSize: int) returns (res: Result<Frame>)
    modifies r
    ensures match Decode(old(r.rest), maxSize)
      case Err(e) => res == Err(e)
      case Ok(d) => res == Ok(d.frame) && r.rest == d.rest
  {
    hide DecodeLength, Masked, FromBigEndian;
    var header := r.ReadFull(2);
    if header.None? {
      return Err(Eof);
    }
    var h0, h1 := header.value[0] as nat, header.value[1] as nat;
    var fin, op, masked := h0 >= 128, (h0 % 16) as Byte, h1 >= 128;
    if (h0 / 16) % 8 != 0 {
      return Err(ReservedBits);
    }
    if !KnownOpcode(op) {
      return Err(ReservedOpcode);
    }
    ghost var input := r.rest;
    var length := ReadLength(r, h1 % 128);
    if length.Err? {
      return Err(length.error);
    }
    if maxSize > 0 && op < CLOSE && length.value > maxSize {
      return Err(ExceedsMaxSize);
    }
    if op >= CLOSE && !fin {
      return Err(FragmentedControl);
    }
    if op >= CLOSE && length.value > 125 {
      return Err(LongControl);
    }
    res := ReadBody(r, fin, op, masked, length.value, input);
  }

  method ReadBody(r: Reader, fin: bool, op: Byte, masked: bool, n: nat, ghost input: Bytes) returns (res: Result<Frame>)
    requires |r.rest| <= |input| && r.rest == input[|input| - |r.rest|..]
    modifies r
    ensures match DecodeBody(fin, op, masked, n, input, |input| - |old(r.rest)|)
      case Err(e) => res == Err(e)
      case Ok(d) => res == Ok(d.frame) && r.rest == d.rest
  {
    hide Masked;
    ghost var used := |input| - |r.rest|;
    ghost var start := used + (if masked then 4 else 0);
    var key: Key := [0, 0, 0, 0];
    if masked {
      var k := r.ReadFull(4);
      if k.None? {
        return Err(Eof);
      }
      key := k.value;
      assert key == input[used..used + 4];
    }
    assert r.rest == input[start..];
    if n == 0 {
      assert input[start..start + n] == [];
      return Ok(Frame(fin, op, masked, []));
    }
    var raw := r.ReadFull(n);
    if raw.None? {
      return Err(Eof);
    }
    assert raw.value == input[start..start + n] && r.rest == input[start + n..];
    var payload := new Byte[n](i requires 0 <= i < n => raw.value[i]);
    assert payload[..] == raw.value;
    if masked {
      MaskBytes(key, payload);
    }
    return Ok(Frame(fin, op, masked, payload[..]));
  }

  // ---------------------------------------------------------------- encoding

  /** The length field after the mask bit: the shortest form. */
  function EncodeLength(n: nat): (s: Bytes)
    requires n < MAX_63
    ensures |s| > 0 && s[0] < 128
  {
    if n < 126 then [n as Byte] else if n < MAX_16 then [126] + BigEndian(n, 2) else [127] + BigEndian(n, 8)
  }

  function FirstByte(fin: bool, op: Byte): Byte
    requires op < 128
  {
    if fin then op + 128 else op
  }

  function Encode(fin: bool, op: Byte, payload: Bytes): Bytes
    requires op < 128 && |payload| < MAX_63
  {
    [FirstByte(fin, op)] + EncodeLength(|payload|) + payload
  }

  /** What a client sends: the mask bit, the key and the masked payload. */
  function EncodeMasked(fin: bool, op: Byte, key: Key, payload: Bytes): Bytes
    requires op < 128 && |payload| < MAX_63
  {
    var length := EncodeLength(|payload|);
    [FirstByte(fin, op)] + ([length[0] + 128] + length[1..]) + key + Masked(key, payload)
  }

  /** The connection underneath: it takes a beginning of what is written to it, and nothing once it is closed. */
  class Transport {
    var open: bool
    var taken: Bytes

    constructor ()
      ensures open && taken == []
    {
      open, taken := true, [];
    }

    method Write(data: Bytes) returns (n: nat, ok: bool)
      modifies this`taken
      ensures n <= |data| && taken == old(taken) + data[..n]
      ensures ok ==> n == |data|
      ensures !open ==> !ok && n == 0
    {
      if !open {
        return 0, false;
      }
      n :| n <= |data|;
      taken := taken + data[..n];
      var error: bool := *;
      ok := n == |data| && !error;
    }

    method Close()
      modifies this`open
      ensures !open
    {
      open := false;
    }
  }

  /** A bufio.Writer: after its first error it takes and passes on nothing more. */
  class Writer {
    const rwc: Transport
    var buffered: Bytes
    var failed: bool

    constructor (rwc: Transport)
      ensures this.rwc == rwc && buffered == [] && !failed
    {
      this.rwc, buffered, failed := rwc, [], false;
    }

    method Write(buf: array<Byte>) returns (ok: bool)
      modifies this`buffered
      ensures ok == !failed && buffered == if ok then old(buffered) + buf[..] else old(buffered)
    {
      if failed {
        return false;
      }
      buffered := buffered + buf[..];
      return true;
    }

    method Flush() returns (ok: bool)
      modifies this, rwc`taken
      ensures old(failed) ==> !ok && failed && buffered == old(buffered) && rwc.taken == old(rwc.taken)
      ensures !old(failed) ==> failed == !ok
      ensures !old(failed) ==>
        exists n: nat ::
          n <= |old(buffered)| && rwc.taken == old(rwc.taken) + old(buffered)[..n] && buffered == old(buffered)[n..]
      ensures ok ==> buffered == []
      ensures !old(failed) && old(buffered) == [] ==> ok && rwc.taken == old(rwc.taken)
      ensures !rwc.open && old(buffered) != [] ==> !ok && rwc.taken == old(rwc.taken)
    {
      if failed {
        return false;
      }
      if buffered == [] {
        assert rwc.taken == rwc.taken + buffered[..0] && buffered == buffered[0..];
        return true;
      }
      var n, written := rwc.Write(buffered);
      buffered := buffered[n..];
      failed := !written;
      return written;
    }
  }

  lemma LengthSize(n: nat)
    requires n < MAX_63
    ensures |EncodeLength(n)| == if n < 126 then 1 else if n < MAX_16 then 3 else 9
  {
  }

  /** writeFrame. */
  method WriteFrame(w: Writer, fin: bool, op: Byte, payload: Bytes) returns (ok: bool)
    requires |payload| < MAX_63
    modifies w`buffered
    ensures ok == !w.failed
    ensures w.buffered == old(w.buffered) + if ok then Encode(fin || op >= 128, op % 128, payload) else []
  {
    hide EncodeLength;
    var length := |payload|;
    var headerSize := 2;
    if 126 <= length < MAX_16 {
      headerSize := 4;
    } else if length >= MAX_16 {
      headerSize := 10;
    }
    LengthSize(length);
    var buf := new Byte[headerSize + length];
    buf[0] := op;
    if fin && buf[0] < 128 {
      buf[0] := buf[0] + 128;
    }
    var offset := PutLength(buf, length);
    PutBytes(buf, offset, payload);
    assert buf[offset + length..] == [];
    ok := w.Write(buf);
  }

  /** The length, behind the first byte; the result is where the payload goes. */
  method PutLength(buf: array<Byte>, length: nat) returns (offset: nat)
    requires length < MAX_63 && 1 + |EncodeLength(length)| <= buf.Length
    modifies buf
    ensures offset == 1 + |EncodeLength(length)|
    ensures buf[..offset] == [old(buf[0])] + EncodeLength(length)
  {
    offset := 2;
    if length < 126 {
      buf[1] := length as Byte;
    } else if length < MAX_16 {
      buf[1] := 126;
      PutBytes(buf, 2, BigEndian(length, 2));
      offset := 4;
    } else {
      buf[1] := 127;
      PutBytes(buf, 2, BigEndian(length, 8));
      offset := 10;
    }
  }

  method PutBytes(buf: array<Byte>, at: nat, s: Bytes)
    requires at + |s| <= buf.Length
    modifies buf
    ensures buf[..] == old(buf[..at]) + s + old(buf[at + |s|..])
  {
    forall i | 0 <= i < |s| {
      buf[at + i] := s[i];
    }
  }
}
