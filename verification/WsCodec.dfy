/** Reading and writing frames are inverse to each other: section 5.2 of RFC 6455 leaves one encoding a frame. */
module WsCodec {
  import opened Bytes
  import opened WsFrame

  /** What a frame must be to be accepted. */
  predicate FrameOk(fin: bool, op: Byte, n: nat, maxSize: int) {
    && KnownOpcode(op) && n < MAX_63
    && (op >= CLOSE ==> fin && n <= 125)
    && (op < CLOSE && maxSize > 0 ==> n <= maxSize)
  }

  lemma LengthDecodes(n: nat, rest: Bytes)
    requires n < MAX_63
    ensures var s := EncodeLength(n);
      DecodeLength(s[0] as nat, s[1..] + rest) == Ok(Length(n, |s| - 1))
  {
    hide BigEndian, FromBigEndian;
    var s := EncodeLength(n);
    Powers();
    if 126 <= n < MAX_16 {
      FromToBigEndian(n, 2);
      assert s[1..] == BigEndian(n, 2) && (s[1..] + rest)[..2] == BigEndian(n, 2);
    } else if n >= MAX_16 {
      FromToBigEndian(n, 8);
      assert s[1..] == BigEndian(n, 8) && (s[1..] + rest)[..8] == BigEndian(n, 8);
    }
  }

  lemma LengthIsEncoded(short: nat, input: Bytes)
    requires short < 128 && DecodeLength(short, input).Ok?
    ensures var length := DecodeLength(short, input).value;
      length.n < MAX_63 && length.used <= |input| && EncodeLength(length.n) == [short as Byte] + input[..length.used]
  {
    hide BigEndian, FromBigEndian;
    Powers();
    if short == 126 {
      ToFromBigEndian(input[..2]);
    } else if short == 127 {
      ToFromBigEndian(input[..8]);
    } else {
      assert input[..0] == [];
    }
  }

  lemma WrittenParts(first: Byte, length: Bytes, payload: Bytes, rest: Bytes)
    requires length != []
    ensures var input := [first] + length + payload + rest;
      input[0] == first && input[1] == length[0] && input[2..] == length[1..] + (payload + rest)
  {
  }

  /** A frame that was written is read back, and nothing after it is touched. */
  lemma ReadsWhatWasWritten(fin: bool, op: Byte, payload: Bytes, rest: Bytes, maxSize: int)
    requires FrameOk(fin, op, |payload|, maxSize)
    ensures Decode(Encode(fin, op, payload) + rest, maxSize) == Ok(Decoded(Frame(fin, op, false, payload), rest))
  {
    hide EncodeLength, DecodeLength;
    var length := EncodeLength(|payload|);
    var input := Encode(fin, op, payload) + rest;
    var body := length[1..] + (payload + rest);
    assert input[0] == FirstByte(fin, op) && input[1] == length[0] && input[2..] == body by {
      WrittenParts(FirstByte(fin, op), length, payload, rest);
    }
    LengthDecodes(|payload|, payload + rest);
    var used := |length| - 1;
    assert body[used..used + |payload|] == payload && body[used + |payload|..] == rest;
  }

  /** The same for what a client sends. */
  lemma ReadsWhatWasMasked(fin: bool, op: Byte, key: Key, payload: Bytes, rest: Bytes, maxSize: int)
    requires FrameOk(fin, op, |payload|, maxSize)
    ensures Decode(EncodeMasked(fin, op, key, payload) + rest, maxSize)
      == Ok(Decoded(Frame(fin, op, true, payload), rest))
  {
    hide EncodeLength, DecodeLength, Masked;
    var length := EncodeLength(|payload|);
    var input := EncodeMasked(fin, op, key, payload) + rest;
    var raw := Masked(key, payload);
    assert input[0] == FirstByte(fin, op) && input[1] == length[0] + 128;
    var body := length[1..] + (key + raw + rest);
    assert input[2..] == body;
    LengthDecodes(|payload|, key + raw + rest);
    var used := |length| - 1;
    assert body[used..used + 4] == key;
    assert body[used + 4..used + 4 + |payload|] == raw && body[used + 4 + |payload|..] == rest;
    MaskedTwice(key, payload);
  }

  lemma BodyIsWritten(fin: bool, op: Byte, masked: bool, n: nat, input: Bytes, used: nat) returns (key: Key)
    requires used <= |input| && DecodeBody(fin, op, masked, n, input, used).Ok?
    ensures var d := DecodeBody(fin, op, masked, n, input, used).value;
      && d.frame == Frame(fin, op, masked, d.frame.payload) && |d.frame.payload| == n
      && input == input[..used] + (if masked then key + Masked(key, d.frame.payload) else d.frame.payload) + d.rest
  {
    hide Masked;
    var d := DecodeBody(fin, op, masked, n, input, used).value;
    if masked {
      key := input[used..used + 4];
      var raw := input[used + 4..used + 4 + n];
      MaskedTwice(key, raw);
      assert input == input[..used] + (key + raw) + d.rest;
    } else {
      key := [0, 0, 0, 0];
      assert input == input[..used] + input[used..used + n] + d.rest;
    }
  }

  lemma HeaderIsWritten(input: Bytes, maxSize: int)
    requires Decode(input, maxSize).Ok?
    ensures var h0, h1 := input[0] as nat, input[1] as nat;
      var length := DecodeLength(h1 % 128, input[2..]);
      && length.Ok? && length.value.used <= |input| - 2
      && var fin, op, masked := h0 >= 128, (h0 % 16) as Byte, h1 >= 128;
      && FrameOk(fin, op, length.value.n, maxSize) && FirstByte(fin, op) == input[0]
      && input[1] == EncodeLength(length.value.n)[0] + (if masked then 128 else 0)
      && input[2..][..length.value.used] == EncodeLength(length.value.n)[1..]
      && Decode(input, maxSize) == DecodeBody(fin, op, masked, length.value.n, input[2..], length.value.used)
  {
    hide EncodeLength, DecodeLength, DecodeBody;
    var short := input[1] as nat % 128;
    LengthIsEncoded(short, input[2..]);
    var length := DecodeLength(short, input[2..]).value;
    assert EncodeLength(length.n)[1..] == input[2..][..length.used];
  }

  /** What is accepted is a legal frame, and the bytes accepted are the ones that writing it gives: with no mask
      the frame alone, else the frame with its key. */
  lemma AcceptsOnlyWhatIsWritten(input: Bytes, maxSize: int) returns (key: Key)
    requires Decode(input, maxSize).Ok?
    ensures var d := Decode(input, maxSize).value;
      && FrameOk(d.frame.fin, d.frame.opcode, |d.frame.payload|, maxSize)
      && input == (if d.frame.masked then EncodeMasked(d.frame.fin, d.frame.opcode, key, d.frame.payload)
                   else Encode(d.frame.fin, d.frame.opcode, d.frame.payload)) + d.rest
  {
    hide EncodeLength, DecodeLength, DecodeBody, Decode, Masked;
    HeaderIsWritten(input, maxSize);
    var h0, h1 := input[0] as nat, input[1] as nat;
    var length := DecodeLength(h1 % 128, input[2..]).value;
    var d := Decode(input, maxSize).value;
    key := BodyIsWritten(h0 >= 128, (h0 % 16) as Byte, h1 >= 128, length.n, input[2..], length.used);
    var tail := if d.frame.masked then key + Masked(key, d.frame.payload) else d.frame.payload;
    var field := EncodeLength(length.n);
    assert field == [field[0]] + field[1..];
    Glue(input, field[1..], tail, d.rest);
    if d.frame.masked {
      assert [input[0]] + ([input[1]] + field[1..]) + tail
        == EncodeMasked(d.frame.fin, d.frame.opcode, key, d.frame.payload);
    }
  }

  lemma Glue(input: Bytes, mid: Bytes, tail: Bytes, rest: Bytes)
    requires |input| >= 2 && input[2..] == mid + tail + rest
    ensures input == [input[0]] + ([input[1]] + mid) + tail + rest
  {
    assert input == [input[0]] + ([input[1]] + input[2..]);
  }
}
