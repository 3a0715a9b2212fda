/** The examples of section 5.7 of RFC 6455, and the layout of sections 5.2, 5.4 and 7.4 in their own terms. */
module WsExamples {
  import opened Bytes
  import opened Options
  import opened WsFrame
  import opened WsCodec
  import opened WsMessages
  import opened WsConn

  // ---------------------------------------------------------------- the header

  /** The first byte has the end mark, three bits that are zero and the opcode; the second the mask mark. */
  lemma HeaderBits(input: Bytes, maxSize: int)
    requires Decode(input, maxSize).Ok?
    ensures var f, h0, h1 := Decode(input, maxSize).value.frame, input[0] as nat, input[1] as nat;
      && f.fin == Bit(h0, 7) && !Bit(h0, 6) && !Bit(h0, 5) && !Bit(h0, 4)
      && f.opcode as nat == h0 % 16 && f.masked == Bit(h1, 7)
    ensures Decode(input, maxSize).value.frame.opcode in {0x0, 0x1, 0x2, 0x8, 0x9, 0xA}
  {
    hide DecodeLength, Masked, Bit, EncodeLength;
    HeaderIsWritten(input, maxSize);
    BitsOfByte(input[0] as nat);
    BitsOfByte(input[1] as nat);
  }

  lemma BitsOfByte(n: nat)
    requires n < 256
    ensures Bit(n, 7) <==> n >= 128
    ensures (n / 16) % 8 == 0 ==> !Bit(n, 6) && !Bit(n, 5) && !Bit(n, 4)
  {
    hide Bit;
    FourOn(n, 0);
    FourOn(n, 1);
    FourOn(n, 2);
    FourOn(n, 3);
    BitsOfHalf(n / 16);
  }

  lemma FourOn(n: nat, j: nat)
    ensures Bit(n, j + 4) == Bit(n / 16, j)
  {
    assert n / 2 / 2 / 2 / 2 == n / 16;
    assert Bit(n / 2, j + 3) == Bit(n / 2 / 2, j + 2) == Bit(n / 2 / 2 / 2, j + 1) == Bit(n / 2 / 2 / 2 / 2, j);
  }

  lemma BitsOfHalf(n: nat)
    requires n < 16
    ensures Bit(n, 3) <==> n >= 8
    ensures n % 8 == 0 ==> !Bit(n, 2) && !Bit(n, 1) && !Bit(n, 0)
  {
    assert Bit(n, 3) == Bit(n / 2, 2) == Bit(n / 2 / 2, 1) == Bit(n / 2 / 2 / 2, 0);
    assert Bit(n, 2) == Bit(n / 2, 1) == Bit(n / 2 / 2, 0);
  }

  // ---------------------------------------------------------------- the examples

  const KEY: Key := [0x37, 0xfa, 0x21, 0x3d]

  const HELLO: Bytes := [0x48, 0x65, 0x6c, 0x6c, 0x6f]

  const MASKED_HELLO: Bytes := [0x7f, 0x9f, 0x4d, 0x51, 0x58]

  lemma HelloIsMasked()
    ensures HELLO == Ascii("Hello") && Masked(KEY, HELLO) == MASKED_HELLO
  {
    hide Xor;
    MaskedH();
    MaskedE();
    MaskedFirstL();
    MaskedSecondL();
    MaskedO();
  }

  lemma MaskedH()
    ensures Xor(0x48, 0x37) == 0x7f
  {
    assert XorBits(0x4, 0x3, 4) == 0x7;
    assert XorBits(0x12, 0xd, 6) == 0x1f;
  }

  lemma MaskedE()
    ensures Xor(0x65, 0xfa) == 0x9f
  {
    assert XorBits(0x6, 0xf, 4) == 0x9;
    assert XorBits(0xc, 0x1f, 5) == 0x13;
    assert XorBits(0x19, 0x3e, 6) == 0x27;
    assert XorBits(0x32, 0x7d, 7) == 0x4f;
  }

  lemma MaskedFirstL()
    ensures Xor(0x6c, 0x21) == 0x4d
  {
    assert XorBits(0x6, 0x2, 4) == 0x4;
    assert XorBits(0x1b, 0x8, 6) == 0x13;
  }

  lemma MaskedSecondL()
    ensures Xor(0x6c, 0x3d) == 0x51
  {
    assert XorBits(0x6, 0x3, 4) == 0x5;
    assert XorBits(0x1b, 0xf, 6) == 0x14;
  }

  lemma MaskedO()
    ensures Xor(0x6f, 0x37) == 0x58
  {
    assert XorBits(0x6, 0x3, 4) == 0x5;
    assert XorBits(0x1b, 0xd, 6) == 0x16;
  }

  /** A single text message: 0x1 is text. */
  lemma SingleFrame()
    ensures Encode(true, TEXT, HELLO) == [0x81, 0x05] + HELLO
    ensures EncodeMasked(true, TEXT, KEY, HELLO) == [0x81, 0x85] + KEY + MASKED_HELLO
    ensures Decode([0x81, 0x85] + KEY + MASKED_HELLO, 0) == Ok(Decoded(Frame(true, TEXT, true, Ascii("Hello")), []))
  {
    HelloIsMasked();
    ReadsWhatWasMasked(true, TEXT, KEY, HELLO, [], 0);
    hide Masked, Decode;
    var s := EncodeMasked(true, TEXT, KEY, HELLO);
    assert s + [] == s;
    assert s == [0x81, 0x85] + KEY + MASKED_HELLO;
  }

  /** A fragmented one: 0x0 goes on with it. */
  lemma Fragments()
    ensures Encode(false, TEXT, Ascii("Hel")) == [0x01, 0x03, 0x48, 0x65, 0x6c]
    ensures Encode(true, CONTINUATION, Ascii("lo")) == [0x80, 0x02, 0x6c, 0x6f]
    ensures FeedAll([Frame(false, TEXT, true, Ascii("Hel")), Frame(true, CONTINUATION, true, Ascii("lo"))])
      == Whole(TEXT, Ascii("Hello"))
  {
    var one, two := Frame(false, TEXT, true, Ascii("Hel")), Frame(true, CONTINUATION, true, Ascii("lo"));
    FedMore([], one);
    FedMore([one], two);
    assert [] + [one] == [one] && [one] + [two] == [one, two];
    assert Ascii("Hel") == [0x48, 0x65, 0x6c] && Ascii("lo") == [0x6c, 0x6f];
    assert Ascii("Hel") + Ascii("lo") == Ascii("Hello");
  }

  /** A ping is 0x9, a pong 0xA, a close frame 0x8. */
  lemma ControlFrames()
    ensures Encode(true, PING, HELLO) == [0x89, 0x05] + HELLO
    ensures EncodeMasked(true, PONG, KEY, HELLO) == [0x8a, 0x85] + KEY + MASKED_HELLO
    ensures Encode(true, CLOSE, []) == [0x88, 0x00]
  {
    HelloIsMasked();
  }

  /** Longer ones, binary, which is 0x2: a length of sixteen bits, and of sixty-four. */
  lemma LongFrames(payload: Bytes)
    ensures |payload| == 256 ==> Encode(true, BINARY, payload) == [0x82, 0x7e, 0x01, 0x00] + payload
    ensures |payload| == 65536 ==> Encode(true, BINARY, payload) == [0x82, 0x7f, 0, 0, 0, 0, 0, 1, 0, 0] + payload
  {
    if |payload| == 256 {
      TwoBytes();
    } else if |payload| == 65536 {
      EightBytes();
    }
  }

  lemma TwoBytes()
    ensures BigEndian(256, 2) == [0x01, 0x00]
  {
    assert BigEndian(0, 0) == [];
    assert BigEndian(1, 1) == [1];
  }

  lemma EightBytes()
    ensures BigEndian(65536, 8) == [0, 0, 0, 0, 0, 1, 0, 0]
  {
    assert BigEndian(0, 2) == [0, 0];
    assert BigEndian(0, 4) == [0, 0, 0, 0];
    assert BigEndian(0, 5) == [0, 0, 0, 0, 0];
    assert BigEndian(1, 6) == [0, 0, 0, 0, 0, 1];
    assert BigEndian(256, 7) == [0, 0, 0, 0, 0, 1, 0];
  }

  // ---------------------------------------------------------------- close codes

  /** Section 7.4: the codes that may stand in a close frame. */
  lemma CloseCodes(code: nat)
    ensures ValidReceivedCloseCode(code)
      <==> 1000 <= code <= 1003 || 1007 <= code <= 1014 || 3000 <= code <= 4999
  {
  }
}
