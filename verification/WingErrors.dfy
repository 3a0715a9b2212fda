/** What the error response of a connection says to its client, read as a message (sections 6.3 and 9.6 of RFC 9112). */
module WingErrors {
  import opened Bytes
  import opened HttpParser
  import opened HttpFraming
  import opened HttpLexis
  import opened HttpRoundTrip
  import opened WingConnection

  // Content-Length: 0, and Connection: close
  const NO_BODY := FieldText(CONTENT_LENGTH[0 := 67][8 := 76], [SP, 48])
  const GOODBYE := FieldText(CONNECTION[0 := 67], [SP] + CLOSE)

  lemma TextsJoin(a: string, b: string)
    ensures Ascii(a + b) == Ascii(a) + Ascii(b)
  {
  }

  lemma HeadersAreLines()
    ensures CLOSE_HEADERS == LineOf(NO_BODY) + [CR, LF] + (LineOf(GOODBYE) + [CR, LF]) + [CR, LF]
  {
    hide Ascii, LineOf, NO_BODY, GOODBYE;
    FirstLine();
    SecondLine();
    Ends();
    var a, b, e := "Content-Length: 0", "Connection: close", "\r\n";
    assert "Content-Length: 0\r\nConnection: close\r\n\r\n" == a + e + (b + e) + e;
    TextsJoin(a, e);
    TextsJoin(b, e);
    TextsJoin(a + e, b + e);
    TextsJoin(a + e + (b + e), e);
  }

  lemma FirstLine()
    ensures LineOf(NO_BODY) == Ascii("Content-Length: 0")
  {
  }

  lemma SecondLine()
    ensures LineOf(GOODBYE) == Ascii("Connection: close")
  {
  }

  lemma LinesArePlain()
    ensures Plain(LineOf(NO_BODY)) && Plain(LineOf(GOODBYE))
    ensures 58 !in NO_BODY.name && 58 !in GOODBYE.name && Ascii(":")[0] == 58
  {
  }

  lemma InCapitals(word: Bytes, name: Bytes)
    requires |name| == |word|
    requires forall i :: 0 <= i < |word| ==>
      name[i] == word[i] || (65 <= name[i] <= 90 && name[i] as int + 32 == word[i] as int)
    ensures SameLetters(name, word)
  {
    hide IsUpper, IsLower;
    forall i | 0 <= i < |word| ensures SameLetter(name[i], word[i]) {
      Letters(name[i]);
      Letters(word[i]);
    }
  }

  lemma Kinds()
    ensures KnownHeader(NO_BODY.name) == ContentLength && KnownHeader(GOODBYE.name) == Connection
  {
    hide Ascii, SameLetters, KnownHeader;
    FramingWords();
    InCapitals(CONTENT_LENGTH, NO_BODY.name);
    InCapitals(CONNECTION, GOODBYE.name);
    KnownHeaderExactly(NO_BODY.name, ContentLength);
    KnownHeaderExactly(GOODBYE.name, Connection);
  }

  lemma Texts()
    ensures Trim([SP, 48]) == [48] && Trim([SP] + CLOSE) == CLOSE && LengthOf([48]) == 0
  {
    hide Trim;
    assert Trimmed([SP, 48], [48]) by { assert TrimmedTo([SP, 48], 1, 2); }
    TrimExactly([SP, 48], [48]);
    var close := [SP] + CLOSE;
    assert Trimmed(close, CLOSE) by { assert TrimmedTo(close, 1, 6) && close[1..6] == CLOSE; }
    TrimExactly(close, CLOSE);
    DigitPrefixOfDigits([48]);
    assert Decimal([48]) == 0;
  }

  lemma CloseIsToken()
    ensures HasListToken(CLOSE, CLOSE)
  {
    hide IndexByte, Trim, HasListToken;
    ListStep(CLOSE, CLOSE);
    IndexByteIsFirst(CLOSE, 44);
    TrimIdentity(CLOSE);
    assert CLOSE[..|CLOSE|] == CLOSE;
  }

  /** The response ends with its head, and its lines say that it has no body and that the connection ends. */
  lemma ErrorSaysItself(c: Conn, code: nat, line: Bytes)
    requires Plain(line) && c.statusLine(code) == line + [CR, LF]
    ensures var r := c.StatusClose(code);
      && IndexTerminator(r) >= 0 && |r| == IndexTerminator(r) + 4
      && var block := r[..IndexTerminator(r) + 2];
      && IndexByte(block, LF) >= 0 && StripCR(block[..IndexByte(block, LF)]) == line
      && Terminated(FieldBlock(block))
      && var lines := FieldLines(FieldBlock(block));
      && Named(lines, ContentLength) != [] && DeclaredLength(lines) == 0
      && SomeHasToken(Named(lines, Connection), CLOSE)
  {
    hide IndexTerminator, IndexByte, FieldBlock, FieldLines, Terminated, StripCR, Ended, NO_BODY, GOODBYE, LineOf,
      Plain, CLOSE_HEADERS;
    var r, lines := c.StatusClose(code), [LineOf(NO_BODY), LineOf(GOODBYE)];
    LinesArePlain();
    HeadersAreLines();
    var all := [line] + lines;
    assert AllPlain(all) && AllPlain(lines);
    EndedStep(all);
    EndedStep(lines);
    EndedStep(lines[1..]);
    EndedNothing(lines[2..]);
    assert lines[1..] == [LineOf(GOODBYE)] && lines[2..] == [] && all[1..] == lines;
    assert r == Ended(all) + [CR, LF] + [];
    EndOfHead(all, []);
    BlockLines(line, lines);
    assert r[..|r| - 2] == Ended(all) == line + [CR, LF] + Ended(lines);
    SaysClose(lines);
  }

  lemma SaysClose(lines: seq<Bytes>)
    requires lines == [LineOf(NO_BODY), LineOf(GOODBYE)]
    ensures Named(lines, ContentLength) != [] && DeclaredLength(lines) == 0
    ensures SomeHasToken(Named(lines, Connection), CLOSE)
  {
    hide KnownHeader, Name, Value, LineOf, LengthOf, HasListToken, Trim, IndexByte, Ascii, CLOSE;
    LinesArePlain();
    LineParts(NO_BODY);
    LineParts(GOODBYE);
    Kinds();
    Texts();
    CloseIsToken();
    assert lines[1..] == [LineOf(GOODBYE)] && lines[1..][1..] == [];
    assert Named(lines, Connection) == [CLOSE] by { assert Named([], Connection) == []; }
    assert Named(lines, ContentLength) == [[48]] by { assert Named([], ContentLength) == []; }
    assert HasListToken([CLOSE][0], CLOSE);
  }
}
