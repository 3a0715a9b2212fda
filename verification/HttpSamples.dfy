/** A few requests in full, as witnesses for the runs in WingRuns. */
module HttpSamples {
  import opened Bytes
  import opened Options
  import opened HttpParser
  import opened HttpClassifier
  import opened HttpFraming
  import opened HttpVerdicts
  import opened HttpRoundTrip

  const CRLF: Bytes := [CR, LF]

  // G / HTTP/1.0, and G / HTTP/1.1
  const LINE_10: Bytes := [71, 32, 47, 32, 72, 84, 84, 80, 47, 49, 46, 48]
  const LINE_11: Bytes := [71, 32, 47, 32, 72, 84, 84, 80, 47, 49, 46, 49]
  // host:
  const HOST_LINE: Bytes := HOST + [58]
  // content-length:1
  const LENGTH_LINE: Bytes := CONTENT_LENGTH + [58, 49]

  /** A request that ends its connection. */
  const LAST_REQUEST: Bytes := LINE_10 + CRLF + CRLF
  /** A request that lets its connection persist. */
  const PERSISTENT: Bytes := LINE_11 + CRLF + (HOST_LINE + CRLF + CRLF)
  /** The head of one that does so too, and has a body of one byte. */
  const TWO_LINES: Bytes := HOST_LINE + CRLF + LENGTH_LINE
  const BODY_HEAD: Bytes := LINE_11 + CRLF + (TWO_LINES + CRLF + CRLF)
  const WITH_BODY: Bytes := BODY_HEAD + [120]

  lemma LinesAreText()
    ensures LINE_10 == Ascii("G / HTTP/1.0") && LINE_11 == Ascii("G / HTTP/1.1")
    ensures PLAIN_LINE == Ascii("P / HTTP/1.0")
  {
  }

  lemma FieldsAreText()
    ensures HOST_LINE == Ascii("host:") && LENGTH_LINE == Ascii("content-length:1")
    ensures SIGNED_FIELD == Ascii("content-length:+5")
  {
  }

  lemma LinesArePlain()
    ensures Plain(LINE_10) && Plain(LINE_11) && Plain(HOST_LINE) && Plain(LENGTH_LINE)
  {
  }

  // ---------------------------------------------------------------- the parts of a request

  /** `data` is a request line and the text of the fields, with their line ends. */
  ghost predicate IsHead(data: Bytes, line: Bytes, fields: Bytes) {
    var m, n := |line|, |line| + 2 + |fields|;
    && |data| == n + 4
    && (forall i :: 0 <= i < m ==> data[i] == line[i]) && data[m] == CR && data[m + 1] == LF
    && (forall i :: m + 2 <= i < n ==> data[i] == fields[i - m - 2])
    && data[n] == CR && data[n + 1] == LF && data[n + 2] == CR && data[n + 3] == LF
  }

  /** Fields that do not begin or end with a line end, and have no two line ends in a row. */
  ghost predicate Unbroken(fields: Bytes) {
    && fields != [] && fields[0] != CR && fields[|fields| - 1] != LF && fields[|fields| - 1] != CR
    && forall i :: 0 <= i < |fields| - 2 && fields[i] == CR && fields[i + 1] == LF ==> fields[i + 2] != CR
  }

  lemma NoEarlierEnd(data: Bytes, line: Bytes, fields: Bytes, i: nat)
    requires IsHead(data, line, fields) && Plain(line) && Unbroken(fields) && i < |line| + 2 + |fields|
    ensures !TerminatorAt(data, i)
  {
    var m := |line|;
    if m + 2 <= i {
      var k := i - m - 2;
      assert data[i] == fields[k];
      if k < |fields| - 2 {
        assert data[i + 1] == fields[k + 1] && data[i + 2] == fields[k + 2];
      } else {
        assert data[m + 1 + |fields|] == fields[|fields| - 1];
      }
    } else if i == m {
      assert data[m + 2] == fields[0];
    }
  }

  /** Where its head ends. */
  lemma HeadParts(data: Bytes, line: Bytes, fields: Bytes)
    requires IsHead(data, line, fields) && Plain(line) && Unbroken(fields)
    ensures var n := |line| + 2 + |fields|;
      && BlankPrefix(data) == 0 && IndexTerminator(data) == n
      && IndexByte(data[..n + 2], LF) == |line| + 1 && data[..n + 2][..|line| + 1] == line + [CR]
      && FieldBlock(data[..n + 2]) == fields
  {
    hide Unbroken;
    var n, m := |line| + 2 + |fields|, |line|;
    assert data[0] == line[0];
    IndexTerminatorIsFirst(data, n);
    var j := IndexTerminator(data);
    if j < n {
      NoEarlierEnd(data, line, fields, j);
    }
    var block := data[..n + 2];
    IndexByteUnique(block, LF, m + 1);
    assert block[m + 2..|block| - 2] == fields;
    assert block[..m + 1] == line + [CR];
  }

  /** The same without fields. */
  lemma BareParts(line: Bytes)
    requires Plain(line)
    ensures var data := line + CRLF + CRLF;
      var n := |line|;
      && BlankPrefix(data) == 0 && IndexTerminator(data) == n && |data| == n + 4
      && IndexByte(data[..n + 2], LF) == n + 1 && data[..n + 2][..n + 1] == line + [CR]
      && FieldBlock(data[..n + 2]) == []
  {
    var data := line + CRLF + CRLF;
    var n := |line|;
    assert data[0] == line[0] && data[n] == CR && data[n + 1] == LF && data[n + 2] == CR && data[n + 3] == LF;
    forall i | 0 <= i < n ensures !TerminatorAt(data, i) {
      assert data[i] == line[i];
    }
    IndexTerminatorIsFirst(data, n);
    assert forall i :: 0 <= i < n ==> data[..n + 2][i] == line[i];
    IndexByteUnique(data[..n + 2], LF, n + 1);
  }

  lemma LineSplit(line: Bytes)
    requires line == LINE_10 || line == LINE_11
    ensures StripCR(line + [CR]) == line
    ensures SplitRequestLine(line) == Some(RequestLine([71], [47], line[4..]))
  {
    hide SplitRequestLine;
    assert (line + [CR])[..|line|] == line;
    assert Spaced(line, [71], [47], line[4..]);
    RequestLineExactly(line, RequestLine([71], [47], line[4..]));
  }

  lemma Versions()
    ensures IsValidRequestLine(RequestLine([71], [47], LINE_10[4..]))
    ensures IsValidRequestLine(RequestLine([71], [47], LINE_11[4..]))
    ensures RequiresHost(LINE_11[4..]) && !RequiresHost(LINE_10[4..])
  {
    assert LINE_10[4..] == [72, 84, 84, 80, 47, 49, 46, 48] && LINE_11[4..] == [72, 84, 84, 80, 47, 49, 46, 49];
    assert IsTokenByte(71);
  }

  // ---------------------------------------------------------------- the fields

  lemma HostLine()
    ensures KnownHeader(Name(HOST_LINE)) == Host && Value(HOST_LINE) == [] && GoodLine(HOST_LINE, NO_LIMITS)
    ensures ClassifyLine(HOST_LINE, NOTHING_SEEN, NO_LIMITS) == Go(NOTHING_SEEN.(hostSeen := true))
    ensures IndexByte(HOST_LINE, LF) == -1
  {
    IndexByteIsFirst(HOST_LINE, LF);
    IndexByteUnique(HOST_LINE, 58, 4);
    assert HOST_LINE[..4] == HOST && HOST_LINE[5..] == [];
    TrimIdentity(HOST);
    hide IndexByte, Trim;
    assert Trim([]) == [] by { TrimNothing(); }
    assert KnownHeader(HOST) == Host;
    assert IsToken(HOST) by { TokenOf(HOST); }
  }

  lemma TrimNothing()
    ensures Trim([]) == []
  {
  }

  lemma TokenOf(name: Bytes)
    requires name == HOST || name == CONTENT_LENGTH
    ensures IsToken(name)
  {
  }

  lemma LengthLine()
    ensures KnownHeader(Name(LENGTH_LINE)) == ContentLength && Value(LENGTH_LINE) == [49]
    ensures GoodLine(LENGTH_LINE, NO_LIMITS) && LengthOf([49]) == 1 && IndexByte(LENGTH_LINE, LF) == -1
    ensures ClassifyLine(LENGTH_LINE, NOTHING_SEEN.(hostSeen := true), NO_LIMITS)
         == Go(NOTHING_SEEN.(hostSeen := true, hasCL := true, cl := 1))
  {
    IndexByteIsFirst(LENGTH_LINE, LF);
    IndexByteUnique(LENGTH_LINE, 58, 14);
    assert LENGTH_LINE[..14] == CONTENT_LENGTH;
    TrimIdentity(CONTENT_LENGTH);
    assert LENGTH_LINE[15..] == [49];
    TrimIdentity([49]);
    assert Decimal([49]) == 1;
    DigitPrefixOfDigits([49]);
    hide IndexByte, Trim, Decimal, DigitPrefix;
    assert KnownHeader(CONTENT_LENGTH) == ContentLength;
    assert IsToken(CONTENT_LENGTH) by { TokenOf(CONTENT_LENGTH); }
    assert Atoi([49]) == Some(1);
  }

  /** The field lines of the two heads. */
  lemma FieldsOf()
    ensures Terminated(HOST_LINE) && FieldLines(HOST_LINE) == [HOST_LINE]
    ensures Terminated(TWO_LINES) && FieldLines(TWO_LINES) == [HOST_LINE, LENGTH_LINE]
  {
    hide Terminated, FieldLines, Plain, HOST_LINE, LENGTH_LINE;
    LinesArePlain();
    var one, two := [HOST_LINE], [HOST_LINE, LENGTH_LINE];
    JoinedLines(one);
    JoinedLines(two);
    assert two[1..] == [LENGTH_LINE];
  }

  lemma LinesVerdict()
    ensures ClassifyLines(TWO_LINES, NOTHING_SEEN, NO_LIMITS)
         == Go(NOTHING_SEEN.(hostSeen := true, hasCL := true, cl := 1))
  {
    hide IndexByte, ClassifyLine, HOST_LINE, LENGTH_LINE, Plain, Name, Value, GoodLine, KnownHeader;
    HostLine();
    LengthLine();
    LinesArePlain();
    PlainAreClean();
    LineFirst(HOST_LINE, LENGTH_LINE);
    assert TWO_LINES[..|HOST_LINE| + 1] == HOST_LINE + [CR];
    assert (HOST_LINE + [CR])[..|HOST_LINE|] == HOST_LINE;
  }

  lemma PlainAreClean()
    ensures CR !in LENGTH_LINE && LENGTH_LINE != []
  {
  }

  /** Lines with no Connection field and nothing against them. */
  ghost predicate Harmless(lines: seq<Bytes>) {
    && Admissible(lines, NO_FIELDS, NO_LIMITS) && Named(lines, TransferEncoding) == Named(lines, Connection) == []
    && DeclaredLength(lines) <= 1
  }

  lemma CountsOf()
    ensures Harmless([]) && Harmless([HOST_LINE]) && Harmless([HOST_LINE, LENGTH_LINE])
    ensures |Named([HOST_LINE], Host)| == |Named([HOST_LINE, LENGTH_LINE], Host)| == 1
    ensures DeclaredLength([HOST_LINE]) == DeclaredLength([]) == 0 && DeclaredLength([HOST_LINE, LENGTH_LINE]) == 1
  {
    hide HOST_LINE, LENGTH_LINE, Name, Value, KnownHeader, GoodLine, LengthOf, Named, ClassifyLine, IndexByte;
    HostLine();
    LengthLine();
    NoneNamed();
    NamedOf();
  }

  lemma NoneNamed()
    ensures forall kind :: Named([], kind) == []
  {
  }

  lemma NamedOf()
    ensures forall kind :: Named([HOST_LINE], kind) == if kind == Host then [[]] else []
    ensures forall kind :: Named([HOST_LINE, LENGTH_LINE], kind)
                        == if kind == Host then [[]] else if kind == ContentLength then [[49]] else []
  {
    HostLine();
    LengthLine();
    hide HOST_LINE, LENGTH_LINE, Name, Value, KnownHeader, GoodLine;
    var one, two := [HOST_LINE], [HOST_LINE, LENGTH_LINE];
    assert one[1..] == [] && two[1..] == [LENGTH_LINE] && [LENGTH_LINE][1..] == [];
    forall kind ensures Named(one, kind) == if kind == Host then [[]] else [] {
      assert Named([], kind) == [];
    }
    forall kind
      ensures Named(two, kind) == if kind == Host then [[]] else if kind == ContentLength then [[49]] else []
    {
      assert Named([], kind) == [];
      assert Named([LENGTH_LINE], kind) == if kind == ContentLength then [[49]] else [];
    }
  }

  // ---------------------------------------------------------------- the requests

  /** A block with this request line and these field lines. */
  ghost predicate BlockHas(block: Bytes, line: Bytes, lines: seq<Bytes>) {
    && IndexByte(block, LF) == |line| + 1 && block[..|line| + 1] == line + [CR]
    && Terminated(FieldBlock(block)) && FieldLines(FieldBlock(block)) == lines && Harmless(lines)
    && (line == LINE_11 ==> |Named(lines, Host)| == 1)
  }

  /** What the block of a head says. */
  lemma BlockOf(block: Bytes, line: Bytes, lines: seq<Bytes>)
    requires (line == LINE_10 || line == LINE_11) && BlockHas(block, line, lines)
    ensures WellFramed(block, NO_LIMITS) && BodyLength(block) == DeclaredLength(lines)
    ensures HeadPersists(block) == (line == LINE_11)
  {
    LineSplit(line);
    Versions();
    NoneHaveTokens();
    hide IndexByte, IsValidRequestLine, FieldBlock, Admissible, Named, DeclaredLength, SomeHasToken, FieldLines,
      Terminated, RequiresHost, SplitRequestLine, StripCR, LINE_10, LINE_11;
  }

  lemma NoFieldLines()
    ensures Terminated([]) && FieldLines([]) == []
  {
  }

  lemma NoneHaveTokens()
    ensures forall token :: !SomeHasToken([], token)
  {
  }

  /** A head with these parts, which ends at `n`. */
  ghost predicate HeadAt(data: Bytes, line: Bytes, lines: seq<Bytes>, n: nat) {
    BlankPrefix(data) == 0 && IndexTerminator(data) == n && n + 4 <= |data| && BlockHas(data[..n + 2], line, lines)
  }

  lemma Framed(data: Bytes, line: Bytes, lines: seq<Bytes>, n: nat)
    requires (line == LINE_10 || line == LINE_11) && HeadAt(data, line, lines, n)
    ensures Parse(data, NO_LIMITS).Some? <==> n + 4 + DeclaredLength(lines) <= |data|
    ensures Parse(data, NO_LIMITS).Some? ==>
      var p := Parse(data, NO_LIMITS).value;
      p.consumed == n + 4 + DeclaredLength(lines) && p.request.keepAlive == (line == LINE_11)
  {
    hide IndexByte, IndexTerminator, BlankPrefix, Parse, FieldBlock, FieldLines, BlockHas, DeclaredLength,
      BodyLength, HeadPersists, WellFramed, LINE_10, LINE_11;
    assert data[0..] == data;
    ParseExactly(data, NO_LIMITS);
    BlockOf(data[..n + 2], line, lines);
  }

  lemma LastRequestParses()
    ensures Parse(LAST_REQUEST, NO_LIMITS).Some? && Parse(LAST_REQUEST, NO_LIMITS).value.consumed == |LAST_REQUEST|
    ensures !Parse(LAST_REQUEST, NO_LIMITS).value.request.keepAlive
  {
    hide IndexByte, IndexTerminator, BlankPrefix, Parse, FieldBlock, FieldLines, Terminated, Harmless, Named,
      DeclaredLength, Plain, LINE_10, LINE_11, HOST_LINE, LENGTH_LINE;
    LinesArePlain();
    CountsOf();
    NoFieldLines();
    BareParts(LINE_10);
    TwoVersions();
    Framed(LAST_REQUEST, LINE_10, [], |LINE_10|);
  }

  lemma TwoVersions()
    ensures LINE_10 != LINE_11
  {
    assert LINE_10[11] != LINE_11[11];
  }

  lemma PersistentParts(n: nat)
    requires n == |LINE_11| + 2 + |HOST_LINE|
    ensures HeadAt(PERSISTENT, LINE_11, [HOST_LINE], n) && n + 4 == |PERSISTENT|
  {
    hide IndexByte, IndexTerminator, BlankPrefix, FieldBlock, FieldLines, Terminated, Harmless, Named,
      DeclaredLength, Plain, Unbroken, ClassifyLines, IsHead, HeadAt, CRLF, LINE_10, LINE_11, HOST_LINE, LENGTH_LINE,
      TWO_LINES;
    LinesArePlain();
    CountsOf();
    FieldsOf();
    TwoFields();
    HeadOf(PERSISTENT, HOST_LINE);
    HeadIsAt(PERSISTENT, HOST_LINE, [HOST_LINE]);
  }

  lemma PersistentParses()
    ensures Parse(PERSISTENT, NO_LIMITS).Some? && Parse(PERSISTENT, NO_LIMITS).value.consumed == |PERSISTENT|
    ensures Parse(PERSISTENT, NO_LIMITS).value.request.keepAlive
  {
    hide Parse, Harmless, DeclaredLength, HeadAt, LINE_11, HOST_LINE, LENGTH_LINE, PERSISTENT;
    var n := |LINE_11| + 2 + |HOST_LINE|;
    PersistentParts(n);
    CountsOf();
    Framed(PERSISTENT, LINE_11, [HOST_LINE], n);
  }

  lemma BodyHeadParts(n: nat)
    requires n == |LINE_11| + 2 + |TWO_LINES|
    ensures HeadAt(BODY_HEAD, LINE_11, [HOST_LINE, LENGTH_LINE], n) && n + 4 == |BODY_HEAD|
    ensures FieldBlock(BODY_HEAD[..n + 2]) == TWO_LINES
  {
    hide IndexByte, IndexTerminator, BlankPrefix, FieldBlock, FieldLines, Terminated, Harmless, Named,
      DeclaredLength, Plain, Unbroken, ClassifyLines, IsHead, HeadAt, CRLF, LINE_10, LINE_11, HOST_LINE, LENGTH_LINE,
      TWO_LINES;
    LinesArePlain();
    CountsOf();
    FieldsOf();
    TwoFields();
    HeadOf(BODY_HEAD, TWO_LINES);
    HeadIsAt(BODY_HEAD, TWO_LINES, [HOST_LINE, LENGTH_LINE]);
  }

  /** The head asks for its one byte, and with it is a request. */
  lemma BodyHeadWaits()
    ensures Parse(BODY_HEAD, NO_LIMITS).None? && Classify(BODY_HEAD, NO_LIMITS) == Verdict(NeedBody, 1, false)
    ensures 0 <= IndexTerminator(BODY_HEAD) == |BODY_HEAD| - 4 && BlankPrefix(BODY_HEAD) == 0
    ensures Parse(WITH_BODY, NO_LIMITS).Some? && Parse(WITH_BODY, NO_LIMITS).value.consumed == |WITH_BODY|
    ensures Parse(WITH_BODY, NO_LIMITS).value.request.keepAlive
  {
    hide IndexByte, IndexTerminator, BlankPrefix, Parse, FieldBlock, Harmless, DeclaredLength, BlockHas, LINE_11,
      HOST_LINE, LENGTH_LINE, TWO_LINES, BODY_HEAD, Classify;
    var lines := [HOST_LINE, LENGTH_LINE];
    var n := |LINE_11| + 2 + |TWO_LINES|;
    BodyHeadParts(n);
    CountsOf();
    Framed(BODY_HEAD, LINE_11, lines, n);
    BodyHeadVerdict(n);
    assert BODY_HEAD[0..] == BODY_HEAD;
    HeadIsKept(BODY_HEAD, [120]);
    assert WITH_BODY[0..] == WITH_BODY && WITH_BODY[..n + 2] == BODY_HEAD[..n + 2];
    Framed(WITH_BODY, LINE_11, lines, n);
  }

  lemma HeadIsAt(data: Bytes, fields: Bytes, lines: seq<Bytes>)
    requires IsHead(data, LINE_11, fields) && Plain(LINE_11) && Unbroken(fields)
    requires Terminated(fields) && FieldLines(fields) == lines && Harmless(lines) && |Named(lines, Host)| == 1
    ensures HeadAt(data, LINE_11, lines, |LINE_11| + 2 + |fields|) && |data| == |LINE_11| + 6 + |fields|
    ensures FieldBlock(data[..|LINE_11| + 2 + |fields| + 2]) == fields
  {
    hide IndexByte, IndexTerminator, BlankPrefix, FieldBlock, FieldLines, Terminated, Harmless, Named, Plain, Unbroken,
      LINE_11;
    HeadParts(data, LINE_11, fields);
  }

  lemma BodyHeadVerdict(n: nat)
    requires HeadAt(BODY_HEAD, LINE_11, [HOST_LINE, LENGTH_LINE], n) && FieldBlock(BODY_HEAD[..n + 2]) == TWO_LINES
    ensures Classify(BODY_HEAD, NO_LIMITS) == Verdict(NeedBody, 1, false)
  {
    hide IndexByte, IndexTerminator, BlankPrefix, FieldBlock, ClassifyLines, SplitRequestLine, StripCR, RequiresHost,
      IsValidRequestLine, Harmless, FieldLines, Terminated, Named, HOST_LINE, LENGTH_LINE;
    LineSplit(LINE_11);
    Versions();
    LinesVerdict();
    assert BODY_HEAD[0..] == BODY_HEAD;
    ValidVersion(RequestLine([71], [47], LINE_11[4..]));
  }

  lemma ValidVersion(l: RequestLine)
    requires IsValidRequestLine(l)
    ensures IsValidVersion(l.version)
  {
  }

  /** Two empty lines before it. */
  const BEHIND_EMPTY: Bytes := CRLF + CRLF + BODY_HEAD

  /** Behind two empty lines the head asks for its byte, and with it the stream does start with a request; but what has
      been set aside and the body are not one. */
  lemma LostBehindEmptyLines()
    ensures Classify(BEHIND_EMPTY, NO_LIMITS) == Verdict(NeedBody, 1, false)
    ensures Parse(BEHIND_EMPTY + [120], NO_LIMITS).Some?
    ensures IndexTerminator(BEHIND_EMPTY) == 0 && BlankPrefix(BEHIND_EMPTY) == 4
  {
    hide IndexTerminator, BlankPrefix, ParseHead, ClassifyHead;
    BodyHeadWaits();
    assert BODY_HEAD[0..] == BODY_HEAD;
    HeadIsKept(BODY_HEAD, [120]);
    EmptyLines(BODY_HEAD);
    EmptyLines(WITH_BODY);
    assert BEHIND_EMPTY + [120] == CRLF + CRLF + WITH_BODY;
    assert BODY_HEAD[0..] == BODY_HEAD && WITH_BODY[0..] == WITH_BODY;
    assert BEHIND_EMPTY[4..] == BODY_HEAD && (CRLF + CRLF + WITH_BODY)[4..] == WITH_BODY;
  }

  lemma EmptyLines(s: Bytes)
    requires BlankPrefix(s) == 0
    ensures BlankPrefix(CRLF + CRLF + s) == 4 && IndexTerminator(CRLF + CRLF + s) == 0
  {
    var all := CRLF + CRLF + s;
    assert CRLFAt(all, 0) && CRLFAt(all, 2) && TerminatorAt(all, 0);
    IndexTerminatorIsFirst(all, 0);
    assert CRLFAt(all, 4) ==> CRLFAt(s, 0) by {
      assert |s| >= 2 ==> all[4] == s[0] && all[5] == s[1];
    }
    assert BlankFrom(all, 4) == 4 && BlankFrom(all, 2) == 4;
  }

  lemma HeadOf(data: Bytes, fields: Bytes)
    requires data == LINE_11 + CRLF + (fields + CRLF + CRLF)
    ensures IsHead(data, LINE_11, fields)
  {
  }

  lemma TwoFields()
    ensures Unbroken(HOST_LINE) && Unbroken(TWO_LINES)
  {
    var two := TWO_LINES;
    assert forall i :: 0 <= i < |two| && two[i] == CR ==> i == 5;
  }
}
