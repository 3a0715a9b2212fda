/** A request as a client writes it (sections 2 to 6 of RFC 9112), and what the parser makes of it: all of it is read
    back, and a request that is not acceptable is refused. */
module HttpRoundTrip {
  import opened Bytes
  import opened Options
  import opened HttpParser
  import opened HttpFraming
  import opened HttpLexis

  // ---------------------------------------------------------------- writing

  datatype FieldText = FieldText(name: Bytes, text: Bytes)

  datatype Written = Written(method_: Bytes, path: Bytes, query: Option<Bytes>, version: Bytes, fields: seq<FieldText>)

  function TargetOf(w: Written): Bytes {
    w.path + if w.query.Some? then Ascii("?") + w.query.value else []
  }

  function StartLine(w: Written): Bytes {
    w.method_ + Ascii(" ") + (TargetOf(w) + Ascii(" ") + w.version)
  }

  function LineOf(f: FieldText): Bytes {
    f.name + Ascii(":") + f.text
  }

  function LinesOf(fs: seq<FieldText>): seq<Bytes> {
    seq(|fs|, i requires 0 <= i < |fs| => LineOf(fs[i]))
  }

  /** Each line with its line end. */
  function Ended(lines: seq<Bytes>): Bytes {
    if lines == [] then [] else lines[0] + Ascii("\r\n") + Ended(lines[1..])
  }

  function Text(w: Written): Bytes {
    Ended([StartLine(w)] + LinesOf(w.fields)) + Ascii("\r\n")
  }

  /** The parts can be told from each other: no line has an end inside, the first two parts of the request line are
      there and have no space, the path has no question mark, and names no colon. */
  predicate Writable(w: Written) {
    && w.method_ != [] && TargetOf(w) != [] && SP !in w.method_ && SP !in TargetOf(w) && Ascii("?")[0] !in w.path
    && Plain(StartLine(w))
    && forall i :: 0 <= i < |w.fields| ==> Ascii(":")[0] !in w.fields[i].name && Plain(LineOf(w.fields[i]))
  }

  // ---------------------------------------------------------------- reading, said about what was written

  /** The values of the fields of a name, in any case. */
  function Values(fs: seq<FieldText>, name: Bytes): seq<Bytes> {
    if fs == [] then []
    else (if SameLetters(fs[0].name, name) then [Trim(fs[0].text)] else []) + Values(fs[1..], name)
  }

  ghost predicate Unknown(name: Bytes) {
    forall kind: Field :: kind != OtherField ==> !SameLetters(name, NameOf(kind))
  }

  ghost function Extras(fs: seq<FieldText>): seq<(Bytes, Bytes)> {
    if fs == [] then []
    else (if Unknown(fs[0].name) then [(Lower(fs[0].name), Trim(fs[0].text))] else []) + Extras(fs[1..])
  }

  predicate GoodField(f: FieldText, lim: Limits) {
    && IsToken(f.name) && !HasInvalidValueByte(Trim(f.text))
    && (lim.maxHeaderSize > 0 ==> |LineOf(f)| <= lim.maxHeaderSize)
    && (SameLetters(f.name, Ascii("content-length")) ==> AllDigits(Trim(f.text)))
    && (SameLetters(f.name, Ascii("host")) ==> IsValidHost(Trim(f.text)))
  }

  function LengthIn(fs: seq<FieldText>): nat {
    var ls := Values(fs, Ascii("content-length"));
    if ls == [] then 0 else LengthOf(Last(ls, []))
  }

  predicate Acceptable(w: Written, lim: Limits) {
    var fs, hosts := w.fields, |Values(w.fields, Ascii("host"))|;
    && IsToken(w.method_) && IsValidVersion(w.version) && (Ascii("/") <= TargetOf(w) || TargetOf(w) == Ascii("*"))
    && (forall i :: 0 <= i < |fs| ==> GoodField(fs[i], lim))
    && (lim.maxHeaderCount > 0 ==> |fs| <= lim.maxHeaderCount)
    && |Values(fs, Ascii("content-length"))| <= 1 && Values(fs, Ascii("transfer-encoding")) == []
    && (if RequiresHost(w.version) then hosts == 1 else hosts <= 1)
    && LengthIn(fs) <= MAX_CONTENT_LENGTH && (lim.bodyLimit > 0 ==> LengthIn(fs) <= lim.bodyLimit)
  }

  ghost predicate Stays(w: Written) {
    var connection := Values(w.fields, Ascii("connection"));
    && !SomeHasToken(connection, Ascii("close"))
    && (RequiresHost(w.version) || (IsHTTP10(w.version) && SomeHasToken(connection, Ascii("keep-alive"))))
  }

  /** The request that was meant. */
  ghost function RequestOf(w: Written, body: Bytes): Request {
    var fs := w.fields;
    Request(w.method_, w.path, if w.query.Some? then w.query.value else [], body, Stays(w),
            Last(Values(fs, Ascii("content-type")), []), Last(Values(fs, Ascii("cookie")), []),
            Last(Values(fs, Ascii("host")), []), Last(Values(fs, Ascii("accept")), []),
            First(Values(fs, Ascii("connection")), []), First(Values(fs, Ascii("x-forwarded-for")), []),
            First(Values(fs, Ascii("x-real-ip")), []), Extras(fs))
  }

  // ---------------------------------------------------------------- where the lines are

  /** The lines with a line end between any two. */
  function Joined(lines: seq<Bytes>): Bytes {
    if lines == [] then [] else if |lines| == 1 then lines[0] else lines[0] + [CR, LF] + Joined(lines[1..])
  }

  predicate AllPlain(lines: seq<Bytes>) {
    forall i :: 0 <= i < |lines| ==> Plain(lines[i])
  }

  lemma EndedStep(lines: seq<Bytes>)
    requires lines != []
    ensures Ended(lines) == lines[0] + [CR, LF] + Ended(lines[1..])
  {
    Ends();
  }

  lemma {:induction false} EndedIsJoined(lines: seq<Bytes>)
    requires lines != []
    ensures Ended(lines) == Joined(lines) + [CR, LF]
  {
    hide Ended;
    EndedStep(lines);
    if |lines| == 1 {
      assert Ended(lines[1..]) == [] by { EndedNothing(lines[1..]); }
    } else {
      EndedIsJoined(lines[1..]);
    }
  }

  lemma EndedNothing(lines: seq<Bytes>)
    requires lines == []
    ensures Ended(lines) == []
  {
  }

  lemma LineFirst(line: Bytes, rest: Bytes)
    requires Plain(line)
    ensures var s := line + [CR, LF] + rest;
      IndexByte(s, LF) == |line| + 1 && s[..|line|] == line && s[|line|] == CR && s[|line| + 2..] == rest
  {
    var s := line + [CR, LF] + rest;
    assert forall k :: 0 <= k < |line| ==> s[k] == line[k];
    IndexByteUnique(s, LF, |line| + 1);
  }

  lemma {:induction false} JoinedLines(lines: seq<Bytes>)
    requires AllPlain(lines)
    ensures Terminated(Joined(lines)) && FieldLines(Joined(lines)) == lines
  {
    hide IndexByte, Plain;
    if |lines| == 1 {
      assert Plain(lines[0]);
      OneLine(lines[0]);
    } else if |lines| > 1 {
      assert Plain(lines[0]);
      var rest := lines[1..];
      assert forall i :: 0 <= i < |rest| ==> rest[i] == lines[i + 1];
      JoinedLines(rest);
      LineFirst(lines[0], Joined(rest));
    }
  }

  lemma OneLine(line: Bytes)
    requires Plain(line)
    ensures Terminated(line) && FieldLines(line) == [line]
  {
    IndexByteIsFirst(line, LF);
  }

  /** The empty line is the first one. */
  lemma {:induction false} EndOfHead(lines: seq<Bytes>, rest: Bytes)
    requires lines != [] && AllPlain(lines)
    ensures IndexTerminator(Ended(lines) + [CR, LF] + rest) == |Ended(lines)| - 2
    ensures |Ended(lines)| >= 3
    decreases |lines|
  {
    hide IndexTerminator, Ended;
    EndedStep(lines);
    var l, ls := lines[0], lines[1..];
    assert Plain(l);
    var s, t := Ended(lines) + [CR, LF] + rest, Ended(ls) + [CR, LF] + rest;
    assert s == l + [CR, LF] + t;
    if ls == [] {
      EndedNothing(ls);
      FirstEnd(l, t);
    } else {
      assert forall i :: 0 <= i < |ls| ==> ls[i] == lines[i + 1];
      EndOfHead(ls, rest);
      EndedStep(ls);
      assert Plain(ls[0]);
      LaterEnd(l, t);
    }
  }

  lemma FirstEnd(line: Bytes, t: Bytes)
    requires Plain(line) && CRLFAt(t, 0)
    ensures IndexTerminator(line + [CR, LF] + t) == |line|
  {
    hide IndexTerminator;
    var s := line + [CR, LF] + t;
    assert s[|line| + 2..] == t;
    IndexTerminatorIsFirst(s, |line|);
    assert forall k :: 0 <= k < |line| ==> s[k] == line[k];
  }

  lemma LaterEnd(line: Bytes, t: Bytes)
    requires Plain(line) && t != [] && IndexTerminator(t) >= 0 && t[0] != CR
    ensures IndexTerminator(line + [CR, LF] + t) == |line| + 2 + IndexTerminator(t)
  {
    hide IndexTerminator, TerminatorAt;
    var s, n := line + [CR, LF] + t, |line| + 2;
    EndShifts(line, t, n + IndexTerminator(t));
    IndexTerminatorIsFirst(s, n + IndexTerminator(t));
    var i := IndexTerminator(s);
    EndShifts(line, t, i);
    IndexTerminatorIsFirst(t, i - n);
  }

  lemma EndShifts(line: Bytes, t: Bytes, i: nat)
    requires Plain(line) && t != [] && t[0] != CR
    ensures TerminatorAt(line + [CR, LF] + t, i) <==> i >= |line| + 2 && TerminatorAt(t, i - |line| - 2)
  {
    var s, n := line + [CR, LF] + t, |line| + 2;
    if i < |line| {
      assert s[i] == line[i];
    } else if i >= n {
      assert s[n..] == t;
    } else {
      assert s[n] == t[0];
    }
  }

  /** A block with the lines of a written request. */
  ghost predicate BlockOf(w: Written, block: Bytes) {
    && IndexByte(block, LF) >= 0 && StripCR(block[..IndexByte(block, LF)]) == StartLine(w)
    && Terminated(FieldBlock(block)) && FieldLines(FieldBlock(block)) == LinesOf(w.fields)
  }

  /** The parts of a written head. */
  ghost predicate HeadParts(w: Written, rest: Bytes) {
    var data, n := Text(w) + rest, |Text(w)|;
    && n >= 4 && BlankPrefix(data) == 0 && IndexTerminator(data) == n - 4 && data[..n - 2] == Text(w)[..n - 2]
    && data[n..] == rest
    && BlockOf(w, data[..n - 2])
  }

  lemma HasParts(w: Written, rest: Bytes)
    requires Writable(w)
    ensures HeadParts(w, rest)
  {
    hide IndexByte, IndexTerminator, BlankPrefix, FieldBlock, FieldLines, Terminated, Ended, Joined, StartLine,
      LineOf, StripCR, Ascii, TargetOf;
    var lines := [StartLine(w)] + LinesOf(w.fields);
    assert AllPlain(lines);
    Ends();
    var data, block := Text(w) + rest, Ended(lines);
    assert data == block + [CR, LF] + rest;
    EndOfHead(lines, rest);
    EndedStep(lines);
    var l, ls := lines[0], lines[1..];
    assert ls == LinesOf(w.fields);
    assert data[0] == l[0];
    NotBlank(data, l);
    BlockLines(l, ls);
    assert data[..|block|] == block && Text(w)[..|block|] == block;
  }

  lemma NotBlank(data: Bytes, line: Bytes)
    requires Plain(line) && data != [] && data[0] == line[0]
    ensures BlankPrefix(data) == 0
  {
  }

  lemma OneEnd(l: Bytes)
    ensures FieldLines([]) == [] && Terminated([])
    ensures IndexByte(l + [CR, LF], LF) == |l| + 1 ==> FieldBlock(l + [CR, LF]) == []
  {
  }

  lemma BlockLines(l: Bytes, ls: seq<Bytes>)
    requires Plain(l) && AllPlain(ls)
    ensures var block := l + [CR, LF] + Ended(ls);
      && IndexByte(block, LF) >= 0 && StripCR(block[..IndexByte(block, LF)]) == l
      && Terminated(FieldBlock(block)) && FieldLines(FieldBlock(block)) == ls
  {
    hide IndexByte, FieldLines, Terminated, Ended, Joined;
    var block := l + [CR, LF] + Ended(ls);
    LineFirst(l, Ended(ls));
    assert block[..|l| + 1] == l + [CR] && (l + [CR])[..|l|] == l;
    JoinedLines(ls);
    if ls == [] {
      EndedNothing(ls);
      OneEnd(l);
    } else {
      EndedIsJoined(ls);
      assert block[|l| + 2..|block| - 2] == Joined(ls);
    }
  }

  // ---------------------------------------------------------------- what the lines say

  lemma LineParts(f: FieldText)
    requires Ascii(":")[0] !in f.name
    ensures Name(LineOf(f)) == f.name && Value(LineOf(f)) == Trim(f.text)
    ensures IndexByte(LineOf(f), 58) == |f.name|
  {
    hide IndexByte, Trim;
    FieldLineExactly(f.name, f.text);
    TrimExactly(f.text, Value(LineOf(f)));
    assert Ascii(":") == [58];
    IndexIs(LineOf(f), 58, f.name, f.text);
  }

  lemma KindParts(name: Bytes, kind: Field)
    requires kind != OtherField
    ensures KnownHeader(name) == kind <==> SameLetters(name, NameOf(kind))
    ensures KnownHeader(name) == OtherField <==> Unknown(name)
  {
    hide KnownHeader, NameOf, SameLetters;
    forall k: Field | k != OtherField ensures KnownHeader(name) == k <==> SameLetters(name, NameOf(k)) {
      KnownHeaderExactly(name, k);
    }
    if KnownHeader(name) != OtherField {
      assert SameLetters(name, NameOf(KnownHeader(name)));
    }
  }

  lemma GoodParts(f: FieldText, lim: Limits)
    requires Ascii(":")[0] !in f.name
    ensures GoodLine(LineOf(f), lim) <==> GoodField(f, lim)
  {
    hide IndexByte, Trim, KnownHeader, SameLetters, Ascii, LineOf, Name, Value, AllDigits, IsValidHost,
      HasInvalidValueByte;
    LineParts(f);
    KindParts(f.name, ContentLength);
    KindParts(f.name, Host);
  }

  predicate NoColons(fs: seq<FieldText>) {
    forall i :: 0 <= i < |fs| ==> Ascii(":")[0] !in fs[i].name
  }

  lemma {:induction false} NamedIsValues(fs: seq<FieldText>, kind: Field)
    requires NoColons(fs) && kind != OtherField
    ensures Named(LinesOf(fs), kind) == Values(fs, NameOf(kind))
    ensures Others(LinesOf(fs)) == Extras(fs)
  {
    hide KnownHeader, Name, Value, Trim, SameLetters, LineOf, Unknown, NameOf, Ascii, Lower;
    if fs != [] {
      assert LinesOf(fs)[1..] == LinesOf(fs[1..]);
      LineParts(fs[0]);
      KindParts(fs[0].name, kind);
      NamedIsValues(fs[1..], kind);
    }
  }

  lemma GoodLines(fs: seq<FieldText>, lim: Limits)
    requires NoColons(fs)
    ensures (forall i :: 0 <= i < |fs| ==> GoodLine(LinesOf(fs)[i], lim))
       <==> (forall i :: 0 <= i < |fs| ==> GoodField(fs[i], lim))
  {
    hide GoodLine, GoodField, LineOf, Ascii;
    forall i | 0 <= i < |fs| ensures GoodLine(LinesOf(fs)[i], lim) <==> GoodField(fs[i], lim) {
      GoodParts(fs[i], lim);
    }
  }

  lemma StartParts(w: Written)
    requires Writable(w)
    ensures SplitRequestLine(StartLine(w)) == Some(RequestLine(w.method_, TargetOf(w), w.version))
    ensures TargetPath(TargetOf(w)) == w.path
    ensures TargetQuery(TargetOf(w)) == if w.query.Some? then w.query.value else []
  {
    hide SplitRequestLine, IndexByte, Plain, LineOf;
    Ends();
    RequestLineExactly(StartLine(w), RequestLine(w.method_, TargetOf(w), w.version));
    TargetParts(w);
  }

  lemma TargetParts(w: Written)
    requires Ascii("?")[0] !in w.path
    ensures TargetPath(TargetOf(w)) == w.path
    ensures TargetQuery(TargetOf(w)) == if w.query.Some? then w.query.value else []
  {
    hide IndexByte;
    Ends();
    if w.query.Some? {
      IndexIs(TargetOf(w), 63, w.path, w.query.value);
    } else {
      IndexByteIsFirst(w.path, 63);
    }
  }

  // ---------------------------------------------------------------- main results

  ghost predicate SaysAsWritten(fs: seq<FieldText>) {
    && (forall kind: Field :: kind != OtherField ==> Named(LinesOf(fs), kind) == Values(fs, NameOf(kind)))
    && Others(LinesOf(fs)) == Extras(fs)
  }

  lemma LinesSay(fs: seq<FieldText>)
    requires NoColons(fs)
    ensures SaysAsWritten(fs)
  {
    hide Named, Others, Values, Extras, NameOf;
    forall kind: Field | kind != OtherField ensures Named(LinesOf(fs), kind) == Values(fs, NameOf(kind)) {
      NamedIsValues(fs, kind);
    }
    NamedIsValues(fs, Host);
  }

  lemma KindsSay(fs: seq<FieldText>)
    requires SaysAsWritten(fs)
    ensures var ls := LinesOf(fs);
      && Named(ls, ContentLength) == Values(fs, Ascii("content-length")) && Named(ls, Host) == Values(fs, Ascii("host"))
      && Named(ls, TransferEncoding) == Values(fs, Ascii("transfer-encoding"))
      && Named(ls, Connection) == Values(fs, Ascii("connection"))
      && Named(ls, ContentType) == Values(fs, Ascii("content-type"))
      && Named(ls, Cookie) == Values(fs, Ascii("cookie")) && Named(ls, Accept) == Values(fs, Ascii("accept"))
      && Named(ls, ForwardedFor) == Values(fs, Ascii("x-forwarded-for"))
      && Named(ls, RealIP) == Values(fs, Ascii("x-real-ip"))
  {
    hide Named, Values, Ascii, LinesOf;
  }

  lemma OthersSay(fs: seq<FieldText>)
    requires SaysAsWritten(fs)
    ensures Others(LinesOf(fs)) == Extras(fs)
  {
  }

  lemma AdmissibleAsWritten(fs: seq<FieldText>, lim: Limits)
    requires NoColons(fs) && SaysAsWritten(fs)
    ensures Admissible(LinesOf(fs), NO_FIELDS, lim)
      <==> (forall i :: 0 <= i < |fs| ==> GoodField(fs[i], lim))
           && (lim.maxHeaderCount > 0 ==> |fs| <= lim.maxHeaderCount)
           && |Values(fs, Ascii("content-length"))| <= 1 && |Values(fs, Ascii("host"))| <= 1
    ensures DeclaredLength(LinesOf(fs)) == LengthIn(fs)
  {
    hide Named, Values, LineOf, SaysAsWritten, GoodLine, GoodField, LengthOf, Ascii, NoColons;
    KindsSay(fs);
    GoodLines(fs, lim);
    assert fs == [] <==> LinesOf(fs) == [];
  }

  lemma FramedAsWritten(w: Written, block: Bytes, lim: Limits)
    requires Writable(w) && BlockOf(w, block) && SaysAsWritten(w.fields) && NoColons(w.fields)
    ensures WellFramed(block, lim) <==> Acceptable(w, lim)
    ensures BodyLength(block) == LengthIn(w.fields)
  {
    hide IndexByte, StripCR, StartLine, FieldBlock, Terminated, FieldLines, Named, Values, LinesOf, SaysAsWritten,
      SplitRequestLine, IsValidRequestLine, GoodField, LengthIn, DeclaredLength, RequiresHost, IsValidVersion,
      IsToken, Writable, TargetOf, Ascii, NoColons, Admissible;
    StartParts(w);
    RequestLineGood(RequestLine(w.method_, TargetOf(w), w.version));
    KindsSay(w.fields);
    AdmissibleAsWritten(w.fields, lim);
  }

  lemma ReadAsWritten(w: Written, block: Bytes, lim: Limits)
    requires Writable(w) && BlockOf(w, block) && SaysAsWritten(w.fields) && WellFramed(block, lim)
    ensures ParseHead(block, lim) == Some(Head(RequestOf(w, []), LengthIn(w.fields)))
  {
    hide IndexByte, StripCR, StartLine, FieldBlock, Terminated, FieldLines, Named, Others, Values, Extras, LineOf,
      SplitRequestLine, IsValidRequestLine, ParseHead, SomeHasToken, LengthOf, RequiresHost, IsHTTP10, Writable,
      TargetOf, Ascii, Admissible, WellFramed, Stays, Target, Spaced, Persists, SaysAsWritten, LinesOf;
    HeadExactly(block, lim);
    KindsSay(w.fields);
    assert Others(LinesOf(w.fields)) == Extras(w.fields) by { OthersSay(w.fields); }
    PartsAsWritten(w, block, lim);
    PersistsAsWritten(w, block);
  }

  lemma PersistsAsWritten(w: Written, block: Bytes)
    requires BlockOf(w, block) && SaysAsWritten(w.fields)
    ensures Persists(w.version, FieldLines(FieldBlock(block))) <==> Stays(w)
  {
    hide IndexByte, StripCR, StartLine, FieldBlock, Terminated, FieldLines, Named, Others, Values, Extras, LineOf,
      SomeHasToken, RequiresHost, IsHTTP10, Ascii;
    ShortWords();
    assert Named(LinesOf(w.fields), Connection) == Values(w.fields, Ascii("connection"));
  }

  lemma PartsAsWritten(w: Written, block: Bytes, lim: Limits)
    requires Writable(w) && BlockOf(w, block) && ParseHead(block, lim).Some?
    ensures SplitRequestLine(StripCR(block[..IndexByte(block, LF)])).Some?
    ensures SplitRequestLine(StripCR(block[..IndexByte(block, LF)])).value.version == w.version
    ensures var r := ParseHead(block, lim).value.request;
      && r.method_ == w.method_ && r.path == w.path && r.body == []
      && r.query == if w.query.Some? then w.query.value else []
  {
    hide IndexByte, StripCR, StartLine, FieldBlock, Terminated, FieldLines, SplitRequestLine, IsValidRequestLine,
      RequiresHost, IsHTTP10, Writable, TargetOf, TargetPath, TargetQuery, FoldFields;
    StartParts(w);
  }

  /** The head of a written request: accepted exactly if it is acceptable, and then read as it was meant. */
  lemma HeadReadsBack(w: Written, block: Bytes, lim: Limits)
    requires Writable(w) && BlockOf(w, block)
    ensures ParseHead(block, lim)
         == if Acceptable(w, lim) then Some(Head(RequestOf(w, []), LengthIn(w.fields))) else None
  {
    hide BlockOf, SaysAsWritten, WellFramed, Acceptable, ParseHead, LengthIn, RequestOf;
    assert NoColons(w.fields);
    LinesSay(w.fields);
    FramedAsWritten(w, block, lim);
    HeadIs(block, lim);
    if WellFramed(block, lim) {
      ReadAsWritten(w, block, lim);
    }
  }

  /** What a client has written reads back: whatever follows it, the parser takes the head and the body it declares, and
      all parts of the request are those that were written; or the request is not acceptable, or its body not there. */
  lemma ReadsBack(w: Written, rest: Bytes, lim: Limits)
    requires Writable(w)
    ensures var n := LengthIn(w.fields);
      Parse(Text(w) + rest, lim)
      == if Acceptable(w, lim) && n <= |rest| then Some(Parsed(RequestOf(w, rest[..n]), |Text(w)| + n)) else None
  {
    hide IndexByte, IndexTerminator, BlankPrefix, StripCR, StartLine, FieldBlock, Terminated, FieldLines, LinesOf,
      Values, Extras, ParseHead, Writable, TargetOf, Acceptable, Stays, LengthIn, Text;
    HasParts(w, rest);
    var data, n := Text(w) + rest, |Text(w)|;
    HeadReadsBack(w, data[..n - 2], lim);
    assert data[0..] == data;
    var k := LengthIn(w.fields);
    if k <= |rest| {
      assert data[n..n + k] == rest[..k];
    }
  }
}
