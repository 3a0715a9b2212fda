/** The parser and the classifier read the same bytes independently. This module proves that they agree on
    what more input can change. */
module HttpVerdicts {
  import opened Bytes
  import opened Options
  import opened HttpParser
  import opened HttpClassifier
  import opened HttpPipelining

  /** The two readers have seen the same framing so far. */
  ghost predicate Agree(f: Fields, seen: Seen) {
    && seen.hasTE == f.transferEncoding
    && seen.hasCL == f.contentLengthSeen
    && seen.hostSeen == f.hostSeen
    && f.contentLength == Saturate(seen.cl)
    && (!f.contentLengthSeen ==> f.contentLength == 0)
  }

  /** A field name followed at once by the colon is already trimmed when the line starts with it. */
  lemma NameIsTrimmed(line: Bytes, colon: nat)
    requires 0 < colon < |line| && !IsBlank(line[0]) && !IsBlank(line[colon - 1])
    ensures Trim(line[..colon]) == line[..colon]
  {
    TrimIdentity(line[..colon]);
  }

  lemma EmptyNameRejected(f: Fields, line: Bytes, lim: Limits)
    requires IndexByte(line, 58) == 0
    ensures ApplyField(line, f, lim).None?
  {
    assert line[..0] == [];
    TrimIdentity(line[..0]);
    assert KnownHeader([]) == OtherField;
  }

  lemma AtoiOfDigits(s: Bytes)
    requires AllDigits(s) && Decimal(s) <= MAX_CONTENT_LENGTH
    ensures Atoi(s) == Some(Decimal(s))
  {
  }

  lemma ApplyFieldParts(line: Bytes, f: Fields, lim: Limits)
    requires ApplyField(line, f, lim).Some?
    ensures var colon := IndexByte(line, 58);
      && colon > 0 && !IsBlank(line[0]) && !IsBlank(line[colon - 1])
      && Trim(line[..colon]) == line[..colon]
      && !(lim.maxHeaderSize > 0 && |line| > lim.maxHeaderSize)
      && !HasInvalidValueByte(Trim(line[colon + 1..]))
      && Some(ApplyField(line, f, lim).value)
         == Store(KnownHeader(line[..colon]), line[..colon], Trim(line[colon + 1..]), f.(count := f.count + 1))
  {
    hide Store, KnownHeader, Trim, IndexByte;
    var colon := IndexByte(line, 58);
    if colon == 0 {
      EmptyNameRejected(f, line, lim);
    } else {
      NameIsTrimmed(line, colon);
    }
  }

  /** What recording a field does to the message framing. */
  lemma StoreFraming(kind: Field, name: Bytes, val: Bytes, f: Fields)
    requires Store(kind, name, val, f).Some?
    ensures var g := Store(kind, name, val, f).value;
      && g.transferEncoding == (f.transferEncoding || kind == TransferEncoding)
      && g.contentLengthSeen == (f.contentLengthSeen || kind == ContentLength)
      && g.hostSeen == (f.hostSeen || kind == Host)
      && (kind == ContentLength ==>
            !f.contentLengthSeen && AllDigits(val) && g.contentLength == Saturate(Decimal(val)))
      && (kind != ContentLength ==> g.contentLength == f.contentLength)
      && (kind == Host ==> !f.hostSeen && IsValidHost(val))
      && g.count == f.count
  {
    hide IsValidHost, HasListToken, AllDigits, Decimal;
  }

  /** What the classifier makes of a field whose name has been recognised. */
  ghost predicate ReadsAs(kind: Field, val: Bytes, seen: Seen, r: Outcome) {
    match kind
    case ContentLength =>
      !seen.hasCL && Atoi(val).Some? && Atoi(val).value >= 0 ==> r == Go(seen.(hasCL := true, cl := Atoi(val).value))
    case TransferEncoding => r == Go(seen.(hasTE := true))
    case Host => !seen.hostSeen && IsValidHost(val) ==> r == Go(seen.(hostSeen := true))
    case _ => r.Go? && r.seen == seen.(expectContinue := r.seen.expectContinue)
  }

  lemma LineClassified(line: Bytes, seen: Seen, lim: Limits)
    requires var colon := IndexByte(line, 58);
      && colon > 0 && !IsBlank(line[0]) && !IsBlank(line[colon - 1])
      && Trim(line[..colon]) == line[..colon] && !(lim.maxHeaderSize > 0 && |line| > lim.maxHeaderSize)
      && !HasInvalidValueByte(Trim(line[colon + 1..]))
    ensures var colon := IndexByte(line, 58);
      ReadsAs(KnownHeader(line[..colon]), Trim(line[colon + 1..]), seen, ClassifyLine(line, seen, lim))
  {
    hide IndexByte, KnownHeader, Trim, HasInvalidValueByte, IsValidHost, EqualFold, Atoi, IsBlank;
  }

  lemma FieldAgrees(kind: Field, name: Bytes, val: Bytes, f: Fields, seen: Seen, r: Outcome)
    requires Agree(f, seen) && ReadsAs(kind, val, seen, r) && Store(kind, name, val, f).Some?
    requires Store(kind, name, val, f).value.contentLength <= MAX_CONTENT_LENGTH
    ensures r.Go? && Agree(Store(kind, name, val, f).value, r.seen)
  {
    StoreFraming(kind, name, val, f);
    hide Store, IsValidHost, Atoi, AllDigits, Decimal;
    if kind == ContentLength {
      AtoiOfDigits(val);
    }
  }

  lemma LineAgrees(line: Bytes, f: Fields, seen: Seen, lim: Limits)
    requires Agree(f, seen) && ApplyField(line, f, lim).Some?
    requires ApplyField(line, f, lim).value.contentLength <= MAX_CONTENT_LENGTH
    ensures ClassifyLine(line, seen, lim).Go?
    ensures Agree(ApplyField(line, f, lim).value, ClassifyLine(line, seen, lim).seen)
  {
    hide KnownHeader, Trim, IndexByte, ApplyField, Store, HasInvalidValueByte, ClassifyLine, ReadsAs;
    ApplyFieldParts(line, f, lim);
    LineClassified(line, seen, lim);
    var colon := IndexByte(line, 58);
    FieldAgrees(KnownHeader(line[..colon]), line[..colon], Trim(line[colon + 1..]), f.(count := f.count + 1), seen,
      ClassifyLine(line, seen, lim));
  }

  /** A Content-Length that has been recorded is never replaced. */
  lemma {:induction false} ContentLengthIsKept(s: Bytes, f: Fields, lim: Limits)
    requires FoldFields(s, f, lim).Some?
    ensures f.contentLengthSeen ==> FoldFields(s, f, lim).value.contentLength == f.contentLength
    decreases |s|
  {
    hide IndexByte, ApplyField;
    if s != [] {
      var nl := IndexByte(s, LF);
      if nl < 0 {
        StoredLengthIsKept(s, f, lim);
      } else {
        StoredLengthIsKept(s[..nl - 1], f, lim);
        ContentLengthIsKept(s[nl + 1..], ApplyField(s[..nl - 1], f, lim).value, lim);
      }
    }
  }

  lemma StoredLengthIsKept(line: Bytes, f: Fields, lim: Limits)
    requires ApplyField(line, f, lim).Some?
    ensures var g := ApplyField(line, f, lim).value;
      && (f.contentLengthSeen ==> g.contentLengthSeen && g.contentLength == f.contentLength)
      && (!f.contentLengthSeen && !g.contentLengthSeen ==> g.contentLength == f.contentLength)
  {
    ApplyFieldParts(line, f, lim);
    hide ApplyField, KnownHeader, Trim, IndexByte, Store;
    var colon := IndexByte(line, 58);
    StoreFraming(KnownHeader(line[..colon]), line[..colon], Trim(line[colon + 1..]), f.(count := f.count + 1));
  }

  lemma {:induction false} LinesAgree(s: Bytes, f: Fields, seen: Seen, lim: Limits)
    requires Agree(f, seen) && FoldFields(s, f, lim).Some?
    requires FoldFields(s, f, lim).value.contentLength <= MAX_CONTENT_LENGTH
    ensures ClassifyLines(s, seen, lim).Go?
    ensures Agree(FoldFields(s, f, lim).value, ClassifyLines(s, seen, lim).seen)
    decreases |s|
  {
    hide IndexByte, ApplyField, ClassifyLine;
    if s != [] {
      var nl := IndexByte(s, LF);
      if nl < 0 {
        LineAgrees(s, f, seen, lim);
      } else {
        var line := s[..nl - 1];
        assert StripCR(s[..nl]) == line;
        var g := ApplyField(line, f, lim).value;
        StoredLengthIsKept(line, f, lim);
        ContentLengthIsKept(s[nl + 1..], g, lim);
        LineAgrees(line, f, seen, lim);
        LinesAgree(s[nl + 1..], g, ClassifyLine(line, seen, lim).seen, lim);
      }
    }
  }

  /** A head that the parser accepts gets the verdict NeedBody exactly when it announces a body, with its length. */
  lemma HeadAgrees(block: Bytes, lim: Limits)
    requires ParseHead(block, lim).Some?
    ensures ClassifyHead(block, lim).status == NeedBody <==> ParseHead(block, lim).value.contentLength > 0
    ensures ClassifyHead(block, lim).status == NeedBody ==>
              ClassifyHead(block, lim).need == ParseHead(block, lim).value.contentLength
  {
    hide IndexByte, FieldBlock, FoldFields, ClassifyLines, StripCR;
    assert IndexByte(block, LF) > 0 by {
      if IndexByte(block, LF) == 0 {
        NoRequestLine(block, lim);
      }
    }
    LinesAgree(FieldBlock(block), NO_FIELDS, NOTHING_SEEN, lim);
  }

  lemma NoRequestLine(block: Bytes, lim: Limits)
    requires IndexByte(block, LF) == 0
    ensures ParseHead(block, lim).None?
  {
    assert block[..0] == [];
  }

  // ---------------------------------------------------------------- what only the parser checks

  /** The checks on one field line that the classifier does not repeat. */
  predicate StrictLine(line: Bytes) {
    var colon := IndexByte(line, 58);
    && colon > 0
    && IsToken(line[..colon])
    && (KnownHeader(line[..colon]) == ContentLength ==> AllDigits(Trim(line[colon + 1..])))
  }

  /** The same for all the lines: also CR before every LF, and the limit on their number. */
  predicate StrictLines(s: Bytes, count: nat, lim: Limits)
    decreases |s|
  {
    s == [] ||
    var nl := IndexByte(s, LF);
    && (lim.maxHeaderCount > 0 ==> count + 1 <= lim.maxHeaderCount)
    && (if nl < 0 then StrictLine(s)
        else nl > 0 && s[nl - 1] == CR && StrictLine(s[..nl - 1]) && StrictLines(s[nl + 1..], count + 1, lim))
  }

  predicate StrictHead(block: Bytes, lim: Limits) {
    var lineEnd := IndexByte(block, LF);
    && lineEnd >= 0
    && var l := SplitRequestLine(StripCR(block[..lineEnd]));
    && l.Some?
    && IsToken(l.value.method_)
    && l.value.target != [] && (l.value.target[0] == 47 || l.value.target == [42])
    && StrictLines(FieldBlock(block), 0, lim)
  }

  lemma FoldsToToken(k: Bytes, name: Bytes)
    requires EqualFold(k, name) && k != []
    requires forall i :: 0 <= i < |name| ==> 97 <= name[i] <= 122 || name[i] == 45
    ensures IsToken(k)
  {
    forall i | 0 <= i < |k| ensures IsTokenByte(k[i]) {
      assert LowerByte(k[i]) == LowerByte(name[i]);
    }
  }

  lemma KnownIsToken(k: Bytes)
    requires KnownHeader(k) != OtherField
    ensures IsToken(k)
  {
    hide IsToken;
    if EqualFold(k, HOST) { FoldsToToken(k, HOST); }
    else if EqualFold(k, COOKIE) { FoldsToToken(k, COOKIE); }
    else if EqualFold(k, ACCEPT) { FoldsToToken(k, ACCEPT); }
    else if EqualFold(k, X_REAL_IP) { FoldsToToken(k, X_REAL_IP); }
    else if EqualFold(k, X_FORWARDED_FOR) { FoldsToToken(k, X_FORWARDED_FOR); }
    else if EqualFold(k, CONNECTION) { FoldsToToken(k, CONNECTION); }
    else if EqualFold(k, CONTENT_TYPE) { FoldsToToken(k, CONTENT_TYPE); }
    else if EqualFold(k, CONTENT_LENGTH) { FoldsToToken(k, CONTENT_LENGTH); }
    else { FoldsToToken(k, TRANSFER_ENCODING); }
  }

  lemma LineIsStrict(line: Bytes, f: Fields, lim: Limits)
    requires ApplyField(line, f, lim).Some?
    ensures StrictLine(line)
    ensures lim.maxHeaderCount > 0 ==> f.count + 1 <= lim.maxHeaderCount
    ensures ApplyField(line, f, lim).value.count == f.count + 1
  {
    ApplyFieldParts(line, f, lim);
    hide KnownHeader, Trim, IndexByte, Store, HasInvalidValueByte, IsToken, AllDigits, Decimal;
    var key := line[..IndexByte(line, 58)];
    var val := Trim(line[IndexByte(line, 58) + 1..]);
    StoreFraming(KnownHeader(key), key, val, f.(count := f.count + 1));
    if KnownHeader(key) != OtherField {
      KnownIsToken(key);
    }
  }

  lemma {:induction false} LinesAreStrict(s: Bytes, f: Fields, lim: Limits)
    requires FoldFields(s, f, lim).Some?
    ensures StrictLines(s, f.count, lim)
    decreases |s|
  {
    hide IndexByte, ApplyField, StrictLine;
    if s != [] {
      var nl := IndexByte(s, LF);
      if nl < 0 {
        LineIsStrict(s, f, lim);
      } else {
        LineIsStrict(s[..nl - 1], f, lim);
        LinesAreStrict(s[nl + 1..], ApplyField(s[..nl - 1], f, lim).value, lim);
      }
    }
  }

  /** A line that the classifier passes and that is strict is accepted by the parser. */
  lemma StrictLineAccepted(line: Bytes, f: Fields, seen: Seen, lim: Limits)
    requires Agree(f, seen) && ClassifyLine(line, seen, lim).Go? && StrictLine(line)
    requires lim.maxHeaderCount > 0 ==> f.count + 1 <= lim.maxHeaderCount
    ensures ApplyField(line, f, lim).Some?
    ensures Agree(ApplyField(line, f, lim).value, ClassifyLine(line, seen, lim).seen)
    ensures ApplyField(line, f, lim).value.count == f.count + 1
  {
    hide KnownHeader, Trim, IndexByte, Store, HasInvalidValueByte, IsValidHost, EqualFold, Atoi, AllDigits, Decimal,
      IsToken;
    var colon := IndexByte(line, 58);
    NameIsTrimmed(line, colon);
    var key, val := line[..colon], Trim(line[colon + 1..]);
    StoreDefined(KnownHeader(key), key, val, f.(count := f.count + 1));
    StoreFraming(KnownHeader(key), key, val, f.(count := f.count + 1));
    if KnownHeader(key) == ContentLength {
      AtoiOfAnyDigits(val);
    }
  }

  lemma StoreDefined(kind: Field, name: Bytes, val: Bytes, f: Fields)
    requires kind == ContentLength ==> !f.contentLengthSeen && AllDigits(val)
    requires kind == Host ==> !f.hostSeen && IsValidHost(val)
    ensures Store(kind, name, val, f).Some?
  {
    hide IsValidHost, HasListToken, AllDigits, Decimal;
  }

  lemma AtoiOfAnyDigits(s: Bytes)
    requires AllDigits(s) && Atoi(s).Some?
    ensures Atoi(s) == Some(Decimal(s))
  {
  }

  lemma {:induction false} StrictLinesAccepted(s: Bytes, f: Fields, seen: Seen, lim: Limits)
    requires Agree(f, seen) && ClassifyLines(s, seen, lim).Go? && StrictLines(s, f.count, lim)
    ensures FoldFields(s, f, lim).Some?
    ensures Agree(FoldFields(s, f, lim).value, ClassifyLines(s, seen, lim).seen)
    decreases |s|
  {
    hide IndexByte, ApplyField, ClassifyLine, StrictLine;
    if s != [] {
      var nl := IndexByte(s, LF);
      if nl < 0 {
        StrictLineAccepted(s, f, seen, lim);
      } else {
        var line := s[..nl - 1];
        assert StripCR(s[..nl]) == line;
        StrictLineAccepted(line, f, seen, lim);
        StrictLinesAccepted(s[nl + 1..], ApplyField(line, f, lim).value, ClassifyLine(line, seen, lim).seen, lim);
      }
    }
  }

  /** Both readers on one head, in both directions: the parser accepts it and wants a body exactly when the
      classifier answers NeedBody, the head is strict, and the length is not absurd. */
  lemma HeadExact(block: Bytes, lim: Limits)
    ensures (ParseHead(block, lim).Some? && ParseHead(block, lim).value.contentLength > 0)
       <==> (ClassifyHead(block, lim).status == NeedBody && StrictHead(block, lim)
             && ClassifyHead(block, lim).need <= MAX_CONTENT_LENGTH)
  {
    hide IndexByte, FieldBlock, FoldFields, ClassifyLines, StrictLines, StripCR, SplitRequestLine, IsValidVersion,
      IsToken;
    if ParseHead(block, lim).Some? && ParseHead(block, lim).value.contentLength > 0 {
      HeadAgrees(block, lim);
      LinesAreStrict(FieldBlock(block), NO_FIELDS, lim);
    } else if ClassifyHead(block, lim).status == NeedBody && StrictHead(block, lim)
              && ClassifyHead(block, lim).need <= MAX_CONTENT_LENGTH {
      NoStopMeansNeedBody(FieldBlock(block), NOTHING_SEEN, lim);
      StrictLinesAccepted(FieldBlock(block), NO_FIELDS, NOTHING_SEEN, lim);
    }
  }

  lemma LineStops(line: Bytes, seen: Seen, lim: Limits)
    ensures ClassifyLine(line, seen, lim).Stop? ==>
              ClassifyLine(line, seen, lim).status != NeedBody && ClassifyLine(line, seen, lim).status != NeedHeaderMore
  {
    hide IndexByte, KnownHeader, Trim, EqualFold, Atoi, IsValidHost, HasInvalidValueByte, IsBlank;
  }

  /** The lines alone never yield the two verdicts that ask for more input. */
  lemma {:induction false} NoStopMeansNeedBody(s: Bytes, seen: Seen, lim: Limits)
    ensures ClassifyLines(s, seen, lim).Stop? ==>
              ClassifyLines(s, seen, lim).status != NeedBody && ClassifyLines(s, seen, lim).status != NeedHeaderMore
    decreases |s|
  {
    hide IndexByte, StripCR, ClassifyLine;
    if s != [] {
      var nl := IndexByte(s, LF);
      if nl < 0 {
        LineStops(s, seen, lim);
      } else {
        var line := StripCR(s[..nl]);
        LineStops(line, seen, lim);
        if ClassifyLine(line, seen, lim).Go? {
          NoStopMeansNeedBody(s[nl + 1..], ClassifyLine(line, seen, lim).seen, lim);
        }
      }
    }
  }

  // ---------------------------------------------------------------- main results

  /** The header block of `data`, up to the CR LF that ends its last line. */
  function HeadOf(data: Bytes): Bytes
    requires IndexTerminator(data[BlankPrefix(data)..]) >= 0
  {
    var d := data[BlankPrefix(data)..];
    d[..IndexTerminator(d) + 2]
  }

  ghost predicate HasTerminator(data: Bytes) {
    exists j :: TerminatorAt(data[BlankPrefix(data)..], j)
  }

  /** More header bytes are asked for exactly when the empty line that ends the header is missing. */
  lemma NeedHeaderMoreExactly(data: Bytes, lim: Limits)
    ensures Classify(data, lim).status == NeedHeaderMore <==> !HasTerminator(data)
  {
    hide IndexTerminator, BlankPrefix, ClassifyLines, SplitRequestLine;
    var d := data[BlankPrefix(data)..];
    var headerEnd := IndexTerminator(d);
    if headerEnd >= 0 {
      assert TerminatorAt(d, headerEnd);
      NoStopMeansNeedBody(FieldBlock(d[..headerEnd + 2]), NOTHING_SEEN, lim);
    } else if HasTerminator(data) {
      var j :| TerminatorAt(d, j);
      IndexTerminatorIsFirst(d, j);
    }
  }

  lemma HeadIsKept(data: Bytes, more: Bytes)
    requires IndexTerminator(data[BlankPrefix(data)..]) >= 0
    ensures BlankPrefix(data + more) == BlankPrefix(data)
    ensures IndexTerminator((data + more)[BlankPrefix(data)..]) == IndexTerminator(data[BlankPrefix(data)..])
    ensures HeadOf(data + more) == HeadOf(data)
  {
    hide BlankPrefix, IndexTerminator;
    var skip := BlankPrefix(data);
    var d := data[skip..];
    assert TerminatorAt(d, IndexTerminator(d));
    BlankPrefixAgrees(data, data + more, skip + IndexTerminator(d) + 4);
    assert (data + more)[skip..] == d + more;
    IndexTerminatorStable(d, more);
  }

  /** If the parser rejects bytes whose continuation it would accept, and the header is complete, then the
      verdict is NeedBody and names exactly the body that the accepted request has. */
  lemma OnlyBodyMissing(data: Bytes, more: Bytes, lim: Limits)
    requires Parse(data, lim).None? && Parse(data + more, lim).Some? && HasTerminator(data)
    ensures Classify(data, lim).status == NeedBody
    ensures Classify(data, lim).need == |Parse(data + more, lim).value.request.body|
  {
    hide BlankPrefix, IndexTerminator, ParseHead, ClassifyHead;
    var d := data[BlankPrefix(data)..];
    var j :| TerminatorAt(d, j);
    IndexTerminatorIsFirst(d, j);
    HeadIsKept(data, more);
    HeadAgrees(HeadOf(data), lim);
  }

  /** Verdicts are final: if the parser rejects and the classifier asks for neither more header nor more
      body, then no continuation is ever accepted. */
  lemma VerdictsAreFinal(data: Bytes, more: Bytes, lim: Limits)
    requires Parse(data, lim).None?
    requires Classify(data, lim).status != NeedHeaderMore && Classify(data, lim).status != NeedBody
    ensures Parse(data + more, lim).None?
  {
    hide Parse, Classify;
    NeedHeaderMoreExactly(data, lim);
    if Parse(data + more, lim).Some? {
      OnlyBodyMissing(data, more, lim);
    }
  }

  /** The verdict NeedBody does not promise a request. It does so exactly when the head is also strict and
      its length is within the parser's maximum. */
  lemma NeedBodyServedExactly(data: Bytes, lim: Limits)
    requires Parse(data, lim).None? && Classify(data, lim).status == NeedBody
    ensures IndexTerminator(data[BlankPrefix(data)..]) >= 0
    ensures (exists more :: Parse(data + more, lim).Some?)
       <==> (StrictHead(HeadOf(data), lim) && Classify(data, lim).need <= MAX_CONTENT_LENGTH)
  {
    hide BlankPrefix, IndexTerminator, ParseHead, ClassifyHead, StrictHead;
    HeadExact(HeadOf(data), lim);
    if StrictHead(HeadOf(data), lim) && Classify(data, lim).need <= MAX_CONTENT_LENGTH {
      var more := seq(MAX_CONTENT_LENGTH, _ => 0 as Byte);
      HeadIsKept(data, more);
      HeadLengthBounded(HeadOf(data), lim);
      assert Parse(data + more, lim).Some?;
    }
    forall more | Parse(data + more, lim).Some?
      ensures StrictHead(HeadOf(data), lim) && Classify(data, lim).need <= MAX_CONTENT_LENGTH
    {
      HeadIsKept(data, more);
      assert ParseHead(HeadOf(data), lim).Some?;
    }
  }

  lemma HeadLengthBounded(block: Bytes, lim: Limits)
    requires ParseHead(block, lim).Some?
    ensures ParseHead(block, lim).value.contentLength <= MAX_CONTENT_LENGTH
  {
    hide IndexByte, FieldBlock, FoldFields, SplitRequestLine, IsValidRequestLine;
  }

  // ---------------------------------------------------------------- a promise that is not kept

  // P / HTTP/1.0
  const PLAIN_LINE: Bytes := [80, 32, 47, 32, 72, 84, 84, 80, 47, 49, 46, 48]
  // content-length:+5
  const SIGNED_FIELD: Bytes := CONTENT_LENGTH + [58, 43, 53]
  const SIGNED_LENGTH: Bytes := PLAIN_LINE + [CR, LF] + SIGNED_FIELD + [CR, LF, CR, LF]

  const NO_LIMITS := Limits(0, 0, 0)

  /** The classifier reads a signed length and asks for five bytes; the parser takes digits only, so
      whatever is sent it rejects. */
  lemma SignedLengthNeverServed(more: Bytes)
    ensures Parse(SIGNED_LENGTH, NO_LIMITS).None?
    ensures Classify(SIGNED_LENGTH, NO_LIMITS) == Verdict(NeedBody, 5, false)
    ensures Parse(SIGNED_LENGTH + more, NO_LIMITS).None?
  {
    var data := SIGNED_LENGTH;
    assert !CRLFAt(data, 0);
    assert data[0..] == data;
    assert TerminatorAt(data, 31);
    assert IndexTerminator(data) == 31 by { IndexTerminatorIsFirst(data, 31); }
    var block := data[..33];
    SignedLengthHead(block);
    if Parse(data + more, NO_LIMITS).Some? {
      HeadIsKept(data, more);
    }
  }

  lemma SignedLengthHead(block: Bytes)
    requires block == SIGNED_LENGTH[..33]
    ensures ParseHead(block, NO_LIMITS).None?
    ensures ClassifyHead(block, NO_LIMITS) == Verdict(NeedBody, 5, false)
  {
    hide IndexByte, SplitRequestLine, IsValidVersion, RequiresHost, IsToken, ApplyField, ClassifyLine;
    assert block == PLAIN_LINE + [CR, LF] + SIGNED_FIELD + [CR, LF];
    IndexByteUnique(block, LF, 13);
    assert block[..13][..12] == PLAIN_LINE;
    PlainLineSplit();
    var field := FieldBlock(block);
    assert field == SIGNED_FIELD;
    IndexByteIsFirst(field, LF);
    SignedLengthLine(field);
  }

  lemma PlainLineSplit()
    ensures SplitRequestLine(PLAIN_LINE).Some?
    ensures IsValidVersion(SplitRequestLine(PLAIN_LINE).value.version)
    ensures !RequiresHost(SplitRequestLine(PLAIN_LINE).value.version)
  {
    hide IndexByte;
    var version := PLAIN_LINE[4..];
    IndexByteUnique(PLAIN_LINE, SP, 1);
    assert PLAIN_LINE[2..] == [47, SP] + version;
    IndexByteUnique(PLAIN_LINE[2..], SP, 1);
    assert SplitRequestLine(PLAIN_LINE) == Some(RequestLine(PLAIN_LINE[..1], PLAIN_LINE[2..3], version));
    assert |version| == 8;
  }

  lemma SignedLengthLine(field: Bytes)
    requires field == SIGNED_FIELD
    ensures ApplyField(field, NO_FIELDS, NO_LIMITS).None?
    ensures ClassifyLine(field, NOTHING_SEEN, NO_LIMITS) == Go(NOTHING_SEEN.(hasCL := true, cl := 5))
  {
    IndexByteUnique(field, 58, 14);
    assert field[..14] == CONTENT_LENGTH;
    TrimIdentity(CONTENT_LENGTH);
    var val := field[15..];
    assert val == [43, 53];
    TrimIdentity(val);
    assert val[1..] == [53];
    assert Decimal([53]) == 5;
    hide IndexByte, Trim, Decimal;
    assert KnownHeader(CONTENT_LENGTH) == ContentLength;
    assert Atoi(val) == Some(5);
    assert !IsControl(val[0]) && !IsControl(val[1]);
    assert !AllDigits(val) by { assert !IsDigit(val[0]); }
  }
}
