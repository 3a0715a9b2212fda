/** The second reader of wing_http.go: it looks at bytes the parser has rejected and says why, so that the
    connection can wait for more, or answer with the right error. */
module HttpClassifier {
  import opened Bytes
  import opened Options
  import opened HttpParser

  datatype Status = NeedHeaderMore | HeaderTooLarge | Malformed | BadRequest | Chunked | BodyTooLarge | NeedBody

  datatype Verdict = Verdict(status: Status, need: nat, expectContinue: bool)

  const EXPECT: Bytes := [101, 120, 112, 101, 99, 116]
  const CONTINUE_100: Bytes := [49, 48, 48, 45, 99, 111, 110, 116, 105, 110, 117, 101]

  const MAX_INT: int := 0x7fff_ffff_ffff_ffff

  /** Go's strconv.Atoi with 64-bit ints: an optional sign, then decimal digits that must not overflow. */
  function Atoi(s: Bytes): Option<int> {
    var signed := s != [] && (s[0] == 43 || s[0] == 45);
    var digits := if signed then s[1..] else s;
    if !AllDigits(digits) then None
    else
      var n: int := if signed && s[0] == 45 then -(Decimal(digits) as int) else Decimal(digits);
      if -MAX_INT - 1 <= n <= MAX_INT then Some(n) else None
  }

  /** What the lines read so far have said. */
  datatype Seen = Seen(hasTE: bool, hasCL: bool, cl: nat, hostSeen: bool, expectContinue: bool)

  datatype Outcome = Go(seen: Seen) | Stop(status: Status)

  const NOTHING_SEEN := Seen(false, false, 0, false, false)

  function ClassifyLine(line: Bytes, seen: Seen, lim: Limits): Outcome {
    if line != [] && IsBlank(line[0]) then Stop(Malformed)
    else if lim.maxHeaderSize > 0 && |line| > lim.maxHeaderSize then Stop(HeaderTooLarge)
    else
      var colon := IndexByte(line, 58);
      if colon <= 0 then Stop(Malformed)
      else if IsBlank(line[colon - 1]) then Stop(Malformed)
      else
        var name, val := Trim(line[..colon]), Trim(line[colon + 1..]);
        if HasInvalidValueByte(val) then Stop(Malformed)
        else
          match KnownHeader(name)
          case ContentLength =>
            var n := Atoi(val);
            if seen.hasCL || n.None? || n.value < 0 then Stop(Malformed)
            else Go(seen.(hasCL := true, cl := n.value))
          case TransferEncoding => Go(seen.(hasTE := true))
          case Host =>
            if seen.hostSeen || !IsValidHost(val) then Stop(BadRequest)
            else Go(seen.(hostSeen := true))
          case _ =>
            if EqualFold(name, EXPECT) && EqualFold(val, CONTINUE_100) then Go(seen.(expectContinue := true))
            else Go(seen)
  }

  /** All the lines of a header block; unlike the parser's fold it does not ask for CR before LF. */
  function ClassifyLines(s: Bytes, seen: Seen, lim: Limits): Outcome
    decreases |s|
  {
    if s == [] then Go(seen)
    else
      var nl := IndexByte(s, LF);
      if nl < 0 then
        if CR in s then Stop(Malformed) else ClassifyLine(s, seen, lim)
      else
        match ClassifyLine(StripCR(s[..nl]), seen, lim)
        case Stop(status) => Stop(status)
        case Go(next) => ClassifyLines(s[nl + 1..], next, lim)
  }

  /** The verdict once every line has been read. */
  function Conclude(version: Bytes, seen: Seen, lim: Limits): Verdict {
    if RequiresHost(version) && !seen.hostSeen then Verdict(BadRequest, 0, false)
    else if seen.hasTE && seen.hasCL then Verdict(Malformed, 0, false)
    else if seen.hasTE then Verdict(Chunked, 0, false)
    else if !seen.hasCL || seen.cl == 0 then Verdict(Malformed, 0, false)
    else if lim.bodyLimit > 0 && seen.cl > lim.bodyLimit then Verdict(BodyTooLarge, 0, seen.expectContinue)
    else Verdict(NeedBody, seen.cl, seen.expectContinue)
  }

  function ClassifyHead(block: Bytes, lim: Limits): Verdict {
    var lineEnd := IndexByte(block, LF);
    if lineEnd <= 0 then Verdict(Malformed, 0, false)
    else
      match SplitRequestLine(StripCR(block[..lineEnd]))
      case None => Verdict(Malformed, 0, false)
      case Some(l) =>
        if !IsValidVersion(l.version) then Verdict(Malformed, 0, false)
        else
          match ClassifyLines(FieldBlock(block), NOTHING_SEEN, lim)
          case Stop(status) => Verdict(status, 0, false)
          case Go(seen) => Conclude(l.version, seen, lim)
  }

  function Classify(data: Bytes, lim: Limits): Verdict {
    var d := data[BlankPrefix(data)..];
    var headerEnd := IndexTerminator(d);
    if headerEnd < 0 then Verdict(NeedHeaderMore, 0, false)
    else ClassifyHead(d[..headerEnd + 2], lim)
  }

  // ---------------------------------------------------------------- the loops

  method ClassifyIncomplete(input: Bytes, lim: Limits) returns (v: Verdict)
    ensures v == Classify(input, lim)
  {
    hide BlankPrefix, IndexByte, IndexTerminator, FieldBlock, SplitRequestLine, ClassifyLines, Conclude;
    var skip := SkipEmptyLines(input);
    var data := input[skip..];
    var headerEnd := IndexTerminator(data);
    if headerEnd < 0 {
      return Verdict(NeedHeaderMore, 0, false);
    }
    BlockParts(data, headerEnd);
    var lineEnd := IndexByte(data[..headerEnd + 2], LF);
    if lineEnd <= 0 {
      return Verdict(Malformed, 0, false);
    }
    var split := SplitRequestLine(StripCR(data[..lineEnd]));
    if split.None? || !IsValidVersion(split.value.version) {
      return Verdict(Malformed, 0, false);
    }
    var outcome := ReadLines(data, lineEnd + 1, headerEnd, lim);
    if outcome.Stop? {
      return Verdict(outcome.status, 0, false);
    }
    v := Conclude(split.value.version, outcome.seen, lim);
  }

  lemma NoLinesLeft(seen: Seen, lim: Limits)
    ensures ClassifyLines([], seen, lim) == Go(seen)
  {
  }

  lemma LinesStep(s: Bytes, seen: Seen, lim: Limits)
    requires s != []
    ensures var nl := IndexByte(s, LF);
      ClassifyLines(s, seen, lim) ==
        if nl < 0 then if CR in s then Stop(Malformed) else ClassifyLine(s, seen, lim)
        else
          var r := ClassifyLine(StripCR(s[..nl]), seen, lim);
          if r.Stop? then r else ClassifyLines(s[nl + 1..], r.seen, lim)
  {
    hide IndexByte, ClassifyLine, StripCR;
  }

  method ReadLines(data: Bytes, start: nat, headerEnd: nat, lim: Limits) returns (r: Outcome)
    requires start <= |data| && headerEnd <= |data|
    ensures r == ClassifyLines(if start < headerEnd + 1 then data[start..headerEnd] else [], NOTHING_SEEN, lim)
  {
    hide IndexByte, ClassifyLine, ClassifyLines;
    assert ClassifyLines([], NOTHING_SEEN, lim) == Go(NOTHING_SEEN) by { NoLinesLeft(NOTHING_SEEN, lim); }
    var seen := NOTHING_SEEN;
    var pos := start;
    while pos < headerEnd
      invariant start <= pos <= |data|
      invariant start <= headerEnd ==> pos <= headerEnd
      invariant start <= headerEnd ==>
        ClassifyLines(data[start..headerEnd], NOTHING_SEEN, lim) == ClassifyLines(data[pos..headerEnd], seen, lim)
      invariant start > headerEnd ==> seen == NOTHING_SEEN
    {
      ghost var window := data[pos..headerEnd];
      LinesStep(window, seen, lim);
      var nl := IndexByte(data[pos..headerEnd], LF);
      var hline: Bytes;
      if nl < 0 {
        hline := data[pos..headerEnd];
        IndexByteIsFirst(hline, CR);
        if IndexByte(hline, CR) >= 0 {
          return Stop(Malformed);
        }
        pos := headerEnd;
      } else {
        hline := data[pos..pos + nl];
        assert hline == window[..nl];
        assert window[nl + 1..] == data[pos + nl + 1..headerEnd];
        pos := pos + nl + 1;
        if nl > 0 && hline[nl - 1] == CR {
          hline := hline[..nl - 1];
        }
      }
      r := ClassifyLine(hline, seen, lim);
      if r.Stop? || nl < 0 {
        return;
      }
      seen := r.seen;
    }
    assert start <= headerEnd ==> data[pos..headerEnd] == [];
    NoLinesLeft(seen, lim);
    r := Go(seen);
  }
}
