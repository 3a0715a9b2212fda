/** Which verdict the classifier gives, said about the list of lines of a head: the first line at fault decides, and
    without one the fields do (section 6.3 of RFC 9112). */
module HttpReasons {
  import opened Bytes
  import opened Options
  import opened HttpParser
  import opened HttpClassifier
  import opened HttpVerdicts
  import opened HttpFraming
  import opened HttpLexis

  /** The lines, each without its LF and a CR before that. */
  function LaxLines(s: Bytes): seq<Bytes>
    decreases |s|
  {
    if s == [] then []
    else
      var nl := IndexByte(s, LF);
      if nl < 0 then [s] else [StripCR(s[..nl])] + LaxLines(s[nl + 1..])
  }

  /** The last line has no LF. */
  predicate Open(s: Bytes) {
    s != [] && s[|s| - 1] != LF
  }

  predicate Legible(line: Bytes, lim: Limits) {
    && line != [] && !IsBlank(line[0])
    && (lim.maxHeaderSize > 0 ==> |line| <= lim.maxHeaderSize)
    && Name(line) != [] && !IsBlank(Name(line)[|Name(line)| - 1])
    && !HasInvalidValueByte(Value(line))
  }

  predicate Stray(lines: seq<Bytes>, open: bool, i: nat)
    requires i < |lines|
  {
    open && i == |lines| - 1 && CR in lines[i]
  }

  /** A length is a number that is not negative, and there is one at most; the same for hosts. */
  predicate Fits(line: Bytes, before: seq<Bytes>) {
    && (KnownHeader(Name(line)) == ContentLength ==>
          Named(before, ContentLength) == [] && Atoi(Value(line)).Some? && Atoi(Value(line)).value >= 0)
    && (KnownHeader(Name(line)) == Host ==> Named(before, Host) == [] && IsValidHost(Value(line)))
  }

  predicate Passes(lines: seq<Bytes>, open: bool, i: nat, lim: Limits)
    requires i < |lines|
  {
    !Stray(lines, open, i) && Legible(lines[i], lim) && Fits(lines[i], lines[..i])
  }

  ghost predicate AllPass(lines: seq<Bytes>, open: bool, n: nat, lim: Limits)
    requires n <= |lines|
  {
    forall i :: 0 <= i < n ==> Passes(lines, open, i, lim)
  }

  ghost predicate FirstFault(lines: seq<Bytes>, open: bool, i: nat, lim: Limits) {
    i < |lines| && AllPass(lines, open, i, lim) && !Passes(lines, open, i, lim)
  }

  /** Why a line is at fault. */
  function Fault(lines: seq<Bytes>, open: bool, i: nat, lim: Limits): Status
    requires i < |lines|
  {
    var line := lines[i];
    if Stray(lines, open, i) || (line != [] && IsBlank(line[0])) then Malformed
    else if lim.maxHeaderSize > 0 && |line| > lim.maxHeaderSize then HeaderTooLarge
    else if Legible(line, lim) && KnownHeader(Name(line)) == Host then BadRequest
    else Malformed
  }

  predicate Expects(line: Bytes) {
    SameLetters(Name(line), Ascii("expect")) && SameLetters(Value(line), Ascii("100-continue"))
  }

  ghost predicate SomeExpects(lines: seq<Bytes>) {
    exists i :: 0 <= i < |lines| && Expects(lines[i])
  }

  /** The length that the lines announce. */
  function Announced(lines: seq<Bytes>): nat {
    var values := Named(lines, ContentLength);
    if values != [] && Atoi(values[0]).Some? && Atoi(values[0]).value >= 0 then Atoi(values[0]).value else 0
  }

  ghost function SeenIn(lines: seq<Bytes>): Seen {
    Seen(Named(lines, TransferEncoding) != [], Named(lines, ContentLength) != [], Announced(lines),
         Named(lines, Host) != [], SomeExpects(lines))
  }

  /** Text for this number: digits, perhaps behind a sign. */
  ghost predicate NumberText(s: Bytes, digits: Bytes, n: int) {
    && AllDigits(digits)
    && (((s == digits || s == Ascii("+") + digits) && n == Decimal(digits))
        || (s == Ascii("-") + digits && n == -(Decimal(digits) as int)))
  }

  /** strconv.Atoi: text for a number that fits 64 bits. */
  lemma AtoiExactly(s: Bytes, n: int)
    ensures Atoi(s) == Some(n)
      <==> -9223372036854775808 <= n <= 9223372036854775807 && exists digits :: NumberText(s, digits, n)
  {
    hide Decimal;
    assert Ascii("+") == [43] && Ascii("-") == [45];
    if Atoi(s) == Some(n) {
      if AllDigits(s) {
        assert NumberText(s, s, n);
      } else {
        assert s == [s[0]] + s[1..];
        assert NumberText(s, s[1..], n);
      }
    }
    forall digits | NumberText(s, digits, n) && -9223372036854775808 <= n <= 9223372036854775807
      ensures Atoi(s) == Some(n)
    {
      assert IsDigit(digits[0]);
      if s != digits {
        assert s[1..] == digits;
      }
    }
  }

  // ---------------------------------------------------------------- one line

  lemma NameNeedsColon(line: Bytes)
    ensures Name(line) != [] <==> IndexByte(line, 58) > 0
    ensures IndexByte(line, 58) > 0 ==>
      Name(line) == line[..IndexByte(line, 58)] && Value(line) == Trim(line[IndexByte(line, 58) + 1..])
  {
    hide Trim;
  }

  lemma ExpectsExactly(line: Bytes)
    ensures Expects(line) <==> EqualFold(Name(line), EXPECT) && EqualFold(Value(line), CONTINUE_100)
  {
    hide Ascii, SameLetters, EqualFold, Name, Value;
    ShortWords();
    LongWords();
    FoldIsSameLetters(Name(line), EXPECT);
    FoldIsSameLetters(Value(line), CONTINUE_100);
  }

  lemma ExpectIsOther(name: Bytes)
    requires EqualFold(name, EXPECT)
    ensures KnownHeader(name) == OtherField
  {
    assert LowerByte(name[0]) == 101;
  }

  lemma ExpectsMore(before: seq<Bytes>, line: Bytes)
    ensures SomeExpects(before + [line]) <==> SomeExpects(before) || Expects(line)
  {
    hide Expects;
    if SomeExpects(before) {
      var i :| 0 <= i < |before| && Expects(before[i]);
      assert (before + [line])[i] == before[i];
    }
    assert (before + [line])[|before|] == line;
  }

  lemma NamedMore(before: seq<Bytes>, line: Bytes, kind: Field)
    ensures Named(before + [line], kind)
      == Named(before, kind) + (if KnownHeader(Name(line)) == kind then [Value(line)] else [])
  {
    hide KnownHeader, Name, Value;
    NamedConcat(before, [line], kind);
    NamedOne(line, kind);
  }

  /** One line after others that have passed. */
  lemma LineExactly(before: seq<Bytes>, line: Bytes, lim: Limits)
    ensures var r := ClassifyLine(line, SeenIn(before), lim);
      if Legible(line, lim) && Fits(line, before) then r == Go(SeenIn(before + [line]))
      else r == Stop(Fault(before + [line], false, |before|, lim))
  {
    hide KnownHeader, Trim, IndexByte, IsValidHost, HasInvalidValueByte, EqualFold, Atoi, Expects, SomeExpects, Named,
      Name, Value, IsBlank;
    NameNeedsColon(line);
    ExpectsExactly(line);
    ExpectsMore(before, line);
    NamedMore(before, line, ContentLength);
    NamedMore(before, line, TransferEncoding);
    NamedMore(before, line, Host);
    assert (before + [line])[|before|] == line && (before + [line])[..|before|] == before;
    if IndexByte(line, 58) > 0 && !IsBlank(line[0]) && !IsBlank(Name(line)[|Name(line)| - 1]) {
      NameIsTrimmed(line, IndexByte(line, 58));
      if EqualFold(Name(line), EXPECT) {
        ExpectIsOther(Name(line));
      }
    }
  }

  // ---------------------------------------------------------------- all the lines

  ghost predicate Good(lines: seq<Bytes>, lim: Limits) {
    forall i :: 0 <= i < |lines| ==> Legible(lines[i], lim) && Fits(lines[i], lines[..i])
  }

  /** What the classifier makes of these lines, the last of which may be open. */
  ghost predicate Read(r: Outcome, lines: seq<Bytes>, open: bool, lim: Limits) {
    match r
    case Go(seen) => AllPass(lines, open, |lines|, lim) && seen == SeenIn(lines)
    case Stop(status) => exists i: nat :: FirstFault(lines, open, i, lim) && status == Fault(lines, open, i, lim)
  }

  lemma GoodMore(before: seq<Bytes>, line: Bytes, lim: Limits)
    requires Good(before, lim) && Legible(line, lim) && Fits(line, before)
    ensures Good(before + [line], lim)
  {
    hide Legible, Fits;
    var all := before + [line];
    forall i | 0 <= i < |all| ensures Legible(all[i], lim) && Fits(all[i], all[..i]) {
      if i < |before| {
        assert all[i] == before[i] && all[..i] == before[..i];
      } else {
        assert all[..i] == before;
      }
    }
  }

  lemma GoodPasses(before: seq<Bytes>, more: seq<Bytes>, open: bool, lim: Limits)
    requires Good(before, lim) && (open ==> more != [])
    ensures AllPass(before + more, open, |before|, lim)
  {
    hide Legible, Fits;
    var all := before + more;
    forall i | 0 <= i < |before| ensures Passes(all, open, i, lim) {
      assert all[i] == before[i] && all[..i] == before[..i];
    }
  }

  /** A fault in the next line is the first one. */
  lemma NextFaults(before: seq<Bytes>, line: Bytes, more: seq<Bytes>, open: bool, status: Status, lim: Limits)
    requires Good(before, lim) && !(Legible(line, lim) && Fits(line, before)) && (open ==> more != [])
    requires status == Fault(before + [line], false, |before|, lim)
    ensures Read(Stop(status), before + ([line] + more), open, lim)
  {
    hide Legible, Fits;
    var all := before + ([line] + more);
    GoodPasses(before, [line] + more, open, lim);
    assert all[|before|] == line && all[..|before|] == before && (before + [line])[|before|] == line;
    assert FirstFault(all, open, |before|, lim);
  }

  lemma LastRead(before: seq<Bytes>, line: Bytes, lim: Limits)
    requires Good(before, lim) && line != [] && IndexByte(line, LF) < 0
    ensures Read(if CR in line then Stop(Malformed) else ClassifyLine(line, SeenIn(before), lim), before + [line], true,
      lim)
  {
    hide Legible, Fits, ClassifyLine, SeenIn, IndexByte;
    var all := before + [line];
    LineExactly(before, line, lim);
    GoodPasses(before, [line], true, lim);
    assert all[|before|] == line && all[..|before|] == before;
    if CR in line || !(Legible(line, lim) && Fits(line, before)) {
      assert FirstFault(all, true, |before|, lim);
    }
  }

  lemma {:induction false} LinesExactly(before: seq<Bytes>, s: Bytes, lim: Limits)
    requires Good(before, lim)
    ensures Read(ClassifyLines(s, SeenIn(before), lim), before + LaxLines(s), Open(s), lim)
    decreases |s|
  {
    hide ClassifyLine, SeenIn, IndexByte, StripCR, Read, Good, Legible, Fits, Fault;
    if s == [] {
      NothingMore(before, lim);
    } else {
      LinesStep(s, SeenIn(before), lim);
      var nl := IndexByte(s, LF);
      if nl < 0 {
        IndexByteIsFirst(s, LF);
        LastRead(before, s, lim);
      } else {
        var line, rest := StripCR(s[..nl]), s[nl + 1..];
        assert Open(s) == Open(rest);
        LineExactly(before, line, lim);
        assert before + [line] + LaxLines(rest) == before + ([line] + LaxLines(rest));
        if Legible(line, lim) && Fits(line, before) {
          GoodMore(before, line, lim);
          LinesExactly(before + [line], rest, lim);
        } else {
          NextFaults(before, line, LaxLines(rest), Open(s), Fault(before + [line], false, |before|, lim), lim);
        }
      }
    }
  }

  lemma NothingMore(before: seq<Bytes>, lim: Limits)
    requires Good(before, lim)
    ensures Read(ClassifyLines([], SeenIn(before), lim), before + LaxLines([]), Open([]), lim)
  {
    hide SeenIn;
    NoLinesLeft(SeenIn(before), lim);
    GoodPasses(before, [], false, lim);
    assert before + [] == before;
  }

  // ---------------------------------------------------------------- the verdict

  /** A request line with two spaces and a version of HTTP. */
  ghost predicate Addressed(block: Bytes) {
    var lineEnd := IndexByte(block, LF);
    && lineEnd > 0
    && var l := SplitRequestLine(StripCR(block[..lineEnd]));
    l.Some? && IsValidVersion(l.value.version)
  }

  function VersionOf(block: Bytes): Bytes
    requires Addressed(block)
  {
    SplitRequestLine(StripCR(block[..IndexByte(block, LF)])).value.version
  }

  ghost predicate Lacks(version: Bytes, lines: seq<Bytes>) {
    RequiresHost(version) && Named(lines, Host) == []
  }

  /** Every line passes, and there is a Host if there must be one. */
  ghost predicate Whole(version: Bytes, lines: seq<Bytes>, open: bool, lim: Limits) {
    AllPass(lines, open, |lines|, lim) && !Lacks(version, lines)
  }

  lemma NothingSeenYet(lim: Limits)
    ensures Good([], lim) && SeenIn([]) == NOTHING_SEEN
  {
  }

  /** Without lines for a length none is announced. */
  lemma AnnouncedByLine(lines: seq<Bytes>)
    ensures Announced(lines) > 0 ==> Named(lines, ContentLength) != []
  {
  }

  lemma OneFirstFault(lines: seq<Bytes>, open: bool, i: nat, j: nat, lim: Limits)
    requires FirstFault(lines, open, i, lim) && FirstFault(lines, open, j, lim)
    ensures i == j
  {
    hide Passes;
  }

  lemma NotAddressed(block: Bytes, lim: Limits)
    ensures !Addressed(block) ==> ClassifyHead(block, lim) == Verdict(Malformed, 0, false)
  {
    hide ClassifyLines, IndexByte, FieldBlock, StripCR, SplitRequestLine, IsValidVersion;
  }

  /** The verdict on a head, kind by kind. */
  lemma VerdictExactly(block: Bytes, lim: Limits)
    requires Addressed(block)
    ensures var v, lines, open := ClassifyHead(block, lim), LaxLines(FieldBlock(block)), Open(FieldBlock(block));
      var whole, n := Whole(VersionOf(block), lines, open, lim), Announced(lines);
      var chunked, length := Named(lines, TransferEncoding) != [], Named(lines, ContentLength) != [];
      && (v.status == Chunked <==> whole && chunked && !length)
      && (v.status == BodyTooLarge <==> whole && !chunked && 0 < lim.bodyLimit < n)
      && (v.status == NeedBody <==> whole && !chunked && 0 < n && (lim.bodyLimit > 0 ==> n <= lim.bodyLimit))
      && v.need == (if v.status == NeedBody then n else 0)
      && (v.expectContinue <==> v.status in {BodyTooLarge, NeedBody} && SomeExpects(lines))
    ensures var v, lines, open := ClassifyHead(block, lim), LaxLines(FieldBlock(block)), Open(FieldBlock(block));
      && (forall i: nat :: FirstFault(lines, open, i, lim) ==> v == Verdict(Fault(lines, open, i, lim), 0, false))
      && (AllPass(lines, open, |lines|, lim) && Lacks(VersionOf(block), lines) ==> v == Verdict(BadRequest, 0, false))
  {
    hide ClassifyLines, IndexByte, FieldBlock, StripCR, SplitRequestLine, IsValidVersion, RequiresHost, Named,
      SomeExpects, Announced, Open, LaxLines, Passes, Stray, Legible;
    var s := FieldBlock(block);
    NothingSeenYet(lim);
    LinesExactly([], s, lim);
    assert [] + LaxLines(s) == LaxLines(s);
    var lines, open := LaxLines(s), Open(s);
    AnnouncedByLine(lines);
    forall i: nat, j: nat | FirstFault(lines, open, i, lim) && FirstFault(lines, open, j, lim) ensures i == j {
      OneFirstFault(lines, open, i, j, lim);
    }
  }
}
