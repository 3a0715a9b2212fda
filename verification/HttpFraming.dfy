/** What the parser's one pass over the field lines amounts to, said about the list of lines:
    which header blocks it accepts, and what it reports about each of them (sections 5, 6.3 and 9.3 of RFC 9112). */
module HttpFraming {
  import opened Bytes
  import opened Options
  import opened HttpParser
  import opened HttpVerdicts

  /** A line, without its end. */
  predicate Plain(line: Bytes) {
    line != [] && CR !in line && LF !in line
  }

  /** Every LF has CR before it, and the last, unterminated line has none. */
  predicate Terminated(s: Bytes)
    decreases |s|
  {
    s == [] ||
    var nl := IndexByte(s, LF);
    if nl < 0 then CR !in s
    else nl > 0 && s[nl - 1] == CR && Terminated(s[nl + 1..])
  }

  /** The lines of a terminated header block, without their terminators. */
  function FieldLines(s: Bytes): seq<Bytes>
    requires Terminated(s)
    decreases |s|
  {
    if s == [] then []
    else
      var nl := IndexByte(s, LF);
      if nl < 0 then [s] else [s[..nl - 1]] + FieldLines(s[nl + 1..])
  }

  function Name(line: Bytes): Bytes {
    var colon := IndexByte(line, 58);
    if colon < 0 then [] else line[..colon]
  }

  function Value(line: Bytes): Bytes {
    var colon := IndexByte(line, 58);
    if colon < 0 then [] else Trim(line[colon + 1..])
  }

  /** A field line that is acceptable by itself. */
  predicate GoodLine(line: Bytes, lim: Limits) {
    && IndexByte(line, 58) > 0
    && IsToken(Name(line))
    && !HasInvalidValueByte(Value(line))
    && (lim.maxHeaderSize > 0 ==> |line| <= lim.maxHeaderSize)
    && (KnownHeader(Name(line)) == ContentLength ==> AllDigits(Value(line)))
    && (KnownHeader(Name(line)) == Host ==> IsValidHost(Value(line)))
  }

  /** The values of the fields of one kind, in order. */
  function Named(lines: seq<Bytes>, kind: Field): seq<Bytes> {
    if lines == [] then []
    else (if KnownHeader(Name(lines[0])) == kind then [Value(lines[0])] else []) + Named(lines[1..], kind)
  }

  /** The fields outside the known set, names in lower case. */
  function Others(lines: seq<Bytes>): seq<(Bytes, Bytes)> {
    if lines == [] then []
    else (if KnownHeader(Name(lines[0])) == OtherField then [(Lower(Name(lines[0])), Value(lines[0]))] else [])
         + Others(lines[1..])
  }

  ghost predicate SomeHasToken(values: seq<Bytes>, token: Bytes) {
    exists i :: 0 <= i < |values| && HasListToken(values[i], token)
  }

  function First(values: seq<Bytes>, default: Bytes): Bytes {
    if values == [] then default else values[0]
  }

  function Last(values: seq<Bytes>, default: Bytes): Bytes {
    if values == [] then default else values[|values| - 1]
  }

  /** None of the kind, or one that is the first. */
  predicate AtMostOnce(values: seq<Bytes>, seen: bool) {
    values == [] || (|values| == 1 && !seen)
  }

  /** The lines `lines` may follow what `f` has already seen. */
  ghost predicate Admissible(lines: seq<Bytes>, f: Fields, lim: Limits) {
    && (forall i :: 0 <= i < |lines| ==> GoodLine(lines[i], lim))
    && (lim.maxHeaderCount > 0 && lines != [] ==> f.count + |lines| <= lim.maxHeaderCount)
    && AtMostOnce(Named(lines, ContentLength), f.contentLengthSeen)
    && AtMostOnce(Named(lines, Host), f.hostSeen)
  }

  /** `g` is `f` together with what `lines` say about the framing and the persistence of the message. */
  ghost predicate SaysFraming(lines: seq<Bytes>, f: Fields, g: Fields) {
    && g.count == f.count + |lines|
    && g.contentLengthSeen == (f.contentLengthSeen || Named(lines, ContentLength) != [])
    && g.contentLength == (if Named(lines, ContentLength) == [] then f.contentLength
                           else LengthOf(Last(Named(lines, ContentLength), [])))
    && g.transferEncoding == (f.transferEncoding || Named(lines, TransferEncoding) != [])
    && g.hostSeen == (f.hostSeen || Named(lines, Host) != [])
    && g.close == (f.close || SomeHasToken(Named(lines, Connection), CLOSE))
    && g.keepAlive == (f.keepAlive || SomeHasToken(Named(lines, Connection), KEEP_ALIVE))
  }

  /** ... and about everything else: the first value of some fields counts, the last of others. */
  ghost predicate SaysValues(lines: seq<Bytes>, f: Fields, g: Fields) {
    && g.host == Last(Named(lines, Host), f.host)
    && g.contentType == Last(Named(lines, ContentType), f.contentType)
    && g.cookie == Last(Named(lines, Cookie), f.cookie)
    && g.accept == Last(Named(lines, Accept), f.accept)
    && g.connectionSeen == (f.connectionSeen || Named(lines, Connection) != [])
    && g.connection == (if f.connectionSeen then f.connection else First(Named(lines, Connection), f.connection))
    && g.forwardedForSeen == (f.forwardedForSeen || Named(lines, ForwardedFor) != [])
    && g.forwardedFor
       == (if f.forwardedForSeen then f.forwardedFor else First(Named(lines, ForwardedFor), f.forwardedFor))
    && g.realIPSeen == (f.realIPSeen || Named(lines, RealIP) != [])
    && g.realIP == (if f.realIPSeen then f.realIP else First(Named(lines, RealIP), f.realIP))
    && g.extra == f.extra + Others(lines)
  }

  function LengthOf(value: Bytes): nat {
    Saturate(Decimal(DigitPrefix(value)))
  }

  // ---------------------------------------------------------------- one line

  lemma NamedOne(line: Bytes, kind: Field)
    ensures Named([line], kind) == if KnownHeader(Name(line)) == kind then [Value(line)] else []
  {
    hide KnownHeader, Name, Value;
    assert Named([line][1..], kind) == [];
  }

  lemma OthersOne(line: Bytes)
    ensures Others([line]) == if KnownHeader(Name(line)) == OtherField then [(Lower(Name(line)), Value(line))] else []
  {
    hide KnownHeader, Name, Value, Lower;
    assert Others([line][1..]) == [];
  }

  lemma LineAccepted(line: Bytes, f: Fields, lim: Limits)
    ensures ApplyField(line, f, lim).Some? <==> Admissible([line], f, lim)
    ensures ApplyField(line, f, lim).Some? ==>
              Some(ApplyField(line, f, lim).value)
              == Store(KnownHeader(Name(line)), Name(line), Value(line), f.(count := f.count + 1))
  {
    NamedOne(line, ContentLength);
    NamedOne(line, Host);
    hide KnownHeader, Trim, IndexByte, Store, IsValidHost, AllDigits, HasInvalidValueByte, Named;
    assert [line][0] == line;
    if ApplyField(line, f, lim).Some? {
      ApplyFieldParts(line, f, lim);
      LineIsStrict(line, f, lim);
      StoreFraming(KnownHeader(Name(line)), Name(line), Value(line), f.(count := f.count + 1));
    } else if Admissible([line], f, lim) {
      assert GoodLine(line, lim);
      TokenIsTrimmed(line);
      StoreDefined(KnownHeader(Name(line)), Name(line), Value(line), f.(count := f.count + 1));
    }
  }

  lemma TokenIsTrimmed(line: Bytes)
    requires IndexByte(line, 58) > 0 && IsToken(Name(line))
    ensures !IsBlank(line[0]) && !IsBlank(line[IndexByte(line, 58) - 1])
    ensures Trim(Name(line)) == Name(line)
  {
    hide IndexByte;
    var name := Name(line);
    assert IsTokenByte(name[0]) && IsTokenByte(name[|name| - 1]);
    TrimIdentity(name);
  }

  lemma LineSaysFraming(line: Bytes, f: Fields, lim: Limits)
    requires ApplyField(line, f, lim).Some?
    ensures SaysFraming([line], f, ApplyField(line, f, lim).value)
  {
    LineAccepted(line, f, lim);
    NamedOne(line, ContentLength);
    NamedOne(line, TransferEncoding);
    NamedOne(line, Host);
    NamedOne(line, Connection);
    hide KnownHeader, ApplyField, Name, Value, Named, HasListToken, Decimal, AllDigits, IsValidHost, Store;
    var kind, name, val := KnownHeader(Name(line)), Name(line), Value(line);
    StoreFraming(kind, name, val, f.(count := f.count + 1));
    StorePersistence(kind, name, val, f.(count := f.count + 1));
    if kind == ContentLength {
      DigitsOnly(val);
    } else if kind == Connection {
      assert Named([line], Connection)[0] == val;
    }
  }

  lemma DigitsOnly(val: Bytes)
    requires AllDigits(val)
    ensures LengthOf(val) == Saturate(Decimal(val))
  {
    DigitPrefixOfDigits(val);
  }

  lemma StorePersistence(kind: Field, name: Bytes, val: Bytes, f: Fields)
    requires Store(kind, name, val, f).Some?
    ensures var g := Store(kind, name, val, f).value;
      && g.close == (f.close || (kind == Connection && HasListToken(val, CLOSE)))
      && g.keepAlive == (f.keepAlive || (kind == Connection && HasListToken(val, KEEP_ALIVE)))
  {
    hide HasListToken, AllDigits, Decimal, IsValidHost;
  }

  lemma StoreValues(kind: Field, name: Bytes, val: Bytes, f: Fields)
    requires Store(kind, name, val, f).Some?
    ensures var g := Store(kind, name, val, f).value;
      && g.host == (if kind == Host then val else f.host)
      && g.contentType == (if kind == ContentType then val else f.contentType)
      && g.cookie == (if kind == Cookie then val else f.cookie)
      && g.accept == (if kind == Accept then val else f.accept)
      && g.connectionSeen == (f.connectionSeen || kind == Connection)
      && g.connection == (if kind == Connection && !f.connectionSeen then val else f.connection)
      && g.forwardedForSeen == (f.forwardedForSeen || kind == ForwardedFor)
      && g.forwardedFor == (if kind == ForwardedFor && !f.forwardedForSeen then val else f.forwardedFor)
      && g.realIPSeen == (f.realIPSeen || kind == RealIP)
      && g.realIP == (if kind == RealIP && !f.realIPSeen then val else f.realIP)
      && g.extra == f.extra + (if kind == OtherField then [(Lower(name), val)] else [])
  {
    hide HasListToken, AllDigits, Decimal, IsValidHost, Lower;
  }

  lemma LineSaysValues(line: Bytes, f: Fields, lim: Limits)
    requires ApplyField(line, f, lim).Some?
    ensures SaysValues([line], f, ApplyField(line, f, lim).value)
  {
    LineAccepted(line, f, lim);
    NamedOne(line, Host);
    NamedOne(line, ContentType);
    NamedOne(line, Cookie);
    NamedOne(line, Accept);
    NamedOne(line, Connection);
    NamedOne(line, ForwardedFor);
    NamedOne(line, RealIP);
    OthersOne(line);
    hide KnownHeader, ApplyField, Name, Value, Named, Others, Lower, Store;
    StoreValues(KnownHeader(Name(line)), Name(line), Value(line), f.(count := f.count + 1));
  }

  // ---------------------------------------------------------------- many lines

  lemma {:induction false} NamedConcat(a: seq<Bytes>, b: seq<Bytes>, kind: Field)
    ensures Named(a + b, kind) == Named(a, kind) + Named(b, kind)
  {
    hide KnownHeader, Name, Value;
    if a == [] {
      assert a + b == b;
    } else {
      assert (a + b)[1..] == a[1..] + b;
      NamedConcat(a[1..], b, kind);
    }
  }

  lemma {:induction false} OthersConcat(a: seq<Bytes>, b: seq<Bytes>)
    ensures Others(a + b) == Others(a) + Others(b)
  {
    hide KnownHeader, Name, Value, Lower;
    if a == [] {
      assert a + b == b;
    } else {
      assert (a + b)[1..] == a[1..] + b && (a + b)[0] == a[0];
      OthersConcat(a[1..], b);
      var first := if KnownHeader(Name(a[0])) == OtherField then [(Lower(Name(a[0])), Value(a[0]))] else [];
      assert first + (Others(a[1..]) + Others(b)) == first + Others(a[1..]) + Others(b);
    }
  }

  lemma SomeHasTokenConcat(a: seq<Bytes>, b: seq<Bytes>, token: Bytes)
    ensures SomeHasToken(a + b, token) <==> SomeHasToken(a, token) || SomeHasToken(b, token)
  {
    hide HasListToken;
    forall i | 0 <= i < |a| ensures HasListToken(a[i], token) ==> SomeHasToken(a + b, token) {
      assert (a + b)[i] == a[i];
    }
    forall i | 0 <= i < |b| ensures HasListToken(b[i], token) ==> SomeHasToken(a + b, token) {
      assert (a + b)[|a| + i] == b[i];
    }
  }

  lemma FramingCompose(a: seq<Bytes>, b: seq<Bytes>, f: Fields, g: Fields, h: Fields)
    requires SaysFraming(a, f, g) && SaysFraming(b, g, h)
    ensures SaysFraming(a + b, f, h)
  {
    hide Named, SomeHasToken, LengthOf;
    NamedConcat(a, b, ContentLength);
    NamedConcat(a, b, TransferEncoding);
    NamedConcat(a, b, Host);
    NamedConcat(a, b, Connection);
    SomeHasTokenConcat(Named(a, Connection), Named(b, Connection), CLOSE);
    SomeHasTokenConcat(Named(a, Connection), Named(b, Connection), KEEP_ALIVE);
  }

  lemma ValuesCompose(a: seq<Bytes>, b: seq<Bytes>, f: Fields, g: Fields, h: Fields)
    requires SaysValues(a, f, g) && SaysValues(b, g, h)
    ensures SaysValues(a + b, f, h)
  {
    hide Named, Others;
    NamedConcat(a, b, Host);
    NamedConcat(a, b, ContentType);
    NamedConcat(a, b, Cookie);
    NamedConcat(a, b, Accept);
    NamedConcat(a, b, Connection);
    NamedConcat(a, b, ForwardedFor);
    NamedConcat(a, b, RealIP);
    OthersConcat(a, b);
  }

  lemma AdmissibleSplit(line: Bytes, rest: seq<Bytes>, f: Fields, g: Fields, lim: Limits)
    requires SaysFraming([line], f, g) && Admissible([line], f, lim)
    ensures Admissible([line] + rest, f, lim) <==> Admissible(rest, g, lim)
  {
    hide Named, SomeHasToken, LengthOf, GoodLine;
    NamedConcat([line], rest, ContentLength);
    NamedConcat([line], rest, Host);
    assert GoodLine([line][0], lim);
    assert forall i :: 0 <= i < |rest| ==> ([line] + rest)[i + 1] == rest[i];
  }

  lemma AdmissibleHead(line: Bytes, rest: seq<Bytes>, f: Fields, lim: Limits)
    requires Admissible([line] + rest, f, lim)
    ensures Admissible([line], f, lim)
  {
    hide Named, GoodLine;
    NamedConcat([line], rest, ContentLength);
    NamedConcat([line], rest, Host);
    assert GoodLine(([line] + rest)[0], lim);
  }

  /** The fold accepts exactly the terminated blocks whose lines are admissible. */
  lemma {:induction false} FoldAccepts(s: Bytes, f: Fields, lim: Limits)
    ensures FoldFields(s, f, lim).Some? <==> Terminated(s) && Admissible(FieldLines(s), f, lim)
    ensures FoldFields(s, f, lim).Some? ==>
              && SaysFraming(FieldLines(s), f, FoldFields(s, f, lim).value)
              && SaysValues(FieldLines(s), f, FoldFields(s, f, lim).value)
    decreases |s|
  {
    hide IndexByte, ApplyField, SaysFraming, SaysValues, Admissible;
    if s == [] {
      NoLines(f, lim);
    } else {
      var nl := IndexByte(s, LF);
      if nl < 0 {
        LineAccepted(s, f, lim);
        if ApplyField(s, f, lim).Some? {
          LineSaysFraming(s, f, lim);
          LineSaysValues(s, f, lim);
        }
      } else if nl > 0 && s[nl - 1] == CR {
        var line, rest := s[..nl - 1], s[nl + 1..];
        LineAccepted(line, f, lim);
        if ApplyField(line, f, lim).Some? {
          var g := ApplyField(line, f, lim).value;
          LineSaysFraming(line, f, lim);
          LineSaysValues(line, f, lim);
          FoldAccepts(rest, g, lim);
          if Terminated(rest) {
            AdmissibleSplit(line, FieldLines(rest), f, g, lim);
          }
          if FoldFields(rest, g, lim).Some? {
            FramingCompose([line], FieldLines(rest), f, g, FoldFields(rest, g, lim).value);
            ValuesCompose([line], FieldLines(rest), f, g, FoldFields(rest, g, lim).value);
          }
        } else if Terminated(s) && Admissible(FieldLines(s), f, lim) {
          AdmissibleHead(line, FieldLines(rest), f, lim);
        }
      }
    }
  }

  lemma NoLines(f: Fields, lim: Limits)
    ensures Admissible([], f, lim) && SaysFraming([], f, f) && SaysValues([], f, f)
  {
  }

  // ---------------------------------------------------------------- the request line

  /** Three parts with a space between them, of which the first two have none inside. */
  predicate Spaced(line: Bytes, method_: Bytes, target: Bytes, version: Bytes) {
    line == method_ + [SP] + (target + [SP] + version) && SP !in method_ && SP !in target
  }

  lemma IndexIs(s: Bytes, c: Byte, front: Bytes, rest: Bytes)
    requires s == front + [c] + rest && c !in front
    ensures IndexByte(s, c) == |front| && s[..|front|] == front && s[|front| + 1..] == rest
  {
    assert forall k :: 0 <= k < |front| ==> s[k] == front[k];
    IndexByteUnique(s, c, |front|);
  }

  lemma IndexSplits(s: Bytes, c: Byte)
    ensures var i := IndexByte(s, c);
      if i < 0 then c !in s else i < |s| && c !in s[..i] && s == s[..i] + [c] + s[i + 1..]
  {
    IndexByteIsFirst(s, c);
  }

  lemma SliceOfRest(s: Bytes, a: nat, n: nat)
    requires a + n <= |s|
    ensures s[a..][..n] == s[a..a + n] && s[a..][n..] == s[a + n..]
  {
  }

  lemma SpacedParts(line: Bytes, l: RequestLine)
    requires Spaced(line, l.method_, l.target, l.version)
    ensures var n, m := |l.method_|, |l.target|;
      && n < |line| && IndexByte(line, SP) == n && line[..n] == l.method_
      && m < |line[n + 1..]| && IndexByte(line[n + 1..], SP) == m
      && line[n + 1..][..m] == l.target && line[n + 1..][m + 1..] == l.version
  {
    hide IndexByte;
    var rest := l.target + [SP] + l.version;
    IndexIs(line, SP, l.method_, rest);
    IndexIs(rest, SP, l.target, l.version);
  }

  lemma SpacedIsSplit(line: Bytes, l: RequestLine)
    requires Spaced(line, l.method_, l.target, l.version) && l.method_ != [] && l.target != []
    ensures SplitRequestLine(line) == Some(l)
  {
    hide IndexByte, Spaced;
    SpacedParts(line, l);
    SliceOfRest(line, |l.method_| + 1, |l.target|);
    SliceOfRest(line, |l.method_| + 1, |l.target| + 1);
  }

  lemma SplitParts(line: Bytes)
    requires SplitRequestLine(line).Some?
    ensures var l, sp1 := SplitRequestLine(line).value, IndexByte(line, SP);
      && 0 < sp1 < |line| && l.method_ == line[..sp1]
      && var rest := line[sp1 + 1..];
      var sp2 := IndexByte(rest, SP);
      0 < sp2 < |rest| && l.target == rest[..sp2] && l.version == rest[sp2 + 1..]
  {
    hide IndexByte;
    var sp1 := IndexByte(line, SP);
    var sp2 := IndexByte(line[sp1 + 1..], SP);
    SliceOfRest(line, sp1 + 1, sp2);
    SliceOfRest(line, sp1 + 1, sp2 + 1);
  }

  lemma SplitIsSpaced(line: Bytes)
    requires SplitRequestLine(line).Some?
    ensures var l := SplitRequestLine(line).value;
      Spaced(line, l.method_, l.target, l.version) && l.method_ != [] && l.target != []
  {
    hide IndexByte, SplitRequestLine;
    SplitParts(line);
    IndexSplits(line, SP);
    IndexSplits(line[IndexByte(line, SP) + 1..], SP);
  }

  lemma RequestLineExactly(line: Bytes, l: RequestLine)
    ensures SplitRequestLine(line) == Some(l)
      <==> Spaced(line, l.method_, l.target, l.version) && l.method_ != [] && l.target != []
  {
    hide SplitRequestLine, Spaced;
    if SplitRequestLine(line).Some? {
      SplitIsSpaced(line);
    }
    if Spaced(line, l.method_, l.target, l.version) && l.method_ != [] && l.target != [] {
      SpacedIsSplit(line, l);
    }
  }

  /** The query is what follows the first question mark. */
  predicate Target(target: Bytes, path: Bytes, query: Bytes) {
    63 !in path && if 63 in target then target == path + [63] + query else path == target && query == []
  }

  lemma TargetExactly(target: Bytes)
    ensures Target(target, TargetPath(target), TargetQuery(target))
  {
    hide IndexByte;
    IndexSplits(target, 63);
  }

  // ---------------------------------------------------------------- main results

  /** The body length that the lines declare: that of the one Content-Length field, or none. */
  function DeclaredLength(lines: seq<Bytes>): nat {
    if Named(lines, ContentLength) == [] then 0 else LengthOf(Last(Named(lines, ContentLength), []))
  }

  /** Section 9.3: the connection persists unless some Connection field says close; HTTP/1.0 must ask for it. */
  ghost predicate Persists(version: Bytes, lines: seq<Bytes>) {
    && !SomeHasToken(Named(lines, Connection), CLOSE)
    && (RequiresHost(version) || (IsHTTP10(version) && SomeHasToken(Named(lines, Connection), KEEP_ALIVE)))
  }

  /** A head with valid parts whose fields frame exactly one message. */
  ghost predicate WellFramed(block: Bytes, lim: Limits) {
    var lineEnd := IndexByte(block, LF);
    && lineEnd >= 0
    && var l := SplitRequestLine(StripCR(block[..lineEnd]));
    && l.Some? && IsValidRequestLine(l.value)
    && Terminated(FieldBlock(block))
    && var lines := FieldLines(FieldBlock(block));
    && Admissible(lines, NO_FIELDS, lim)
    && Named(lines, TransferEncoding) == []
    && (RequiresHost(l.value.version) ==> |Named(lines, Host)| == 1)
    && DeclaredLength(lines) <= MAX_CONTENT_LENGTH
    && (lim.bodyLimit > 0 ==> DeclaredLength(lines) <= lim.bodyLimit)
  }

  /** The length of the body behind a head. */
  function BodyLength(block: Bytes): nat {
    if Terminated(FieldBlock(block)) then DeclaredLength(FieldLines(FieldBlock(block))) else 0
  }

  ghost predicate HeadPersists(block: Bytes) {
    var lineEnd := IndexByte(block, LF);
    && lineEnd >= 0
    && var l := SplitRequestLine(StripCR(block[..lineEnd]));
    && l.Some? && Terminated(FieldBlock(block)) && Persists(l.value.version, FieldLines(FieldBlock(block)))
  }

  lemma HeadExactly(block: Bytes, lim: Limits)
    ensures ParseHead(block, lim).Some? <==> WellFramed(block, lim)
    ensures WellFramed(block, lim) ==>
      var l := SplitRequestLine(StripCR(block[..IndexByte(block, LF)])).value;
      var lines := FieldLines(FieldBlock(block));
      var h := ParseHead(block, lim).value;
      && h.contentLength == DeclaredLength(lines)
      && (h.request.keepAlive <==> Persists(l.version, lines))
      && Spaced(StripCR(block[..IndexByte(block, LF)]), h.request.method_, l.target, l.version)
      && Target(l.target, h.request.path, h.request.query)
      && h.request.host == Last(Named(lines, Host), [])
      && h.request.contentType == Last(Named(lines, ContentType), [])
      && h.request.cookie == Last(Named(lines, Cookie), [])
      && h.request.accept == Last(Named(lines, Accept), [])
      && h.request.connection == First(Named(lines, Connection), [])
      && h.request.forwardedFor == First(Named(lines, ForwardedFor), [])
      && h.request.realIP == First(Named(lines, RealIP), [])
      && h.request.extra == Others(lines)
  {
    var block' := FieldBlock(block);
    FoldAccepts(block', NO_FIELDS, lim);
    if IndexByte(block, LF) >= 0 && SplitRequestLine(StripCR(block[..IndexByte(block, LF)])).Some? {
      var l := SplitRequestLine(StripCR(block[..IndexByte(block, LF)])).value;
      RequestLineExactly(StripCR(block[..IndexByte(block, LF)]), l);
      TargetExactly(l.target);
    }
    hide Spaced, Target, TargetPath, TargetQuery, IndexByte, StripCR, SplitRequestLine, IsValidRequestLine,
      FieldBlock, FoldFields, Terminated, FieldLines, Named, Others, SomeHasToken, LengthOf, RequiresHost, IsHTTP10,
      GoodLine;
  }

  lemma HeadIs(block: Bytes, lim: Limits)
    ensures ParseHead(block, lim).Some? <==> WellFramed(block, lim)
    ensures WellFramed(block, lim) ==>
      var h := ParseHead(block, lim).value;
      h.contentLength == BodyLength(block) && (h.request.keepAlive <==> HeadPersists(block)) && h.request.body == []
  {
    HeadExactly(block, lim);
    hide Admissible, DeclaredLength, Persists, IndexByte, StripCR, SplitRequestLine, IsValidRequestLine, FieldBlock,
      FoldFields, Terminated, FieldLines, Named;
  }

  /** Which bytes start with a request, how far it reaches, and whether the connection goes on after it. */
  lemma ParseExactly(data: Bytes, lim: Limits)
    ensures var skip := BlankPrefix(data);
      var d := data[skip..];
      var headerEnd := IndexTerminator(d);
      Parse(data, lim).Some? <==>
        && headerEnd >= 0
        && WellFramed(d[..headerEnd + 2], lim)
        && headerEnd + 4 + BodyLength(d[..headerEnd + 2]) <= |d|
    ensures Parse(data, lim).Some? ==>
      var skip := BlankPrefix(data);
      var d := data[skip..];
      var headerEnd := IndexTerminator(d);
      var block := d[..headerEnd + 2];
      var n := BodyLength(block);
      var p := Parse(data, lim).value;
      && p.consumed == skip + headerEnd + 4 + n
      && p.request.body == d[headerEnd + 4..headerEnd + 4 + n]
      && (p.request.keepAlive <==> HeadPersists(block))
  {
    hide IndexTerminator, BlankPrefix, ParseHead, WellFramed, BodyLength, HeadPersists;
    var d := data[BlankPrefix(data)..];
    if IndexTerminator(d) >= 0 {
      HeadIs(d[..IndexTerminator(d) + 2], lim);
    }
  }
}
