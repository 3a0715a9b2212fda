/** The request parser of wing_http.go: a request line, field lines, and a body of Content-Length bytes. */
module HttpParser {
  import opened Bytes
  import opened Options

  const MAX_CONTENT_LENGTH: nat := 10485760

  // The names and directives that the parser looks for, in ASCII.
  const HOST: Bytes := [104, 111, 115, 116]
  const COOKIE: Bytes := [99, 111, 111, 107, 105, 101]
  const ACCEPT: Bytes := [97, 99, 99, 101, 112, 116]
  const X_REAL_IP: Bytes := [120, 45, 114, 101, 97, 108, 45, 105, 112]
  const X_FORWARDED_FOR: Bytes := [120, 45, 102, 111, 114, 119, 97, 114, 100, 101, 100, 45, 102, 111, 114]
  const CONNECTION: Bytes := [99, 111, 110, 110, 101, 99, 116, 105, 111, 110]
  const CONTENT_TYPE: Bytes := [99, 111, 110, 116, 101, 110, 116, 45, 116, 121, 112, 101]
  const CONTENT_LENGTH: Bytes := [99, 111, 110, 116, 101, 110, 116, 45, 108, 101, 110, 103, 116, 104]
  const TRANSFER_ENCODING: Bytes := [116, 114, 97, 110, 115, 102, 101, 114, 45, 101, 110, 99, 111, 100, 105, 110, 103]
  const CLOSE: Bytes := [99, 108, 111, 115, 101]
  const KEEP_ALIVE: Bytes := [107, 101, 101, 112, 45, 97, 108, 105, 118, 101]

  /** A limit that is not positive is off. */
  datatype Limits = Limits(maxHeaderCount: int, maxHeaderSize: int, bodyLimit: int)

  datatype Field =
    | OtherField
    | ContentLength
    | ContentType
    | Connection
    | TransferEncoding
    | Cookie
    | Host
    | Accept
    | ForwardedFor
    | RealIP

  function KnownHeader(key: Bytes): Field {
    if EqualFold(key, HOST) then Host
    else if EqualFold(key, COOKIE) then Cookie
    else if EqualFold(key, ACCEPT) then Accept
    else if EqualFold(key, X_REAL_IP) then RealIP
    else if EqualFold(key, X_FORWARDED_FOR) then ForwardedFor
    else if EqualFold(key, CONNECTION) then Connection
    else if EqualFold(key, CONTENT_TYPE) then ContentType
    else if EqualFold(key, CONTENT_LENGTH) then ContentLength
    else if EqualFold(key, TRANSFER_ENCODING) then TransferEncoding
    else OtherField
  }

  predicate IsAlphanumeric(c: Byte) {
    IsDigit(c) || 65 <= c <= 90 || 97 <= c <= 122
  }

  // ! # $ % & ' * + - . ^ _ ` | ~
  const TOKEN_MARKS: set<Byte> := {33, 35, 36, 37, 38, 39, 42, 43, 45, 46, 94, 95, 96, 124, 126}
  // ! $ % & ' ( ) * + , - . : ; = [ ] _ ~
  const HOST_MARKS: set<Byte> := {33, 36, 37, 38, 39, 40, 41, 42, 43, 44, 45, 46, 58, 59, 61, 91, 93, 95, 126}

  predicate IsTokenByte(c: Byte) {
    IsAlphanumeric(c) || c in TOKEN_MARKS
  }

  predicate IsToken(name: Bytes) {
    name != [] && forall i :: 0 <= i < |name| ==> IsTokenByte(name[i])
  }

  /** A control byte other than HTAB. */
  predicate IsControl(c: Byte) {
    c != HTAB && (c < 0x20 || c == 0x7f)
  }

  predicate HasInvalidValueByte(b: Bytes) {
    exists i :: 0 <= i < |b| && IsControl(b[i])
  }

  predicate IsValidHost(host: Bytes) {
    forall i :: 0 <= i < |host| ==>
      IsAlphanumeric(host[i]) || host[i] in HOST_MARKS
  }

  predicate IsValidVersion(v: Bytes) {
    |v| == 8 && v[..5] == [72, 84, 84, 80, 47] && IsDigit(v[5]) && v[6] == 46 && IsDigit(v[7])
  }

  predicate RequiresHost(v: Bytes) {
    |v| == 8 && (v[5] > 49 || (v[5] == 49 && v[7] >= 49))
  }

  predicate IsHTTP10(v: Bytes) {
    |v| == 8 && v[5] == 49 && v[7] == 48
  }

  // ---------------------------------------------------------------- field values

  /** Does the comma-separated list `value` hold `token`, up to case? */
  predicate HasListToken(value: Bytes, token: Bytes)
    decreases |value|
  {
    var comma := IndexByte(value, 44);
    var item := Trim(if comma >= 0 then value[..comma] else value);
    EqualFold(item, token) || (comma >= 0 && HasListToken(value[comma + 1..], token))
  }

  /** The length of an item rules out all but one of the directives. */
  lemma DirectiveLength(item: Bytes)
    ensures EqualFold(item, CLOSE) ==> |item| == 5
    ensures EqualFold(item, KEEP_ALIVE) ==> |item| == 10
  {
  }

  lemma ListStep(value: Bytes, token: Bytes)
    ensures var comma := IndexByte(value, 44);
      HasListToken(value, token)
      == (EqualFold(Trim(if comma >= 0 then value[..comma] else value), token)
          || (comma >= 0 && HasListToken(value[comma + 1..], token)))
  {
    hide IndexByte, Trim, EqualFold;
  }

  /** Scans until both directives are found or the list ends. */
  method ScanConnectionTokens(value: Bytes) returns (hasClose: bool, hasKeepAlive: bool)
    ensures hasClose == HasListToken(value, CLOSE)
    ensures hasKeepAlive == HasListToken(value, KEEP_ALIVE)
  {
    hide IndexByte, Trim, Trimmed, EqualFold, HasListToken;
    hasClose, hasKeepAlive := false, false;
    var rest := value;
    while true
      invariant HasListToken(value, CLOSE) == (hasClose || HasListToken(rest, CLOSE))
      invariant HasListToken(value, KEEP_ALIVE) == (hasKeepAlive || HasListToken(rest, KEEP_ALIVE))
      decreases |rest|
    {
      var comma := IndexByte(rest, 44);
      ListStep(rest, CLOSE);
      ListStep(rest, KEEP_ALIVE);
      var token := TrimHTTPSpaces(if comma >= 0 then rest[..comma] else rest);
      DirectiveLength(token);
      if |token| == 5 {
        hasClose := hasClose || EqualFold(token, CLOSE);
      } else if |token| == 10 {
        hasKeepAlive := hasKeepAlive || EqualFold(token, KEEP_ALIVE);
      }
      if (hasClose && hasKeepAlive) || comma < 0 {
        return;
      }
      rest := rest[comma + 1..];
    }
  }

  function DigitPrefix(b: Bytes): (r: Bytes)
    ensures r <= b && forall i :: 0 <= i < |r| ==> IsDigit(r[i])
    ensures |r| < |b| ==> !IsDigit(b[|r|])
  {
    if b == [] || !IsDigit(b[0]) then []
    else
      var r := DigitPrefix(b[1..]);
      assert forall i {:trigger ([b[0]] + r)[i]} :: 1 <= i <= |r| ==> ([b[0]] + r)[i] == r[i - 1];
      [b[0]] + r
  }

  /** Values above the maximum collapse to one past it. */
  function Saturate(n: nat): (r: nat) {
    if n > MAX_CONTENT_LENGTH then MAX_CONTENT_LENGTH + 1 else n
  }

  lemma {:induction false} DecimalMonotone(s: Bytes, n: nat)
    requires n <= |s| && forall i :: 0 <= i < |s| ==> IsDigit(s[i])
    ensures Decimal(s[..n]) <= Decimal(s)
  {
    if n < |s| {
      DecimalMonotone(s[..|s| - 1], n);
      assert s[..|s| - 1][..n] == s[..n];
    } else {
      assert s[..n] == s;
    }
  }

  /** Go's int on 64 bits. */
  newtype Int64 = x: int | -0x8000_0000_0000_0000 <= x < 0x8000_0000_0000_0000

  /** Digit by digit, giving up before the accumulator can pass the maximum, so it never overflows. */
  method Btoi(b: Bytes) returns (length: nat)
    ensures length == Saturate(Decimal(DigitPrefix(b)))
  {
    var n: Int64 := 0;
    var i := 0;
    ghost var digits := DigitPrefix(b);
    while i < |b| && IsDigit(b[i])
      invariant 0 <= i <= |digits|
      invariant n as int == Decimal(digits[..i]) <= MAX_CONTENT_LENGTH
    {
      assert i < |digits| && digits[i] == b[i];
      assert digits[..i + 1][..i] == digits[..i];
      DecimalMonotone(digits, i + 1);
      if n > (MAX_CONTENT_LENGTH / 10) as Int64 {
        return MAX_CONTENT_LENGTH + 1;
      }
      n := n * 10 + Digit(b[i]) as Int64;
      if n > MAX_CONTENT_LENGTH as Int64 {
        return MAX_CONTENT_LENGTH + 1;
      }
      i := i + 1;
    }
    assert digits[..i] == digits;
    length := n as nat;
  }

  lemma DigitPrefixOfDigits(b: Bytes)
    requires forall i :: 0 <= i < |b| ==> IsDigit(b[i])
    ensures DigitPrefix(b) == b
  {
  }

  // ---------------------------------------------------------------- field lines

  /** What the field lines read so far have said. */
  datatype Fields = Fields(
    count: nat,
    contentLengthSeen: bool, contentLength: nat, transferEncoding: bool,
    hostSeen: bool, host: Bytes,
    connectionSeen: bool, connection: Bytes, close: bool, keepAlive: bool,
    forwardedForSeen: bool, forwardedFor: Bytes, realIPSeen: bool, realIP: Bytes,
    contentType: Bytes, cookie: Bytes, accept: Bytes,
    extra: seq<(Bytes, Bytes)>)

  const NO_FIELDS := Fields(0, false, 0, false, false, [], false, [], false, false,
                            false, [], false, [], [], [], [], [])

  /** Records one field whose name has been recognised. */
  function Store(kind: Field, name: Bytes, val: Bytes, f: Fields): Option<Fields> {
    match kind
    case ContentLength =>
      if f.contentLengthSeen || !AllDigits(val) then None
      else Some(f.(contentLengthSeen := true, contentLength := Saturate(Decimal(val))))
    case ContentType => Some(f.(contentType := val))
    case Connection =>
      Some(f.(close := f.close || HasListToken(val, CLOSE),
              keepAlive := f.keepAlive || HasListToken(val, KEEP_ALIVE),
              connectionSeen := true,
              connection := if f.connectionSeen then f.connection else val))
    case TransferEncoding => Some(f.(transferEncoding := true))
    case Cookie => Some(f.(cookie := val))
    case Host =>
      if f.hostSeen || !IsValidHost(val) then None
      else Some(f.(hostSeen := true, host := val))
    case Accept => Some(f.(accept := val))
    case ForwardedFor =>
      Some(if f.forwardedForSeen then f else f.(forwardedForSeen := true, forwardedFor := val))
    case RealIP =>
      Some(if f.realIPSeen then f else f.(realIPSeen := true, realIP := val))
    case OtherField => Some(f.(extra := f.extra + [(Lower(name), val)]))
  }

  /** One field line, without its line terminator. */
  function ApplyField(line: Bytes, f: Fields, lim: Limits): Option<Fields> {
    var colon := IndexByte(line, 58);
    if line != [] && IsBlank(line[0]) then None
    else if colon < 0 then None
    else if lim.maxHeaderCount > 0 && f.count + 1 > lim.maxHeaderCount then None
    else if lim.maxHeaderSize > 0 && |line| > lim.maxHeaderSize then None
    else
      var key, val := line[..colon], Trim(line[colon + 1..]);
      if key != [] && IsBlank(key[|key| - 1]) then None
      else if HasInvalidValueByte(val) then None
      else if KnownHeader(key) != OtherField then Store(KnownHeader(key), key, val, f.(count := f.count + 1))
      else if !IsToken(Trim(key)) then None
      else Store(KnownHeader(Trim(key)), Trim(key), val, f.(count := f.count + 1))
  }

  method ReadField(line: Bytes, f: Fields, lim: Limits) returns (r: Option<Fields>)
    ensures r == ApplyField(line, f, lim)
  {
    hide IndexByte, Trim, Trimmed, KnownHeader, IsToken, HasInvalidValueByte, Store;
    if line != [] && IsBlank(line[0]) {
      return None;
    }
    var colon := IndexByte(line, 58);
    if colon < 0 {
      return None;
    }
    if lim.maxHeaderCount > 0 && f.count + 1 > lim.maxHeaderCount {
      return None;
    }
    if lim.maxHeaderSize > 0 && |line| > lim.maxHeaderSize {
      return None;
    }
    var key := line[..colon];
    var val := TrimHTTPSpaces(line[colon + 1..]);
    if key != [] && IsBlank(key[|key| - 1]) {
      return None;
    }
    if HasInvalidValueByte(val) {
      return None;
    }
    if KnownHeader(key) == OtherField {
      key := TrimHTTPSpaces(key);
      if !IsToken(key) {
        return None;
      }
    }
    r := StoreField(KnownHeader(key), key, val, f.(count := f.count + 1));
  }

  method StoreField(kind: Field, name: Bytes, val: Bytes, f: Fields) returns (r: Option<Fields>)
    ensures r == Store(kind, name, val, f)
  {
    match kind {
      case ContentLength =>
        if f.contentLengthSeen || !AllDigits(val) {
          return None;
        }
        DigitPrefixOfDigits(val);
        var n := Btoi(val);
        return Some(f.(contentLengthSeen := true, contentLength := n));
      case Connection =>
        var hasClose, hasKeepAlive := ScanConnectionTokens(val);
        var g := f.(close := f.close || hasClose, keepAlive := f.keepAlive || hasKeepAlive);
        if !g.connectionSeen {
          g := g.(connectionSeen := true, connection := val);
        }
        return Some(g);
      case _ =>
        return Store(kind, name, val, f);
    }
  }

  /** All the field lines of `s`, a header block without its closing empty line. A line that LF ends must
      have CR before it; the last line, whose CR LF the block no longer holds, must have no CR at all. */
  function FoldFields(s: Bytes, f: Fields, lim: Limits): Option<Fields>
    decreases |s|
  {
    if s == [] then Some(f)
    else
      var nl := IndexByte(s, LF);
      if nl < 0 then
        if CR in s then None else ApplyField(s, f, lim)
      else if nl == 0 || s[nl - 1] != CR then None
      else
        match ApplyField(s[..nl - 1], f, lim)
        case None => None
        case Some(g) => FoldFields(s[nl + 1..], g, lim)
  }

  // ---------------------------------------------------------------- request line

  datatype RequestLine = RequestLine(method_: Bytes, target: Bytes, version: Bytes)

  /** A request line split at its first two spaces, before any check of the parts. */
  function SplitRequestLine(line: Bytes): Option<RequestLine> {
    var sp1 := IndexByte(line, SP);
    if sp1 <= 0 then None
    else
      var sp2 := IndexByte(line[sp1 + 1..], SP);
      if sp2 <= 0 then None
      else Some(RequestLine(line[..sp1], line[sp1 + 1..sp1 + 1 + sp2], line[sp1 + sp2 + 2..]))
  }

  function StripCR(line: Bytes): Bytes {
    if line != [] && line[|line| - 1] == CR then line[..|line| - 1] else line
  }

  predicate IsValidRequestLine(l: RequestLine) {
    && IsValidVersion(l.version)
    && IsToken(l.method_)
    && l.target != [] && (l.target[0] == 47 || l.target == [42])
  }

  function TargetPath(target: Bytes): Bytes {
    var q := IndexByte(target, 63);
    if q >= 0 then target[..q] else target
  }

  function TargetQuery(target: Bytes): Bytes {
    var q := IndexByte(target, 63);
    if q >= 0 then target[q + 1..] else []
  }

  // ---------------------------------------------------------------- whole requests

  datatype Request = Request(
    method_: Bytes, path: Bytes, query: Bytes, body: Bytes, keepAlive: bool,
    contentType: Bytes, cookie: Bytes, host: Bytes, accept: Bytes, connection: Bytes,
    forwardedFor: Bytes, realIP: Bytes, extra: seq<(Bytes, Bytes)>)

  /** A request whose header block is known, still without its body. */
  datatype Head = Head(request: Request, contentLength: nat)

  datatype Parsed = Parsed(request: Request, consumed: nat)

  /** The checks that need every field, in the parser's order. */
  function Finish(l: RequestLine, f: Fields, lim: Limits): Option<Head> {
    if RequiresHost(l.version) && !f.hostSeen then None
    else if f.transferEncoding then None
    else if f.contentLength > MAX_CONTENT_LENGTH then None
    else if f.contentLength > 0 && lim.bodyLimit > 0 && f.contentLength > lim.bodyLimit then None
    else
      var keepAlive := !f.close && (RequiresHost(l.version) || (IsHTTP10(l.version) && f.keepAlive));
      Some(Head(Request(l.method_, TargetPath(l.target), TargetQuery(l.target), [], keepAlive,
                        f.contentType, f.cookie, f.host, f.accept, f.connection,
                        f.forwardedFor, f.realIP, f.extra),
                f.contentLength))
  }

  /** A header block up to and including the CR LF that ends its last line. */
  function ParseHead(block: Bytes, lim: Limits): Option<Head> {
    var lineEnd := IndexByte(block, LF);
    if lineEnd < 0 then None
    else
      match SplitRequestLine(StripCR(block[..lineEnd]))
      case None => None
      case Some(l) =>
        if !IsValidRequestLine(l) then None
        else
          match FoldFields(FieldBlock(block), NO_FIELDS, lim)
          case None => None
          case Some(f) => Finish(l, f, lim)
  }

  /** The field lines of a header block, without the CR LF after the last of them. */
  function FieldBlock(block: Bytes): Bytes {
    var lineEnd := IndexByte(block, LF);
    if 0 <= lineEnd && lineEnd + 3 <= |block| then block[lineEnd + 1..|block| - 2] else []
  }

  /** The first request of `data`, or None when it is malformed, over a limit or not complete. */
  function Parse(data: Bytes, lim: Limits): (r: Option<Parsed>)
    ensures r.Some? ==> 4 <= r.value.consumed <= |data|
  {
    var skip := BlankPrefix(data);
    var d := data[skip..];
    var headerEnd := IndexTerminator(d);
    if headerEnd < 0 then None
    else
      match ParseHead(d[..headerEnd + 2], lim)
      case None => None
      case Some(h) =>
        var bodyStart := headerEnd + 4;
        if bodyStart + h.contentLength > |d| then None
        else Some(Parsed(h.request.(body := d[bodyStart..bodyStart + h.contentLength]),
                         skip + bodyStart + h.contentLength))
  }

  /** The parser looks for its parts in all the data; they are parts of the header block. */
  lemma BlockParts(d: Bytes, headerEnd: nat)
    requires TerminatorAt(d, headerEnd)
    ensures var lineEnd := IndexByte(d, LF);
      && 0 <= lineEnd <= headerEnd + 1
      && IndexByte(d[..headerEnd + 2], LF) == lineEnd
      && d[..headerEnd + 2][..lineEnd] == d[..lineEnd]
      && FieldBlock(d[..headerEnd + 2]) == if lineEnd < headerEnd then d[lineEnd + 1..headerEnd] else []
  {
    var block := d[..headerEnd + 2];
    assert block[headerEnd + 1] == LF;
    IndexByteIsFirst(block, LF);
    IndexByteIsFirst(d, LF);
    var i, j := IndexByte(block, LF), IndexByte(d, LF);
    assert block[i] == d[i];
    assert j <= i;
    assert block[j] == d[j];
    if j < headerEnd {
      assert block[j + 1..|block| - 2] == d[j + 1..headerEnd];
    }
  }

  method SkipEmptyLines(input: Bytes) returns (skip: nat)
    ensures skip == BlankPrefix(input)
  {
    skip := 0;
    while CRLFAt(input, skip)
      invariant 0 <= skip <= |input| && BlankFrom(input, skip) == BlankPrefix(input)
      decreases |input| - skip
    {
      skip := skip + 2;
    }
  }

  method ParseHTTPRequest(input: Bytes, lim: Limits) returns (r: Option<Parsed>)
    ensures r == Parse(input, lim)
  {
    hide BlankPrefix, IndexByte, IndexTerminator, FieldBlock, SplitRequestLine, IsValidRequestLine, FoldFields,
      Finish;
    var skip := SkipEmptyLines(input);
    var data := input[skip..];

    var headerEnd := IndexTerminator(data);
    if headerEnd < 0 {
      return None;
    }
    var bodyStart := headerEnd + 4;
    BlockParts(data, headerEnd);

    var lineEnd := IndexByte(data, LF);
    var line := data[..lineEnd];
    if line != [] && line[|line| - 1] == CR {
      line := line[..|line| - 1];
    }
    ghost var block := data[..headerEnd + 2];
    assert line == StripCR(block[..IndexByte(block, LF)]);
    var split := SplitRequestLine(line);
    if split.None? || !IsValidRequestLine(split.value) {
      return None;
    }

    var fields := ReadFields(data, lineEnd + 1, headerEnd, lim);
    if fields.None? {
      return None;
    }
    r := FinishRequest(split.value, fields.value, lim, data, bodyStart, skip);
  }

  /** The field lines between the request line and the terminator. */
  method ReadFields(data: Bytes, start: nat, headerEnd: nat, lim: Limits) returns (r: Option<Fields>)
    requires 0 < start <= |data| && headerEnd <= |data| && data[start - 1] == LF
    ensures r == FoldFields(if start < headerEnd + 1 then data[start..headerEnd] else [], NO_FIELDS, lim)
  {
    hide IndexByte, ApplyField;
    var f := NO_FIELDS;
    var pos := start;
    while pos < headerEnd
      invariant start <= pos <= |data| && data[pos - 1] == LF
      invariant start <= headerEnd ==> pos <= headerEnd
      invariant start <= headerEnd ==>
        FoldFields(data[start..headerEnd], NO_FIELDS, lim) == FoldFields(data[pos..headerEnd], f, lim)
      invariant start > headerEnd ==> f == NO_FIELDS
    {
      ghost var window := data[pos..headerEnd];
      var nl := IndexByte(data[pos..headerEnd], LF);
      var hline: Bytes;
      if nl < 0 {
        hline := data[pos..headerEnd];
        IndexByteIsFirst(hline, CR);
        if IndexByte(hline, CR) >= 0 {
          return None;
        }
        pos := headerEnd;
      } else {
        assert data[pos + nl] == window[nl];
        assert nl > 0 ==> data[pos + nl - 1] == window[nl - 1];
        if data[pos + nl - 1] != CR {
          return None;
        }
        hline := data[pos..pos + nl - 1];
        assert hline == window[..nl - 1];
        assert window[nl + 1..] == data[pos + nl + 1..headerEnd];
        pos := pos + nl + 1;
      }
      var g := ReadField(hline, f, lim);
      if g.None? {
        return None;
      }
      f := g.value;
      if nl < 0 {
        return Some(f);
      }
    }
    r := Some(f);
  }

  method FinishRequest(l: RequestLine, f: Fields, lim: Limits, data: Bytes, bodyStart: nat, skip: nat)
      returns (r: Option<Parsed>)
    requires bodyStart <= |data|
    ensures r == match Finish(l, f, lim)
                 case None => None
                 case Some(h) =>
                   if bodyStart + h.contentLength > |data| then None
                   else Some(Parsed(h.request.(body := data[bodyStart..bodyStart + h.contentLength]),
                                    skip + bodyStart + h.contentLength))
  {
    if RequiresHost(l.version) && !f.hostSeen {
      return None;
    }
    var keepAlive := !f.close && (RequiresHost(l.version) || (IsHTTP10(l.version) && f.keepAlive));
    if f.transferEncoding && f.contentLengthSeen {
      return None;
    }
    if f.transferEncoding {
      return None;
    }
    if f.contentLength > MAX_CONTENT_LENGTH {
      return None;
    }
    var path, query := l.target, [];
    var q := IndexByte(l.target, 63);
    if q >= 0 {
      path, query := l.target[..q], l.target[q + 1..];
    }
    var body: Bytes := [];
    if f.contentLength > 0 {
      if lim.bodyLimit > 0 && f.contentLength > lim.bodyLimit {
        return None;
      }
      if bodyStart + f.contentLength > |data| {
        return None;
      }
      body := data[bodyStart..bodyStart + f.contentLength];
    }
    assert body == data[bodyStart..bodyStart + f.contentLength];
    return Some(Parsed(Request(l.method_, path, query, body, keepAlive,
                               f.contentType, f.cookie, f.host, f.accept, f.connection,
                               f.forwardedFor, f.realIP, f.extra),
                       skip + bodyStart + f.contentLength));
  }
}
