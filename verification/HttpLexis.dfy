/** The words and classes of bytes that the HTTP readers look for, spelled out as text (RFC 9110 and RFC 9112), and what
    it is to look for them whatever the case of letters. */
module HttpLexis {
  import opened Bytes
  import opened Options
  import opened HttpParser
  import opened HttpClassifier
  import opened HttpFraming

  // ---------------------------------------------------------------- the case of letters

  predicate IsUpper(c: Byte) { Char(c) in "ABCDEFGHIJKLMNOPQRSTUVWXYZ" }

  predicate IsLower(c: Byte) { Char(c) in "abcdefghijklmnopqrstuvwxyz" }

  /** One byte, or one letter in two cases, which are 32 apart. */
  predicate SameLetter(a: Byte, b: Byte) {
    || a == b
    || (IsUpper(a) && IsLower(b) && b as int - a as int == 32)
    || (IsLower(a) && IsUpper(b) && a as int - b as int == 32)
  }

  predicate SameLetters(a: Bytes, b: Bytes) {
    |a| == |b| && forall i :: 0 <= i < |a| ==> SameLetter(a[i], b[i])
  }

  lemma Letters(c: Byte)
    ensures IsUpper(c) <==> 65 <= c <= 90
    ensures IsLower(c) <==> 97 <= c <= 122
  {
  }

  lemma FoldIsSameLetter(a: Byte, b: Byte)
    ensures LowerByte(a) == LowerByte(b) <==> SameLetter(a, b)
  {
    hide IsUpper, IsLower;
    Letters(a);
    Letters(b);
  }

  /** Comparing without case. */
  lemma FoldIsSameLetters(a: Bytes, b: Bytes)
    ensures EqualFold(a, b) <==> SameLetters(a, b)
  {
    hide LowerByte, SameLetter;
    forall i | 0 <= i < |a| && |a| == |b| ensures LowerByte(a[i]) == LowerByte(b[i]) <==> SameLetter(a[i], b[i]) {
      FoldIsSameLetter(a[i], b[i]);
    }
  }

  lemma LowerLetter(c: Byte)
    ensures SameLetter(LowerByte(c), c) && !IsUpper(LowerByte(c))
  {
    hide IsUpper, IsLower;
    Letters(c);
    Letters(LowerByte(c));
  }

  /** The lower-case form: the same letters, none of them a capital. */
  lemma LowerExactly(s: Bytes, t: Bytes)
    ensures t == Lower(s) <==> SameLetters(t, s) && forall i :: 0 <= i < |t| ==> !IsUpper(t[i])
  {
    hide SameLetter, LowerByte, IsUpper, IsLower;
    forall i | 0 <= i < |s| ensures SameLetter(Lower(s)[i], s[i]) && !IsUpper(Lower(s)[i]) {
      LowerLetter(s[i]);
    }
    if SameLetters(t, s) && forall i :: 0 <= i < |t| ==> !IsUpper(t[i]) {
      forall i | 0 <= i < |t| ensures t[i] == Lower(s)[i] {
        assert SameLetter(t[i], s[i]) && !IsUpper(t[i]);
        OnlyLower(t[i], s[i]);
      }
    }
  }

  lemma OnlyLower(c: Byte, d: Byte)
    requires SameLetter(c, d) && !IsUpper(c)
    ensures c == LowerByte(d)
  {
    hide IsUpper, IsLower;
    Letters(c);
    Letters(d);
  }

  // ---------------------------------------------------------------- names and directives

  lemma ShortWords()
    ensures HOST == Ascii("host") && COOKIE == Ascii("cookie") && ACCEPT == Ascii("accept")
    ensures CLOSE == Ascii("close") && KEEP_ALIVE == Ascii("keep-alive") && EXPECT == Ascii("expect")
  {
  }

  lemma LongWords()
    ensures X_REAL_IP == Ascii("x-real-ip") && X_FORWARDED_FOR == Ascii("x-forwarded-for")
    ensures CONTENT_TYPE == Ascii("content-type") && CONTINUE_100 == Ascii("100-continue")
  {
  }

  lemma FramingWords()
    ensures CONNECTION == Ascii("connection") && CONTENT_LENGTH == Ascii("content-length")
    ensures TRANSFER_ENCODING == Ascii("transfer-encoding")
  {
  }

  /** Each kind of field has one name, in any case. */
  function NameOf(kind: Field): Bytes
    requires kind != OtherField
  {
    match kind
    case Host => Ascii("host")
    case Cookie => Ascii("cookie")
    case Accept => Ascii("accept")
    case RealIP => Ascii("x-real-ip")
    case ForwardedFor => Ascii("x-forwarded-for")
    case Connection => Ascii("connection")
    case ContentType => Ascii("content-type")
    case ContentLength => Ascii("content-length")
    case TransferEncoding => Ascii("transfer-encoding")
  }

  lemma KnownHeaderExactly(key: Bytes, kind: Field)
    requires kind != OtherField
    ensures KnownHeader(key) == kind <==> SameLetters(key, NameOf(kind))
  {
    hide Ascii, SameLetters, EqualFold;
    ShortWords();
    LongWords();
    FramingWords();
    FoldIsSameLetters(key, NameOf(kind));
    NamesDiffer(key);
  }

  lemma NamesDiffer(key: Bytes)
    ensures EqualFold(key, HOST) ==> |key| == 4
    ensures EqualFold(key, COOKIE) ==> |key| == 6 && LowerByte(key[0]) == 99
    ensures EqualFold(key, ACCEPT) ==> |key| == 6 && LowerByte(key[0]) == 97
    ensures EqualFold(key, X_REAL_IP) ==> |key| == 9
    ensures EqualFold(key, X_FORWARDED_FOR) ==> |key| == 15
    ensures EqualFold(key, CONNECTION) ==> |key| == 10
    ensures EqualFold(key, CONTENT_TYPE) ==> |key| == 12
    ensures EqualFold(key, CONTENT_LENGTH) ==> |key| == 14
    ensures EqualFold(key, TRANSFER_ENCODING) ==> |key| == 17
  {
  }

  // ---------------------------------------------------------------- classes of bytes

  predicate IsLetter(c: Byte) { IsUpper(c) || IsLower(c) }

  /** section 5.6 of RFC 9110 */
  lemma BytesExactly(c: Byte)
    ensures IsDigit(c) <==> Char(c) in "0123456789"
    ensures IsBlank(c) <==> Char(c) in " \t"
    ensures IsTokenByte(c) <==> IsLetter(c) || IsDigit(c) || Char(c) in "!#$%&'*+-.^_`|~"
  {
    hide IsUpper, IsLower;
    Letters(c);
  }

  lemma HostBytesExactly(host: Bytes)
    ensures IsValidHost(host) <==>
      forall i :: 0 <= i < |host| ==> IsLetter(host[i]) || IsDigit(host[i]) || Char(host[i]) in "!$%&'()*+,-.:;=[]_~"
  {
    forall i | 0 <= i < |host|
      ensures IsAlphanumeric(host[i]) || host[i] in HOST_MARKS
        <==> IsLetter(host[i]) || IsDigit(host[i]) || Char(host[i]) in "!$%&'()*+,-.:;=[]_~"
    {
      HostByte(host[i]);
    }
  }

  lemma HostByte(c: Byte)
    ensures IsAlphanumeric(c) || c in HOST_MARKS <==> IsLetter(c) || IsDigit(c) || Char(c) in "!$%&'()*+,-.:;=[]_~"
  {
    hide IsUpper, IsLower;
    Letters(c);
  }

  /** A decimal digit. */
  function Numeral(n: nat): Byte
    requires n < 10
  {
    Ascii("0123456789")[n]
  }

  lemma NumeralExactly(n: nat)
    requires n < 10
    ensures IsDigit(Numeral(n)) && Digit(Numeral(n)) == n
  {
  }

  function Version(major: nat, minor: nat): Bytes
    requires major < 10 && minor < 10
  {
    Ascii("HTTP/") + [Numeral(major)] + Ascii(".") + [Numeral(minor)]
  }

  /** The versions of HTTP, and what they ask for: a Host from 1.1 on; at 1.0 a connection may be asked to persist. */
  lemma VersionExactly(v: Bytes)
    ensures IsValidVersion(v) <==>
      exists major: nat, minor: nat :: major < 10 && minor < 10 && v == Version(major, minor)
    ensures forall major: nat, minor: nat :: major < 10 && minor < 10 && v == Version(major, minor) ==>
      (RequiresHost(v) <==> 10 * major + minor >= 11) && (IsHTTP10(v) <==> 10 * major + minor == 10)
  {
    hide Numeral;
    if IsValidVersion(v) {
      NumeralExactly(Digit(v[5]));
      NumeralExactly(Digit(v[7]));
      assert v == Version(Digit(v[5]), Digit(v[7]));
    }
    forall major: nat, minor: nat | major < 10 && minor < 10 && v == Version(major, minor)
      ensures IsValidVersion(v)
      ensures (RequiresHost(v) <==> 10 * major + minor >= 11) && (IsHTTP10(v) <==> 10 * major + minor == 10)
    {
      NumeralExactly(major);
      NumeralExactly(minor);
      VersionBytes(major, minor);
    }
  }

  lemma VersionBytes(major: nat, minor: nat)
    requires major < 10 && minor < 10
    ensures var v := Version(major, minor);
      |v| == 8 && v[..5] == [72, 84, 84, 80, 47] && v[5] == Numeral(major) && v[6] == 46 && v[7] == Numeral(minor)
  {
    hide Numeral;
  }

  // ---------------------------------------------------------------- lists

  /** It is the token, in any case and with blanks around it. */
  ghost predicate Says(item: Bytes, token: Bytes) {
    exists r :: Trimmed(item, r) && SameLetters(r, token)
  }

  lemma SaysExactly(item: Bytes, token: Bytes)
    ensures Says(item, token) <==> EqualFold(Trim(item), token)
  {
    hide Trim, Trimmed, SameLetters, EqualFold;
    TrimExactly(item, Trim(item));
    FoldIsSameLetters(Trim(item), token);
    forall r | Trimmed(item, r) ensures r == Trim(item) {
      TrimExactly(item, r);
    }
  }

  lemma Comma()
    ensures Ascii(",")[0] == 44
  {
  }

  ghost predicate SomeElementSays(value: Bytes, token: Bytes) {
    exists lo: nat, hi: nat :: Element(value, Ascii(",")[0], lo, hi) && Says(value[lo..hi], token)
  }

  /** The token is looked for among all the elements of the list. */
  lemma {:induction false} ListTokenExactly(value: Bytes, token: Bytes)
    ensures HasListToken(value, token) <==> SomeElementSays(value, token)
    decreases |value|
  {
    hide HasListToken, Says, IndexByte, Trim, EqualFold, Ascii;
    ListStep(value, token);
    var comma: Byte := 44;
    assert Ascii(",")[0] == comma by { Comma(); }
    var n, rest := FirstElement(value, comma);
    SaysExactly(value[0..n], token);
    assert value[0..n] == value[..n] && value[..|value|] == value;
    if n < |value| {
      ListTokenExactly(rest, token);
      if SomeElementSays(rest, token) {
        var lo: nat, hi: nat :| Element(rest, comma, lo, hi) && Says(rest[lo..hi], token);
        LaterElement(value, comma, n + 1 + lo, n + 1 + hi);
      }
    }
    if SomeElementSays(value, token) {
      var lo: nat, hi: nat :| Element(value, comma, lo, hi) && Says(value[lo..hi], token);
      LaterElement(value, comma, lo, hi);
      if lo > 0 {
        assert Element(rest, comma, lo - n - 1, hi - n - 1);
      }
    }
  }

  // ---------------------------------------------------------------- lines

  /** A field line: the name is what stands before the first colon. */
  lemma FieldLineExactly(name: Bytes, rest: Bytes)
    requires Ascii(":")[0] !in name
    ensures var line := name + Ascii(":") + rest; Name(line) == name && Trimmed(rest, Value(line))
  {
    hide IndexByte, Trim, Trimmed;
    var line := name + Ascii(":") + rest;
    assert Ascii(":") == [58];
    IndexIs(line, 58, name, rest);
    TrimExactly(rest, Trim(rest));
  }

  /** A request line is good if its method is a token and its target is a path, or a star. */
  lemma RequestLineGood(l: RequestLine)
    ensures IsValidRequestLine(l) <==>
      IsValidVersion(l.version) && IsToken(l.method_) && (Ascii("/") <= l.target || l.target == Ascii("*"))
  {
    hide IsToken, IsValidVersion;
    assert Ascii("/") == [47] && Ascii("*") == [42];
  }

  lemma Ends()
    ensures Ascii("\r\n") == [CR, LF] && Ascii(" ") == [SP] && Ascii("?") == [63]
  {
  }

  // ---------------------------------------------------------------- names in any case

  /** Two field lines that differ at most in the case of letters of the name. */
  predicate SameButCase(a: Bytes, b: Bytes) {
    SameLetters(Name(a), Name(b)) && a[|Name(a)|..] == b[|Name(b)|..]
  }

  predicate AllSameButCase(ls: seq<Bytes>, ms: seq<Bytes>) {
    |ls| == |ms| && forall i :: 0 <= i < |ls| ==> SameButCase(ls[i], ms[i])
  }

  lemma NameIsStart(line: Bytes)
    ensures var n := |Name(line)|;
      && n <= |line| && Name(line) == line[..n] && 58 !in Name(line)
      && (IndexByte(line, 58) >= 0 ==> n == IndexByte(line, 58) < |line|)
      && (IndexByte(line, 58) < 0 ==> n == 0 && 58 !in line)
  {
    IndexByteIsFirst(line, 58);
  }

  lemma ColonStays(a: Bytes, b: Bytes)
    requires SameButCase(a, b)
    ensures IndexByte(a, 58) == IndexByte(b, 58) && Value(a) == Value(b) && |a| == |b|
  {
    hide IndexByte, Name, Trim, SameLetter;
    NameIsStart(a);
    NameIsStart(b);
    var n := |Name(a)|;
    if IndexByte(a, 58) >= 0 || IndexByte(b, 58) >= 0 {
      assert a[n..][0] == b[n..][0];
      assert a[n + 1..] == a[n..][1..] && b[n + 1..] == b[n..][1..];
    }
  }

  lemma KindStays(a: Bytes, b: Bytes)
    requires SameLetters(a, b)
    ensures KnownHeader(a) == KnownHeader(b) && IsToken(a) == IsToken(b) && Lower(a) == Lower(b)
  {
    hide KnownHeader, SameLetters, EqualFold, IsTokenByte, SameLetter, Lower;
    FoldIsSameLetters(a, b);
    KindOfFolded(a, b);
    LettersFold(a, b);
    forall i | 0 <= i < |a| ensures IsTokenByte(a[i]) == IsTokenByte(b[i]) {
      TokenStays(a[i], b[i]);
    }
  }

  lemma LettersFold(a: Bytes, b: Bytes)
    requires EqualFold(a, b)
    ensures |a| == |b| && Lower(a) == Lower(b)
    ensures forall i :: 0 <= i < |a| ==> LowerByte(a[i]) == LowerByte(b[i])
  {
    hide LowerByte;
  }

  lemma TokenStays(c: Byte, d: Byte)
    requires LowerByte(c) == LowerByte(d)
    ensures IsTokenByte(c) == IsTokenByte(d)
  {
  }

  lemma KindOfFolded(a: Bytes, b: Bytes)
    requires EqualFold(a, b)
    ensures KnownHeader(a) == KnownHeader(b)
  {
    hide LowerByte;
    SameFolds(a, b, HOST);
    SameFolds(a, b, COOKIE);
    SameFolds(a, b, ACCEPT);
    SameFolds(a, b, X_REAL_IP);
    SameFolds(a, b, X_FORWARDED_FOR);
    SameFolds(a, b, CONNECTION);
    SameFolds(a, b, CONTENT_TYPE);
    SameFolds(a, b, CONTENT_LENGTH);
    SameFolds(a, b, TRANSFER_ENCODING);
    hide EqualFold;
  }

  lemma SameFolds(a: Bytes, b: Bytes, word: Bytes)
    requires EqualFold(a, b)
    ensures EqualFold(a, word) == EqualFold(b, word)
  {
    hide LowerByte;
  }

  lemma LineStays(a: Bytes, b: Bytes, lim: Limits)
    requires SameButCase(a, b)
    ensures KnownHeader(Name(a)) == KnownHeader(Name(b)) && Value(a) == Value(b) && Lower(Name(a)) == Lower(Name(b))
    ensures GoodLine(a, lim) == GoodLine(b, lim)
  {
    hide KnownHeader, IsToken, Lower, IndexByte, HasInvalidValueByte, AllDigits, IsValidHost, Name, Value;
    ColonStays(a, b);
    KindStays(Name(a), Name(b));
  }

  lemma {:induction false} FieldsStay(ls: seq<Bytes>, ms: seq<Bytes>, kind: Field, lim: Limits)
    requires AllSameButCase(ls, ms)
    ensures Named(ls, kind) == Named(ms, kind) && Others(ls) == Others(ms)
  {
    hide SameButCase, KnownHeader, Name, Value, Lower, GoodLine;
    if ls != [] {
      LineStays(ls[0], ms[0], lim);
      FieldsStay(ls[1..], ms[1..], kind, lim);
    }
  }

  lemma GoodStays(ls: seq<Bytes>, ms: seq<Bytes>, lim: Limits)
    requires AllSameButCase(ls, ms)
    ensures forall i :: 0 <= i < |ls| ==> GoodLine(ls[i], lim) == GoodLine(ms[i], lim)
  {
    hide SameButCase, GoodLine;
    forall i | 0 <= i < |ls| ensures GoodLine(ls[i], lim) == GoodLine(ms[i], lim) {
      LineStays(ls[i], ms[i], lim);
    }
  }

  lemma FoldStays(s: Bytes, t: Bytes, lim: Limits)
    requires Terminated(s) && Terminated(t) && AllSameButCase(FieldLines(s), FieldLines(t))
    ensures FoldFields(s, NO_FIELDS, lim) == FoldFields(t, NO_FIELDS, lim)
  {
    hide FoldFields, Terminated, FieldLines, Named, Others, GoodLine, SameButCase, SomeHasToken, LengthOf;
    FoldAccepts(s, NO_FIELDS, lim);
    FoldAccepts(t, NO_FIELDS, lim);
    var ls, ms := FieldLines(s), FieldLines(t);
    forall kind ensures Named(ls, kind) == Named(ms, kind) {
      FieldsStay(ls, ms, kind, lim);
    }
    FieldsStay(ls, ms, Host, lim);
    GoodStays(ls, ms, lim);
  }

  /** Two heads that differ only in the case of field names are one to the parser: both are refused, or both give the
      same request, with the same length of the body. */
  lemma CaseOfNamesIsIgnored(x: Bytes, y: Bytes, lim: Limits)
    requires 0 <= IndexByte(x, LF) == IndexByte(y, LF) && x[..IndexByte(x, LF)] == y[..IndexByte(x, LF)]
    requires Terminated(FieldBlock(x)) && Terminated(FieldBlock(y))
    requires AllSameButCase(FieldLines(FieldBlock(x)), FieldLines(FieldBlock(y)))
    ensures ParseHead(x, lim) == ParseHead(y, lim)
  {
    hide IndexByte, FieldBlock, Terminated, FieldLines, AllSameButCase, FoldFields, SplitRequestLine,
      IsValidRequestLine, Finish;
    FoldStays(FieldBlock(x), FieldBlock(y), lim);
  }
}
