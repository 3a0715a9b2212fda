/** The generated binders (cmd/bindgen) against the binder that they replace (bind.go): the generator translates a
    list of fields into a program, and running the program gives what the generic binder gives. */
module Binder {
  import opened Bytes
  import opened Options
  import opened BinderQuery

  datatype Kind =
    | KString | KBool | KInt | KInt8 | KInt16 | KInt32 | KInt64 | KUint | KUint8 | KUint16 | KUint32 | KUint64
    | KFloat32 | KFloat64

  /** How text becomes a value: strconv's parsers, at a width. */
  datatype Conversion = Text | ParseBool | ParseInt(bits: nat) | ParseUint(bits: nat) | ParseFloat(bits: nat)

  datatype Value = Value(id: nat)

  /** A field. Tags are empty where there is none; `def` is what the text of its default means, for the generic binder
      and for the generator alike (SameDefault). */
  datatype Field = Field(index: nat, kind: Kind, query: Bytes, param: Bytes, def: Option<Value>)

  datatype Source = Query | Path

  datatype Bound = Struct(values: seq<Value>) | BadRequest(source: Source, tag: Bytes, kind: Kind)

  /** A request: the parameters it has, and its raw query if the transport gives that. */
  datatype Request = Request(raw: Option<Bytes>, query: Bytes -> Bytes, path: Bytes -> Bytes)

  /** A transport that gives its raw query looks parameters up as the scanner does. */
  ghost predicate RequestOk(r: Request) {
    r.raw.Some? ==> forall tag :: r.query(tag) == QueryValue(r.raw.value, tag)
  }

  /** The platform: its integer width, and strconv. */
  datatype Platform = Platform(intSize: nat, convert: (Conversion, Bytes) -> Option<Value>)

  function Get(r: Request, s: Source): Bytes -> Bytes {
    if s.Query? then r.query else r.path
  }

  function TagOf(f: Field, s: Source): Bytes {
    if s.Query? then f.query else f.param
  }

  // ---------------------------------------------------------------- conversions

  /** selectConverter: by reflection on the kind, with its width. */
  function SelectConverter(k: Kind, intSize: nat): Conversion {
    match k
    case KString => Text
    case KBool => ParseBool
    case KInt => ParseInt(intSize)
    case KInt8 => ParseInt(8)
    case KInt16 => ParseInt(16)
    case KInt32 => ParseInt(32)
    case KInt64 => ParseInt(64)
    case KUint => ParseUint(intSize)
    case KUint8 => ParseUint(8)
    case KUint16 => ParseUint(16)
    case KUint32 => ParseUint(32)
    case KUint64 => ParseUint(64)
    case KFloat32 => ParseFloat(32)
    case KFloat64 => ParseFloat(64)
  }

  /** The name of a kind, in pieces: what parseExpr looks at is the first letter and the digits at the end. */
  datatype KindName = KindName(stem: Stem, digits: seq<nat>)

  datatype Stem = StemString | StemBool | StemInt | StemUint | StemFloat

  function NameOf(k: Kind): KindName {
    match k
    case KString => KindName(StemString, [])
    case KBool => KindName(StemBool, [])
    case KInt => KindName(StemInt, [])
    case KInt8 => KindName(StemInt, [8])
    case KInt16 => KindName(StemInt, [1, 6])
    case KInt32 => KindName(StemInt, [3, 2])
    case KInt64 => KindName(StemInt, [6, 4])
    case KUint => KindName(StemUint, [])
    case KUint8 => KindName(StemUint, [8])
    case KUint16 => KindName(StemUint, [1, 6])
    case KUint32 => KindName(StemUint, [3, 2])
    case KUint64 => KindName(StemUint, [6, 4])
    case KFloat32 => KindName(StemFloat, [3, 2])
    case KFloat64 => KindName(StemFloat, [6, 4])
  }

  /** The name as Go prints it. */
  function KindText(k: Kind): string {
    match k
    case KString => "string"
    case KBool => "bool"
    case KInt => "int"
    case KInt8 => "int8"
    case KInt16 => "int16"
    case KInt32 => "int32"
    case KInt64 => "int64"
    case KUint => "uint"
    case KUint8 => "uint8"
    case KUint16 => "uint16"
    case KUint32 => "uint32"
    case KUint64 => "uint64"
    case KFloat32 => "float32"
    case KFloat64 => "float64"
  }

  function StemText(stem: Stem): string {
    match stem
    case StemString => "string"
    case StemBool => "bool"
    case StemInt => "int"
    case StemUint => "uint"
    case StemFloat => "float"
  }

  function DigitsText(digits: seq<nat>): string {
    seq(|digits|, i requires 0 <= i < |digits| => if digits[i] < 10 then "0123456789"[digits[i]] else '?')
  }

  /** The pieces make up the name. */
  lemma NameIsSpelled(k: Kind)
    ensures StemText(NameOf(k).stem) + DigitsText(NameOf(k).digits) == KindText(k)
  {
    match k
    case KInt16 | KUint16 => assert DigitsText([1, 6]) == "16";
    case KInt32 | KUint32 | KFloat32 => assert DigitsText([3, 2]) == "32";
    case KInt64 | KUint64 | KFloat64 => assert DigitsText([6, 4]) == "64";
    case KInt8 | KUint8 => assert DigitsText([8]) == "8";
    case _ => assert DigitsText([]) == "";
  }

  function Decimal(digits: seq<nat>): nat {
    if digits == [] then 0 else 10 * Decimal(digits[..|digits| - 1]) + digits[|digits| - 1]
  }

  /** parseExpr: from the name of the kind; the digits go into the expression as they are. */
  function ParseExpr(name: KindName, intSize: nat): Conversion {
    match name.stem
    case StemString => Text
    case StemBool => ParseBool
    case StemFloat => ParseFloat(Decimal(name.digits))
    case StemInt => if name.digits == [] then ParseInt(intSize) else ParseInt(Decimal(name.digits))
    case StemUint => if name.digits == [] then ParseUint(intSize) else ParseUint(Decimal(name.digits))
  }

  lemma SameConversion(k: Kind, intSize: nat)
    ensures ParseExpr(NameOf(k), intSize) == SelectConverter(k, intSize)
  {
    assert Decimal([8]) == 8 by { OneDigit(8); }
    assert Decimal([1, 6]) == 16 by { TwoDigits(1, 6); }
    assert Decimal([3, 2]) == 32 by { TwoDigits(3, 2); }
    assert Decimal([6, 4]) == 64 by { TwoDigits(6, 4); }
  }

  /** defaultValue: how the generator reads the text of a default, whose value it then writes into the program. Native
      widths are taken as 32 bits. */
  function DefaultConversion(name: KindName): Conversion {
    ParseExpr(name, 32)
  }

  predicate Keeps(narrow: Option<Value>, wide: Option<Value>) {
    narrow.Some? ==> wide == narrow
  }

  /** strconv reads a number that fits 32 bits alike at the platform's own width. */
  ghost predicate Widens(p: Platform) {
    forall text :: Keeps(p.convert(ParseInt(32), text), p.convert(ParseInt(p.intSize), text))
                && Keeps(p.convert(ParseUint(32), text), p.convert(ParseUint(p.intSize), text))
  }

  /** A default that the generator accepts has the value that the generic binder gives it; only for int and uint does
      the generator refuse some that the generic binder takes. */
  lemma SameDefault(k: Kind, text: Bytes, p: Platform)
    requires Widens(p)
    ensures p.convert(DefaultConversion(NameOf(k)), text).Some? ==>
      p.convert(SelectConverter(k, p.intSize), text) == p.convert(DefaultConversion(NameOf(k)), text)
    ensures !k.KInt? && !k.KUint? ==> DefaultConversion(NameOf(k)) == SelectConverter(k, p.intSize)
  {
    SameConversion(k, 32);
  }

  lemma TwoDigits(a: nat, b: nat)
    ensures Decimal([a, b]) == 10 * a + b
  {
    assert [a, b][..1] == [a];
    OneDigit(a);
  }

  lemma OneDigit(a: nat)
    ensures Decimal([a]) == a
  {
    assert [a][..0] == [];
  }

  // ---------------------------------------------------------------- the generic binder

  /** A field and the conversion chosen for it. */
  datatype FieldParser = FieldParser(field: Field, conv: Conversion)

  datatype Parser = Parser(defaults: seq<Field>, queryFields: seq<FieldParser>, pathFields: seq<FieldParser>)

  function WithDefault(fs: seq<Field>): seq<Field> {
    if fs == [] then []
    else WithDefault(fs[..|fs| - 1]) + (if fs[|fs| - 1].def.Some? then [fs[|fs| - 1]] else [])
  }

  /** The fields with a tag for the source, in the order of the struct. */
  function Tagged(fs: seq<Field>, s: Source, intSize: nat): seq<FieldParser> {
    if fs == [] then []
    else
      var f := fs[|fs| - 1];
      Tagged(fs[..|fs| - 1], s, intSize)
      + (if TagOf(f, s) != [] then [FieldParser(f, SelectConverter(f.kind, intSize))] else [])
  }

  lemma NoFields(intSize: nat)
    ensures WithDefault([]) == [] && Tagged([], Query, intSize) == Tagged([], Path, intSize) == []
  {
  }

  lemma OneMoreField(fs: seq<Field>, f: Field, s: Source, intSize: nat)
    ensures WithDefault(fs + [f]) == WithDefault(fs) + (if f.def.Some? then [f] else [])
    ensures Tagged(fs + [f], s, intSize) == Tagged(fs, s, intSize)
         + (if TagOf(f, s) != [] then [FieldParser(f, SelectConverter(f.kind, intSize))] else [])
  {
    hide SelectConverter;
    assert (fs + [f])[..|fs|] == fs;
  }

  /** buildInputParser. */
  method BuildInputParser(fs: seq<Field>, intSize: nat) returns (p: Parser)
    ensures p == Parser(WithDefault(fs), Tagged(fs, Query, intSize), Tagged(fs, Path, intSize))
  {
    hide SelectConverter, WithDefault, Tagged;
    assert fs[..0] == [];
    NoFields(intSize);
    p := Parser([], [], []);
    var i := 0;
    while i < |fs|
      invariant 0 <= i <= |fs|
      invariant p == Parser(WithDefault(fs[..i]), Tagged(fs[..i], Query, intSize), Tagged(fs[..i], Path, intSize))
    {
      var f := fs[i];
      assert fs[..i + 1] == fs[..i] + [f];
      OneMoreField(fs[..i], f, Query, intSize);
      OneMoreField(fs[..i], f, Path, intSize);
      if f.param != [] {
        p := p.(pathFields := p.pathFields + [FieldParser(f, SelectConverter(f.kind, intSize))]);
      }
      if f.query != [] {
        p := p.(queryFields := p.queryFields + [FieldParser(f, SelectConverter(f.kind, intSize))]);
      }
      if f.def.Some? {
        p := p.(defaults := p.defaults + [f]);
      }
      i := i + 1;
    }
    assert fs[..i] == fs;
  }

  function Put(values: seq<Value>, i: nat, v: Value): seq<Value> {
    if i < |values| then values[i := v] else values
  }

  function SetDefaults(fs: seq<Field>, values: seq<Value>): seq<Value> {
    if fs == [] then values
    else SetDefaults(fs[1..], if fs[0].def.Some? then Put(values, fs[0].index, fs[0].def.value) else values)
  }

  /** One field: an empty parameter leaves it alone. */
  function BindField(f: Field, s: Source, raw: Bytes, values: seq<Value>, conv: Conversion, p: Platform): Bound {
    if raw == [] then Struct(values)
    else
      match p.convert(conv, raw)
      case None => BadRequest(s, TagOf(f, s), f.kind)
      case Some(v) => Struct(Put(values, f.index, v))
  }

  /** In order, up to the first that does not convert. */
  function BindAll(fps: seq<FieldParser>, s: Source, r: Request, values: seq<Value>, p: Platform): Bound {
    if fps == [] then Struct(values)
    else
      var f := fps[0].field;
      var one := BindField(f, s, Get(r, s)(TagOf(f, s)), values, fps[0].conv, p);
      if one.BadRequest? then one else BindAll(fps[1..], s, r, one.values, p)
  }

  function ParseWith(q: Parser, r: Request, zero: seq<Value>, p: Platform): Bound {
    var query := BindAll(q.queryFields, Query, r, SetDefaults(q.defaults, zero), p);
    if query.BadRequest? then query else BindAll(q.pathFields, Path, r, query.values, p)
  }

  /** inputParser.parse, for inputs without a body and without forms. */
  method Parse(q: Parser, r: Request, zero: seq<Value>, p: Platform) returns (b: Bound)
    ensures b == ParseWith(q, r, zero, p)
  {
    var values := zero;
    var i := 0;
    while i < |q.defaults|
      invariant 0 <= i <= |q.defaults|
      invariant SetDefaults(q.defaults, zero) == SetDefaults(q.defaults[i..], values)
    {
      var d := q.defaults[i];
      assert q.defaults[i..][0] == d && q.defaults[i..][1..] == q.defaults[i + 1..];
      if d.def.Some? {
        values := Put(values, d.index, d.def.value);
      }
      i := i + 1;
    }
    b := ParseSource(q.queryFields, Query, r, values, p);
    if b.Struct? {
      b := ParseSource(q.pathFields, Path, r, b.values, p);
    }
  }

  method ParseSource(fps: seq<FieldParser>, s: Source, r: Request, start: seq<Value>, p: Platform) returns (b: Bound)
    ensures b == BindAll(fps, s, r, start, p)
  {
    var values := start;
    var i := 0;
    while i < |fps|
      invariant 0 <= i <= |fps|
      invariant BindAll(fps, s, r, start, p) == BindAll(fps[i..], s, r, values, p)
    {
      var f, conv := fps[i].field, fps[i].conv;
      assert fps[i..][0] == fps[i] && fps[i..][1..] == fps[i + 1..];
      var raw := Get(r, s)(TagOf(f, s));
      if raw != [] {
        var v := p.convert(conv, raw);
        if v.None? {
          return BadRequest(s, TagOf(f, s), f.kind);
        }
        values := Put(values, f.index, v.value);
      }
      i := i + 1;
    }
    return Struct(values);
  }
}
