/** What binding a request gives, field by field, for the generic binder and so for the generated one. */
module BinderMeaning {
  import opened Bytes
  import opened Options
  import opened BinderQuery
  import opened Binder
  import opened BinderGen

  /** The parameter for a field; empty if the field has no tag for the source, or the request no such parameter. */
  function Raw(f: Field, s: Source, r: Request): Bytes {
    match s
    case Query => if f.query == [] then [] else r.query(f.query)
    case Path => if f.param == [] then [] else r.path(f.param)
  }

  function Converted(f: Field, s: Source, r: Request, p: Platform): Option<Value> {
    p.convert(SelectConverter(f.kind, p.intSize), Raw(f, s, r))
  }

  predicate Bad(f: Field, s: Source, r: Request, p: Platform) {
    Raw(f, s, r) != [] && Converted(f, s, r, p).None?
  }

  predicate NoneBad(fs: seq<Field>, s: Source, r: Request, p: Platform) {
    forall i :: 0 <= i < |fs| ==> !Bad(fs[i], s, r, p)
  }

  ghost predicate FirstBad(fs: seq<Field>, i: nat, s: Source, r: Request, p: Platform) {
    i < |fs| && Bad(fs[i], s, r, p) && NoneBad(fs[..i], s, r, p)
  }

  /** The value from one source, or what the field had before. */
  function From(f: Field, s: Source, r: Request, p: Platform, before: Value): Value {
    var v := Converted(f, s, r, p);
    if Raw(f, s, r) != [] && v.Some? then v.value else before
  }

  function Default(f: Field, before: Value): Value {
    if f.def.Some? then f.def.value else before
  }

  /** The fields of a struct: each has a place of its own. */
  ghost predicate FieldsOk(fs: seq<Field>, n: nat) {
    && (forall i :: 0 <= i < |fs| ==> fs[i].index < n)
    && (forall i, j :: 0 <= i < j < |fs| ==> fs[i].index != fs[j].index)
  }

  ghost predicate Untouched(fs: seq<Field>, k: nat) {
    forall i :: 0 <= i < |fs| ==> fs[i].index != k
  }

  /** `after` has a new value for each of these fields, and is otherwise like `before`. */
  ghost predicate Updated(fs: seq<Field>, after: seq<Value>, before: seq<Value>, new_: (Field, Value) -> Value) {
    && |after| == |before|
    && (forall i :: 0 <= i < |fs| && fs[i].index < |before| ==>
          after[fs[i].index] == new_(fs[i], before[fs[i].index]))
    && (forall k :: 0 <= k < |before| && Untouched(fs, k) ==> after[k] == before[k])
  }

  lemma UpdatedNothing(before: seq<Value>, new_: (Field, Value) -> Value)
    ensures Updated([], before, before, new_)
  {
  }

  /** One more field with a place of its own. */
  lemma UpdatedMore(fs: seq<Field>, f: Field, mid: seq<Value>, before: seq<Value>, new_: (Field, Value) -> Value)
    requires FieldsOk(fs + [f], |before|) && Updated(fs, mid, before, new_)
    ensures f.index < |mid| && mid[f.index] == before[f.index]
    ensures Updated(fs + [f], mid[f.index := new_(f, before[f.index])], before, new_)
  {
    var all := fs + [f];
    assert all[|fs|] == f && forall i :: 0 <= i < |fs| ==> all[i] == fs[i];
    assert Untouched(fs, f.index);
    var after := mid[f.index := new_(f, before[f.index])];
    forall k | 0 <= k < |before| && Untouched(all, k) ensures after[k] == before[k] {
      assert all[|fs|].index != k;
      assert Untouched(fs, k);
    }
  }

  lemma FrontOk(fs: seq<Field>, f: Field, n: nat)
    requires FieldsOk(fs + [f], n)
    ensures FieldsOk(fs, n)
  {
    assert forall i :: 0 <= i < |fs| ==> (fs + [f])[i] == fs[i];
  }

  // ---------------------------------------------------------------- defaults

  lemma {:induction false} DefaultsMore(ds: seq<Field>, f: Field, values: seq<Value>)
    requires f.def.Some?
    ensures SetDefaults(ds + [f], values) == Put(SetDefaults(ds, values), f.index, f.def.value)
    decreases |ds|
  {
    if ds == [] {
      assert [] + [f] == [f] && [f][1..] == [];
    } else {
      assert (ds + [f])[1..] == ds[1..] + [f];
      DefaultsMore(ds[1..], f, if ds[0].def.Some? then Put(values, ds[0].index, ds[0].def.value) else values);
    }
  }

  lemma {:induction false} DefaultsExactly(fs: seq<Field>, zero: seq<Value>)
    requires FieldsOk(fs, |zero|)
    ensures Updated(fs, SetDefaults(WithDefault(fs), zero), zero, Default)
  {
    hide SetDefaults, Updated;
    if fs == [] {
      NoDefaults(zero);
    } else {
      var front, f := fs[..|fs| - 1], fs[|fs| - 1];
      assert fs == front + [f];
      FrontOk(front, f, |zero|);
      DefaultsExactly(front, zero);
      var mid := SetDefaults(WithDefault(front), zero);
      UpdatedMore(front, f, mid, zero, Default);
      if f.def.Some? {
        DefaultsMore(WithDefault(front), f, zero);
      } else {
        assert WithDefault(fs) == WithDefault(front);
        assert mid[f.index := mid[f.index]] == mid;
      }
    }
  }

  lemma NoDefaults(zero: seq<Value>)
    ensures Updated([], SetDefaults(WithDefault([]), zero), zero, Default)
  {
  }

  // ---------------------------------------------------------------- one source

  lemma {:induction false} BindMore(fps: seq<FieldParser>, fp: FieldParser, s: Source, r: Request, values: seq<Value>,
      p: Platform)
    ensures var b := BindAll(fps, s, r, values, p);
      BindAll(fps + [fp], s, r, values, p) ==
        if b.BadRequest? then b
        else BindField(fp.field, s, Get(r, s)(TagOf(fp.field, s)), b.values, fp.conv, p)
    decreases |fps|
  {
    hide BindField;
    if fps == [] {
      assert [] + [fp] == [fp] && [fp][1..] == [];
    } else {
      assert (fps + [fp])[1..] == fps[1..] + [fp];
      var f := fps[0].field;
      var one := BindField(f, s, Get(r, s)(TagOf(f, s)), values, fps[0].conv, p);
      if one.Struct? {
        BindMore(fps[1..], fp, s, r, one.values, p);
      }
    }
  }

  function Sourced(s: Source, r: Request, p: Platform): (Field, Value) -> Value {
    (f, before) => From(f, s, r, p, before)
  }

  /** The fields in order, up to the first that does not convert. */
  ghost predicate Binds(b: Bound, fs: seq<Field>, s: Source, r: Request, before: seq<Value>, p: Platform) {
    match b
    case Struct(values) => NoneBad(fs, s, r, p) && Updated(fs, values, before, Sourced(s, r, p))
    case BadRequest(source, tag, kind) =>
      exists i: nat :: FirstBad(fs, i, s, r, p) && source == s && tag == TagOf(fs[i], s) && kind == fs[i].kind
  }

  lemma NoneBadMore(fs: seq<Field>, f: Field, s: Source, r: Request, p: Platform)
    ensures NoneBad(fs + [f], s, r, p) <==> NoneBad(fs, s, r, p) && !Bad(f, s, r, p)
    ensures NoneBad(fs, s, r, p) && Bad(f, s, r, p) ==> FirstBad(fs + [f], |fs|, s, r, p)
    ensures forall i: nat :: FirstBad(fs, i, s, r, p) ==> FirstBad(fs + [f], i, s, r, p) && (fs + [f])[i] == fs[i]
  {
    hide Bad;
    var all := fs + [f];
    assert all[|fs|] == f && all[..|fs|] == fs && forall i :: 0 <= i < |fs| ==> all[i] == fs[i];
    forall i: nat | FirstBad(fs, i, s, r, p) ensures FirstBad(all, i, s, r, p) {
      assert all[..i] == fs[..i];
    }
  }

  lemma {:induction false} SourceExactly(fs: seq<Field>, s: Source, r: Request, before: seq<Value>, p: Platform)
    requires FieldsOk(fs, |before|)
    ensures Binds(BindAll(Tagged(fs, s, p.intSize), s, r, before, p), fs, s, r, before, p)
  {
    hide BindAll, Updated, FieldsOk, SelectConverter;
    if fs == [] {
      NothingBound(s, r, before, p);
    } else {
      var front, f := fs[..|fs| - 1], fs[|fs| - 1];
      assert fs == front + [f];
      FrontOk(front, f, |before|);
      SourceExactly(front, s, r, before, p);
      NoneBadMore(front, f, s, r, p);
      var b := BindAll(Tagged(front, s, p.intSize), s, r, before, p);
      if TagOf(f, s) != [] {
        BindMore(Tagged(front, s, p.intSize), FieldParser(f, SelectConverter(f.kind, p.intSize)), s, r, before, p);
      } else {
        assert Tagged(fs, s, p.intSize) == Tagged(front, s, p.intSize);
      }
      if b.Struct? {
        UpdatedMore(front, f, b.values, before, Sourced(s, r, p));
        assert b.values[f.index := b.values[f.index]] == b.values;
      }
    }
  }

  lemma NothingBound(s: Source, r: Request, before: seq<Value>, p: Platform)
    ensures Binds(BindAll(Tagged([], s, p.intSize), s, r, before, p), [], s, r, before, p)
  {
  }

  // ---------------------------------------------------------------- the whole struct

  function ParserFor(fs: seq<Field>, intSize: nat): Parser {
    Parser(WithDefault(fs), Tagged(fs, Query, intSize), Tagged(fs, Path, intSize))
  }

  /** A field has what its path parameter says, else its query parameter, else its default, else nothing. */
  function Expected(f: Field, r: Request, p: Platform, zero: Value): Value
    requires !Bad(f, Query, r, p) && !Bad(f, Path, r, p)
  {
    if Raw(f, Path, r) != [] then Converted(f, Path, r, p).value
    else if Raw(f, Query, r) != [] then Converted(f, Query, r, p).value
    else if f.def.Some? then f.def.value
    else zero
  }

  /** What a binder is for: every field is bound, and nothing else; or the first parameter that does not convert is
      reported, and those of the query come before those of the path. */
  ghost predicate Meant(b: Bound, fs: seq<Field>, r: Request, zero: seq<Value>, p: Platform) {
    match b
    case Struct(values) =>
      && NoneBad(fs, Query, r, p) && NoneBad(fs, Path, r, p) && |values| == |zero|
      && (forall i :: 0 <= i < |fs| && fs[i].index < |zero| ==>
            values[fs[i].index] == Expected(fs[i], r, p, zero[fs[i].index]))
      && (forall k :: 0 <= k < |zero| && Untouched(fs, k) ==> values[k] == zero[k])
    case BadRequest(Query, tag, kind) =>
      exists i: nat :: FirstBad(fs, i, Query, r, p) && tag == fs[i].query && kind == fs[i].kind
    case BadRequest(Path, tag, kind) =>
      && NoneBad(fs, Query, r, p)
      && exists i: nat :: FirstBad(fs, i, Path, r, p) && tag == fs[i].param && kind == fs[i].kind
  }

  lemma ParseExactly(fs: seq<Field>, r: Request, zero: seq<Value>, p: Platform)
    requires FieldsOk(fs, |zero|)
    ensures Meant(ParseWith(ParserFor(fs, p.intSize), r, zero, p), fs, r, zero, p)
  {
    hide BindAll, SetDefaults, WithDefault, Tagged, SelectConverter, FieldsOk;
    DefaultsExactly(fs, zero);
    var start := SetDefaults(WithDefault(fs), zero);
    assert |start| == |zero|;
    SourceExactly(fs, Query, r, start, p);
    var query := BindAll(Tagged(fs, Query, p.intSize), Query, r, start, p);
    if query.Struct? {
      SourceExactly(fs, Path, r, query.values, p);
    }
  }

  /** The same of the generated binder. */
  lemma GeneratedExactly(fs: seq<Field>, r: Request, zero: seq<Value>, p: Platform)
    requires FieldsOk(fs, |zero|) && RequestOk(r)
    ensures Meant(Exec(ProgramFor(fs, p.intSize), Env(zero, []), r, p), fs, r, zero, p)
  {
    hide Exec, ProgramFor, ParseWith, Meant, FieldsOk, RequestOk;
    GeneratedIsGeneric(fs, r, zero, p);
    ParseExactly(fs, r, zero, p);
  }

  /** The generic binder, from the fields of a struct to the bound struct. */
  method Bind(fs: seq<Field>, r: Request, zero: seq<Value>, p: Platform) returns (b: Bound)
    requires FieldsOk(fs, |zero|)
    ensures Meant(b, fs, r, zero, p)
  {
    hide ParseWith, WithDefault, Tagged, Meant, FieldsOk;
    var parser := BuildInputParser(fs, p.intSize);
    b := Parse(parser, r, zero, p);
    ParseExactly(fs, r, zero, p);
  }
}
