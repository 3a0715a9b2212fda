/** The generator (cmd/bindgen): the program it writes for a list of fields, and what running that program gives. */
module BinderGen {
  import opened Bytes
  import opened BinderQuery
  import opened Binder

  /** The statements of a generated binder. */
  datatype Stmt =
    | SetDefault(field: Field)
    | CollectQuery(tags: seq<Bytes>)
    | BindQuery(field: Field, slot: nat, conv: Conversion)
    | BindParam(field: Field, conv: Conversion)

  type Program = seq<Stmt>

  // ---------------------------------------------------------------- running it

  /** The input so far, and the variables that the collection has filled. */
  datatype Env = Env(values: seq<Value>, slots: seq<Bytes>)

  /** One statement; a failed conversion returns from the binder. */
  function Step(st: Stmt, e: Env, r: Request, p: Platform): Result {
    match st
    case SetDefault(f) => Go(if f.def.Some? then e.(values := Put(e.values, f.index, f.def.value)) else e)
    case CollectQuery(tags) =>
      if r.raw.None? then Go(e.(slots := seq(|tags|, _ => [])))
      else Go(e.(slots := seq(|tags|, i requires 0 <= i < |tags| => QueryValue(r.raw.value, tags[i]))))
    case BindQuery(f, slot, conv) =>
      var raw := if r.raw.Some? && slot < |e.slots| then e.slots[slot] else r.query(f.query);
      Continue(BindField(f, Query, raw, e.values, conv, p), e)
    case BindParam(f, conv) =>
      Continue(BindField(f, Path, r.path(f.param), e.values, conv, p), e)
  }

  datatype Result = Go(env: Env) | Return(error: Bound)

  function Continue(b: Bound, e: Env): Result {
    if b.BadRequest? then Return(b) else Go(e.(values := b.values))
  }

  function Exec(prog: Program, e: Env, r: Request, p: Platform): Bound {
    if prog == [] then Struct(e.values)
    else
      match Step(prog[0], e, r, p)
      case Return(b) => b
      case Go(next) => Exec(prog[1..], next, r, p)
  }

  // ---------------------------------------------------------------- writing it

  /** The query tags, each once, in the order of the fields. */
  function Tags(fs: seq<Field>): seq<Bytes> {
    if fs == [] then []
    else
      var before := Tags(fs[..|fs| - 1]);
      var tag := fs[|fs| - 1].query;
      if tag == [] || tag in before then before else before + [tag]
  }

  lemma OneMoreDistinct(tags: seq<Bytes>, tag: Bytes)
    requires Distinct(tags) && tag !in tags
    ensures Distinct(tags + [tag])
  {
  }

  lemma {:induction false} TagsDistinct(fs: seq<Field>)
    ensures Distinct(Tags(fs))
    ensures forall i :: 0 <= i < |fs| && fs[i].query != [] ==> fs[i].query in Tags(fs)
  {
    if fs != [] {
      hide Distinct;
      var front := fs[..|fs| - 1];
      TagsDistinct(front);
      if fs[|fs| - 1].query !in Tags(front) {
        OneMoreDistinct(Tags(front), fs[|fs| - 1].query);
      }
      forall i | 0 <= i < |fs| && fs[i].query != [] ensures fs[i].query in Tags(fs) {
        if i < |front| {
          assert front[i] == fs[i];
        }
      }
    }
  }

  /** The variable of a tag. */
  function SlotOf(tags: seq<Bytes>, tag: Bytes): (i: nat)
    ensures tag in tags ==> i < |tags| && tags[i] == tag
    ensures tag !in tags ==> i == |tags|
  {
    if tags == [] then 0 else if tags[0] == tag then 0 else 1 + SlotOf(tags[1..], tag)
  }

  /** generateQueryCollection: a variable for each tag, and the map from tags to variables. */
  method CollectTags(fs: seq<Field>) returns (names: map<Bytes, nat>, tags: seq<Bytes>)
    ensures tags == Tags(fs) && names.Keys == (set t | t in tags)
    ensures forall t :: t in names ==> names[t] < |tags| && tags[names[t]] == t
  {
    names, tags := map[], [];
    var i := 0;
    while i < |fs|
      invariant 0 <= i <= |fs| && tags == Tags(fs[..i]) && names.Keys == (set t | t in tags)
      invariant forall t :: t in names ==> names[t] < |tags| && tags[names[t]] == t
    {
      var f := fs[i];
      assert fs[..i + 1][..i] == fs[..i];
      if f.query != [] && f.query !in names {
        names := names[f.query := |tags|];
        tags := tags + [f.query];
      }
      i := i + 1;
    }
    assert fs[..i] == fs;
  }

  function DefaultStmts(fs: seq<Field>): Program {
    if fs == [] then []
    else DefaultStmts(fs[..|fs| - 1]) + (if fs[|fs| - 1].def.Some? then [SetDefault(fs[|fs| - 1])] else [])
  }

  function SourceStmts(fs: seq<Field>, s: Source, tags: seq<Bytes>, intSize: nat): Program {
    if fs == [] then []
    else
      var f := fs[|fs| - 1];
      SourceStmts(fs[..|fs| - 1], s, tags, intSize)
      + (if TagOf(f, s) == [] then []
         else if s.Query? then [BindQuery(f, SlotOf(tags, f.query), ParseExpr(NameOf(f.kind), intSize))]
         else [BindParam(f, ParseExpr(NameOf(f.kind), intSize))])
  }

  function ProgramFor(fs: seq<Field>, intSize: nat): Program {
    var tags := Tags(fs);
    DefaultStmts(fs) + (if tags == [] then [] else [CollectQuery(tags)])
    + SourceStmts(fs, Query, tags, intSize) + SourceStmts(fs, Path, tags, intSize)
  }

  lemma SlotIsUnique(tags: seq<Bytes>, i: nat)
    requires Distinct(tags) && i < |tags|
    ensures SlotOf(tags, tags[i]) == i
  {
    assert tags[i] in tags;
    var j := SlotOf(tags, tags[i]);
    assert tags[j] == tags[i];
  }

  /** generate: defaults first, then the collection, then the query fields and the path fields. */
  method Generate(fs: seq<Field>, intSize: nat) returns (prog: Program)
    ensures prog == ProgramFor(fs, intSize)
  {
    hide DefaultStmts, SourceStmts, Tags;
    prog := GenerateDefaults(fs);
    var names, tags := CollectTags(fs);
    if tags != [] {
      prog := prog + [CollectQuery(tags)];
    }
    var query := GenerateSource(fs, Query, names, tags, intSize);
    var path := GenerateSource(fs, Path, names, tags, intSize);
    prog := prog + query + path;
  }

  method GenerateDefaults(fs: seq<Field>) returns (prog: Program)
    ensures prog == DefaultStmts(fs)
  {
    prog := [];
    var i := 0;
    while i < |fs|
      invariant 0 <= i <= |fs| && prog == DefaultStmts(fs[..i])
    {
      assert fs[..i + 1][..i] == fs[..i];
      if fs[i].def.Some? {
        prog := prog + [SetDefault(fs[i])];
      }
      i := i + 1;
    }
    assert fs[..i] == fs;
  }

  method GenerateSource(fs: seq<Field>, s: Source, names: map<Bytes, nat>, tags: seq<Bytes>, intSize: nat)
    returns (prog: Program)
    requires tags == Tags(fs) && names.Keys == set t | t in tags
    requires forall t :: t in names ==> names[t] < |tags| && tags[names[t]] == t
    ensures prog == SourceStmts(fs, s, tags, intSize)
  {
    hide ParseExpr, NameOf, Tags;
    prog := [];
    TagsDistinct(fs);
    var i := 0;
    while i < |fs|
      invariant 0 <= i <= |fs| && prog == SourceStmts(fs[..i], s, tags, intSize)
    {
      var f := fs[i];
      assert fs[..i + 1][..i] == fs[..i];
      if TagOf(f, s) != [] {
        var expr := ParseExpr(NameOf(f.kind), intSize);
        if s.Query? {
          assert f.query in tags;
          SlotIsUnique(tags, names[f.query]);
          prog := prog + [BindQuery(f, names[f.query], expr)];
        } else {
          prog := prog + [BindParam(f, expr)];
        }
      }
      i := i + 1;
    }
    assert fs[..i] == fs;
  }

  // ---------------------------------------------------------------- it means the same

  lemma {:induction false} ExecDefaults(ds: seq<Field>, rest: Program, e: Env, r: Request, p: Platform)
    ensures Exec(seq(|ds|, i requires 0 <= i < |ds| => SetDefault(ds[i])) + rest, e, r, p)
         == Exec(rest, e.(values := SetDefaults(ds, e.values)), r, p)
    decreases |ds|
  {
    var stmts := seq(|ds|, i requires 0 <= i < |ds| => SetDefault(ds[i]));
    if ds == [] {
      assert stmts + rest == rest;
      assert e.(values := e.values) == e;
    } else {
      var tail := seq(|ds| - 1, i requires 0 <= i < |ds| - 1 => SetDefault(ds[1..][i]));
      assert (stmts + rest)[0] == SetDefault(ds[0]) && (stmts + rest)[1..] == tail + rest;
      ExecDefaults(ds[1..], rest, Step(SetDefault(ds[0]), e, r, p).env, r, p);
    }
  }

  /** The statement for a field of the generic parser. */
  function StmtFor(fp: FieldParser, s: Source, tags: seq<Bytes>): Stmt {
    if s.Query? then BindQuery(fp.field, SlotOf(tags, fp.field.query), fp.conv) else BindParam(fp.field, fp.conv)
  }

  function StmtsFor(fps: seq<FieldParser>, s: Source, tags: seq<Bytes>): Program {
    seq(|fps|, i requires 0 <= i < |fps| => StmtFor(fps[i], s, tags))
  }

  lemma {:induction false} SourceStmtsAre(fs: seq<Field>, s: Source, tags: seq<Bytes>, intSize: nat)
    ensures SourceStmts(fs, s, tags, intSize) == StmtsFor(Tagged(fs, s, intSize), s, tags)
  {
    hide ParseExpr, SelectConverter, NameOf;
    if fs != [] {
      var f := fs[|fs| - 1];
      SourceStmtsAre(fs[..|fs| - 1], s, tags, intSize);
      SameConversion(f.kind, intSize);
    }
  }

  lemma {:induction false} DefaultStmtsAre(fs: seq<Field>)
    ensures var ds := WithDefault(fs);
      DefaultStmts(fs) == seq(|ds|, i requires 0 <= i < |ds| => SetDefault(ds[i]))
  {
    if fs != [] {
      DefaultStmtsAre(fs[..|fs| - 1]);
    }
  }

  /** Every collected variable holds what QueryParam gives for its tag. */
  ghost predicate SlotsOk(e: Env, tags: seq<Bytes>, r: Request) {
    r.raw.Some? ==> |e.slots| == |tags| && forall i :: 0 <= i < |tags| ==> e.slots[i] == r.query(tags[i])
  }

  lemma {:induction false} ExecSource(fps: seq<FieldParser>, s: Source, tags: seq<Bytes>, rest: Program, e: Env,
      r: Request, p: Platform)
    requires SlotsOk(e, tags, r)
    requires s.Query? ==> forall i :: 0 <= i < |fps| ==> fps[i].field.query in tags
    ensures var b := BindAll(fps, s, r, e.values, p);
      Exec(StmtsFor(fps, s, tags) + rest, e, r, p)
      == if b.BadRequest? then b else Exec(rest, e.(values := b.values), r, p)
    decreases |fps|
  {
    hide BindField, SlotOf;
    var stmts := StmtsFor(fps, s, tags);
    if fps == [] {
      assert stmts + rest == rest;
      assert e.(values := e.values) == e;
    } else {
      assert (stmts + rest)[0] == StmtFor(fps[0], s, tags);
      assert (stmts + rest)[1..] == StmtsFor(fps[1..], s, tags) + rest;
      var f := fps[0].field;
      var one := BindField(f, s, Get(r, s)(TagOf(f, s)), e.values, fps[0].conv, p);
      assert Step(StmtFor(fps[0], s, tags), e, r, p) == Continue(one, e);
      if one.Struct? {
        ExecSource(fps[1..], s, tags, rest, e.(values := one.values), r, p);
      }
    }
  }

  lemma {:induction false} TaggedInTags(fs: seq<Field>, all: seq<Field>, intSize: nat)
    requires forall i :: 0 <= i < |fs| ==> fs[i] in all
    ensures forall i :: 0 <= i < |Tagged(fs, Query, intSize)| ==> Tagged(fs, Query, intSize)[i].field.query in Tags(all)
  {
    hide SelectConverter;
    if fs != [] {
      TaggedInTags(fs[..|fs| - 1], all, intSize);
      TagsDistinct(all);
      assert fs[|fs| - 1] in all;
    }
  }

  /** For every list of fields and every request, the generated binder returns the same struct as the generic one, or
      the same first error. */
  lemma GeneratedIsGeneric(fs: seq<Field>, r: Request, zero: seq<Value>, p: Platform)
    requires RequestOk(r)
    ensures Exec(ProgramFor(fs, p.intSize), Env(zero, []), r, p)
         == ParseWith(Parser(WithDefault(fs), Tagged(fs, Query, p.intSize), Tagged(fs, Path, p.intSize)), r, zero, p)
  {
    hide Exec, BindAll, SetDefaults, Tagged, Tags, SourceStmts, DefaultStmts, WithDefault;
    var tags := Tags(fs);
    var ds, qs, ps := WithDefault(fs), Tagged(fs, Query, p.intSize), Tagged(fs, Path, p.intSize);
    var collect := if tags == [] then [] else [CollectQuery(tags)];
    var query, path := SourceStmts(fs, Query, tags, p.intSize), SourceStmts(fs, Path, tags, p.intSize);
    DefaultStmtsAre(fs);
    SourceStmtsAre(fs, Query, tags, p.intSize);
    SourceStmtsAre(fs, Path, tags, p.intSize);
    TaggedInTags(fs, fs, p.intSize);
    assert ProgramFor(fs, p.intSize) == DefaultStmts(fs) + (collect + (query + (path + [])));
    ExecDefaults(ds, collect + (query + (path + [])), Env(zero, []), r, p);
    var e := Env(SetDefaults(ds, zero), []);
    var f := ExecCollect(tags, query + (path + []), e, r, p);
    ExecSource(qs, Query, tags, path + [], f, r, p);
    var b := BindAll(qs, Query, r, f.values, p);
    if b.Struct? {
      var g := f.(values := b.values);
      ExecSource(ps, Path, tags, [], g, r, p);
      ExecNothing(g, BindAll(ps, Path, r, g.values, p), r, p);
    }
  }

  lemma ExecNothing(e: Env, b: Bound, r: Request, p: Platform)
    ensures b.Struct? ==> Exec([], e.(values := b.values), r, p) == b
  {
  }

  lemma ExecCollect(tags: seq<Bytes>, rest: Program, e: Env, r: Request, p: Platform) returns (f: Env)
    requires RequestOk(r) && e.slots == []
    ensures f.values == e.values && SlotsOk(f, tags, r)
    ensures Exec((if tags == [] then [] else [CollectQuery(tags)]) + rest, e, r, p) == Exec(rest, f, r, p)
  {
    if tags == [] {
      f := e;
      assert [] + rest == rest;
    } else {
      var prog := [CollectQuery(tags)] + rest;
      f := Step(CollectQuery(tags), e, r, p).env;
      assert prog[0] == CollectQuery(tags) && prog[1..] == rest;
    }
  }

  /** The collection, as the generated code runs it, fills the variables as Step says. */
  method RunCollect(tags: seq<Bytes>, rawQuery: Bytes) returns (slots: seq<Bytes>)
    requires Distinct(tags)
    ensures slots == seq(|tags|, i requires 0 <= i < |tags| => QueryValue(rawQuery, tags[i]))
  {
    slots := Scan(rawQuery, tags);
  }
}
