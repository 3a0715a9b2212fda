/** The search in the trie of a list of routes gives exactly what the list gives. */
module RouterLookup {
  import opened Bytes
  import opened Options
  import opened RouterTrie
  import opened RouterKids
  import opened RouterTree
  import opened RouterRoutes

  // ---------------------------------------------------------------- the top of the trie

  lemma {:induction false} TopOf(rs: seq<Route>)
    requires RoutesOk(rs) && Build(rs).Some?
    ensures Build(rs).value.handler == Ended(rs)
    ensures Build(rs).value.wild == WildOf(rs)
    decreases |rs|
  {
    if rs != [] {
      var front, r := rs[..|rs| - 1], rs[|rs| - 1];
      TopOf(front);
      TopStep(Build(front).value, r.segs, r.handler);
    }
  }

  lemma TopStep(t: Trie, segs: seq<Seg>, h: Handler)
    requires SegsOk(segs) && Insert(t, ItemsOf(segs), h).Some?
    ensures var r := Insert(t, ItemsOf(segs), h).value;
      && r.handler == (if segs == [] then Some(h) else t.handler)
      && r.wild == (if |segs| == 1 && segs[0].Wildcard? then Some(WildEdge(segs[0].name, h)) else t.wild)
  {
    if segs != [] {
      assert SegOk(segs[0]);
      ItemsOfEmpty(segs[1..]);
    }
  }

  // ---------------------------------------------------------------- parameters

  /** The parameter edges are the slots, and below each lies the trie of the routes that go on after it. */
  ghost predicate EdgesMatch(params: seq<ParamEdge>, slots: seq<Slot>, rs: seq<Route>) {
    && |params| == |slots|
    && (forall i :: 0 <= i < |params| ==> EdgeMatches(params[i], slots[i], rs))
    && (forall i, j :: 0 <= i < j < |slots| ==> slots[i].name != slots[j].name)
    && (forall name :: !HasSlot(slots, name) ==> AfterParam(rs, name) == [])
  }

  ghost predicate EdgeMatches(edge: ParamEdge, slot: Slot, rs: seq<Route>) {
    && edge.name == slot.name && edge.rx == slot.rx
    && AfterParam(rs, slot.name) != []
    && Build(AfterParam(rs, slot.name)) == Some(edge.sub)
  }

  lemma {:induction false} SubAt(params: seq<ParamEdge>, i: nat, rx: Regex, sub: Trie)
    requires i < |params| && forall a, b :: 0 <= a < b < |params| ==> params[a].name != params[b].name
    ensures ParamSub(params, params[i].name) == params[i].sub
    ensures PutParam(params, params[i].name, rx, sub) == params[i := ParamEdge(params[i].name, params[i].rx, sub)]
  {
    if i > 0 {
      SubAt(params[1..], i - 1, rx, sub);
      assert params == [params[0]] + params[1..];
    }
  }

  lemma {:induction false} NoSubAt(params: seq<ParamEdge>, name: Bytes, rx: Regex, sub: Trie)
    requires forall a :: 0 <= a < |params| ==> params[a].name != name
    ensures ParamSub(params, name) == EMPTY
    ensures PutParam(params, name, rx, sub) == params + [ParamEdge(name, rx, sub)]
  {
    if params != [] {
      NoSubAt(params[1..], name, rx, sub);
      assert params == [params[0]] + params[1..];
    }
  }

  lemma {:induction false} EdgesOf(rs: seq<Route>)
    requires RoutesOk(rs) && Build(rs).Some?
    ensures EdgesMatch(Build(rs).value.params, Slots(rs), rs)
    decreases |rs|
  {
    hide Insert, ItemsOf, EdgeMatches;
    if rs != [] {
      var front, r := rs[..|rs| - 1], rs[|rs| - 1];
      EdgesOf(front);
      EdgesStep(front, rs);
    }
  }

  lemma AfterParamStep(rs: seq<Route>, name: Bytes)
    requires rs != []
    ensures var front, r := rs[..|rs| - 1], rs[|rs| - 1];
      if StartsWithParam(r.segs, name) then
        && AfterParam(rs, name) == AfterParam(front, name) + [Route(r.segs[1..], r.handler)]
        && Build(AfterParam(rs, name))
           == match Build(AfterParam(front, name))
              case None => None
              case Some(t) => Insert(t, ItemsOf(r.segs[1..]), r.handler)
      else AfterParam(rs, name) == AfterParam(front, name)
  {
    hide Insert, ItemsOf;
    var front, r := rs[..|rs| - 1], rs[|rs| - 1];
    var after := AfterParam(rs, name);
    if StartsWithParam(r.segs, name) {
      assert after[..|after| - 1] == AfterParam(front, name);
    }
  }

  lemma EdgesStep(front: seq<Route>, rs: seq<Route>)
    requires rs != [] && front == rs[..|rs| - 1] && RoutesOk(rs) && Build(rs).Some? && Build(front).Some?
    requires EdgesMatch(Build(front).value.params, Slots(front), front)
    ensures EdgesMatch(Build(rs).value.params, Slots(rs), rs)
  {
    hide ParamSub, PutParam, AfterParam, Build, Insert, ItemsOf, HasSlot;
    var r := rs[|rs| - 1];
    var before, now := Build(front).value, Build(rs).value;
    var slots := Slots(front);
    forall name ensures StartsWithParam(r.segs, name) || AfterParam(rs, name) == AfterParam(front, name) {
      AfterParamStep(rs, name);
    }
    BuildStep(rs);
    if r.segs != [] && r.segs[0].Param? {
      var name, rx := r.segs[0].name, r.segs[0].rx;
      ParamStep(before, r.segs, r.handler);
      AfterParamStep(rs, name);
      var sub := Insert(ParamSub(before.params, name), ItemsOf(r.segs[1..]), r.handler).value;
      if HasSlot(slots, name) {
        KnownSlot(before.params, slots, front, rs, name, rx, sub);
      } else {
        NewSlot(before.params, slots, front, rs, name, rx, sub);
      }
    } else {
      SameParams(before, r.segs, r.handler);
      assert Slots(rs) == slots;
    }
  }

  lemma KnownSlot(params: seq<ParamEdge>, slots: seq<Slot>, front: seq<Route>, rs: seq<Route>, name: Bytes, rx: Regex,
      sub: Trie)
    requires EdgesMatch(params, slots, front) && HasSlot(slots, name)
    requires forall other :: other != name ==> AfterParam(rs, other) == AfterParam(front, other)
    requires AfterParam(rs, name) != []
    requires Build(AfterParam(front, name)) == Some(ParamSub(params, name)) ==> Build(AfterParam(rs, name)) == Some(sub)
    ensures EdgesMatch(PutParam(params, name, rx, sub), slots, rs)
  {
    hide AfterParam, Build, PutParam, ParamSub;
    var i :| 0 <= i < |slots| && slots[i].name == name;
    assert EdgeMatches(params[i], slots[i], front);
    forall a, b | 0 <= a < b < |params| ensures params[a].name != params[b].name {
      assert EdgeMatches(params[a], slots[a], front) && EdgeMatches(params[b], slots[b], front);
    }
    SubAt(params, i, rx, sub);
    var put := PutParam(params, name, rx, sub);
    forall j | 0 <= j < |put| ensures EdgeMatches(put[j], slots[j], rs) {
      assert EdgeMatches(params[j], slots[j], front);
    }
  }

  lemma NewSlot(params: seq<ParamEdge>, slots: seq<Slot>, front: seq<Route>, rs: seq<Route>, name: Bytes, rx: Regex,
      sub: Trie)
    requires EdgesMatch(params, slots, front) && !HasSlot(slots, name)
    requires forall other :: other != name ==> AfterParam(rs, other) == AfterParam(front, other)
    requires AfterParam(rs, name) != []
    requires Build(AfterParam(front, name)) == Some(ParamSub(params, name)) ==> Build(AfterParam(rs, name)) == Some(sub)
    ensures EdgesMatch(PutParam(params, name, rx, sub), slots + [Slot(name, rx)], rs)
  {
    hide AfterParam, PutParam, ParamSub;
    forall a | 0 <= a < |params| ensures params[a].name != name {
      assert EdgeMatches(params[a], slots[a], front);
    }
    NoSubAt(params, name, rx, sub);
    assert AfterParam(front, name) == [];
    var put, more := PutParam(params, name, rx, sub), slots + [Slot(name, rx)];
    forall j | 0 <= j < |put| ensures EdgeMatches(put[j], more[j], rs) {
      if j < |params| {
        assert EdgeMatches(params[j], slots[j], front);
      }
    }
    forall other | !HasSlot(more, other) ensures AfterParam(rs, other) == [] {
      assert more[|slots|].name == name;
      assert forall i :: 0 <= i < |slots| ==> slots[i] == more[i];
      assert !HasSlot(slots, other);
    }
  }

  lemma BuildStep(rs: seq<Route>)
    requires rs != [] && Build(rs).Some?
    ensures var front, r := rs[..|rs| - 1], rs[|rs| - 1];
      Build(front).Some? && Insert(Build(front).value, ItemsOf(r.segs), r.handler) == Build(rs)
  {
  }

  lemma SameParams(t: Trie, segs: seq<Seg>, h: Handler)
    requires SegsOk(segs) && Insert(t, ItemsOf(segs), h).Some? && (segs == [] || !segs[0].Param?)
    ensures Insert(t, ItemsOf(segs), h).value.params == t.params
  {
    if segs != [] {
      assert SegOk(segs[0]);
    }
  }

  lemma ParamStep(t: Trie, segs: seq<Seg>, h: Handler)
    requires Insert(t, ItemsOf(segs), h).Some? && segs != [] && segs[0].Param?
    ensures var name := segs[0].name;
      var sub := Insert(ParamSub(t.params, name), ItemsOf(segs[1..]), h);
      sub.Some? && Insert(t, ItemsOf(segs), h).value.params == PutParam(t.params, name, segs[0].rx, sub.value)
  {
    assert ItemsOf(segs)[1..] == ItemsOf(segs[1..]);
  }

  // ---------------------------------------------------------------- capture names

  function KeysOf(caps: seq<Capture>): seq<Bytes> {
    seq(|caps|, i requires 0 <= i < |caps| => caps[i].key)
  }

  /** The capture names of the route are distinct from each other and from `keys`, and there is room for them. */
  predicate SegsFit(segs: seq<Seg>, keys: seq<Bytes>) {
    if segs == [] then true
    else
      match segs[0]
      case Static(_) => SegsFit(segs[1..], keys)
      case Param(name, _) => name !in keys && |keys| < MAX_PARAMS && SegsFit(segs[1..], keys + [name])
      case Wildcard(name) => name !in keys && |keys| < MAX_PARAMS && SegsFit(segs[1..], keys + [name])
  }

  ghost predicate RoutesFit(rs: seq<Route>, keys: seq<Bytes>) {
    forall i :: 0 <= i < |rs| ==> SegsFit(rs[i].segs, keys)
  }

  lemma {:induction false} StaticFits(rs: seq<Route>, text: Bytes, keys: seq<Bytes>)
    requires RoutesFit(rs, keys)
    ensures RoutesFit(AfterStatic(rs, text), keys)
  {
    if rs != [] {
      var front, r := rs[..|rs| - 1], rs[|rs| - 1];
      assert SegsFit(r.segs, keys);
      assert forall i :: 0 <= i < |front| ==> front[i] == rs[i];
      StaticFits(front, text, keys);
    }
  }

  lemma {:induction false} ParamFits(rs: seq<Route>, name: Bytes, keys: seq<Bytes>)
    requires RoutesFit(rs, keys)
    ensures RoutesFit(AfterParam(rs, name), keys + [name])
    ensures AfterParam(rs, name) != [] ==> name !in keys && |keys| < MAX_PARAMS
  {
    if rs != [] {
      var front, r := rs[..|rs| - 1], rs[|rs| - 1];
      assert SegsFit(r.segs, keys);
      assert forall i :: 0 <= i < |front| ==> front[i] == rs[i];
      ParamFits(front, name, keys);
    }
  }

  lemma {:induction false} WildFits(rs: seq<Route>, keys: seq<Bytes>)
    requires RoutesFit(rs, keys) && WildOf(rs).Some?
    ensures WildOf(rs).value.name !in keys && |keys| < MAX_PARAMS
  {
    var front, r := rs[..|rs| - 1], rs[|rs| - 1];
    assert SegsFit(r.segs, keys);
    assert forall i :: 0 <= i < |front| ==> front[i] == rs[i];
    if !(|r.segs| == 1 && r.segs[0].Wildcard?) {
      WildFits(front, keys);
    }
  }

  lemma {:induction false} ParamRoutesOk(rs: seq<Route>, name: Bytes)
    requires RoutesOk(rs)
    ensures RoutesOk(AfterParam(rs, name))
  {
    if rs != [] {
      var front := rs[..|rs| - 1];
      assert forall i :: 0 <= i < |front| ==> front[i] == rs[i];
      assert SegsOk(rs[|rs| - 1].segs);
      ParamRoutesOk(front, name);
    }
  }

  lemma NewKey(caps: seq<Capture>, name: Bytes, value: Bytes)
    requires name !in KeysOf(caps) && |caps| < MAX_PARAMS
    ensures SetCapture(caps, name, value) == caps + [Capture(name, value)]
    ensures DelCapture(caps + [Capture(name, value)], name) == caps
    ensures KeysOf(caps + [Capture(name, value)]) == KeysOf(caps) + [name]
  {
    assert forall i :: 0 <= i < |caps| ==> KeysOf(caps)[i] == caps[i].key;
    SetThenDel(caps, name, value);
  }

  // ---------------------------------------------------------------- the search

  predicate PathOk(p: seq<Bytes>) {
    forall i :: 0 <= i < |p| ==> p[i] != [] && SLASH !in p[i]
  }

  function PathOf(p: seq<Bytes>): Bytes {
    if p == [] then [] else Join(p)
  }

  /** What the search reports for a match, or for none: then the captures are as they were. */
  function Outcome(m: Option<Match>, caps: seq<Capture>): Found {
    if m.None? then Found(None, caps) else Found(Some(m.value.handler), m.value.caps)
  }

  /** Through text that leads to no parameter and no wildcard, the search goes straight. */
  lemma {:induction false} FindThrough(t: Trie, s: Bytes, tail: Bytes, caps: seq<Capture>)
    requires s != []
    requires forall k :: 0 < k < |s| ==> Descend(t, s[..k]).params == [] && Descend(t, s[..k]).wild == None
    ensures FindStatic(t, s + tail, caps) == Arrive(Descend(t, s), tail, caps)
    decreases |s|
  {
    var path := s + tail;
    assert path[0] == s[0] && path[1..] == s[1..] + tail;
    var sub := Sub(t, s[0]);
    ArriveEmpty(path[1..], caps);
    assert FindStatic(t, path, caps) == Arrive(sub, path[1..], caps);
    if |s| > 1 {
      assert s[..1][1..] == [] && Descend(t, s[..1]) == sub;
      forall k | 0 < k < |s| - 1
        ensures Descend(sub, s[1..][..k]).params == [] && Descend(sub, s[1..][..k]).wild == None
      {
        assert s[..k + 1][1..] == s[1..][..k] && s[..k + 1][0] == s[0];
        assert Descend(t, s[..k + 1]) == Descend(sub, s[1..][..k]);
      }
      FindThrough(sub, s[1..], tail, caps);
      Straight(sub, path[1..], caps);
    } else {
      assert s[1..] == [] && path[1..] == tail;
    }
  }

  lemma Straight(t: Trie, path: Bytes, caps: seq<Capture>)
    requires path != [] && t.params == [] && t.wild == None
    ensures Arrive(t, path, caps) == FindStatic(t, path, caps)
  {
    var byText := FindStatic(t, path, caps);
    assert FindParams(t.params, path, byText.caps) == Found(None, byText.caps);
  }

  lemma ArriveEmpty(path: Bytes, caps: seq<Capture>)
    ensures Arrive(EMPTY, path, caps) == Found(None, caps)
  {
    if path != [] {
      Straight(EMPTY, path, caps);
    }
  }

  /** The list and the trie agree: same handler, same captures, and none left behind where nothing matches. */
  lemma {:induction false} FindIsLookup(rs: seq<Route>, p: seq<Bytes>, caps: seq<Capture>)
    requires RoutesOk(rs) && Build(rs).Some? && p != [] && PathOk(p) && RoutesFit(rs, KeysOf(caps))
    ensures Find(Build(rs).value, Join(p), caps) == Outcome(Lookup(rs, p, caps), caps)
    decreases |p|, 1, 0
  {
    hide FindStatic, FindParams, LookupParams, Build, AfterStatic, Slots, WildOf, EdgeMatches, SegsFit;
    var t := Build(rs).value;
    StaticPart(rs, p, caps);
    EdgesOf(rs);
    ParamsPart(rs, t.params, Slots(rs), p, caps);
    TopOf(rs);
    if WildOf(rs).Some? {
      WildFits(rs, KeysOf(caps));
      NewKey(caps, WildOf(rs).value.name, Join(p));
    }
  }

  lemma {:induction false} ArriveIsLookup(rs: seq<Route>, p: seq<Bytes>, caps: seq<Capture>)
    requires RoutesOk(rs) && Build(rs).Some? && PathOk(p) && RoutesFit(rs, KeysOf(caps))
    ensures Arrive(Build(rs).value, PathOf(p), caps) == Outcome(Lookup(rs, p, caps), caps)
    decreases |p|, 2, 0
  {
    hide Find, LookupParams, Build, AfterStatic, Slots, WildOf;
    if p == [] {
      TopOf(rs);
    } else {
      assert p[0] != [];
      FindIsLookup(rs, p, caps);
    }
  }

  lemma {:induction false} StaticPart(rs: seq<Route>, p: seq<Bytes>, caps: seq<Capture>)
    requires RoutesOk(rs) && Build(rs).Some? && p != [] && PathOk(p) && RoutesFit(rs, KeysOf(caps))
    ensures FindStatic(Build(rs).value, Join(p), caps) == Outcome(Lookup(AfterStatic(rs, p[0]), p[1..], caps), caps)
    decreases |p|, 0, 0
  {
    hide FindStatic, FindParams, Lookup, Build, AfterStatic, SegsFit;
    var t := Build(rs).value;
    var text, tail := p[0], PathOf(p[1..]);
    var s := if |p| == 1 then text else text + [SLASH];
    assert p[0] != [] && SLASH !in p[0];
    assert Join(p) == s + tail;
    forall k | 0 < k < |s| ensures Descend(t, s[..k]).params == [] && Descend(t, s[..k]).wild == None {
      assert s[..k] == text[..k];
      InsideSegment(rs, text[..k]);
    }
    FindThrough(t, s, tail, caps);
    BelowText(rs, text);
    StaticFits(rs, text, KeysOf(caps));
    ArriveIsLookup(AfterStatic(rs, text), p[1..], caps);
    if |p| > 1 {
      assert p[1] != [];
      HandlerUnseen(Build(AfterStatic(rs, text)).value, tail, caps);
    }
  }

  lemma HandlerUnseen(t: Trie, path: Bytes, caps: seq<Capture>)
    requires path != []
    ensures Arrive(t.(handler := None), path, caps) == Arrive(t, path, caps)
  {
    assert FindStatic(t.(handler := None), path, caps) == FindStatic(t, path, caps);
  }

  lemma {:induction false} ParamsPart(rs: seq<Route>, params: seq<ParamEdge>, slots: seq<Slot>, p: seq<Bytes>,
      caps: seq<Capture>)
    requires RoutesOk(rs) && Build(rs).Some? && p != [] && PathOk(p) && RoutesFit(rs, KeysOf(caps))
    requires |params| == |slots| && forall i :: 0 <= i < |params| ==> EdgeMatches(params[i], slots[i], rs)
    ensures FindParams(params, Join(p), caps) == Outcome(LookupParams(rs, slots, p, caps), caps)
    decreases |p|, 0, |params|
  {
    hide Lookup, Build, FindParam, EdgeMatches, Join, SegsFit;
    if params != [] {
      OneParam(rs, params[0], slots[0], p, caps);
      forall i | 0 <= i < |params| - 1 ensures EdgeMatches(params[1..][i], slots[1..][i], rs) {
        assert params[1..][i] == params[i + 1] && slots[1..][i] == slots[i + 1];
      }
      ParamsPart(rs, params[1..], slots[1..], p, caps);
    }
  }

  lemma {:induction false} OneParam(rs: seq<Route>, edge: ParamEdge, slot: Slot, p: seq<Bytes>, caps: seq<Capture>)
    requires RoutesOk(rs) && Build(rs).Some? && p != [] && PathOk(p) && RoutesFit(rs, KeysOf(caps))
    requires EdgeMatches(edge, slot, rs)
    ensures var tried :=
      if Accepts(slot.rx, p[0]) then Lookup(AfterParam(rs, slot.name), p[1..], caps + [Capture(slot.name, p[0])])
                         else None;
      FindParam(edge, Join(p), caps) == Outcome(tried, caps)
    decreases |p|, 0, 0
  {
    hide Find, Lookup, Build, AfterParam, SegsFit;
    var path := Join(p);
    assert p[0] != [] && SLASH !in p[0];
    FirstValue(p);
    if Accepts(slot.rx, p[0]) {
      var after := AfterParam(rs, slot.name);
      var more := caps + [Capture(slot.name, p[0])];
      ParamFits(rs, slot.name, KeysOf(caps));
      NewKey(caps, slot.name, p[0]);
      ParamRoutesOk(rs, slot.name);
      ArriveIsLookup(after, p[1..], more);
      if |p| > 1 {
        assert p[1] != [];
      }
    }
  }

  lemma FirstValue(p: seq<Bytes>)
    requires p != [] && PathOk(p)
    ensures ValueEnd(Join(p)) == |p[0]| && Join(p)[..|p[0]|] == p[0]
    ensures |p[0]| == |Join(p)| <==> |p| == 1
    ensures |p| > 1 ==> Join(p)[|p[0]| + 1..] == PathOf(p[1..])
  {
    var path := Join(p);
    assert SLASH !in p[0];
    if |p| > 1 {
      assert path[|p[0]|] == SLASH && forall k :: 0 <= k < |p[0]| ==> path[k] == p[0][k];
      IndexByteUnique(path, SLASH, |p[0]|);
    } else {
      IndexByteIsFirst(path, SLASH);
    }
  }
}
