/** What a plain list of registered routes gives for a path, and the proof that the trie gives the same. */
module RouterRoutes {
  import opened Bytes
  import opened Options
  import opened RouterTrie
  import opened RouterKids
  import opened RouterTree

  datatype Route = Route(segs: seq<Seg>, handler: Handler)

  // ---------------------------------------------------------------- the reference

  /** The routes that go on after a first segment of this text. */
  function AfterStatic(rs: seq<Route>, text: Bytes): seq<Route> {
    if rs == [] then []
    else
      var r := rs[|rs| - 1];
      AfterStatic(rs[..|rs| - 1], text)
      + (if r.segs != [] && r.segs[0] == Static(text) then [Route(r.segs[1..], r.handler)] else [])
  }

  predicate StartsWithParam(segs: seq<Seg>, name: Bytes) {
    segs != [] && segs[0].Param? && segs[0].name == name
  }

  function AfterParam(rs: seq<Route>, name: Bytes): seq<Route> {
    if rs == [] then []
    else
      var r := rs[|rs| - 1];
      AfterParam(rs[..|rs| - 1], name) + (if StartsWithParam(r.segs, name) then [Route(r.segs[1..], r.handler)] else [])
  }

  datatype Slot = Slot(name: Bytes, rx: Regex)

  predicate HasSlot(slots: seq<Slot>, name: Bytes) {
    exists i :: 0 <= i < |slots| && slots[i].name == name
  }

  /** The parameters that may come first, in the order of their first registration and with the constraint they
      were registered with then. */
  function Slots(rs: seq<Route>): seq<Slot> {
    if rs == [] then []
    else
      var before := Slots(rs[..|rs| - 1]);
      var segs := rs[|rs| - 1].segs;
      if segs != [] && segs[0].Param? && !HasSlot(before, segs[0].name) then before + [Slot(segs[0].name, segs[0].rx)]
      else before
  }

  function Ended(rs: seq<Route>): Option<Handler> {
    if rs == [] then None
    else if rs[|rs| - 1].segs == [] then Some(rs[|rs| - 1].handler)
    else Ended(rs[..|rs| - 1])
  }

  function WildOf(rs: seq<Route>): Option<WildEdge> {
    if rs == [] then None
    else
      var r := rs[|rs| - 1];
      if |r.segs| == 1 && r.segs[0].Wildcard? then Some(WildEdge(r.segs[0].name, r.handler))
      else WildOf(rs[..|rs| - 1])
  }

  /** The path of these segments, without a leading slash. */
  function Join(p: seq<Bytes>): Bytes
    requires p != []
  {
    if |p| == 1 then p[0] else p[0] + [SLASH] + Join(p[1..])
  }

  datatype Match = Match(handler: Handler, caps: seq<Capture>)

  /** The route for path segments `p`: text first, then the parameters in turn, then the wildcard; a choice that
      leads nowhere is given up for the next. */
  function Lookup(rs: seq<Route>, p: seq<Bytes>, caps: seq<Capture>): Option<Match>
    decreases |p|, 1, 0
  {
    if p == [] then
      match Ended(rs)
      case None => None
      case Some(h) => Some(Match(h, caps))
    else
      var byText := Lookup(AfterStatic(rs, p[0]), p[1..], caps);
      if byText.Some? then byText
      else
        var byParam := LookupParams(rs, Slots(rs), p, caps);
        if byParam.Some? then byParam
        else
          match WildOf(rs)
          case None => None
          case Some(w) => Some(Match(w.handler, caps + [Capture(w.name, Join(p))]))
  }

  function LookupParams(rs: seq<Route>, slots: seq<Slot>, p: seq<Bytes>, caps: seq<Capture>): Option<Match>
    requires p != []
    decreases |p|, 0, |slots|
  {
    if slots == [] then None
    else
      var tried :=
        if Accepts(slots[0].rx, p[0]) then
          Lookup(AfterParam(rs, slots[0].name), p[1..], caps + [Capture(slots[0].name, p[0])])
        else None;
      if tried.Some? then tried else LookupParams(rs, slots[1..], p, caps)
  }

  // ---------------------------------------------------------------- the trie of a list of routes

  /** Items, on what is left of a route. */
  function ItemsOf(segs: seq<Seg>): seq<Item> {
    if segs == [] then []
    else
      match segs[0]
      case Static(text) => Chars(FirstText(segs)) + ItemsOf(segs[1..])
      case Param(name, rx) => [Par(name, rx)] + ItemsOf(segs[1..])
      case Wildcard(name) => [Item.Wild(name)] + ItemsOf(segs[1..])
  }

  function FirstText(segs: seq<Seg>): Bytes
    requires segs != [] && segs[0].Static?
  {
    segs[0].text + (if |segs| > 1 then [SLASH] else [])
  }

  lemma {:induction false} ItemsAgree(segs: seq<Seg>, idx: nat)
    requires idx <= |segs|
    ensures Items(segs, idx) == ItemsOf(segs[idx..])
    decreases |segs| - idx
  {
    if idx < |segs| {
      ItemsAgree(segs, idx + 1);
      assert segs[idx..][0] == segs[idx] && segs[idx..][1..] == segs[idx + 1..];
    }
  }

  function Build(rs: seq<Route>): Option<Trie> {
    if rs == [] then Some(EMPTY)
    else
      match Build(rs[..|rs| - 1])
      case None => None
      case Some(t) => Insert(t, ItemsOf(rs[|rs| - 1].segs), rs[|rs| - 1].handler)
  }

  ghost predicate RoutesOk(rs: seq<Route>) {
    forall i :: 0 <= i < |rs| ==> SegsOk(rs[i].segs)
  }

  function Descend(t: Trie, s: Bytes): Trie
    decreases |s|
  {
    if s == [] then t else Descend(Sub(t, s[0]), s[1..])
  }

  /** How an insertion shows at the end of a piece of text. */
  lemma {:induction false} DescendInsert(t: Trie, s: Bytes, text: Bytes, rest: seq<Item>, h: Handler)
    requires Insert(t, Chars(text) + rest, h).Some?
    ensures var r := Insert(t, Chars(text) + rest, h).value;
      && (s == text ==> Insert(Descend(t, s), rest, h) == Some(Descend(r, s)))
      && (!(s <= text) && !(text <= s) ==> Descend(r, s) == Descend(t, s))
      && (s < text ==> Descend(r, s).(statics := Descend(t, s).statics) == Descend(t, s))
      && (text < s && (rest == [] || !rest[0].Ch?) ==> Descend(r, s) == Descend(t, s))
    decreases |s|
  {
    var items := Chars(text) + rest;
    var r := Insert(t, items, h).value;
    if text == [] {
      assert items == rest;
    } else {
      assert items[0] == Ch(text[0]) && items[1..] == Chars(text[1..]) + rest;
      assert text == [text[0]] + text[1..];
      if s != [] {
        assert s == [s[0]] + s[1..];
        if s[0] == text[0] {
          DescendInsert(Sub(t, s[0]), s[1..], text[1..], rest, h);
          assert s <= text <==> s[1..] <= text[1..];
          assert text <= s <==> text[1..] <= s[1..];
        }
      }
    }
  }

  /** An insertion below does not care for the handler here. */
  lemma HandlerApart(t: Trie, x: Option<Handler>, items: seq<Item>, h: Handler)
    requires items != []
    ensures var a := Insert(t, items, h); var b := Insert(t.(handler := x), items, h);
      if a.None? then b.None? else b == Some(a.value.(handler := x))
  {
  }

  lemma ItemsOfEmpty(segs: seq<Seg>)
    requires SegsOk(segs)
    ensures ItemsOf(segs) == [] <==> segs == []
  {
    if segs != [] {
      assert SegOk(segs[0]);
    }
  }

  /** Text inside one segment leads to no parameter and no wildcard. */
  lemma {:induction false} InsideSegment(rs: seq<Route>, s: Bytes)
    requires RoutesOk(rs) && Build(rs).Some? && s != [] && SLASH !in s
    ensures var d := Descend(Build(rs).value, s); d.params == [] && d.wild == None
    decreases |rs|
  {
    if rs == [] {
      DescendEmpty(s);
    } else {
      var front, r := rs[..|rs| - 1], rs[|rs| - 1];
      InsideSegment(front, s);
      StepInto(Build(front).value, r.segs, r.handler, s);
    }
  }

  lemma {:induction false} DescendEmpty(s: Bytes)
    ensures Descend(EMPTY, s) == EMPTY
    decreases |s|
  {
    if s != [] {
      DescendEmpty(s[1..]);
    }
  }

  lemma StepInto(t: Trie, segs: seq<Seg>, h: Handler, s: Bytes)
    requires SegsOk(segs) && Insert(t, ItemsOf(segs), h).Some? && s != [] && SLASH !in s
    ensures var r := Insert(t, ItemsOf(segs), h).value;
      Descend(r, s).params == Descend(t, s).params && Descend(r, s).wild == Descend(t, s).wild
  {
    if segs != [] && segs[0].Static? {
      assert SegOk(segs[0]);
      var text := FirstText(segs);
      ItemsOfEmpty(segs[1..]);
      DescendInsert(t, s, text, ItemsOf(segs[1..]), h);
      if |segs| > 1 {
        assert text[|text| - 1] == SLASH;
        assert |text| <= |s| ==> s[..|text|][|text| - 1] != SLASH;
      }
    }
  }

  /** Below the text of a static segment lies the trie of the routes that go on after it. Its handler sits at the
      end of the text, everything else behind the slash. */
  lemma {:induction false} BelowText(rs: seq<Route>, text: Bytes)
    requires RoutesOk(rs) && Build(rs).Some? && text != [] && SLASH !in text
    ensures RoutesOk(AfterStatic(rs, text)) && Build(AfterStatic(rs, text)).Some?
    ensures var u := Build(AfterStatic(rs, text)).value;
      && Descend(Build(rs).value, text).handler == u.handler
      && Descend(Build(rs).value, text + [SLASH]) == u.(handler := None)
    decreases |rs|
  {
    hide ItemsOf, Insert, Descend;
    if rs == [] {
      DescendEmpty(text);
      DescendEmpty(text + [SLASH]);
    } else {
      var front, r := rs[..|rs| - 1], rs[|rs| - 1];
      BelowText(front, text);
      BelowTextStep(Build(front).value, Build(AfterStatic(front, text)).value, r.segs, r.handler, text);
      var after := AfterStatic(rs, text);
      if r.segs != [] && r.segs[0] == Static(text) {
        assert after[..|after| - 1] == AfterStatic(front, text);
      } else {
        assert after == AfterStatic(front, text);
      }
    }
  }

  lemma BelowTextStep(t: Trie, u: Trie, segs: seq<Seg>, h: Handler, text: Bytes)
    requires SegsOk(segs) && Insert(t, ItemsOf(segs), h).Some? && text != [] && SLASH !in text
    requires Descend(t, text).handler == u.handler && Descend(t, text + [SLASH]) == u.(handler := None)
    ensures var r := Insert(t, ItemsOf(segs), h).value;
      var v := if segs != [] && segs[0] == Static(text) then Insert(u, ItemsOf(segs[1..]), h) else Some(u);
      v.Some? && Descend(r, text).handler == v.value.handler && Descend(r, text + [SLASH]) == v.value.(handler := None)
  {
    if segs != [] && segs[0].Static? {
      assert SegOk(segs[0]);
      var first, rest := FirstText(segs), ItemsOf(segs[1..]);
      ItemsOfEmpty(segs[1..]);
      DescendInsert(t, text, first, rest, h);
      DescendInsert(t, text + [SLASH], first, rest, h);
      if segs[0].text == text {
        if |segs| > 1 {
          HandlerApart(u, None, rest, h);
        }
      } else {
        TextsApart(text, segs[0].text);
      }
    }
  }

  /** Two different segment texts, with their slashes, are never prefixes of each other. */
  lemma TextsApart(a: Bytes, b: Bytes)
    requires a != b && SLASH !in a && SLASH !in b
    ensures !(a + [SLASH] <= b + [SLASH]) && !(a + [SLASH] <= b) && !(b + [SLASH] <= a)
  {
    var a1, b1 := a + [SLASH], b + [SLASH];
    assert a1[|a|] == SLASH && b1[|b|] == SLASH;
    assert |a| < |b| ==> b[..|a1|][|a|] != SLASH && b1[..|a1|][|a|] != SLASH;
    assert |b| < |a| ==> a[..|b1|][|b|] != SLASH;
    assert a1[..|a|] == a && b1[..|b|] == b;
  }
}
