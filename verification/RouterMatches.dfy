/** What the order of choices in Lookup does not change: it finds a route exactly if some route fits the path, and
    what it finds is such a route with its own captures. */
module RouterMatches {
  import opened Bytes
  import opened Options
  import opened RouterTrie
  import opened RouterKids
  import opened RouterTree
  import opened RouterRoutes

  /** The route fits the path segments, taken alone. */
  predicate Fits(segs: seq<Seg>, p: seq<Bytes>) {
    if segs == [] then p == []
    else
      match segs[0]
      case Static(text) => p != [] && p[0] == text && Fits(segs[1..], p[1..])
      case Param(_, rx) => p != [] && (rx.None? || rx.value(p[0])) && Fits(segs[1..], p[1..])
      case Wildcard(_) => p != [] && |segs| == 1
  }

  function CapturesOf(segs: seq<Seg>, p: seq<Bytes>): seq<Capture>
    requires Fits(segs, p)
  {
    if segs == [] then []
    else
      match segs[0]
      case Static(_) => CapturesOf(segs[1..], p[1..])
      case Param(name, _) => [Capture(name, p[0])] + CapturesOf(segs[1..], p[1..])
      case Wildcard(name) => [Capture(name, Join(p))]
  }

  /** Wherever the search for `p` may come, a parameter name has one constraint. */
  ghost predicate OneRule(rs: seq<Route>, p: seq<Bytes>)
    decreases |p|
  {
    && (forall r, s, name :: r in rs && s in rs && StartsWithParam(r.segs, name) && StartsWithParam(s.segs, name) ==>
          r.segs[0].rx == s.segs[0].rx)
    && (p != [] ==> OneRule(AfterStatic(rs, p[0]), p[1..]) && forall name :: OneRule(AfterParam(rs, name), p[1..]))
  }

  lemma {:induction false} InAfterStatic(rs: seq<Route>, text: Bytes, r: Route)
    ensures r in AfterStatic(rs, text) <==> Route([Static(text)] + r.segs, r.handler) in rs
  {
    if rs != [] {
      var front, last := rs[..|rs| - 1], rs[|rs| - 1];
      InAfterStatic(front, text, r);
      assert rs == front + [last];
      var full := Route([Static(text)] + r.segs, r.handler);
      assert full.segs[1..] == r.segs;
      if last.segs != [] && last.segs[0] == Static(text) {
        assert last.segs == [Static(text)] + last.segs[1..];
      }
    }
  }

  lemma {:induction false} InAfterParam(rs: seq<Route>, name: Bytes, r: Route)
    ensures r in AfterParam(rs, name) <==> exists rx :: Route([Seg.Param(name, rx)] + r.segs, r.handler) in rs
  {
    if rs != [] {
      var front, last := rs[..|rs| - 1], rs[|rs| - 1];
      InAfterParam(front, name, r);
      assert rs == front + [last];
      if StartsWithParam(last.segs, name) {
        assert last.segs == [Seg.Param(name, last.segs[0].rx)] + last.segs[1..];
        forall rx | Route([Seg.Param(name, rx)] + r.segs, r.handler) == last
          ensures r == Route(last.segs[1..], last.handler)
        {
          assert ([Seg.Param(name, rx)] + r.segs)[1..] == r.segs;
        }
      } else {
        assert forall rx :: Route([Seg.Param(name, rx)] + r.segs, r.handler) != last by {
          forall rx ensures Route([Seg.Param(name, rx)] + r.segs, r.handler) != last {
            assert StartsWithParam([Seg.Param(name, rx)] + r.segs, name);
          }
        }
      }
    }
  }

  lemma {:induction false} EndedIn(rs: seq<Route>)
    ensures Ended(rs).Some? <==> exists r :: r in rs && r.segs == []
    ensures Ended(rs).Some? ==> Route([], Ended(rs).value) in rs
  {
    if rs != [] {
      EndedIn(rs[..|rs| - 1]);
      assert rs == rs[..|rs| - 1] + [rs[|rs| - 1]];
    }
  }

  lemma {:induction false} WildIn(rs: seq<Route>)
    ensures WildOf(rs).Some? <==> exists r :: r in rs && |r.segs| == 1 && r.segs[0].Wildcard?
    ensures WildOf(rs).Some? ==> Route([Seg.Wildcard(WildOf(rs).value.name)], WildOf(rs).value.handler) in rs
  {
    if rs != [] {
      var last := rs[|rs| - 1];
      WildIn(rs[..|rs| - 1]);
      assert rs == rs[..|rs| - 1] + [last];
      if |last.segs| == 1 && last.segs[0].Wildcard? {
        assert last.segs == [Seg.Wildcard(last.segs[0].name)];
      }
    }
  }

  /** Some route starts with this parameter and this constraint. */
  ghost predicate Backed(rs: seq<Route>, slot: Slot) {
    exists r :: r in rs && StartsWithParam(r.segs, slot.name) && r.segs[0].rx == slot.rx
  }

  lemma {:induction false} SlotsBacked(rs: seq<Route>)
    ensures forall i :: 0 <= i < |Slots(rs)| ==> Backed(rs, Slots(rs)[i])
  {
    if rs != [] {
      var front, last := rs[..|rs| - 1], rs[|rs| - 1];
      SlotsBacked(front);
      assert rs == front + [last];
      var before, slots := Slots(front), Slots(rs);
      forall i | 0 <= i < |slots| ensures Backed(rs, slots[i]) {
        if i < |before| {
          assert Backed(front, before[i]);
        } else {
          assert last in rs && StartsWithParam(last.segs, slots[i].name);
        }
      }
    }
  }

  lemma {:induction false} HasItsSlot(rs: seq<Route>, r: Route, name: Bytes)
    requires r in rs && StartsWithParam(r.segs, name)
    ensures HasSlot(Slots(rs), name)
  {
    var front, last := rs[..|rs| - 1], rs[|rs| - 1];
    assert rs == front + [last];
    var before, slots := Slots(front), Slots(rs);
    if r in front {
      HasItsSlot(front, r, name);
    }
    if HasSlot(before, name) {
      var i :| 0 <= i < |before| && before[i].name == name;
      assert slots[i].name == name;
    } else {
      assert slots[|before|].name == name;
    }
  }

  ghost predicate Wins(r: Route, rs: seq<Route>, p: seq<Bytes>, caps: seq<Capture>, m: Match) {
    r in rs && Fits(r.segs, p) && m == Match(r.handler, caps + CapturesOf(r.segs, p))
  }

  /** Up to some segment both routes go the same way; there one has text and the other does not, or one a parameter and
      the other a wildcard. */
  ghost predicate Better(a: seq<Seg>, b: seq<Seg>)
    decreases |a|
  {
    && a != [] && b != []
    && match a[0]
       case Static(_) => !b[0].Static? || (b[0] == a[0] && Better(a[1..], b[1..]))
       case Param(name, _) => b[0].Wildcard? || (b[0].Param? && b[0].name == name && Better(a[1..], b[1..]))
       case Wildcard(_) => false
  }

  /** No route that fits is better. */
  ghost predicate Best(r: Route, rs: seq<Route>, p: seq<Bytes>) {
    forall s :: s in rs && Fits(s.segs, p) ==> !Better(s.segs, r.segs)
  }

  /** What is found is one of the routes that fit, and its captures; text goes before parameters, and these go before
      wildcards. */
  lemma {:induction false} FoundFits(rs: seq<Route>, p: seq<Bytes>, caps: seq<Capture>) returns (r: Route)
    requires OneRule(rs, p) && Lookup(rs, p, caps).Some?
    ensures Wins(r, rs, p, caps, Lookup(rs, p, caps).value) && Best(r, rs, p)
    decreases |p|, 1, 0
  {
    hide AfterStatic, Slots, WildOf, Ended, Join, OneRule;
    if p == [] {
      EndedIn(rs);
      r := Route([], Ended(rs).value);
      assert caps + [] == caps;
    } else if Lookup(AfterStatic(rs, p[0]), p[1..], caps).Some? {
      RuleBelow(rs, p);
      var below := FoundFits(AfterStatic(rs, p[0]), p[1..], caps);
      InAfterStatic(rs, p[0], below);
      r := Route([Static(p[0])] + below.segs, below.handler);
      assert r.segs[1..] == below.segs;
      forall s | s in rs && Fits(s.segs, p) ensures !Better(s.segs, r.segs) {
        if s.segs[0].Static? {
          TailAfterStatic(rs, p, s);
        }
      }
    } else if LookupParams(rs, Slots(rs), p, caps).Some? {
      SlotsBacked(rs);
      r := FoundByParam(rs, Slots(rs), p, caps);
      forall s | s in rs && Fits(s.segs, p) ensures !Better(s.segs, r.segs) {
        NoTextFits(rs, p, caps, s);
      }
    } else {
      WildIn(rs);
      r := Route([Seg.Wildcard(WildOf(rs).value.name)], WildOf(rs).value.handler);
      forall s | s in rs && Fits(s.segs, p) ensures !Better(s.segs, r.segs) {
        NoTextFits(rs, p, caps, s);
        NoParamFits(rs, p, caps, s);
      }
    }
  }

  lemma TailAfterStatic(rs: seq<Route>, p: seq<Bytes>, s: Route)
    requires p != [] && s in rs && Fits(s.segs, p) && s.segs[0].Static?
    ensures s.segs[0] == Static(p[0]) && Fits(s.segs[1..], p[1..])
    ensures Route(s.segs[1..], s.handler) in AfterStatic(rs, p[0])
  {
    InAfterStatic(rs, p[0], Route(s.segs[1..], s.handler));
    assert [Static(p[0])] + s.segs[1..] == s.segs;
  }

  lemma TailAfterParam(rs: seq<Route>, p: seq<Bytes>, s: Route)
    requires p != [] && s in rs && Fits(s.segs, p) && s.segs[0].Param?
    ensures Fits(s.segs[1..], p[1..]) && Route(s.segs[1..], s.handler) in AfterParam(rs, s.segs[0].name)
  {
    var name := s.segs[0].name;
    InAfterParam(rs, name, Route(s.segs[1..], s.handler));
    assert [Seg.Param(name, s.segs[0].rx)] + s.segs[1..] == s.segs;
  }

  /** If nothing is found behind the text, no route that fits starts with it. */
  lemma NoTextFits(rs: seq<Route>, p: seq<Bytes>, caps: seq<Capture>, s: Route)
    requires OneRule(rs, p) && p != [] && Lookup(AfterStatic(rs, p[0]), p[1..], caps).None?
    requires s in rs && Fits(s.segs, p)
    ensures !s.segs[0].Static?
  {
    hide Lookup, AfterStatic, OneRule;
    if s.segs[0].Static? {
      RuleBelow(rs, p);
      TailAfterStatic(rs, p, s);
      FittingIsFound(AfterStatic(rs, p[0]), p[1..], caps, Route(s.segs[1..], s.handler));
    }
  }

  lemma NoParamFits(rs: seq<Route>, p: seq<Bytes>, caps: seq<Capture>, s: Route)
    requires OneRule(rs, p) && p != [] && LookupParams(rs, Slots(rs), p, caps).None?
    requires s in rs && Fits(s.segs, p)
    ensures !s.segs[0].Param?
  {
    hide LookupParams, Slots, OneRule;
    if s.segs[0].Param? {
      SlotsBacked(rs);
      HasItsSlot(rs, s, s.segs[0].name);
      var i :| 0 <= i < |Slots(rs)| && Slots(rs)[i].name == s.segs[0].name;
      FittingByParam(rs, Slots(rs), i, p, caps, s);
    }
  }

  lemma RuleOf(rs: seq<Route>, p: seq<Bytes>, slot: Slot, r: Route)
    requires OneRule(rs, p) && r in rs && StartsWithParam(r.segs, slot.name)
    requires Backed(rs, slot)
    ensures r.segs[0].rx == slot.rx
  {
  }

  lemma RuleBelow(rs: seq<Route>, p: seq<Bytes>)
    requires OneRule(rs, p) && p != []
    ensures OneRule(AfterStatic(rs, p[0]), p[1..]) && forall name :: OneRule(AfterParam(rs, name), p[1..])
  {
  }

  lemma {:induction false} FoundByParam(rs: seq<Route>, slots: seq<Slot>, p: seq<Bytes>, caps: seq<Capture>)
      returns (r: Route)
    requires p != [] && OneRule(rs, p) && LookupParams(rs, slots, p, caps).Some?
    requires forall i :: 0 <= i < |slots| ==> Backed(rs, slots[i])
    ensures Wins(r, rs, p, caps, LookupParams(rs, slots, p, caps).value) && r.segs[0].Param?
    ensures forall s :: s in rs && Fits(s.segs, p) && s.segs[0].Param? ==> !Better(s.segs, r.segs)
    decreases |p|, 0, |slots|
  {
    hide AfterParam, Join, Lookup, OneRule, SegOk;
    var name := slots[0].name;
    var more := caps + [Capture(name, p[0])];
    if Accepts(slots[0].rx, p[0]) && Lookup(AfterParam(rs, name), p[1..], more).Some? {
      RuleBelow(rs, p);
      var below := FoundFits(AfterParam(rs, name), p[1..], more);
      InAfterParam(rs, name, below);
      var rx :| Route([Seg.Param(name, rx)] + below.segs, below.handler) in rs;
      r := Route([Seg.Param(name, rx)] + below.segs, below.handler);
      assert r.segs[1..] == below.segs && StartsWithParam(r.segs, name);
      RuleOf(rs, p, slots[0], r);
      assert caps + ([Capture(name, p[0])] + CapturesOf(below.segs, p[1..])) == more + CapturesOf(below.segs, p[1..]);
      forall s | s in rs && Fits(s.segs, p) && s.segs[0].Param? ensures !Better(s.segs, r.segs) {
        TailAfterParam(rs, p, s);
      }
    } else {
      r := FoundByParam(rs, slots[1..], p, caps);
    }
  }

  /** If any route fits, one is found: no choice is final while another is left. */
  lemma {:induction false} FittingIsFound(rs: seq<Route>, p: seq<Bytes>, caps: seq<Capture>, r: Route)
    requires OneRule(rs, p) && r in rs && Fits(r.segs, p)
    ensures Lookup(rs, p, caps).Some?
    decreases |p|, 1, 0
  {
    hide AfterStatic, AfterParam, Slots, WildOf, Ended, Join;
    if r.segs == [] {
      EndedIn(rs);
    } else {
      var below := Route(r.segs[1..], r.handler);
      match r.segs[0]
      case Static(text) =>
        assert [Static(text)] + below.segs == r.segs;
        InAfterStatic(rs, text, below);
        FittingIsFound(AfterStatic(rs, text), p[1..], caps, below);
      case Param(name, rx) =>
        SlotsBacked(rs);
        HasItsSlot(rs, r, name);
        var i :| 0 <= i < |Slots(rs)| && Slots(rs)[i].name == name;
        FittingByParam(rs, Slots(rs), i, p, caps, r);
      case Wildcard(_) =>
        WildIn(rs);
    }
  }

  lemma {:induction false} FittingByParam(rs: seq<Route>, slots: seq<Slot>, i: nat, p: seq<Bytes>, caps: seq<Capture>,
      r: Route)
    requires OneRule(rs, p) && r in rs && Fits(r.segs, p) && i < |slots| && StartsWithParam(r.segs, slots[i].name)
    requires forall i :: 0 <= i < |slots| ==> Backed(rs, slots[i])
    ensures LookupParams(rs, slots, p, caps).Some?
    decreases |p|, 0, i
  {
    hide AfterParam, Lookup;
    if i > 0 {
      FittingByParam(rs, slots[1..], i - 1, p, caps, r);
    } else {
      var name := slots[0].name;
      var below := Route(r.segs[1..], r.handler);
      assert [Seg.Param(name, r.segs[0].rx)] + below.segs == r.segs;
      InAfterParam(rs, name, below);
      RuleBelow(rs, p);
      FittingIsFound(AfterParam(rs, name), p[1..], caps + [Capture(name, p[0])], below);
    }
  }

  // ---------------------------------------------------------------- registrations do not interfere

  /** A later route changes nothing for the paths that it does not fit. */
  lemma {:induction false} AddIsLocal(rs: seq<Route>, r: Route, p: seq<Bytes>, caps: seq<Capture>)
    requires OneRule(rs + [r], p) && !Fits(r.segs, p)
    ensures Lookup(rs + [r], p, caps) == Lookup(rs, p, caps)
    decreases |p|, 1, 0
  {
    hide OneRule, LookupParams;
    var more := rs + [r];
    assert more[..|more| - 1] == rs;
    if p != [] {
      RuleBelow(more, p);
      if r.segs != [] && r.segs[0] == Static(p[0]) {
        assert AfterStatic(more, p[0]) == AfterStatic(rs, p[0]) + [Route(r.segs[1..], r.handler)];
        AddIsLocal(AfterStatic(rs, p[0]), Route(r.segs[1..], r.handler), p[1..], caps);
      } else {
        assert AfterStatic(more, p[0]) == AfterStatic(rs, p[0]);
      }
      assert WildOf(more) == WildOf(rs);
      SlotsBacked(more);
      ParamsLocal(rs, r, Slots(more), p, caps);
      NewSlotIsIdle(rs, r, p, caps);
    }
  }

  lemma {:induction false} ParamsLocal(rs: seq<Route>, r: Route, slots: seq<Slot>, p: seq<Bytes>, caps: seq<Capture>)
    requires p != [] && OneRule(rs + [r], p) && !Fits(r.segs, p)
    requires forall i :: 0 <= i < |slots| ==> Backed(rs + [r], slots[i])
    ensures LookupParams(rs + [r], slots, p, caps) == LookupParams(rs, slots, p, caps)
    decreases |p|, 0, |slots|
  {
    hide OneRule, Lookup, Backed;
    var more := rs + [r];
    assert more[..|more| - 1] == rs;
    if slots != [] {
      var name := slots[0].name;
      if StartsWithParam(r.segs, name) {
        RuleBelow(more, p);
        RuleOf(more, p, slots[0], r);
        assert AfterParam(more, name) == AfterParam(rs, name) + [Route(r.segs[1..], r.handler)];
        if Accepts(slots[0].rx, p[0]) {
          AddIsLocal(AfterParam(rs, name), Route(r.segs[1..], r.handler), p[1..], caps + [Capture(name, p[0])]);
        }
      } else {
        assert AfterParam(more, name) == AfterParam(rs, name);
      }
      ParamsLocal(rs, r, slots[1..], p, caps);
    }
  }

  /** A slot that no earlier route has leads nowhere in the earlier list. */
  lemma NewSlotIsIdle(rs: seq<Route>, r: Route, p: seq<Bytes>, caps: seq<Capture>)
    requires p != []
    ensures LookupParams(rs, Slots(rs + [r]), p, caps) == LookupParams(rs, Slots(rs), p, caps)
  {
    var more := rs + [r];
    assert more[..|more| - 1] == rs;
    if Slots(more) != Slots(rs) {
      var slot := Slots(more)[|Slots(rs)|];
      if AfterParam(rs, slot.name) != [] {
        var below := AfterParam(rs, slot.name)[0];
        InAfterParam(rs, slot.name, below);
        var rx :| Route([Seg.Param(slot.name, rx)] + below.segs, below.handler) in rs;
        HasItsSlot(rs, Route([Seg.Param(slot.name, rx)] + below.segs, below.handler), slot.name);
      }
      IdleSlot(rs, Slots(rs), slot, p, caps);
    }
  }

  lemma {:induction false} IdleSlot(rs: seq<Route>, slots: seq<Slot>, slot: Slot, p: seq<Bytes>, caps: seq<Capture>)
    requires p != [] && AfterParam(rs, slot.name) == []
    ensures LookupParams(rs, slots + [slot], p, caps) == LookupParams(rs, slots, p, caps)
  {
    hide AfterParam, Lookup;
    if slots == [] {
      assert [slot][1..] == [];
      NothingFound(p[1..], caps + [Capture(slot.name, p[0])]);
    } else {
      assert (slots + [slot])[1..] == slots[1..] + [slot];
      IdleSlot(rs, slots[1..], slot, p, caps);
    }
  }

  lemma {:induction false} NothingFound(p: seq<Bytes>, caps: seq<Capture>)
    ensures Lookup([], p, caps) == None
  {
    if p != [] {
      NothingFound(p[1..], caps);
      assert LookupParams([], [], p, caps) == None;
    }
  }
}
