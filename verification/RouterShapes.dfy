/** Which lists of routes can be registered: those whose wildcards come last and that say nothing twice. */
module RouterShapes {
  import opened Bytes
  import opened Options
  import opened RouterTrie
  import opened RouterKids
  import opened RouterTree
  import opened RouterRoutes

  predicate SameSeg(a: Seg, b: Seg) {
    match a
    case Static(text) => b.Static? && b.text == text
    case Param(name, _) => b.Param? && b.name == name
    case Wildcard(_) => b.Wildcard?
  }

  /** The same texts and parameter names in the same places, and wildcards in the same places. */
  predicate SameShape(a: seq<Seg>, b: seq<Seg>) {
    |a| == |b| && forall i :: 0 <= i < |a| ==> SameSeg(a[i], b[i])
  }

  predicate WildcardLast(segs: seq<Seg>) {
    forall i :: 0 <= i < |segs| - 1 ==> !segs[i].Wildcard?
  }

  /** Every wildcard is the last segment of its route, and no two routes have the same shape. */
  ghost predicate Registrable(rs: seq<Route>) {
    && (forall i :: 0 <= i < |rs| ==> WildcardLast(rs[i].segs))
    && (forall i, j :: 0 <= i < j < |rs| ==> !SameShape(rs[i].segs, rs[j].segs))
  }

  lemma Marks()
    ensures Ascii("/") == [SLASH] && Ascii(":") == [COLON] && Ascii("*") == [STAR]
  {
  }

  // ---------------------------------------------------------------- shapes are items

  lemma ShapeRest(a: seq<Seg>, b: seq<Seg>)
    requires a != [] && b != []
    ensures SameShape(a, b) <==> SameSeg(a[0], b[0]) && SameShape(a[1..], b[1..])
  {
    hide SameSeg;
    if SameSeg(a[0], b[0]) && SameShape(a[1..], b[1..]) {
      forall i | 0 <= i < |a| ensures SameSeg(a[i], b[i]) {
        if i > 0 {
          assert SameSeg(a[1..][i - 1], b[1..][i - 1]);
        }
      }
    }
  }

  lemma {:induction false} CharsAt(s: Bytes, i: nat)
    requires i < |s|
    ensures Chars(s)[i] == Ch(s[i])
  {
    if i > 0 {
      CharsAt(s[1..], i - 1);
    }
  }

  lemma {:induction false} SameBehind(s: Bytes, x: seq<Item>, y: seq<Item>)
    ensures SameItems(Chars(s) + x, Chars(s) + y) <==> SameItems(x, y)
  {
    hide SameItems;
    if s == [] {
      assert Chars(s) + x == x && Chars(s) + y == y;
    } else {
      var a, b := Chars(s) + x, Chars(s) + y;
      assert a[1..] == Chars(s[1..]) + x && b[1..] == Chars(s[1..]) + y && a[0] == b[0] == Ch(s[0]);
      SameBehind(s[1..], x, y);
      SameRest(a, b);
    }
  }

  /** Items that begin with different texts, neither of which goes on with the other. */
  lemma TextsDiffer(s: Bytes, x: seq<Item>, u: Bytes, y: seq<Item>, i: nat)
    requires i < |s| && i < |u| && s[i] != u[i]
    ensures !SameItems(Chars(s) + x, Chars(u) + y)
  {
    hide Chars;
    CharsAt(s, i);
    CharsAt(u, i);
    var a, b := Chars(s) + x, Chars(u) + y;
    assert a[i] == Ch(s[i]) && b[i] == Ch(u[i]);
    assert !SameItem(a[i], b[i]);
  }

  /** Where two different texts without slashes differ, if each but a last one is followed by a slash. */
  lemma StaticsDiffer(a: seq<Seg>, b: seq<Seg>)
    requires SegsOk(a) && SegsOk(b) && a != [] && b != [] && a[0].Static? && b[0].Static? && a[0].text != b[0].text
    ensures !SameItems(ItemsOf(a), ItemsOf(b))
  {
    assert SegOk(a[0]) && SegOk(b[0]);
    var s, u := a[0].text, b[0].text;
    if i :| 0 <= i < |s| && i < |u| && s[i] != u[i] {
      TextsDiffer(FirstText(a), ItemsOf(a[1..]), FirstText(b), ItemsOf(b[1..]), i);
    } else if |s| < |u| {
      Shorter(a, b);
    } else {
      assert |s| == |u| ==> s == u;
      Shorter(b, a);
      SameBack(ItemsOf(b), ItemsOf(a));
    }
  }

  lemma SameBack(x: seq<Item>, y: seq<Item>)
    ensures SameItems(x, y) <==> SameItems(y, x)
  {
  }

  lemma Shorter(a: seq<Seg>, b: seq<Seg>)
    requires SegsOk(a) && SegsOk(b) && a != [] && b != [] && a[0].Static? && b[0].Static?
    requires |a[0].text| < |b[0].text|
    ensures !SameItems(ItemsOf(a), ItemsOf(b))
  {
    assert SegOk(a[0]) && SegOk(b[0]);
    var n := |a[0].text|;
    if |a| > 1 {
      assert FirstText(a)[n] == SLASH && FirstText(b)[n] == b[0].text[n];
      TextsDiffer(FirstText(a), ItemsOf(a[1..]), FirstText(b), ItemsOf(b[1..]), n);
    } else {
      TextItems(a);
      TextItems(b);
      assert ItemsOf(a[1..]) == [];
    }
  }

  lemma TextItems(a: seq<Seg>)
    requires a != [] && a[0].Static?
    ensures |ItemsOf(a)| == |a[0].text| + (if |a| > 1 then 1 else 0) + |ItemsOf(a[1..])|
  {
    hide Chars;
  }

  lemma {:induction false} ShapeIsItems(a: seq<Seg>, b: seq<Seg>)
    requires SegsOk(a) && SegsOk(b)
    ensures SameItems(ItemsOf(a), ItemsOf(b)) <==> SameShape(a, b)
    decreases |a|
  {
    ItemsOfEmpty(a);
    ItemsOfEmpty(b);
    if a != [] && b != [] {
      ShapeRest(a, b);
      assert SegsOk(a[1..]) && SegsOk(b[1..]);
      ShapeIsItems(a[1..], b[1..]);
      ItemsOfEmpty(a[1..]);
      ItemsOfEmpty(b[1..]);
      FirstItems(a, b);
    }
  }

  lemma FirstItems(a: seq<Seg>, b: seq<Seg>)
    requires SegsOk(a) && SegsOk(b) && a != [] && b != []
    requires ItemsOf(a[1..]) == [] <==> |a| == 1
    requires ItemsOf(b[1..]) == [] <==> |b| == 1
    ensures SameItems(ItemsOf(a), ItemsOf(b)) <==>
      SameSeg(a[0], b[0]) && SameItems(ItemsOf(a[1..]), ItemsOf(b[1..]))
  {
    hide SameItems;
    assert SegOk(a[0]) && SegOk(b[0]);
    if a[0].Static? && b[0].Static? {
      if a[0].text != b[0].text {
        StaticsDiffer(a, b);
      } else {
        var x, y := ItemsOf(a[1..]), ItemsOf(b[1..]);
        EmptyOrNot(x, y);
        if (|a| > 1) == (|b| > 1) {
          SameBehind(FirstText(a), x, y);
        } else {
          EndsAtText(a, b);
        }
      }
    } else {
      assert ItemsOf(a) != [] && ItemsOf(b) != [];
      SameRest(ItemsOf(a), ItemsOf(b));
      if a[0].Param? || a[0].Wildcard? {
        assert ItemsOf(a)[1..] == ItemsOf(a[1..]);
      }
      if b[0].Param? || b[0].Wildcard? {
        assert ItemsOf(b)[1..] == ItemsOf(b[1..]);
      }
    }
  }

  lemma EmptyOrNot(x: seq<Item>, y: seq<Item>)
    ensures SameItems(x, y) ==> (x == [] <==> y == [])
  {
  }

  lemma EndsAtText(a: seq<Seg>, b: seq<Seg>)
    requires a != [] && b != [] && a[0].Static? && b[0].Static? && a[0].text == b[0].text && (|a| > 1) != (|b| > 1)
    ensures |ItemsOf(a)| != |ItemsOf(b)| && !SameItems(ItemsOf(a), ItemsOf(b))
  {
  }

  lemma {:induction false} WildcardIsLast(segs: seq<Seg>)
    requires SegsOk(segs)
    ensures WildLast(ItemsOf(segs)) <==> WildcardLast(segs)
    decreases |segs|
  {
    if segs != [] {
      var rest := segs[1..];
      WildcardIsLast(rest);
      ItemsOfEmpty(rest);
      assert forall i :: 0 <= i < |rest| ==> rest[i] == segs[i + 1];
      assert WildcardLast(segs) <==> (|segs| > 1 ==> !segs[0].Wildcard?) && WildcardLast(rest) by {
        WildcardRest(segs);
      }
      if segs[0].Static? {
        WildBehind(FirstText(segs), ItemsOf(rest));
      } else {
        WildLastRest(ItemsOf(segs));
        assert ItemsOf(segs)[1..] == ItemsOf(rest);
      }
    }
  }

  lemma WildcardRest(segs: seq<Seg>)
    requires segs != []
    ensures WildcardLast(segs) <==> (|segs| > 1 ==> !segs[0].Wildcard?) && WildcardLast(segs[1..])
  {
    var rest := segs[1..];
    assert forall i :: 0 <= i < |rest| ==> rest[i] == segs[i + 1];
    if WildcardLast(rest) && (|segs| > 1 ==> !segs[0].Wildcard?) {
      forall i | 0 <= i < |segs| - 1 ensures !segs[i].Wildcard? {
        if i > 0 {
          assert rest[i - 1] == segs[i];
        }
      }
    }
  }

  lemma {:induction false} WildBehind(s: Bytes, x: seq<Item>)
    ensures WildLast(Chars(s) + x) <==> WildLast(x)
  {
    if s == [] {
      assert Chars(s) + x == x;
    } else {
      var a := Chars(s) + x;
      assert a[1..] == Chars(s[1..]) + x && a[0] == Ch(s[0]);
      WildLastRest(a);
      WildBehind(s[1..], x);
    }
  }

  // ---------------------------------------------------------------- all the routes

  ghost predicate SomeHasShape(rs: seq<Route>, segs: seq<Seg>) {
    exists i :: 0 <= i < |rs| && SameShape(rs[i].segs, segs)
  }

  lemma {:induction false} HoldsExactly(rs: seq<Route>, segs: seq<Seg>)
    requires RoutesOk(rs) && Build(rs).Some? && SegsOk(segs)
    ensures Has(Build(rs).value, ItemsOf(segs)) <==> SomeHasShape(rs, segs)
    decreases |rs|
  {
    hide Insert, ItemsOf, Has, SameShape, SegOk;
    if rs == [] {
      EmptyHas(ItemsOf(segs));
    } else {
      var front, r := rs[..|rs| - 1], rs[|rs| - 1];
      HoldsExactly(front, segs);
      InsertAdds(Build(front).value, ItemsOf(r.segs), r.handler, ItemsOf(segs));
      ShapeIsItems(r.segs, segs);
      assert forall i :: 0 <= i < |front| ==> front[i] == rs[i];
      if SomeHasShape(front, segs) {
        var i :| 0 <= i < |front| && SameShape(front[i].segs, segs);
        assert rs[i] == front[i];
      }
    }
  }

  lemma RegistrableMore(rs: seq<Route>)
    requires rs != []
    ensures var front, r := rs[..|rs| - 1], rs[|rs| - 1];
      Registrable(rs) <==> Registrable(front) && WildcardLast(r.segs) && !SomeHasShape(front, r.segs)
  {
    hide WildcardLast, SameShape;
    var front, r := rs[..|rs| - 1], rs[|rs| - 1];
    assert forall i :: 0 <= i < |front| ==> front[i] == rs[i];
    if Registrable(front) && WildcardLast(r.segs) && !SomeHasShape(front, r.segs) {
      forall i, j | 0 <= i < j < |rs| ensures !SameShape(rs[i].segs, rs[j].segs) {
        assert rs[i] == front[i];
        if j < |front| {
          assert rs[j] == front[j];
        }
      }
    }
  }

  /** A list of routes can be registered, one after the other, exactly if wildcards come last and no shape comes twice;
      handlers, constraints, names of wildcards and the order of the routes do not matter. */
  lemma {:induction false} BuildsExactly(rs: seq<Route>)
    requires RoutesOk(rs)
    ensures Build(rs).Some? <==> Registrable(rs)
    decreases |rs|
  {
    hide Insert, ItemsOf, Registrable, SegOk;
    if rs == [] {
      NoRoutes();
    } else {
      var front, r := rs[..|rs| - 1], rs[|rs| - 1];
      BuildsExactly(front);
      RegistrableMore(rs);
      if Build(front).Some? {
        InsertSucceeds(Build(front).value, ItemsOf(r.segs), r.handler);
        HoldsExactly(front, r.segs);
        WildcardIsLast(r.segs);
      }
    }
  }

  lemma NoRoutes()
    ensures Registrable([]) && Build([]).Some?
  {
  }
}
