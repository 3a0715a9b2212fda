/** The map of routes without parameters (collectStaticRoutes): it holds exactly those, and what it holds for a path
    is what the search in the tree would give. */
module RouterStatic {
  import opened Bytes
  import opened Options
  import opened RouterTrie
  import opened RouterKids
  import opened RouterTree
  import opened RouterRoutes

  // ---------------------------------------------------------------- text paths in the trie

  lemma {:induction false} DescendChain(text: Bytes, t: Trie, s: Bytes)
    ensures Descend(Chain(text, t), text + s) == Descend(t, s)
  {
    if text == [] {
      assert text + s == s;
    } else {
      assert (text + s)[0] == text[0] && (text + s)[1..] == text[1..] + s;
      DescendChain(text[1..], t, s);
    }
  }

  /** Below a piece of text there is a handler only at its end or later. */
  lemma {:induction false} ChainHandler(text: Bytes, t: Trie, s: Bytes)
    requires Descend(Chain(text, t), s).handler.Some?
    ensures text <= s
  {
    if text != [] {
      if s != [] {
        if s[0] == text[0] {
          ChainHandler(text[1..], t, s[1..]);
          assert s == [s[0]] + s[1..] && text == [text[0]] + text[1..];
        } else {
          assert Sub(Chain(text, t), s[0]) == EMPTY;
          DescendEmpty(s[1..]);
        }
      }
    }
  }

  lemma DescendKid(handler: Option<Handler>, kids: seq<Kid>, i: nat, s: Bytes)
    requires i < |kids| && kids[i].StaticKid? && kids[i].path != []
    requires forall a, b :: 0 <= a < b < |kids| ==> Apart(kids[a], kids[b])
    ensures Descend(Assemble(handler, kids), kids[i].path + s) == Descend(kids[i].below, s)
  {
    var path := kids[i].path;
    StaticAt(kids, 0, i);
    assert (path + s)[0] == path[0] && (path + s)[1..] == path[1..] + s;
    DescendChain(path[1..], kids[i].below, s);
  }

  /** A handler at the end of some text sits below a child that starts this text. */
  lemma KidOfText(handler: Option<Handler>, kids: seq<Kid>, s: Bytes) returns (i: nat)
    requires s != [] && Descend(Assemble(handler, kids), s).handler.Some?
    requires forall a, b :: 0 <= a < b < |kids| ==> Apart(kids[a], kids[b])
    ensures i < |kids| && kids[i].StaticKid? && kids[i].path != [] && kids[i].path <= s
    ensures Descend(kids[i].below, s[|kids[i].path|..]).handler.Some?
  {
    if forall j :: 0 <= j < |kids| && kids[j].StaticKid? && kids[j].path != [] ==> kids[j].path[0] != s[0] {
      NoStaticAt(kids, 0, s[0]);
      DescendEmpty(s[1..]);
      assert false;
    }
    i :| 0 <= i < |kids| && kids[i].StaticKid? && kids[i].path != [] && kids[i].path[0] == s[0];
    var path := kids[i].path;
    StaticAt(kids, 0, i);
    ChainHandler(path[1..], kids[i].below, s[1..]);
    assert path == [path[0]] + path[1..] && s == [s[0]] + s[1..];
    assert s == path + s[|path|..];
    DescendKid(handler, kids, i, s[|path|..]);
  }

  /** The search takes text before everything else. */
  lemma {:induction false} FindText(t: Trie, s: Bytes, caps: seq<Capture>)
    requires s != [] && Descend(t, s).handler.Some?
    ensures FindStatic(t, s, caps) == Found(Descend(t, s).handler, caps)
    ensures Find(t, s, caps) == Found(Descend(t, s).handler, caps)
    decreases |s|
  {
    if s[0] !in t.statics {
      DescendEmpty(s[1..]);
      assert false;
    }
    if s[1..] != [] {
      FindText(Sub(t, s[0]), s[1..], caps);
    }
  }

  // ---------------------------------------------------------------- the collection

  /** The path of a node below `prefix`. */
  function FullPath(path: Bytes, prefix: Bytes): Bytes {
    if path == [SLASH] then (if EndsInSlash(prefix) then prefix else prefix + [SLASH])
    else if prefix == [SLASH] then [SLASH] + path
    else prefix + path
  }

  /** `more` is `out` and the handlers at the ends of texts below `full`, all of them. */
  ghost predicate Collected(out: map<Bytes, Handler>, more: map<Bytes, Handler>, full: Bytes, t: Trie) {
    && (forall p :: p in more ==> Gained(out, more, full, t, p))
    && (forall p :: p in out ==> p in more)
    && (forall s :: Descend(t, s).handler.Some? ==> full + s in more)
  }

  ghost predicate Gained(out: map<Bytes, Handler>, more: map<Bytes, Handler>, full: Bytes, t: Trie, p: Bytes)
    requires p in more
  {
    (p in out && more[p] == out[p]) || (full <= p && Descend(t, p[|full|..]).handler == Some(more[p]))
  }

  /** The same, when only the node itself and its first `i` children have been looked at. */
  ghost predicate Partly(out: map<Bytes, Handler>, more: map<Bytes, Handler>, full: Bytes, handler: Option<Handler>,
      kids: seq<Kid>, i: nat)
    requires i <= |kids|
  {
    && (forall p :: p in more ==> Gained(out, more, full, Assemble(handler, kids), p))
    && (forall p :: p in out ==> p in more)
    && (handler.Some? ==> full in more)
    && (forall j, s :: 0 <= j < i && kids[j].StaticKid? && Descend(kids[j].below, s).handler.Some? ==>
          full + kids[j].path + s in more)
  }

  lemma PartlyStart(out: map<Bytes, Handler>, full: Bytes, handler: Option<Handler>, kids: seq<Kid>)
    ensures Partly(out, if handler.Some? then out[full := handler.value] else out, full, handler, kids, 0)
  {
    var more := if handler.Some? then out[full := handler.value] else out;
    assert full[|full|..] == [];
  }

  lemma PartlyStep(out: map<Bytes, Handler>, more: map<Bytes, Handler>, next: map<Bytes, Handler>, full: Bytes,
      handler: Option<Handler>, kids: seq<Kid>, i: nat)
    requires i < |kids| && Partly(out, more, full, handler, kids, i)
    requires forall a, b :: 0 <= a < b < |kids| ==> Apart(kids[a], kids[b])
    requires if kids[i].StaticKid? then kids[i].path != [] && Collected(more, next, full + kids[i].path, kids[i].below)
             else next == more
    ensures Partly(out, next, full, handler, kids, i + 1)
  {
    hide Descend, Assemble, Apart;
    var t := Assemble(handler, kids);
    if kids[i].StaticKid? {
      var path := kids[i].path;
      forall p | p in next ensures Gained(out, next, full, t, p) {
        assert Gained(more, next, full + path, kids[i].below, p);
        if p in more && next[p] == more[p] {
          assert Gained(out, more, full, t, p);
        } else {
          var s := p[|full + path|..];
          assert p[|full|..] == path + s;
          DescendKid(handler, kids, i, s);
        }
      }
    }
  }

  lemma PartlyDone(out: map<Bytes, Handler>, more: map<Bytes, Handler>, full: Bytes, handler: Option<Handler>,
      kids: seq<Kid>)
    requires Partly(out, more, full, handler, kids, |kids|)
    requires forall a, b :: 0 <= a < b < |kids| ==> Apart(kids[a], kids[b])
    ensures Collected(out, more, full, Assemble(handler, kids))
  {
    hide Apart;
    var t := Assemble(handler, kids);
    forall s | Descend(t, s).handler.Some? ensures full + s in more {
      if s == [] {
        assert full + s == full;
      } else {
        var i := KidOfText(handler, kids, s);
        var tail := s[|kids[i].path|..];
        assert full + kids[i].path + tail == full + s;
      }
    }
  }

  method CollectStaticRoutes(n: Node, prefix: Bytes, out: map<Bytes, Handler>) returns (more: map<Bytes, Handler>)
    requires n.Valid()
    requires n.IsStatic() ==> (EndsInSlash(FullPath(n.path, prefix)) <==> n.Boundary())
    requires n.IsStatic() && n.Boundary() && n.handlers.Some? ==> FullPath(n.path, prefix) == [SLASH]
    ensures !n.IsStatic() ==> more == out
    ensures n.IsStatic() ==> Collected(out, more, FullPath(n.path, prefix), n.trie)
    decreases n.repr
  {
    hide KidsOk, StaticsFrom, ParamsFrom, WildFrom, Descend, Collected, Partly;
    more := out;
    if n.param != [] || n.wildcard {
      return;
    }
    var current := FullPath(n.path, prefix);
    ghost var kids := n.Kids();
    KidsApart(n);
    PartlyStart(out, current, n.handlers, kids);
    if n.handlers.Some? {
      // The source trims a trailing slash here; a node whose path ends in one has no handler, except the root.
      more := more[current := n.handlers.value];
    }
    var i := 0;
    while i < |n.children|
      invariant 0 <= i <= |n.children| && Partly(out, more, current, n.handlers, kids, i)
    {
      ChildPath(n, i, current);
      var next := CollectStaticRoutes(n.children[i], current, more);
      PartlyStep(out, more, next, current, n.handlers, kids, i);
      more := next;
      i := i + 1;
    }
    PartlyDone(out, more, current, n.handlers, kids);
  }

  lemma KidsApart(n: Node)
    requires n.Valid()
    ensures forall a, b :: 0 <= a < b < |n.Kids()| ==> Apart(n.Kids()[a], n.Kids()[b])
  {
  }

  /** Paths are put together without doubling a slash. */
  lemma ChildPath(n: Node, i: nat, current: Bytes)
    requires n.Valid() && i < |n.children| && (EndsInSlash(current) <==> n.Boundary())
    ensures var child := n.children[i];
      child.IsStatic() ==>
        && child.path != [] && FullPath(child.path, current) == current + child.path
        && (EndsInSlash(current + child.path) <==> child.Boundary())
        && (child.Boundary() ==> child.handlers.None?)
  {
    assert KidOk(n.Boundary(), n.Kids()[i]);
  }
}
