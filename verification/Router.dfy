/** The router (router.go): one tree a method, a map of the routes without parameters in front of each, and a cache
    of the methods that a path allows. */
module Router {
  import opened Bytes
  import opened Options
  import opened RouterTrie
  import opened RouterKids
  import opened RouteParams
  import opened RouterTree
  import opened RouterRoutes
  import opened RouterLookup
  import opened RouterMatches
  import opened RouterShapes
  import opened RouterCompile
  import opened RouterStatic

  // GET, POST, PUT, DELETE, PATCH, OPTIONS, HEAD
  const METHODS := 7

  /** What the tree of one method gives for a request path. */
  function Search(t: Trie, path: Bytes, caps: seq<Capture>): Found
    requires path != []
  {
    if path == [SLASH] then Found(t.handler, caps) else Find(t, path[1..], caps)
  }

  /** The methods, in order, whose routes have something for the path. */
  function Allowed(tries: seq<Trie>, path: Bytes, m: nat): seq<nat>
    requires path != [] && m <= |tries|
    decreases |tries| - m
  {
    if m == |tries| then []
    else (if Search(tries[m], path, []).handler.Some? then [m] else []) + Allowed(tries, path, m + 1)
  }

  /** Exactly those methods, each once, in ascending order. */
  lemma {:induction false} AllowedExactly(tries: seq<Trie>, path: Bytes, m: nat)
    requires path != [] && m <= |tries|
    ensures forall k: nat :: k in Allowed(tries, path, m) <==>
      m <= k < |tries| && Search(tries[k], path, []).handler.Some?
    ensures forall i, j :: 0 <= i < j < |Allowed(tries, path, m)| ==>
      Allowed(tries, path, m)[i] < Allowed(tries, path, m)[j]
    decreases |tries| - m
  {
    hide Search;
    if m < |tries| {
      AllowedExactly(tries, path, m + 1);
      var rest := Allowed(tries, path, m + 1);
      assert forall i :: 0 <= i < |rest| ==> rest[i] in rest;
    }
  }

  /** What a method's tree has for a path, said about its routes: something exactly if a route fits. */
  lemma SearchFits(rs: seq<Route>, p: seq<Bytes>)
    requires RoutesOk(rs) && Build(rs).Some? && PathOk(p) && RoutesFit(rs, []) && OneRule(rs, p)
    ensures Search(Build(rs).value, [SLASH] + PathOf(p), []).handler.Some?
      <==> exists r :: r in rs && Fits(r.segs, p)
  {
    hide Search, Lookup, Build, OneRule, Fits;
    SearchIsLookup(rs, p);
    if Lookup(rs, p, []).Some? {
      var r := FoundFits(rs, p, []);
    }
    forall r | r in rs && Fits(r.segs, p) ensures Lookup(rs, p, []).Some? {
      FittingIsFound(rs, p, [], r);
    }
  }

  /** A static map agrees with the tree behind it, and has all that it can answer. */
  ghost predicate MapOk(routes: map<Bytes, Handler>, t: Trie) {
    && (forall p :: p in routes ==> p != [] && forall caps :: Search(t, p, caps) == Found(Some(routes[p]), caps))
    && (forall s :: Descend(t, s).handler.Some? ==> [SLASH] + s in routes)
  }

  lemma CollectedIsOk(routes: map<Bytes, Handler>, t: Trie)
    requires Collected(map[], routes, [SLASH], t)
    ensures MapOk(routes, t)
  {
    hide Descend, Find;
    forall p | p in routes ensures p != [] && forall caps :: Search(t, p, caps) == Found(Some(routes[p]), caps) {
      assert Gained(map[], routes, [SLASH], t, p);
      forall caps ensures Search(t, p, caps) == Found(Some(routes[p]), caps) {
        if p[1..] == [] {
          assert p == [SLASH];
          assert Descend(t, []) == t by { DescendNone(t); }
        } else {
          FindText(t, p[1..], caps);
        }
      }
    }
  }

  lemma DescendNone(t: Trie)
    ensures Descend(t, []) == t
  {
  }

  /** For a request path without empty segments, the tree gives what the list of routes gives. */
  lemma SearchIsLookup(rs: seq<Route>, p: seq<Bytes>)
    requires RoutesOk(rs) && Build(rs).Some? && PathOk(p) && RoutesFit(rs, [])
    ensures Search(Build(rs).value, [SLASH] + PathOf(p), []) == Outcome(Lookup(rs, p, []), [])
  {
    assert KeysOf([]) == [];
    ArriveIsLookup(rs, p, []);
    if p != [] {
      assert p[0] != [];
    }
    assert ([SLASH] + PathOf(p))[1..] == PathOf(p);
  }

  lemma BuildMore(rs: seq<Route>, r: Route)
    requires Build(rs).Some?
    ensures Build(rs + [r]) == Insert(Build(rs).value, ItemsOf(r.segs), r.handler)
  {
    assert (rs + [r])[..|rs|] == rs;
  }

  class Router {
    var roots: seq<Node>
    var statics: seq<map<Bytes, Handler>>
    var allowed: map<Bytes, seq<nat>>
    var compiled: bool
    ghost var routes: seq<seq<Route>>   // what has been registered, by method
    ghost var repr: set<Node>

    ghost predicate TreesOk()
      reads this`roots, this`repr, repr
    {
      && |roots| == METHODS
      && (forall m :: 0 <= m < METHODS ==> roots[m] in repr && roots[m].repr <= repr && RootOk(roots[m]))
      && (forall m, k :: 0 <= m < k < METHODS ==> roots[m].repr !! roots[k].repr)
    }

    static ghost predicate RootOk(n: Node)
      reads n, n.repr
    {
      n in n.repr && n.Valid() && n.IsStatic() && n.path == [SLASH]
    }

    /** Every tree stands for the routes registered with its method. */
    ghost predicate RoutesKept()
      reads this`roots, this`routes, roots
    {
      && |routes| == |roots| == METHODS
      && (forall m :: 0 <= m < METHODS ==> RoutesOk(routes[m]) && Build(routes[m]) == Some(roots[m].trie))
    }

    ghost predicate CachesOk()
      reads this`statics, this`allowed, this`routes, this`compiled
    {
      && |statics| == |routes| == METHODS
      && (forall m :: 0 <= m < METHODS ==> Build(routes[m]).Some?)
      && (!compiled ==> statics == seq(METHODS, _ => map[]) && allowed == map[])
      && (compiled ==> forall m :: 0 <= m < METHODS ==> MapOk(statics[m], Build(routes[m]).value))
      && (forall p :: p in allowed ==> p != [] && allowed[p] == Allowed(Tries(), p, 0))
    }

    ghost function Tries(): (ts: seq<Trie>)
      reads this`routes
      requires forall m :: 0 <= m < |routes| ==> Build(routes[m]).Some?
      ensures |ts| == |routes|
    {
      var all := routes;
      seq(|all|, m requires 0 <= m < |all| && Build(all[m]).Some? => Build(all[m]).value)
    }

    ghost predicate Valid()
      reads this, repr, roots
    {
      TreesOk() && RoutesKept() && CachesOk()
    }

    constructor ()
      ensures Valid() && !compiled && routes == seq(METHODS, _ => [])
    {
      statics, allowed, compiled := seq(METHODS, _ => map[]), map[], false;
      routes := seq(METHODS, _ => []);
      new;
      hide Node.Valid, KidsOk;
      roots, repr := EmptyTrees();
    }

    /** One root for each method. */
    static method EmptyTrees() returns (roots: seq<Node>, ghost repr: set<Node>)
      ensures |roots| == METHODS && fresh(repr)
      ensures forall m :: 0 <= m < METHODS ==>
        roots[m] in repr && roots[m].repr <= repr && RootOk(roots[m]) && roots[m].trie == EMPTY
      ensures forall m, k :: 0 <= m < k < METHODS ==> roots[m].repr !! roots[k].repr
    {
      hide Node.Valid, KidsOk;
      roots, repr := [], {};
      while |roots| < METHODS
        invariant |roots| <= METHODS && fresh(repr)
        invariant forall m :: 0 <= m < |roots| ==>
          roots[m] in repr && roots[m].repr <= repr && RootOk(roots[m]) && roots[m].trie == EMPTY
        invariant forall m, k :: 0 <= m < k < |roots| ==> roots[m].repr !! roots[k].repr
      {
        var root := new Node([SLASH], [], false, None, None);
        roots, repr := roots + [root], repr + root.repr;
      }
    }

    /** addRoute: refused after Compile, and where the source panics. */
    method AddRoute(m: nat, segs: seq<Seg>, h: Handler) returns (ok: bool)
      requires Valid() && m < METHODS && SegsOk(segs)
      modifies this, repr
      ensures ok <==> !old(compiled) && Registrable(old(routes)[m] + [Route(segs, h)])
      ensures ok ==> Valid() && !compiled && routes == old(routes)[m := old(routes)[m] + [Route(segs, h)]]
    {
      hide KidsOk, Build, MapOk, Allowed, Items, ItemsOf, TreesOk, Registrable;
      if compiled {
        return false;
      }
      ItemsAgree(segs, 0);
      BuildMore(routes[m], Route(segs, h));
      BuildsExactly(routes[m] + [Route(segs, h)]);
      assert segs[0..] == segs;
      ok := InsertAt(m, segs, h);
      if ok {
        routes := routes[m := routes[m] + [Route(segs, h)]];
      }
    }

    method InsertAt(m: nat, segs: seq<Seg>, h: Handler) returns (ok: bool)
      requires TreesOk() && m < METHODS && SegsOk(segs)
      modifies this`repr, repr
      ensures if ok then Insert(old(roots[m].trie), Items(segs, 0), h) == Some(roots[m].trie) && TreesOk()
              else Insert(old(roots[m].trie), Items(segs, 0), h) == None
      ensures forall k :: 0 <= k < METHODS && k != m ==> roots[k].trie == old(roots[k].trie)
    {
      hide KidsOk, Items, Node.Valid, Insert;
      ok := roots[m].InsertRoute(segs, 0, h);
      if ok {
        repr := repr + roots[m].repr;
      }
    }

    /** Compile: sort, flatten, collect, and cache the allowed methods of some paths. Which paths the source
        collects for that does not matter. */
    method Compile(paths: seq<Bytes>)
      requires Valid() && !compiled && forall i :: 0 <= i < |paths| ==> paths[i] != []
      modifies this, repr
      ensures Valid() && compiled && routes == old(routes) && Cached(paths)
      ensures forall m :: 0 <= m < METHODS ==> Flat(roots[m])
    {
      hide KidsOk, Build, MapOk, Allowed, CachesOk, Flat, Sorted, Node.Valid;
      OptimizeTree();
      FlattenTree();
      FreezeMaps();
      CacheAllowed(paths);
    }

    /** optimizeTree. */
    method OptimizeTree()
      requires TreesOk() && RoutesKept()
      modifies repr
      ensures TreesOk() && RoutesKept() && forall m :: 0 <= m < METHODS ==> Sorted(roots[m])
    {
      hide KidsOk, Build, RoutesOk, Node.Valid, Sorted;
      for m := 0 to METHODS
        invariant TreesOk() && RoutesKept()
        invariant forall k :: 0 <= k < m ==> Sorted(roots[k])
      {
        OptimizeRoot(m);
      }
    }

    method FlattenTree()
      requires TreesOk() && RoutesKept() && forall m :: 0 <= m < METHODS ==> Sorted(roots[m])
      modifies this`repr, repr
      ensures TreesOk() && RoutesKept() && fresh(repr - old(repr)) && forall m :: 0 <= m < METHODS ==> Flat(roots[m])
    {
      hide KidsOk, Build, RoutesOk, Node.Valid, Sorted, Flat;
      for m := 0 to METHODS
        invariant TreesOk() && RoutesKept() && fresh(repr - old(repr))
        invariant forall k :: 0 <= k < METHODS ==> if k < m then Flat(roots[k]) else Sorted(roots[k])
      {
        FlattenRoot(m);
      }
    }

    method CollectAll() returns (maps: seq<map<Bytes, Handler>>)
      requires TreesOk()
      ensures |maps| == METHODS && forall m :: 0 <= m < METHODS ==> MapOk(maps[m], roots[m].trie)
    {
      hide MapOk, Collected;
      maps := [];
      for m := 0 to METHODS
        invariant |maps| == m && forall k :: 0 <= k < m ==> MapOk(maps[k], roots[k].trie)
      {
        var found := CollectStaticRoutes(roots[m], [SLASH], map[]);
        CollectedIsOk(found, roots[m].trie);
        maps := maps + [found];
      }
    }

    method FreezeMaps()
      requires TreesOk() && RoutesKept() && CachesOk() && !compiled
      modifies this`statics, this`compiled
      ensures Valid() && compiled && allowed == map[]
    {
      hide MapOk, Build, TreesOk, RoutesOk;
      var maps := CollectAll();
      statics, compiled := maps, true;
    }

    /** Of these paths, exactly those that have allowed methods are in the cache. */
    ghost predicate Cached(paths: seq<Bytes>)
      reads this`allowed, this`routes
      requires |routes| == METHODS && forall m :: 0 <= m < METHODS ==> Build(routes[m]).Some?
    {
      forall p :: p in allowed <==> p in paths && p != [] && Allowed(Tries(), p, 0) != []
    }

    /** The cache is filled by the same scan that it later stands in for. */
    method CacheAllowed(paths: seq<Bytes>)
      requires Valid() && compiled && allowed == map[] && forall i :: 0 <= i < |paths| ==> paths[i] != []
      modifies this`allowed
      ensures Valid() && Cached(paths)
    {
      hide MapOk, Build, TreesOk, RoutesOk, Allowed;
      var i := 0;
      while i < |paths|
        invariant 0 <= i <= |paths| && Valid() && Cached(paths[..i])
      {
        assert paths[..i + 1] == paths[..i] + [paths[i]];
        var ms := ScanAllowed(paths[i]);
        if ms != [] {
          allowed := allowed[paths[i] := ms];
        }
        i := i + 1;
      }
    }

    method ScanAllowed(path: Bytes) returns (ms: seq<nat>)
      requires Valid() && path != []
      ensures ms == Allowed(Tries(), path, 0)
    {
      hide MapOk, Build, TreesOk, RoutesOk, RoutesKept, Search;
      ghost var tries := Tries();
      assert |tries| == METHODS;
      hide Valid, CachesOk, Tries;
      ms := [];
      var params := new Params();
      var m := 0;
      while m < METHODS
        invariant Valid() && tries == Tries() && params.Valid()
        invariant m <= METHODS && Allowed(tries, path, 0) == ms + Allowed(tries, path, m)
        modifies params, params.items
      {
        params.Reset();
        var has := HasRoute(m, path, params);
        ghost var rest := Allowed(tries, path, m + 1);
        assert Allowed(tries, path, m) == (if has then [m] else []) + rest;
        if has {
          assert ms + ([m] + rest) == ms + [m] + rest;
          ms := ms + [m];
        } else {
          assert [] + rest == rest;
        }
        m := m + 1;
      }
    }

    method HasRoute(m: nat, path: Bytes, params: Params) returns (has: bool)
      requires Valid() && m < METHODS && path != [] && params.Valid() && params.Captures() == []
      modifies params, params.items
      ensures params.Valid() && has == Search(Tries()[m], path, []).handler.Some?
    {
      hide MapOk, Build, TreesOk, RoutesOk, Search, Allowed;
      var h := FindRoute(m, path, params);
      has := h.Some?;
    }

    /** findAllowedMethods: from the cache, or by asking every method's tree. */
    method FindAllowedMethods(path: Bytes) returns (ms: seq<nat>)
      requires Valid() && path != []
      ensures ms == Allowed(Tries(), path, 0)
    {
      if path in allowed {
        return allowed[path];
      }
      ms := ScanAllowed(path);
    }

    method OptimizeRoot(m: nat)
      requires TreesOk() && RoutesKept() && m < METHODS
      modifies roots[m].repr
      ensures TreesOk() && RoutesKept() && Sorted(roots[m])
    {
      hide KidsOk, Build, RoutesOk, Node.Valid;
      OptimizeNode(roots[m]);
    }

    method FlattenRoot(m: nat)
      requires TreesOk() && RoutesKept() && m < METHODS && Sorted(roots[m])
      modifies this`repr, roots[m].repr
      ensures TreesOk() && RoutesKept() && fresh(repr - old(repr)) && Flat(roots[m])
    {
      hide KidsOk, Build, RoutesOk, Node.Valid;
      FlattenNode(roots[m]);
      repr := repr + roots[m].repr;
    }

    /** find: the static map first, then the tree. */
    method FindRoute(m: nat, path: Bytes, params: Params) returns (h: Option<Handler>)
      requires Valid() && m < METHODS && path != [] && params.Valid()
      modifies params, params.items
      ensures params.Valid()
      ensures Found(h, params.Captures()) == Search(Build(routes[m]).value, path, old(params.Captures()))
    {
      if path in statics[m] {
        return Some(statics[m][path]);
      }
      var root := roots[m];
      if path == [SLASH] {
        return root.handlers;
      }
      h := root.FindInNode(path[1..], params);
    }
  }
}
