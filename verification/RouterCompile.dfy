/** What Compile does to a tree (router.go): children are sorted, chains of text are merged, and the routes without
    parameters are collected in a map. None of it changes what the tree means. */
module RouterCompile {
  import opened Bytes
  import opened Options
  import opened RouterTrie
  import opened RouterKids
  import opened RouteParams
  import opened RouterTree
  import opened RouterRoutes

  // ---------------------------------------------------------------- order of children

  function Swapped<T>(s: seq<T>, j: nat): seq<T>
    requires 0 < j < |s|
  {
    s[j - 1 := s[j]][j := s[j - 1]]
  }

  /** Neighbours may change places unless both are parameters. */
  lemma SwapKids(boundary: bool, handler: Option<Handler>, kids: seq<Kid>, j: nat)
    requires KidsOk(boundary, kids) && 0 < j < |kids| && !(kids[j - 1].ParamKid? && kids[j].ParamKid?)
    ensures KidsOk(boundary, Swapped(kids, j)) && Assemble(handler, Swapped(kids, j)) == Assemble(handler, kids)
  {
    var more := Swapped(kids, j);
    forall a, b | 0 <= a < b < |more| ensures Apart(more[a], more[b]) {
      var x := if a == j then j - 1 else if a == j - 1 then j else a;
      var y := if b == j then j - 1 else if b == j - 1 then j else b;
      assert more[a] == kids[x] && more[b] == kids[y];
      if x < y {
        assert Apart(kids[x], kids[y]);
      } else {
        assert Apart(kids[y], kids[x]);
      }
    }
    SwapFrom(kids, j, 0);
  }

  lemma {:induction false} SwapFrom(kids: seq<Kid>, j: nat, k: nat)
    requires 0 < j < |kids| && k < j && Apart(kids[j - 1], kids[j]) && !(kids[j - 1].ParamKid? && kids[j].ParamKid?)
    ensures StaticsFrom(Swapped(kids, j), k) == StaticsFrom(kids, k)
    ensures ParamsFrom(Swapped(kids, j), k) == ParamsFrom(kids, k)
    ensures WildFrom(Swapped(kids, j), k) == WildFrom(kids, k)
    decreases j - k
  {
    var more := Swapped(kids, j);
    if k < j - 1 {
      SwapFrom(kids, j, k + 1);
    } else {
      SameFrom(kids, more, j + 1, j + 1);
      assert more[j - 1] == kids[j] && more[j] == kids[j - 1];
    }
  }

  /** optimizeNode's order: text first, then parameters, then the wildcard; busier nodes first. */
  predicate Less(a: Node, b: Node)
    reads a`wildcard, a`param, a`hits, b`wildcard, b`param, b`hits
  {
    if a.wildcard != b.wildcard then !a.wildcard
    else if (a.param != []) != (b.param != []) then a.param == []
    else a.hits > b.hits
  }

  ghost function ViewsOf(nodes: seq<Node>): (s: seq<Kid>)
    reads nodes
    ensures |s| == |nodes|
  {
    seq(|nodes|, i requires 0 <= i < |nodes| reads nodes => nodes[i].View())
  }

  /** These nodes can be the children of `n`. */
  ghost predicate Below(n: Node, nodes: seq<Node>)
    reads n, n.repr
  {
    && (forall i :: 0 <= i < |nodes| ==>
          nodes[i] in n.repr && nodes[i].repr <= n.repr && n !in nodes[i].repr && nodes[i].Valid())
    && (forall i, j :: 0 <= i < j < |nodes| ==> nodes[i].repr !! nodes[j].repr)
  }

  ghost predicate Ordered(nodes: seq<Node>)
    reads nodes
  {
    forall i, j :: 0 <= i < j < |nodes| ==> !Less(nodes[j], nodes[i])
  }

  /** These nodes, in this order, stand for the same trie as the children that `n` has now. */
  ghost predicate Stands(n: Node, nodes: seq<Node>)
    reads n, n.repr
  {
    && Below(n, nodes) && multiset(nodes) == multiset(n.children)
    && KidsOk(n.Boundary(), ViewsOf(nodes)) && Assemble(n.handlers, ViewsOf(nodes)) == n.trie
  }

  lemma SwapNodes(n: Node, nodes: seq<Node>, j: nat)
    requires Stands(n, nodes) && 0 < j < |nodes| && Less(nodes[j], nodes[j - 1])
    ensures Stands(n, Swapped(nodes, j))
  {
    hide KidsOk, Assemble, Below;
    SwapBelow(n, nodes, j);
    TwoParams(n, nodes, j);
    SwapKids(n.Boundary(), n.handlers, ViewsOf(nodes), j);
    assert ViewsOf(Swapped(nodes, j)) == Swapped(ViewsOf(nodes), j);
  }

  lemma SwapBelow(n: Node, nodes: seq<Node>, j: nat)
    requires Below(n, nodes) && 0 < j < |nodes|
    ensures Below(n, Swapped(nodes, j)) && multiset(Swapped(nodes, j)) == multiset(nodes)
  {
    hide Node.Valid;
  }

  /** Two parameters never need to change places: neither has been hit. */
  lemma TwoParams(n: Node, nodes: seq<Node>, j: nat)
    requires Below(n, nodes) && 0 < j < |nodes| && Less(nodes[j], nodes[j - 1])
    ensures !(ViewsOf(nodes)[j - 1].ParamKid? && ViewsOf(nodes)[j].ParamKid?)
  {
  }

  /** Everything up to `i` is in order, except that the node at `j` may belong further to the front. */
  ghost predicate InOrderBut(nodes: seq<Node>, i: nat, j: nat)
    reads nodes
    requires j <= i < |nodes|
  {
    forall a, b :: 0 <= a < b <= i && b != j ==> !Less(nodes[b], nodes[a])
  }

  lemma SwapOrder(nodes: seq<Node>, i: nat, j: nat)
    requires 0 < j <= i < |nodes| && InOrderBut(nodes, i, j) && Less(nodes[j], nodes[j - 1])
    ensures InOrderBut(Swapped(nodes, j), i, j - 1)
  {
    var more := Swapped(nodes, j);
    forall a, b | 0 <= a < b <= i && b != j - 1 ensures !Less(more[b], more[a]) {
      var x := if a == j then j - 1 else if a == j - 1 then j else a;
      var y := if b == j then j - 1 else b;
      assert more[a] == nodes[x] && more[b] == nodes[y];
    }
  }

  lemma PlaceFound(nodes: seq<Node>, i: nat, j: nat)
    requires j <= i < |nodes| && InOrderBut(nodes, i, j) && (j > 0 ==> !Less(nodes[j], nodes[j - 1]))
    ensures Ordered(nodes[..i + 1])
  {
    forall a, b | 0 <= a < b <= i ensures !Less(nodes[b], nodes[a]) {
      if b == j && a < j - 1 {
        assert !Less(nodes[j - 1], nodes[a]);
      }
    }
  }

  /** A stable sort, by insertion. */
  method SortNodes(n: Node) returns (nodes: seq<Node>)
    requires n.Valid()
    ensures Stands(n, nodes) && Ordered(nodes)
  {
    hide KidsOk, Assemble, Less, Below;
    nodes := n.children;
    StandsNow(n);
    var i := 0;
    while i < |nodes|
      invariant i <= |nodes| && Stands(n, nodes) && Ordered(nodes[..i])
    {
      var j := i;
      assert forall a :: 0 <= a < i ==> nodes[..i][a] == nodes[a];
      while 0 < j && Less(nodes[j], nodes[j - 1])
        invariant 0 <= j <= i < |nodes| && Stands(n, nodes) && InOrderBut(nodes, i, j)
      {
        SwapNodes(n, nodes, j);
        SwapOrder(nodes, i, j);
        nodes := Swapped(nodes, j);
        j := j - 1;
      }
      PlaceFound(nodes, i, j);
      i := i + 1;
    }
    assert nodes[..i] == nodes;
  }

  lemma StandsNow(n: Node)
    requires n.Valid()
    ensures Stands(n, n.children)
  {
    hide KidsOk, Assemble;
    assert ViewsOf(n.children) == n.Kids();
  }

  /** The index of first bytes, built again. */
  method Indices(n: Node, nodes: seq<Node>) returns (indices: Bytes)
    requires Stands(n, nodes)
    ensures |indices| == |nodes|
    ensures forall i :: 0 <= i < |nodes| ==>
      (ViewsOf(nodes)[i].StaticKid? ==> nodes[i].path != []) && indices[i] == IndexByteOf(ViewsOf(nodes)[i])
  {
    indices := [];
    var i := 0;
    while i < |nodes|
      invariant i <= |nodes| && |indices| == i
      invariant forall k :: 0 <= k < i ==>
        (ViewsOf(nodes)[k].StaticKid? ==> nodes[k].path != []) && indices[k] == IndexByteOf(ViewsOf(nodes)[k])
    {
      var child := nodes[i];
      assert KidOk(n.Boundary(), ViewsOf(nodes)[i]);
      indices := indices + [if child.wildcard then STAR else if child.param != [] then COLON else child.path[0]];
      i := i + 1;
    }
  }

  /** The node means what it meant before. */
  twostate predicate Kept(n: Node)
    reads n, n.repr
  {
    && n.Valid() && n.repr == old(n.repr) && n.View() == old(n.View()) && n.trie == old(n.trie)
    && n.wildcard == old(n.wildcard) && n.Boundary() == old(n.Boundary()) && n.handlers == old(n.handlers)
  }

  method SortChildren(n: Node)
    requires n.Valid() && !n.wildcard
    modifies n`children, n`indices
    ensures Kept(n) && Ordered(n.children)
  {
    hide KidsOk, Assemble, Less;
    var nodes := SortNodes(n);
    var indices := Indices(n, nodes);
    assert n !in nodes;
    PutChildren(n, nodes, indices);
  }

  method PutChildren(n: Node, nodes: seq<Node>, indices: Bytes)
    requires n.Valid() && !n.wildcard && Stands(n, nodes) && |indices| == |nodes|
    requires forall i :: 0 <= i < |nodes| ==>
      (ViewsOf(nodes)[i].StaticKid? ==> nodes[i].path != []) && indices[i] == IndexByteOf(ViewsOf(nodes)[i])
    modifies n`children, n`indices
    ensures Kept(n) && n.children == nodes
  {
    hide KidsOk, StaticsFrom, ParamsFrom, WildFrom, Assemble;
    ghost var views := ViewsOf(nodes);
    n.children, n.indices := nodes, indices;
    assert Below(n, nodes) && ViewsOf(nodes) == views;
    assert n.Kids() == views;
    SortedIsValid(n);
  }

  lemma SortedIsValid(n: Node)
    requires n in n.repr && !n.wildcard && Below(n, n.children) && KidsOk(n.Boundary(), n.Kids()) && n.IndicesOk()
    requires n.trie == Assemble(n.handlers, n.Kids()) && (n.param != [] ==> n.hits == 0)
    ensures n.Valid()
  {
    hide KidsOk, Assemble, Node.IndicesOk;
  }

  /** The children of every node are in order. */
  ghost predicate Sorted(n: Node)
    reads n, n.repr
    requires n.Valid()
    decreases n.repr
  {
    Ordered(n.children) && forall i :: 0 <= i < |n.children| ==> Sorted(n.children[i])
  }

  /** optimizeNode. */
  method OptimizeNode(n: Node)
    requires n.Valid()
    modifies n.repr
    ensures Kept(n) && Sorted(n) && n.hits == old(n.hits) && n.param == old(n.param)
    decreases n.repr, 1
  {
    hide KidsOk, Assemble, Less;
    if |n.children| > 1 {
      SortChildren(n);
    }
    var i := 0;
    while i < |n.children|
      invariant 0 <= i <= |n.children| && Kept(n) && Ordered(n.children)
      invariant n.hits == old(n.hits) && n.param == old(n.param)
      invariant forall k :: 0 <= k < i ==> Sorted(n.children[k])
    {
      OptimizeChild(n, i);
      i := i + 1;
    }
  }

  method OptimizeChild(n: Node, i: nat)
    requires n.Valid() && i < |n.children|
    modifies n.children[i].repr
    ensures Kept(n) && Sorted(n.children[i])
    ensures old(Ordered(n.children)) ==> Ordered(n.children)
    decreases n.repr, 0
  {
    hide KidsOk, Assemble, StaticsFrom, ParamsFrom, WildFrom;
    ghost var kids := n.Kids();
    OptimizeNode(n.children[i]);
    assert n.Kids() == kids;
  }

  // ---------------------------------------------------------------- merging chains of text

  /** The node means what it meant, in no more nodes. */
  twostate predicate Flatter(n: Node)
    reads n, n.repr
  {
    && n in n.repr && n.Valid() && fresh(n.repr - old(n.repr)) && |n.repr| <= old(|n.repr|)
    && n.View() == old(n.View()) && n.trie == old(n.trie)
    && n.wildcard == old(n.wildcard) && n.Boundary() == old(n.Boundary()) && n.handlers == old(n.handlers)
  }

  /** A text node whose only child is another one, and that has no handler, is nothing but a longer text. */
  lemma MergeKid(boundary: bool, handler: Option<Handler>, kids: seq<Kid>, i: nat, path: Bytes, more: Bytes, t: Trie)
    requires KidsOk(boundary, kids) && i < |kids| && path != []
    requires kids[i] == StaticKid(path, Assemble(None, [StaticKid(more, t)]))
      && KidOk(EndsInSlash(path), StaticKid(more, t))
    ensures KidsOk(boundary, kids[i := StaticKid(path + more, t)])
    ensures Assemble(handler, kids[i := StaticKid(path + more, t)]) == Assemble(handler, kids)
  {
    var kid := StaticKid(path + more, t);
    assert KidOk(boundary, kids[i]);
    assert KidOk(boundary, kid) by {
      MergedText(path, more);
    }
    assert kid.path[0] == path[0];
    KidsUpdated(boundary, kids, i, kid);
    ChainSplit(kid.path[1..], |path| - 1, t);
    assert kid.path[1..][..|path| - 1] == path[1..] && kid.path[1..][|path| - 1..] == more;
    StaticUpdated(kids, 0, i, kid);
    StaticAt(kids, 0, i);
  }

  lemma MergedText(path: Bytes, more: Bytes)
    requires PlainInside(path) && PlainInside(more) && path != [] && more != []
      && (EndsInSlash(path) ==> PlainStart(more))
    ensures PlainInside(path + more) && EndsInSlash(path + more) == EndsInSlash(more)
    ensures PlainStart(path) ==> PlainStart(path + more)
  {
    var all := path + more;
    forall i | 0 <= i < |all| - 1 && all[i] == SLASH ensures PlainByte(all[i + 1]) {
      if i < |path| - 1 {
        assert path[i] == SLASH;
      } else if i == |path| - 1 {
        assert EndsInSlash(path) && all[i + 1] == more[0];
      } else {
        assert more[i - |path|] == SLASH && all[i + 1] == more[i - |path| + 1];
      }
    }
  }

  lemma Exchange<T>(all: set<T>, gone: set<T>, come: set<T>)
    requires gone <= all && |come| <= |gone|
    ensures |all - gone + come| <= |all| - |gone| + |come|
  {
    assert (all - gone) * gone == {};
    assert all == (all - gone) + gone;
  }

  lemma Smaller<T>(part: set<T>, all: set<T>, x: T)
    requires part <= all && x in all && x !in part
    ensures |part| < |all|
  {
    assert |all - part| == |all| - |part| by {
      assert (all - part) * part == {};
      assert all == (all - part) + part;
    }
    assert x in all - part;
  }

  /** Child `i` has other nodes below it than the nodes `gone`. */
  ghost method Rehang(n: Node, i: nat, gone: set<Node>)
    requires n in n.repr && !n.wildcard && i < |n.children| && n !in gone && (n.param != [] ==> n.hits == 0)
    requires forall j :: 0 <= j < |n.children| ==> n.children[j].Valid() && n !in n.children[j].repr
    requires forall j :: 0 <= j < |n.children| && j != i ==> n.children[j].repr <= n.repr - gone
    requires forall j, k :: 0 <= j < k < |n.children| ==> n.children[j].repr !! n.children[k].repr
    requires KidsOk(n.Boundary(), n.Kids()) && n.IndicesOk() && n.trie == Assemble(n.handlers, n.Kids())
    modifies n`repr
    ensures n.Valid() && n.repr == old(n.repr) - gone + n.children[i].repr
  {
    hide KidsOk, KidOk, Apart, Assemble, IndexByteOf;
    n.repr := n.repr - gone + n.children[i].repr;
  }

  /** A text node that is nothing but the beginning of a longer text. */
  predicate Mergeable(child: Node)
    reads child, child.children
  {
    && child.param == [] && !child.wildcard && |child.children| == 1 && child.handlers.None?
    && child.children[0].param == [] && !child.children[0].wildcard
  }

  /** There are no such nodes below this one. */
  ghost predicate Flat(n: Node)
    reads n, n.repr
    requires n.Valid()
    decreases n.repr
  {
    forall i :: 0 <= i < |n.children| ==>
      (assert n.children[i].Valid(); !Mergeable(n.children[i]) && Flat(n.children[i]))
  }

  /** Text nodes stay text nodes. */
  twostate predicate SameKinds(n: Node)
    reads n, n.children
  {
    && |n.children| == old(|n.children|)
    && forall i :: 0 <= i < |n.children| ==> n.children[i].IsStatic() == old(n.children[i].IsStatic())
  }

  /** flattenNode. */
  method FlattenNode(n: Node)
    requires n.Valid()
    modifies n.repr
    ensures Flatter(n) && Flat(n) && SameKinds(n)
    decreases |n.repr|, 1
  {
    hide KidsOk, Assemble, Node.View, Node.IndicesOk, EndsInSlash;
    var i := 0;
    while i < |n.children|
      invariant 0 <= i <= |n.children| && Flatter(n) && SameKinds(n)
      invariant forall k :: 0 <= k < i ==> !Mergeable(n.children[k]) && Flat(n.children[k])
      decreases |n.children| - i, if i < |n.children| then |n.children[i].repr| else 0
    {
      var child := n.children[i];
      if child.param == [] && !child.wildcard && |child.children| == 1 && child.handlers.None?
        && child.children[0].param == [] && !child.children[0].wildcard {
        Merge(n, i);
      } else {
        FlattenOne(n, i);
        i := i + 1;
      }
    }
  }

  /** A child that is not to be merged is flattened; the others stay as they are. */
  method FlattenOne(n: Node, i: nat)
    requires n.Valid() && i < |n.children| && !Mergeable(n.children[i])
    modifies n`repr, n.children[i].repr
    ensures Flatter(n) && SameKinds(n) && n.children == old(n.children)
    ensures !Mergeable(n.children[i]) && Flat(n.children[i])
    ensures forall k :: 0 <= k < |n.children| && k != i ==>
      Mergeable(n.children[k]) == old(Mergeable(n.children[k])) && Flat(n.children[k]) == old(Flat(n.children[k]))
    decreases |n.repr|, 0, 1
  {
    hide KidsOk, Assemble, Node.View, Node.IndicesOk, EndsInSlash;
    FlattenChild(n, i);
  }

  method FlattenChild(n: Node, i: nat)
    requires n.Valid() && i < |n.children| && !Mergeable(n.children[i])
    modifies n`repr, n.children[i].repr
    ensures Flatter(n) && n.children == old(n.children)
    ensures n.children[i].IsStatic() == old(n.children[i].IsStatic())
    ensures !Mergeable(n.children[i]) && Flat(n.children[i])
    decreases |n.repr|, 0, 0
  {
    hide KidsOk, Assemble, StaticsFrom, ParamsFrom, WildFrom;
    ghost var kids, child := n.Kids(), n.children[i];
    ghost var all, gone := n.repr, child.repr;
    Smaller(gone, all, n);
    FlattenNode(n.children[i]);
    assert n.Kids() == kids;
    Rehang(n, i, gone);
    Exchange(all, gone, child.repr);
  }

  /** Puts one node in the place of a child and its only child. */
  method Merge(n: Node, i: nat)
    requires n.Valid() && i < |n.children| && n.children[i].IsStatic() && |n.children[i].children| == 1
    requires n.children[i].handlers.None? && n.children[i].children[0].IsStatic()
    modifies n`children, n`repr
    ensures Flatter(n) && |n.children| == old(|n.children|) && n.children[i].IsStatic()
    ensures forall k :: 0 <= k < |n.children| && k != i ==> n.children[k] == old(n.children[k])
    ensures |n.children[i].repr| < old(|n.children[i].repr|)
  {
    hide KidsOk, KidOk, Assemble, Node.Valid;
    var merged := MakeMerged(n, i);
    ReplaceChild(n, i, merged);
  }

  method MakeMerged(n: Node, i: nat) returns (merged: Node)
    requires n.Valid() && i < |n.children| && n.children[i].IsStatic() && |n.children[i].children| == 1
    requires n.children[i].handlers.None? && n.children[i].children[0].IsStatic()
    ensures n in n.repr && n.Valid() && !n.wildcard && n.children[i].path != [] && n.children[i].repr <= n.repr
    ensures merged.Valid() && fresh(merged) && merged.repr <= n.children[i].repr + {merged}
    ensures |merged.repr| < |n.children[i].repr| && merged.IsStatic()
    ensures merged.path != [] && merged.path[0] == n.children[i].path[0]
    ensures KidsOk(n.Boundary(), n.Kids()[i := merged.View()])
    ensures Assemble(n.handlers, n.Kids()[i := merged.View()]) == n.trie
  {
    hide KidsOk, KidOk, Assemble, Node.IndicesOk, Apart, Chain;
    var child := n.children[i];
    ghost var kids := n.Kids();
    n.StaticKidOk(i);
    FirstByte(n, i);
    ChainOfTwo(child);
    var below := child.children[0];
    FirstByte(child, 0);
    merged := MergedNode(below, child.path + below.path, child.hits + below.hits);
    MergedSize(child, merged);
    assert n.Kids() == kids && merged.View() == StaticKid(child.path + child.children[0].path, child.children[0].trie);
    MergeKid(n.Boundary(), n.handlers, kids, i, child.path, child.children[0].path, child.children[0].trie);
  }

  lemma FirstByte(n: Node, i: nat)
    requires n.Valid() && i < |n.children| && n.children[i].IsStatic()
    ensures n.children[i].path != []
  {
    assert KidOk(n.Boundary(), n.Kids()[i]);
  }

  method ReplaceChild(n: Node, i: nat, node: Node)
    requires n.Valid() && !n.wildcard && i < |n.children| && n.children[i].IsStatic() && node.IsStatic()
    requires node.Valid() && node !in n.repr && node.repr <= n.children[i].repr + {node}
    requires |node.repr| < |n.children[i].repr|
    requires n.children[i].path != [] && node.path != [] && node.path[0] == n.children[i].path[0]
    requires KidsOk(n.Boundary(), n.Kids()[i := node.View()])
    requires Assemble(n.handlers, n.Kids()[i := node.View()]) == n.trie
    modifies n`children, n`repr
    ensures n in n.repr && n.Valid() && |n.repr| <= old(|n.repr|)
    ensures n.repr == old(n.repr) - old(n.children[i].repr) + node.repr
    ensures n.children == old(n.children)[i := node]
  {
    hide KidsOk, KidOk, Assemble, StaticsFrom, ParamsFrom, WildFrom;
    ghost var kids, all, gone := n.Kids(), n.repr, n.children[i].repr;
    n.children := n.children[i := node];
    assert n.Kids() == kids[i := node.View()];
    Rehang(n, i, gone);
    Exchange(all, gone, node.repr);
  }

  lemma ChainOfTwo(child: Node)
    requires child.Valid() && child.IsStatic() && |child.children| == 1 && child.handlers.None?
      && child.children[0].IsStatic()
    ensures var kid := StaticKid(child.children[0].path, child.children[0].trie);
      child.trie == Assemble(None, [kid]) && KidOk(EndsInSlash(child.path), kid)
  {
    assert child.Kids() == [child.children[0].View()];
    assert KidOk(child.Boundary(), child.Kids()[0]);
  }

  /** A new node with another text and what is below this one. */
  method MergedNode(below: Node, path: Bytes, hits: nat) returns (merged: Node)
    requires below.Valid() && below.IsStatic() && EndsInSlash(path) == EndsInSlash(below.path)
    ensures merged.Valid() && fresh(merged) && merged.repr == below.repr - {below} + {merged}
    ensures merged.View() == StaticKid(path, below.trie)
  {
    hide KidsOk, KidOk, Assemble, EndsInSlash, Node.IndicesOk, Node.Kids;
    merged := new Node(path, [], false, below.regex, below.handlers);
    merged.children, merged.indices, merged.hits := below.children, below.indices, hits;
    merged.repr, merged.trie := below.repr - {below} + {merged}, below.trie;
    SameBelow(below, merged);
  }

  lemma SameBelow(a: Node, b: Node)
    requires a.children == b.children && a.indices == b.indices && a.IndicesOk()
    ensures a.Kids() == b.Kids() && b.IndicesOk()
  {
  }

  lemma MergedSize(child: Node, merged: Node)
    requires child.Valid() && |child.children| == 1
      && merged.repr == child.children[0].repr - {child.children[0]} + {merged}
    ensures |merged.repr| < |child.repr| && merged.repr <= child.repr + {merged}
  {
    var below := child.children[0];
    Smaller(below.repr, child.repr, child);
    Exchange(below.repr, {below}, {merged});
  }
}
