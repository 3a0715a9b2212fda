/** The radix tree itself (router.go): nodes that are split and extended in place, and the backtracking search.
    Each node carries, as a ghost, the trie that it stands for; every operation is proved against the operation
    of the same name on tries. */
module RouterTree {
  import opened Bytes
  import opened Options
  import opened RouterTrie
  import opened RouterKids
  import opened RouteParams

  /** A path segment of a route. */
  datatype Seg = Static(text: Bytes) | Param(name: Bytes, rx: Regex) | Wildcard(name: Bytes)

  predicate SegOk(seg: Seg) {
    match seg
    case Static(text) => PlainStart(text) && SLASH !in text
    case Param(name, _) => name != []
    case Wildcard(name) => name != []
  }

  ghost predicate SegsOk(segs: seq<Seg>) {
    forall i :: 0 <= i < |segs| ==> SegOk(segs[i])
  }

  /** A static segment keeps its slash unless it is the last. */
  function SegText(segs: seq<Seg>, idx: nat): Bytes
    requires idx < |segs| && segs[idx].Static?
  {
    segs[idx].text + (if idx < |segs| - 1 then [SLASH] else [])
  }

  /** What a route looks like in the trie, from segment `idx` on. */
  function Items(segs: seq<Seg>, idx: nat): seq<Item>
    requires idx <= |segs|
    decreases |segs| - idx
  {
    if idx == |segs| then []
    else
      match segs[idx]
      case Static(_) => Chars(SegText(segs, idx)) + Items(segs, idx + 1)
      case Param(name, rx) => [Par(name, rx)] + Items(segs, idx + 1)
      case Wildcard(name) => [Item.Wild(name)] + Items(segs, idx + 1)
  }

  /** What is left of a segment's text while it is being inserted. */
  ghost predicate TextOk(text: Bytes, segs: seq<Seg>, idx: nat) {
    && text != [] && idx < |segs|
    && (forall i :: 0 <= i < |text| - 1 ==> text[i] != SLASH)
    && (EndsInSlash(text) <==> idx < |segs| - 1)
  }

  /** `hits` counts lookups before Compile, which are not modelled: they would reorder parameters. */
  class Node {
    var path: Bytes
    var children: seq<Node>
    var indices: Bytes
    var handlers: Option<Handler>
    var param: Bytes
    var wildcard: bool
    var regex: Regex
    var hits: nat
    ghost var repr: set<Node>
    ghost var trie: Trie

    // -------------------------------------------------------------- the invariant

    predicate IsStatic()
      reads this`param, this`wildcard
    {
      param == [] && !wildcard
    }

    /** May a segment start below this node? */
    predicate Boundary()
      reads this`param, this`wildcard, this`path
    {
      !wildcard && (param != [] || EndsInSlash(path))
    }

    ghost function View(): Kid
      reads this`path, this`param, this`wildcard, this`regex, this`handlers, this`trie
    {
      if wildcard then WildKid(param, handlers)
      else if param != [] then ParamKid(param, regex, trie)
      else StaticKid(path, trie)
    }

    ghost function Kids(): (s: seq<Kid>)
      reads this`children, children
      ensures |s| == |children|
    {
      var nodes := children;
      seq(|nodes|, i requires 0 <= i < |nodes| reads nodes => nodes[i].View())
    }

    ghost predicate Valid()
      reads this, repr
      decreases repr
    {
      && this in repr
      && (forall i :: 0 <= i < |children| ==>
            children[i] in repr && children[i].repr <= repr && this !in children[i].repr && children[i].Valid())
      && (forall i, j :: 0 <= i < j < |children| ==> children[i].repr !! children[j].repr)
      && (wildcard ==> children == [])
      && (param != [] ==> hits == 0)
      && KidsOk(Boundary(), Kids())
      && IndicesOk()
      && trie == Assemble(handlers, Kids())
    }

    ghost predicate IndicesOk()
      reads this`indices, this`children, children
    {
      && |indices| == |children|
      && (forall i :: 0 <= i < |children| ==>
            (Kids()[i].StaticKid? ==> Kids()[i].path != []) && indices[i] == IndexByteOf(Kids()[i]))
    }

    /** A node without children. */
    constructor (path: Bytes, param: Bytes, wildcard: bool, regex: Regex, handlers: Option<Handler>)
      ensures Valid() && repr == {this} && trie == Trie(handlers, map[], [], None)
      ensures this.path == path && this.param == param && this.wildcard == wildcard && this.regex == regex
      ensures this.handlers == handlers && children == [] && hits == 0
    {
      this.path, this.param, this.wildcard, this.regex, this.handlers := path, param, wildcard, regex, handlers;
      children, indices, hits, repr, trie := [], [], 0, {this}, Assemble(handlers, []);
    }

    // -------------------------------------------------------------- search

    /** findInNode: the handler and the captures that the trie gives. */
    method FindInNode(path: Bytes, params: Params) returns (h: Option<Handler>)
      requires Valid() && !wildcard && params.Valid()
      modifies params, params.items
      ensures params.Valid() && Found(h, params.Captures()) == Find(trie, path, old(params.Captures()))
      decreases |path|, 1, 0
    {
      hide KidsOk, StaticsFrom, ParamsFrom, WildFrom, FindStatic, FindParams;
      h := FindInStatic(path, params);
      if h.None? {
        h := FindInParams(path, params);
      }
      if h.None? {
        h := FindInWildcard(path, params);
      }
    }

    method FindInParams(path: Bytes, params: Params) returns (h: Option<Handler>)
      requires Valid() && !wildcard && params.Valid()
      modifies params, params.items
      ensures params.Valid() && Found(h, params.Captures()) == FindParams(trie.params, path, old(params.Captures()))
      decreases |path|, 0, 1
    {
      hide KidsOk, KidOk, StaticsFrom, WildFrom, FindStatic, FindParam;
      ghost var kids := Kids();
      var i := 0;
      while i < |children|
        invariant 0 <= i <= |children| && params.Valid()
        invariant FindParams(ParamsFrom(kids, 0), path, old(params.Captures()))
               == FindParams(ParamsFrom(kids, i), path, params.Captures())
      {
        var child := children[i];
        if child.param != [] && !child.wildcard {
          h := FindInParam(i, path, params);
          if h.Some? {
            return;
          }
          assert ParamsFrom(kids, i)[1..] == ParamsFrom(kids, i + 1);
        }
        i := i + 1;
      }
      return None;
    }

    method FindInWildcard(path: Bytes, params: Params) returns (h: Option<Handler>)
      requires Valid() && params.Valid()
      modifies params, params.items
      ensures params.Valid()
      ensures Found(h, params.Captures())
           == if trie.wild.None? then Found(None, old(params.Captures()))
              else Found(Some(trie.wild.value.handler), SetCapture(old(params.Captures()), trie.wild.value.name, path))
    {
      hide KidsOk, KidOk, StaticsFrom, ParamsFrom;
      ghost var kids := Kids();
      var i := 0;
      while i < |children|
        invariant 0 <= i <= |children|
        invariant WildFrom(kids, 0) == WildFrom(kids, i)
      {
        var child := children[i];
        if child.wildcard {
          WildcardHandles(i);
          params.Set(child.param, path);
          return child.handlers;
        }
        i := i + 1;
      }
      return None;
    }

    lemma WildcardHandles(i: nat)
      requires Valid() && i < |children| && children[i].wildcard
      ensures children[i].handlers.Some?
    {
      assert KidOk(Boundary(), Kids()[i]);
    }

    /** The static child, found through the index of first bytes. */
    method FindInStatic(path: Bytes, params: Params) returns (h: Option<Handler>)
      requires Valid() && !wildcard && params.Valid()
      modifies params, params.items
      ensures params.Valid() && Found(h, params.Captures()) == FindStatic(trie, path, old(params.Captures()))
      decreases |path|, 0, 0
    {
      hide KidsOk, KidOk, StaticsFrom, ParamsFrom, WildFrom, Find, Chain;
      if path == [] {
        return None;
      }
      var idx := IndexByte(indices, path[0]);
      IndexIsStatic(path[0]);
      if idx < 0 {
        return None;
      }
      var child := children[idx];
      if !child.IsStatic() {
        return None;
      }
      ChainArrive(child.path[1..], child.trie, path[1..], params.Captures());
      if child.path <= path {
        var remaining := path[|child.path|..];
        assert child.path[1..] <= path[1..] && path[1..][|child.path| - 1..] == remaining;
        if remaining == [] {
          return child.handlers;
        }
        h := child.FindInNode(remaining, params);
      } else if child.path == path + [SLASH] && child.handlers.Some? {
        // A node that ends in a slash has no handler of its own.
        assert false;
      } else {
        return None;
      }
    }

    /** The first child with a given index byte is static exactly if there is a static child for that byte. */
    lemma IndexIsStatic(c: Byte)
      requires Valid()
      ensures var idx := IndexByte(indices, c);
        if idx >= 0 && children[idx].IsStatic() then
          && c in trie.statics && children[idx].path != [] && children[idx].path[0] == c
          && trie.statics[c] == Chain(children[idx].path[1..], children[idx].trie)
          && (EndsInSlash(children[idx].path) ==> children[idx].handlers.None?)
        else c !in trie.statics
    {
      var kids := Kids();
      var idx := IndexByte(indices, c);
      IndexByteIsFirst(indices, c);
      if idx >= 0 && children[idx].IsStatic() {
        StaticAt(kids, 0, idx);
        assert KidOk(Boundary(), kids[idx]);
      } else {
        forall i | 0 <= i < |kids| && kids[i].StaticKid? && kids[i].path != []
          ensures kids[i].path[0] != c
        {
          assert KidOk(Boundary(), kids[i]);
          assert indices[i] == kids[i].path[0];
          if idx >= 0 {
            assert KidOk(Boundary(), kids[idx]);
          }
        }
        NoStaticAt(kids, 0, c);
      }
    }

    /** One parameter child. */
    method FindInParam(i: nat, path: Bytes, params: Params) returns (h: Option<Handler>)
      requires Valid() && !wildcard && params.Valid()
      requires i < |children| && children[i].param != [] && !children[i].wildcard
      modifies params, params.items
      ensures params.Valid()
      ensures Found(h, params.Captures())
           == FindParam(ParamEdge(children[i].param, children[i].regex, children[i].trie), path, old(params.Captures()))
      decreases |path|, 0, 0
    {
      hide KidsOk, Find, FindParams, FindStatic, StaticsFrom, ParamsFrom, WildFrom, Boundary, SetCapture, DelCapture;
      var child := children[i];
      var end := IndexByte(path, SLASH);
      if end == -1 {
        end := |path|;
      }
      var value := path[..end];
      if value == [] {
        return None;
      }
      if child.regex.Some? && !child.regex.value(value) {
        return None;
      }
      params.Set(child.param, value);
      if end == |path| {
        if child.handlers.Some? {
          return child.handlers;
        }
      } else {
        h := child.FindInNode(path[end + 1..], params);
        if h.Some? {
          return;
        }
      }
      params.Del(child.param);
      return None;
    }

    // -------------------------------------------------------------- insertion
    //
    // Each method answers false where the source panics: the route is there already, or its wildcard is not last.

    /** Child `i` has changed; the ghosts of its parent follow. */
    ghost method Renew(i: nat)
      requires this in repr && !wildcard && i < |children| && (param != [] ==> hits == 0)
      requires forall j :: 0 <= j < |children| ==> children[j].Valid() && this !in children[j].repr
      requires forall j :: 0 <= j < |children| && j != i ==> children[j].repr <= repr
      requires forall j, k :: 0 <= j < k < |children| ==> children[j].repr !! children[k].repr
      requires KidsOk(Boundary(), Kids()) && IndicesOk()
      modifies this`repr, this`trie
      ensures Valid() && repr == old(repr) + children[i].repr && Kids() == old(Kids())
    {
      hide KidsOk, KidOk, Apart, StaticsFrom, ParamsFrom, WildFrom, IndexByteOf;
      repr := repr + children[i].repr;
      trie := Assemble(handlers, Kids());
    }

    /** A new last child. */
    method Append(child: Node)
      requires Valid() && !wildcard && child.Valid() && child.repr !! repr
      requires KidOk(Boundary(), child.View()) && forall i :: 0 <= i < |children| ==> Apart(Kids()[i], child.View())
      modifies this`children, this`indices, this`repr, this`trie
      ensures Valid() && children == old(children) + [child] && repr == old(repr) + child.repr
      ensures Kids() == old(Kids()) + [child.View()]
    {
      hide KidsOk, StaticsFrom, ParamsFrom, WildFrom, Apart, Assemble;
      ghost var kids := Kids();
      assert forall i :: 0 <= i < |children| ==> children[i].repr !! child.repr;
      children := children + [child];
      indices := indices + [if child.wildcard then STAR else if child.param != [] then COLON else child.path[0]];
      repr := repr + child.repr;
      assert Kids() == kids + [child.View()];
      KidsAppended(Boundary(), kids, child.View());
      trie := Assemble(handlers, Kids());
    }

    /** The node is as before, with more below it. */
    twostate predicate Grown()
      reads this, repr
    {
      && Valid() && fresh(repr - old(repr)) && old(repr) <= repr
      && path == old(path) && param == old(param) && wildcard == old(wildcard) && regex == old(regex)
    }

    method InsertRoute(segs: seq<Seg>, idx: nat, h: Handler) returns (ok: bool)
      requires Valid() && !wildcard && SegsOk(segs) && idx <= |segs| && (idx < |segs| ==> Boundary())
      modifies repr
      ensures if ok then Insert(old(trie), Items(segs, idx), h) == Some(trie) && Grown()
              else Insert(old(trie), Items(segs, idx), h) == None
      ensures ok <==> WildLast(Items(segs, idx)) && !Has(old(trie), Items(segs, idx))
      ensures ok && idx < |segs| ==> handlers == old(handlers)
      decreases |segs| - idx, 3, 0
    {
      hide KidsOk, StaticsFrom, ParamsFrom, WildFrom, Has, WildLast;
      InsertSucceeds(trie, Items(segs, idx), h);
      if idx >= |segs| {
        if handlers.Some? {
          return false;
        }
        handlers := Some(h);
        trie := Assemble(handlers, Kids());
        return true;
      }
      match segs[idx]
      case Wildcard(name) =>
        assert |Items(segs, idx)| > 1 <==> idx != |segs| - 1 by { ItemsNotEmpty(segs, idx + 1); }
        if idx != |segs| - 1 {
          return false;
        }
        ok := InsertWildcard(name, h);
      case Param(_, _) =>
        ok := InsertParam(segs, idx, h);
      case Static(_) =>
        ok := InsertStatic(SegText(segs, idx), segs, idx, h);
    }

    static lemma ItemsNotEmpty(segs: seq<Seg>, idx: nat)
      requires SegsOk(segs) && idx <= |segs|
      ensures Items(segs, idx) == [] <==> idx == |segs|
    {
      if idx < |segs| {
        assert SegOk(segs[idx]);
      }
    }

    method InsertWildcard(name: Bytes, h: Handler) returns (ok: bool)
      requires Valid() && Boundary()
      modifies this
      ensures if ok then Insert(old(trie), [Item.Wild(name)], h) == Some(trie) && Grown()
              else Insert(old(trie), [Item.Wild(name)], h) == None
      ensures handlers == old(handlers)
    {
      hide KidsOk, StaticsFrom, ParamsFrom, WildFrom, Insert;
      var i := 0;
      while i < |children|
        invariant 0 <= i <= |children| && forall j :: 0 <= j < i ==> !Kids()[j].WildKid?
      {
        if children[i].wildcard {
          // A wildcard child always has a handler, so this is a duplicate.
          WildcardHandles(i);
          WildTaken(i, name, h);
          return false;
        }
        i := i + 1;
      }
      InsertWild(handlers, Kids(), name, h);
      var child := new Node([], name, true, None, Some(h));
      Append(child);
      return true;
    }

    lemma WildTaken(i: nat, name: Bytes, h: Handler)
      requires Valid() && i < |children| && children[i].wildcard && children[i].handlers.Some?
      ensures Insert(trie, [Item.Wild(name)], h) == None
    {
      WildFound(Kids(), 0, i);
    }

    /** A parameter segment: the child of that name takes the rest, whatever constraint it has. */
    method InsertParam(segs: seq<Seg>, idx: nat, h: Handler) returns (ok: bool)
      requires Valid() && SegsOk(segs) && idx < |segs| && segs[idx].Param? && Boundary()
      modifies repr
      ensures if ok then Insert(old(trie), Items(segs, idx), h) == Some(trie) && Grown()
              else Insert(old(trie), Items(segs, idx), h) == None
      ensures ok ==> handlers == old(handlers)
      decreases |segs| - idx, 2, 0
    {
      hide KidsOk, StaticsFrom, ParamsFrom, WildFrom, Insert, Assemble;
      var seg := segs[idx];
      var i := 0;
      while i < |children|
        invariant 0 <= i <= |children|
        invariant forall j :: 0 <= j < i ==> !(Kids()[j].ParamKid? && Kids()[j].name == seg.name)
      {
        var child := children[i];
        if child.param == seg.name && !child.wildcard {
          ok := InsertIntoParam(i, segs, idx, h);
          return;
        }
        i := i + 1;
      }
      assert SegOk(seg);
      InsertNewParam(handlers, Kids(), seg.name, seg.rx, Items(segs, idx + 1), h);
      var child := new Node([], seg.name, false, seg.rx, None);
      ok := AddBranch(child, segs, idx, h);
    }

    method InsertIntoParam(i: nat, segs: seq<Seg>, idx: nat, h: Handler) returns (ok: bool)
      requires Valid() && SegsOk(segs) && idx < |segs| && segs[idx].Param? && Boundary()
      requires i < |children| && children[i].param == segs[idx].name && !children[i].wildcard
      modifies repr
      ensures if ok then Insert(old(trie), Items(segs, idx), h) == Some(trie) && Grown()
              else Insert(old(trie), Items(segs, idx), h) == None
      ensures ok ==> handlers == old(handlers)
      decreases |segs| - idx, 1, 0
    {
      hide KidsOk, StaticsFrom, ParamsFrom, WildFrom, Insert, Assemble;
      ghost var kids := Kids();
      InsertAtParam(Boundary(), handlers, kids, i, segs[idx].rx, Items(segs, idx + 1), h);
      ok := children[i].InsertRoute(segs, idx + 1, h);
      if ok {
        assert Kids() == kids[i := children[i].View()];
        Renew(i);
      }
    }

    /** Inserts the rest of the route below a new child and hangs it in. (The source hangs it in first; a failure
        is a panic, so nobody sees the difference.) */
    method AddBranch(child: Node, segs: seq<Seg>, idx: nat, h: Handler) returns (ok: bool)
      requires Valid() && !wildcard && SegsOk(segs) && idx < |segs|
      requires child.Valid() && child.repr !! repr && !child.wildcard && child.trie == EMPTY
      requires idx + 1 < |segs| ==> child.Boundary()
      requires KidOk(Boundary(), child.View()) && (forall i :: 0 <= i < |children| ==> Apart(Kids()[i], child.View()))
      requires child.IsStatic() && EndsInSlash(child.path) ==> idx + 1 < |segs|
      modifies this, child.repr
      ensures ok <==> Insert(EMPTY, Items(segs, idx + 1), h).Some?
      ensures ok ==> Valid() && child.Valid() && fresh(child.repr - old(child.repr)) && repr == old(repr) + child.repr
      ensures path == old(path) && param == old(param) && wildcard == old(wildcard) && regex == old(regex)
      ensures handlers == old(handlers)
      ensures ok ==> trie == Assemble(handlers, old(Kids()) +
        [if old(child.param) != [] then ParamKid(old(child.param), old(child.regex),
          Insert(EMPTY, Items(segs, idx + 1), h).value)
         else StaticKid(old(child.path), Insert(EMPTY, Items(segs, idx + 1), h).value)])
      decreases |segs| - idx, 0, 0
    {
      hide KidsOk, StaticsFrom, ParamsFrom, WildFrom, Insert;
      ghost var kids := Kids();
      ok := child.InsertRoute(segs, idx + 1, h);
      if ok {
        assert Valid() && Kids() == kids;
        Append(child);
      }
    }

    /** A piece of text that no child starts with. */
    method AddText(text: Bytes, segs: seq<Seg>, idx: nat, h: Handler) returns (ok: bool)
      requires Valid() && !wildcard && SegsOk(segs) && TextOk(text, segs, idx) && (Boundary() ==> PlainStart(text))
      requires forall i :: 0 <= i < |children| && Kids()[i].StaticKid? ==> Kids()[i].path[0] != text[0]
      modifies repr
      ensures if ok then Insert(old(trie), Chars(text) + Items(segs, idx + 1), h) == Some(trie) && Grown()
              else Insert(old(trie), Chars(text) + Items(segs, idx + 1), h) == None
      ensures ok ==> handlers == old(handlers)
      decreases |segs| - idx, 0, 1
    {
      hide KidsOk, StaticsFrom, ParamsFrom, WildFrom, Assemble, Insert;
      InsertEnd(h);
      InsertNewStatic(handlers, Kids(), text, Items(segs, idx + 1), h);
      if idx == |segs| - 1 {
        AddLeaf(text, h);
        return true;
      }
      var child := new Node(text, [], false, None, None);
      ok := AddBranch(child, segs, idx, h);
    }

    method AddLeaf(text: Bytes, h: Handler)
      requires Valid() && !wildcard && KidOk(Boundary(), StaticKid(text, Trie(Some(h), map[], [], None)))
      requires forall i :: 0 <= i < |children| && Kids()[i].StaticKid? ==> Kids()[i].path[0] != text[0]
      modifies this
      ensures Grown() && handlers == old(handlers)
      ensures trie == Assemble(handlers, old(Kids()) + [StaticKid(text, Trie(Some(h), map[], [], None))])
    {
      hide KidsOk, StaticsFrom, ParamsFrom, WildFrom, Assemble;
      var child := new Node(text, [], false, None, Some(h));
      Append(child);
    }

    static lemma InsertEnd(h: Handler)
      ensures Insert(EMPTY, [], h) == Some(Trie(Some(h), map[], [], None))
    {
    }

    /** insertStatic. No parameter or wildcard can be in the way: segments do not start with their index bytes. */
    method InsertStatic(text: Bytes, segs: seq<Seg>, idx: nat, h: Handler) returns (ok: bool)
      requires Valid() && SegsOk(segs) && idx < |segs| && segs[idx].Static? && Boundary() && text == SegText(segs, idx)
      modifies repr
      ensures if ok then Insert(old(trie), Items(segs, idx), h) == Some(trie) && Grown()
              else Insert(old(trie), Items(segs, idx), h) == None
      ensures ok ==> handlers == old(handlers)
      decreases |segs| - idx, 2, 0
    {
      hide KidsOk, StaticsFrom, ParamsFrom, WildFrom, Assemble, Insert;
      assert SegOk(segs[idx]);
      ok := InsertText(text, segs, idx, h);
    }

    /** Text goes to the static child that starts with its first byte, or to a new one. */
    method InsertText(text: Bytes, segs: seq<Seg>, idx: nat, h: Handler) returns (ok: bool)
      requires Valid() && !wildcard && SegsOk(segs) && TextOk(text, segs, idx) && (Boundary() ==> PlainStart(text))
      modifies repr
      ensures if ok then Insert(old(trie), Chars(text) + Items(segs, idx + 1), h) == Some(trie) && Grown()
              else Insert(old(trie), Chars(text) + Items(segs, idx + 1), h) == None
      ensures ok ==> handlers == old(handlers)
      decreases |segs| - idx, 1, |text|, 2
    {
      hide KidsOk, StaticsFrom, ParamsFrom, WildFrom, Assemble, Insert;
      var i := IndexByte(indices, text[0]);
      StaticOrNone(text[0]);
      if i < 0 {
        ok := AddText(text, segs, idx, h);
        return;
      }
      ok := InsertIntoStatic(i, text, segs, idx, h);
    }

    method InsertIntoStatic(i: nat, text: Bytes, segs: seq<Seg>, idx: nat, h: Handler) returns (ok: bool)
      requires Valid() && !wildcard && SegsOk(segs) && TextOk(text, segs, idx)
      requires i < |children| && Kids()[i].StaticKid? && Kids()[i].path != [] && Kids()[i].path[0] == text[0]
      modifies repr
      ensures if ok then Insert(old(trie), Chars(text) + Items(segs, idx + 1), h) == Some(trie) && Grown()
              else Insert(old(trie), Chars(text) + Items(segs, idx + 1), h) == None
      ensures ok ==> handlers == old(handlers)
      decreases |segs| - idx, 1, |text|, 1
    {
      hide Chars, KidsOk, StaticsFrom, ParamsFrom, WildFrom, Assemble, Insert;
      ghost var kids := Kids();
      StaticKidOk(i);
      ok := children[i].SplitAndInsert(text, segs, idx, h);
      InsertAtStatic(handlers, kids, i, children[i].View(), text, Items(segs, idx + 1), h);
      if ok {
        assert Kids() == kids[i := children[i].View()];
        KidsUpdated(Boundary(), kids, i, children[i].View());
        Renew(i);
      }
    }

    lemma StaticKidOk(i: nat)
      requires Valid() && i < |children| && Kids()[i].StaticKid?
      ensures KidOk(Boundary(), Kids()[i]) && KidOk(false, Kids()[i]) && children[i].IsStatic()
      ensures forall a, b :: 0 <= a < b < |Kids()| ==> Apart(Kids()[a], Kids()[b])
    {
      assert KidOk(Boundary(), Kids()[i]);
    }

    lemma StaticOrNone(c: Byte)
      requires Valid() && !wildcard && (Boundary() ==> c != COLON && c != STAR)
      ensures var i := IndexByte(indices, c);
        if i < 0 then forall j :: 0 <= j < |children| && Kids()[j].StaticKid? ==>
          Kids()[j].path != [] && Kids()[j].path[0] != c
        else Kids()[i].StaticKid? && Kids()[i].path != [] && Kids()[i].path[0] == c && KidOk(Boundary(), Kids()[i])
    {
      IndexByteIsFirst(indices, c);
      var i := IndexByte(indices, c);
      if i >= 0 {
        assert KidOk(Boundary(), Kids()[i]);
      }
    }

    /** splitAndInsert: the node keeps the text it has in common, and gets a child for the rest of its own. */
    method SplitAndInsert(text: Bytes, segs: seq<Seg>, idx: nat, h: Handler) returns (ok: bool)
      requires Valid() && IsStatic() && SegsOk(segs) && TextOk(text, segs, idx)
      requires KidOk(false, View()) && path[0] == text[0]
      modifies repr
      ensures if ok then Insert(Chain(old(path), old(trie)), Chars(text) + Items(segs, idx + 1), h)
        == Some(Chain(path, trie))
              else Insert(Chain(old(path), old(trie)), Chars(text) + Items(segs, idx + 1), h) == None
      ensures ok ==> Valid() && fresh(repr - old(repr)) && old(repr) <= repr && IsStatic() && KidOk(false, View())
      ensures ok ==> path[0] == old(path)[0]
      decreases |segs| - idx, 1, |text|, 0
    {
      hide KidsOk, StaticsFrom, ParamsFrom, WildFrom, Insert, Chain, Chars;
      var i := LongestPrefix(text, path);
      if i < |path| {
        Split(i);
      }
      ghost var items := Items(segs, idx + 1);
      ghost var below := trie;
      assert path == text[..i] && Chain(path, below) == Chain(old(path), old(trie));
      CharsSplit(text, i);
      assert Chars(text) + items == Chars(path) + (Chars(text[i..]) + items);
      InsertChain(path, below, Chars(text[i..]) + items, h);
      if i < |text| {
        ok := InsertText(text[i..], segs, idx, h);
      } else {
        assert Chars(text[i..]) + items == items;
        ok := InsertRoute(segs, idx + 1, h);
      }
    }

    /** Cuts the node in two after `i` bytes of its text. */
    method Split(i: nat)
      requires Valid() && IsStatic() && KidOk(false, View()) && 0 < i < |path|
      modifies this
      ensures Valid() && IsStatic() && KidOk(false, View()) && fresh(repr - old(repr)) && old(repr) <= repr
      ensures path == old(path)[..i] && Chain(path, trie) == Chain(old(path), old(trie))
    {
      hide Apart, KidsOk, StaticsFrom, ParamsFrom, WildFrom, Chain;
      var child := LowerPart(i);
      ChainSplit(path, i, trie);
      path := path[..i];
      Adopt(child);
    }

    /** The node's only child is this one. */
    method Adopt(child: Node)
      requires this in repr && IsStatic() && child != this && child.Valid() && child.repr == repr - {this} + {child}
      requires child.IsStatic() && KidOk(Boundary(), child.View())
      modifies this`children, this`indices, this`handlers, this`repr, this`trie
      ensures Valid() && repr == old(repr) + {child} && trie == Assemble(None, [child.View()])
    {
      hide Apart, KidsOk, StaticsFrom, ParamsFrom, WildFrom;
      children, indices, handlers := [child], [child.path[0]], None;
      repr := repr + {child};
      trie := Assemble(None, [child.View()]);
      assert Kids() == [child.View()];
      OneKidOk(Boundary(), child.View());
    }

    /** A new node with the end of the text and everything below. */
    method LowerPart(i: nat) returns (child: Node)
      requires Valid() && IsStatic() && 0 < i < |path|
      ensures child.Valid() && fresh(child) && child.repr == repr - {this} + {child}
      ensures child.View() == StaticKid(path[i..], trie)
    {
      hide KidsOk, StaticsFrom, ParamsFrom, WildFrom;
      child := new Node(path[i..], [], false, None, handlers);
      child.children, child.indices := children, indices;
      child.repr, child.trie := repr - {this} + {child}, trie;
      assert child.Kids() == Kids();
    }

    static lemma OneKidOk(boundary: bool, kid: Kid)
      requires KidOk(boundary, kid)
      ensures KidsOk(boundary, [kid])
    {
    }
  }

  /** The length of the longest common prefix. */
  method LongestPrefix(a: Bytes, b: Bytes) returns (i: nat)
    ensures i <= |a| && i <= |b| && a[..i] == b[..i]
    ensures i < |a| && i < |b| ==> a[i] != b[i]
  {
    var max := |a|;
    if |b| < max {
      max := |b|;
    }
    i := 0;
    while i < max && a[i] == b[i]
      invariant i <= max && a[..i] == b[..i]
    {
      i := i + 1;
    }
  }

  /** A cut in the text of an edge does not show in the trie. */
  lemma {:induction false} ChainSplit(s: Bytes, i: nat, t: Trie)
    requires i < |s|
    ensures Chain(s[..i], Assemble(None, [StaticKid(s[i..], t)])) == Chain(s, t)
  {
    if i == 0 {
      assert s[..0] == [] && s[0..] == s;
      var kids := [StaticKid(s, t)];
      assert StaticsFrom(kids, 1) == map[] && ParamsFrom(kids, 1) == [] && WildFrom(kids, 1) == None;
    } else {
      ChainSplit(s[1..], i - 1, t);
      assert s[1..][..i - 1] == s[..i][1..] && s[1..][i - 1..] == s[i..];
    }
  }

  lemma {:induction false} CharsSplit(s: Bytes, i: nat)
    requires i <= |s|
    ensures Chars(s) == Chars(s[..i]) + Chars(s[i..])
  {
    if i == 0 {
      assert s[..0] == [] && s[0..] == s;
    } else {
      CharsSplit(s[1..], i - 1);
      assert s[1..][..i - 1] == s[..i][1..] && s[1..][i - 1..] == s[i..];
    }
  }
}
