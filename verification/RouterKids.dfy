/** The children of one node of the routing tree, as values, and the part of the trie that they stand for. */
module RouterKids {
  import opened Bytes
  import opened Options
  import opened RouterTrie

  datatype Kid =
    | StaticKid(path: Bytes, below: Trie)
    | ParamKid(name: Bytes, rx: Regex, below: Trie)
    | WildKid(name: Bytes, handler: Option<Handler>)

  /** The trie with text `s` above `t`. */
  function Chain(s: Bytes, t: Trie): Trie {
    if s == [] then t else Trie(None, map[s[0] := Chain(s[1..], t)], [], None)
  }

  function Chars(s: Bytes): (r: seq<Item>)
    ensures |r| == |s|
  {
    if s == [] then [] else [Ch(s[0])] + Chars(s[1..])
  }

  predicate EndsInSlash(path: Bytes) {
    path != [] && path[|path| - 1] == SLASH
  }

  predicate PlainByte(c: Byte) {
    c != COLON && c != STAR && c != SLASH
  }

  /** Text that a segment may start with. */
  predicate PlainStart(path: Bytes) {
    path != [] && PlainByte(path[0])
  }

  predicate PlainInside(path: Bytes) {
    forall i :: 0 <= i < |path| - 1 && path[i] == SLASH ==> PlainByte(path[i + 1])
  }

  predicate KidOk(boundary: bool, kid: Kid) {
    match kid
    case StaticKid(path, below) =>
      path != [] && (boundary ==> PlainStart(path)) && PlainInside(path) && (EndsInSlash(path) ==> below.handler.None?)
    case ParamKid(_, _, _) => boundary
    case WildKid(_, handler) => boundary && handler.Some?
  }

  /** Two children do not compete: static edges differ in their first byte, parameters in their name. */
  predicate Apart(a: Kid, b: Kid) {
    if a.StaticKid? && b.StaticKid? then a.path != [] && b.path != [] && a.path[0] != b.path[0]
    else if a.ParamKid? && b.ParamKid? then a.name != b.name
    else !(a.WildKid? && b.WildKid?)
  }

  /** `boundary` is whether a path segment may start below the node. */
  ghost predicate KidsOk(boundary: bool, kids: seq<Kid>) {
    && (forall i :: 0 <= i < |kids| ==> KidOk(boundary, kids[i]))
    && (forall i, j :: 0 <= i < j < |kids| ==> Apart(kids[i], kids[j]))
  }

  lemma KidsAppended(boundary: bool, kids: seq<Kid>, kid: Kid)
    requires KidsOk(boundary, kids) && KidOk(boundary, kid)
    requires forall i :: 0 <= i < |kids| ==> Apart(kids[i], kid)
    ensures KidsOk(boundary, kids + [kid])
  {
    hide KidOk, Apart;
    var more := kids + [kid];
    forall i, j | 0 <= i < j < |more| ensures Apart(more[i], more[j]) {
      assert more[i] == kids[i];
      if j < |kids| {
        assert more[j] == kids[j];
      }
    }
  }

  /** A child that keeps its kind and its first byte or name keeps its distance from the others. */
  lemma KidsUpdated(boundary: bool, kids: seq<Kid>, i: nat, kid: Kid)
    requires KidsOk(boundary, kids) && i < |kids| && KidOk(boundary, kid)
    requires forall other :: Apart(other, kids[i]) ==> Apart(other, kid)
    requires forall other :: Apart(kids[i], other) ==> Apart(kid, other)
    ensures KidsOk(boundary, kids[i := kid])
  {
    hide KidOk, Apart;
  }

  function IndexByteOf(kid: Kid): Byte
    requires kid.StaticKid? ==> kid.path != []
  {
    match kid
    case StaticKid(path, _) => path[0]
    case ParamKid(_, _, _) => COLON
    case WildKid(_, _) => STAR
  }

  // ---------------------------------------------------------------- the trie of a node

  function StaticsFrom(kids: seq<Kid>, j: nat): map<Byte, Trie>
    requires j <= |kids|
    decreases |kids| - j
  {
    if j == |kids| then map[]
    else if kids[j].StaticKid? && kids[j].path != [] then
      StaticsFrom(kids, j + 1)[kids[j].path[0] := Chain(kids[j].path[1..], kids[j].below)]
    else StaticsFrom(kids, j + 1)
  }

  function ParamsFrom(kids: seq<Kid>, j: nat): seq<ParamEdge>
    requires j <= |kids|
    decreases |kids| - j
  {
    if j == |kids| then []
    else if kids[j].ParamKid? then [ParamEdge(kids[j].name, kids[j].rx, kids[j].below)] + ParamsFrom(kids, j + 1)
    else ParamsFrom(kids, j + 1)
  }

  function WildFrom(kids: seq<Kid>, j: nat): Option<WildEdge>
    requires j <= |kids|
    decreases |kids| - j
  {
    if j == |kids| then None
    else if kids[j].WildKid? && kids[j].handler.Some? then Some(WildEdge(kids[j].name, kids[j].handler.value))
    else WildFrom(kids, j + 1)
  }

  function Assemble(handler: Option<Handler>, kids: seq<Kid>): Trie {
    Trie(handler, StaticsFrom(kids, 0), ParamsFrom(kids, 0), WildFrom(kids, 0))
  }

  // ---------------------------------------------------------------- search

  /** A static edge is found through its first byte. */
  lemma {:induction false} StaticAt(kids: seq<Kid>, j: nat, i: nat)
    requires j <= i < |kids| && kids[i].StaticKid? && kids[i].path != []
    requires forall a, b :: 0 <= a < b < |kids| ==> Apart(kids[a], kids[b])
    ensures kids[i].path[0] in StaticsFrom(kids, j)
    ensures StaticsFrom(kids, j)[kids[i].path[0]] == Chain(kids[i].path[1..], kids[i].below)
    decreases |kids| - j
  {
    if j < i {
      StaticAt(kids, j + 1, i);
      assert Apart(kids[j], kids[i]);
    }
  }

  lemma {:induction false} NoStaticAt(kids: seq<Kid>, j: nat, c: Byte)
    requires j <= |kids|
    requires forall i :: j <= i < |kids| && kids[i].StaticKid? && kids[i].path != [] ==> kids[i].path[0] != c
    ensures c !in StaticsFrom(kids, j)
    decreases |kids| - j
  {
    if j < |kids| {
      NoStaticAt(kids, j + 1, c);
    }
  }

  /** The search passes through a piece of text as a whole. */
  lemma {:induction false} ChainArrive(s: Bytes, t: Trie, path: Bytes, caps: seq<Capture>)
    ensures Arrive(Chain(s, t), path, caps) == if s <= path then Arrive(t, path[|s|..], caps) else Found(None, caps)
  {
    var c := Chain(s, t);
    if s == [] {
      assert path[|s|..] == path;
    } else if path != [] {
      var below := FindStatic(c, path, caps);
      assert FindParams(c.params, path, below.caps) == Found(None, below.caps);
      assert Arrive(c, path, caps) == below;
      if path[0] == s[0] {
        ChainArrive(s[1..], t, path[1..], caps);
        assert s == [s[0]] + s[1..] && path == [path[0]] + path[1..];
        assert s[1..] <= path[1..] <==> s <= path;
        if s <= path {
          assert path[1..][|s| - 1..] == path[|s|..];
        }
      }
    }
  }

  // ---------------------------------------------------------------- insertion

  /** Inserting below a piece of text. */
  lemma {:induction false} InsertChain(s: Bytes, t: Trie, items: seq<Item>, h: Handler)
    ensures var r := Insert(t, items, h);
      Insert(Chain(s, t), Chars(s) + items, h) == if r.None? then None else Some(Chain(s, r.value))
  {
    if s == [] {
      assert Chars(s) + items == items;
    } else {
      InsertChain(s[1..], t, items, h);
      assert (Chars(s) + items)[1..] == Chars(s[1..]) + items;
      var edge := Chain(s, t).statics;
      var r := Insert(t, items, h);
      if r.Some? {
        assert edge[s[0] := Chain(s[1..], r.value)] == map[s[0] := Chain(s[1..], r.value)];
      }
    }
  }

  lemma {:induction false} InsertNewChain(s: Bytes, items: seq<Item>, h: Handler)
    ensures var r := Insert(EMPTY, items, h);
      Insert(EMPTY, Chars(s) + items, h) == if r.None? then None else Some(Chain(s, r.value))
  {
    if s == [] {
      assert Chars(s) + items == items;
    } else {
      InsertNewChain(s[1..], items, h);
      assert (Chars(s) + items)[1..] == Chars(s[1..]) + items;
    }
  }

  lemma {:induction false} StaticUpdated(kids: seq<Kid>, j: nat, i: nat, kid: Kid)
    requires j <= i < |kids| && kids[i].StaticKid? && kid.StaticKid? && kids[i].path != [] && kid.path != []
    requires kid.path[0] == kids[i].path[0]
    requires forall a, b :: 0 <= a < b < |kids| ==> Apart(kids[a], kids[b])
    ensures StaticsFrom(kids[i := kid], j) == StaticsFrom(kids, j)[kid.path[0] := Chain(kid.path[1..], kid.below)]
    ensures ParamsFrom(kids[i := kid], j) == ParamsFrom(kids, j)
    ensures WildFrom(kids[i := kid], j) == WildFrom(kids, j)
    decreases i - j
  {
    if j < i {
      StaticUpdated(kids, j + 1, i, kid);
      assert Apart(kids[j], kids[i]);
    } else {
      SameFrom(kids, kids[i := kid], i + 1, i + 1);
    }
  }

  lemma {:induction false} SameFrom(kids: seq<Kid>, more: seq<Kid>, j: nat, k: nat)
    requires j <= |kids| && k <= |more| && kids[j..] == more[k..]
    ensures StaticsFrom(kids, j) == StaticsFrom(more, k)
    ensures ParamsFrom(kids, j) == ParamsFrom(more, k)
    ensures WildFrom(kids, j) == WildFrom(more, k)
    decreases |kids| - j
  {
    assert |kids| - j == |kids[j..]| == |more[k..]| == |more| - k;
    if j < |kids| {
      assert kids[j] == kids[j..][0] == more[k..][0] == more[k];
      assert kids[j + 1..] == kids[j..][1..] == more[k..][1..] == more[k + 1..];
      SameFrom(kids, more, j + 1, k + 1);
    }
  }

  lemma {:induction false} StaticAppended(kids: seq<Kid>, j: nat, kid: Kid)
    requires j <= |kids| && kid.StaticKid? && kid.path != []
    requires forall i :: 0 <= i < |kids| ==> Apart(kids[i], kid)
    ensures StaticsFrom(kids + [kid], j) == StaticsFrom(kids, j)[kid.path[0] := Chain(kid.path[1..], kid.below)]
    ensures ParamsFrom(kids + [kid], j) == ParamsFrom(kids, j)
    ensures WildFrom(kids + [kid], j) == WildFrom(kids, j)
    decreases |kids| - j
  {
    if j < |kids| {
      StaticAppended(kids, j + 1, kid);
      assert Apart(kids[j], kid);
    }
  }

  lemma {:induction false} ParamUpdated(kids: seq<Kid>, j: nat, i: nat, below: Trie)
    requires j <= i < |kids| && kids[i].ParamKid?
    requires forall a, b :: 0 <= a < b < |kids| ==> Apart(kids[a], kids[b])
    ensures var kid := ParamKid(kids[i].name, kids[i].rx, below);
      && StaticsFrom(kids[i := kid], j) == StaticsFrom(kids, j)
      && WildFrom(kids[i := kid], j) == WildFrom(kids, j)
      && (forall rx :: ParamsFrom(kids[i := kid], j) == PutParam(ParamsFrom(kids, j), kids[i].name, rx, below))
      && ParamSub(ParamsFrom(kids, j), kids[i].name) == kids[i].below
    decreases i - j
  {
    var kid := ParamKid(kids[i].name, kids[i].rx, below);
    var ps := ParamsFrom(kids, j);
    if j < i {
      ParamUpdated(kids, j + 1, i, below);
      assert Apart(kids[j], kids[i]);
      if kids[j].ParamKid? {
        assert ps[1..] == ParamsFrom(kids, j + 1);
      }
    } else {
      SameFrom(kids, kids[i := kid], i + 1, i + 1);
      assert ps[1..] == ParamsFrom(kids, i + 1);
    }
  }

  lemma {:induction false} ParamAppended(kids: seq<Kid>, j: nat, kid: Kid)
    requires j <= |kids| && kid.ParamKid?
    requires forall i :: 0 <= i < |kids| ==> Apart(kids[i], kid)
    ensures StaticsFrom(kids + [kid], j) == StaticsFrom(kids, j)
    ensures ParamsFrom(kids + [kid], j) == PutParam(ParamsFrom(kids, j), kid.name, kid.rx, kid.below)
    ensures ParamSub(ParamsFrom(kids, j), kid.name) == EMPTY
    ensures WildFrom(kids + [kid], j) == WildFrom(kids, j)
    decreases |kids| - j
  {
    if j < |kids| {
      ParamAppended(kids, j + 1, kid);
      assert Apart(kids[j], kid);
      if kids[j].ParamKid? {
        assert ParamsFrom(kids, j)[1..] == ParamsFrom(kids, j + 1);
      }
    }
  }

  lemma {:induction false} WildAppended(kids: seq<Kid>, j: nat, kid: Kid)
    requires j <= |kids| && kid.WildKid? && kid.handler.Some?
    requires forall i :: 0 <= i < |kids| ==> Apart(kids[i], kid)
    ensures StaticsFrom(kids + [kid], j) == StaticsFrom(kids, j)
    ensures ParamsFrom(kids + [kid], j) == ParamsFrom(kids, j)
    ensures WildFrom(kids, j) == None
    ensures WildFrom(kids + [kid], j) == Some(WildEdge(kid.name, kid.handler.value))
    decreases |kids| - j
  {
    if j < |kids| {
      WildAppended(kids, j + 1, kid);
      assert Apart(kids[j], kid);
    }
  }

  /** A static child with the first byte of the text takes the insertion. */
  lemma InsertAtStatic(handler: Option<Handler>, kids: seq<Kid>, i: nat, kid: Kid, text: Bytes, rest: seq<Item>,
      h: Handler)
    requires i < |kids| && kids[i].StaticKid? && kids[i].path != [] && text != [] && text[0] == kids[i].path[0]
    requires forall a, b :: 0 <= a < b < |kids| ==> Apart(kids[a], kids[b])
    ensures Insert(Chain(kids[i].path, kids[i].below), Chars(text) + rest, h) == None
      ==> Insert(Assemble(handler, kids), Chars(text) + rest, h) == None
    ensures kid.StaticKid? && kid.path != [] && kid.path[0] == text[0]
      && Insert(Chain(kids[i].path, kids[i].below), Chars(text) + rest, h) == Some(Chain(kid.path, kid.below))
      ==> Insert(Assemble(handler, kids), Chars(text) + rest, h) == Some(Assemble(handler, kids[i := kid]))
  {
    StaticAt(kids, 0, i);
    var items := Chars(text) + rest;
    var edge := Chain(kids[i].path, kids[i].below);
    var sub := Insert(Chain(kids[i].path[1..], kids[i].below), items[1..], h);
    assert items[0] == Ch(text[0]);
    assert Sub(edge, text[0]) == Chain(kids[i].path[1..], kids[i].below);
    if kid.StaticKid? && kid.path != [] && kid.path[0] == text[0] && sub.Some?
      && Insert(edge, items, h) == Some(Chain(kid.path, kid.below)) {
      assert Chain(kid.path, kid.below).statics[text[0]] == Chain(kid.path[1..], kid.below);
      assert sub.value == Chain(kid.path[1..], kid.below);
      StaticUpdated(kids, 0, i, kid);
    }
  }

  /** No static child has the first byte of the text: a new one is added. */
  lemma InsertNewStatic(handler: Option<Handler>, kids: seq<Kid>, text: Bytes, rest: seq<Item>, h: Handler)
    requires text != []
    requires forall i :: 0 <= i < |kids| && kids[i].StaticKid? ==> kids[i].path != [] && kids[i].path[0] != text[0]
    ensures var below := Insert(EMPTY, rest, h);
      Insert(Assemble(handler, kids), Chars(text) + rest, h)
      == if below.None? then None else Some(Assemble(handler, kids + [StaticKid(text, below.value)]))
  {
    var items := Chars(text) + rest;
    NoStaticAt(kids, 0, text[0]);
    InsertNewChain(text[1..], rest, h);
    assert items[0] == Ch(text[0]) && items[1..] == Chars(text[1..]) + rest;
    var below := Insert(EMPTY, rest, h);
    if below.Some? {
      StaticAppended(kids, 0, StaticKid(text, below.value));
    }
  }

  /** A parameter child of the right name takes the insertion. */
  lemma InsertAtParam(boundary: bool, handler: Option<Handler>, kids: seq<Kid>, i: nat, rx: Regex, rest: seq<Item>,
      h: Handler)
    requires KidsOk(boundary, kids) && i < |kids| && kids[i].ParamKid?
    ensures var below := Insert(kids[i].below, rest, h);
      var into := Insert(Assemble(handler, kids), [Par(kids[i].name, rx)] + rest, h);
      if below.None? then into == None
      else
        var more := kids[i := ParamKid(kids[i].name, kids[i].rx, below.value)];
        KidsOk(boundary, more) && into == Some(Assemble(handler, more))
  {
    hide StaticsFrom, ParamsFrom, WildFrom, ParamSub, PutParam;
    var below := Insert(kids[i].below, rest, h);
    assert ([Par(kids[i].name, rx)] + rest)[1..] == rest;
    ParamUpdated(kids, 0, i, if below.Some? then below.value else EMPTY);
    if below.Some? {
      KidsUpdated(boundary, kids, i, ParamKid(kids[i].name, kids[i].rx, below.value));
    }
  }

  /** No parameter child has the name: a new one is added. */
  lemma InsertNewParam(handler: Option<Handler>, kids: seq<Kid>, name: Bytes, rx: Regex, rest: seq<Item>, h: Handler)
    requires forall i :: 0 <= i < |kids| ==> !(kids[i].ParamKid? && kids[i].name == name)
    ensures var below := Insert(EMPTY, rest, h);
      Insert(Assemble(handler, kids), [Par(name, rx)] + rest, h)
      == if below.None? then None else Some(Assemble(handler, kids + [ParamKid(name, rx, below.value)]))
  {
    hide StaticsFrom, ParamsFrom, WildFrom, ParamSub, PutParam;
    var below := Insert(EMPTY, rest, h);
    assert ([Par(name, rx)] + rest)[1..] == rest;
    ParamAppended(kids, 0, ParamKid(name, rx, if below.Some? then below.value else EMPTY));
  }

  lemma InsertWild(handler: Option<Handler>, kids: seq<Kid>, name: Bytes, h: Handler)
    requires forall i :: 0 <= i < |kids| ==> !kids[i].WildKid?
    ensures Insert(Assemble(handler, kids), [Item.Wild(name)], h)
      == Some(Assemble(handler, kids + [WildKid(name, Some(h))]))
  {
    hide StaticsFrom, ParamsFrom, WildFrom;
    WildAppended(kids, 0, WildKid(name, Some(h)));
  }

  lemma {:induction false} WildFound(kids: seq<Kid>, j: nat, i: nat)
    requires j <= i < |kids| && kids[i].WildKid? && kids[i].handler.Some?
    ensures WildFrom(kids, j).Some?
    decreases |kids| - j
  {
    if j < i {
      WildFound(kids, j + 1, i);
    }
  }
}
