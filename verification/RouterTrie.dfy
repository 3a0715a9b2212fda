/** The meaning of a routing tree, free of how it is split into nodes: a trie with one byte on each static edge.
    RouterTree shows that the nodes keep this meaning; RouterRoutes, that the trie gives what the list of
    registered routes gives. */
module RouterTrie {
  import opened Bytes
  import opened Options

  datatype Handler = Handler(id: nat)

  const SLASH: Byte := 47
  const COLON: Byte := 58
  const STAR: Byte := 42

  /** A compiled constraint; None accepts every value. */
  type Regex = Option<Bytes -> bool>

  predicate Accepts(rx: Regex, value: Bytes) {
    rx.None? || rx.value(value)
  }

  /** What one step of a route looks like in the trie. */
  datatype Item = Ch(c: Byte) | Par(name: Bytes, rx: Regex) | Wild(name: Bytes)

  datatype ParamEdge = ParamEdge(name: Bytes, rx: Regex, sub: Trie)

  datatype WildEdge = WildEdge(name: Bytes, handler: Handler)

  datatype Trie = Trie(handler: Option<Handler>, statics: map<Byte, Trie>, params: seq<ParamEdge>,
      wild: Option<WildEdge>)

  const EMPTY := Trie(None, map[], [], None)

  // ---------------------------------------------------------------- captures (routeParams)

  datatype Capture = Capture(key: Bytes, value: Bytes)

  const MAX_PARAMS := 8

  function KeyFrom(caps: seq<Capture>, key: Bytes, i: nat): (r: nat)
    requires i <= |caps|
    ensures i <= r <= |caps|
    ensures r < |caps| ==> caps[r].key == key
    decreases |caps| - i
  {
    if i == |caps| || caps[i].key == key then i else KeyFrom(caps, key, i + 1)
  }

  lemma {:induction false} KeyFromIsFirst(caps: seq<Capture>, key: Bytes, i: nat)
    requires i <= |caps|
    ensures forall k :: i <= k < KeyFrom(caps, key, i) ==> caps[k].key != key
    decreases |caps| - i
  {
    if i < |caps| && caps[i].key != key {
      KeyFromIsFirst(caps, key, i + 1);
    }
  }

  /** Overwrites the value of a known key; otherwise adds it if there is room. */
  function SetCapture(caps: seq<Capture>, key: Bytes, value: Bytes): seq<Capture> {
    var i := KeyFrom(caps, key, 0);
    if i < |caps| then caps[i := Capture(key, value)]
    else if |caps| < MAX_PARAMS then caps + [Capture(key, value)]
    else caps
  }

  /** Removes a key by moving the last capture into its place. */
  function DelCapture(caps: seq<Capture>, key: Bytes): seq<Capture> {
    var i := KeyFrom(caps, key, 0);
    if i == |caps| then caps
    else caps[i := caps[|caps| - 1]][..|caps| - 1]
  }

  ghost predicate HasKey(caps: seq<Capture>, key: Bytes) {
    exists i :: 0 <= i < |caps| && caps[i].key == key
  }

  /** Undo: setting a new key and removing it again changes nothing. */
  lemma SetThenDel(caps: seq<Capture>, key: Bytes, value: Bytes)
    requires !HasKey(caps, key) && |caps| < MAX_PARAMS
    ensures SetCapture(caps, key, value) == caps + [Capture(key, value)]
    ensures DelCapture(caps + [Capture(key, value)], key) == caps
  {
    var more := caps + [Capture(key, value)];
    KeyFromIsFirst(more, key, 0);
    assert more[|caps|].key == key;
    assert forall k :: 0 <= k < |caps| ==> more[k] == caps[k];
    assert KeyFrom(more, key, 0) >= |caps|;
  }

  // ---------------------------------------------------------------- insertion

  function Sub(t: Trie, c: Byte): Trie {
    if c in t.statics then t.statics[c] else EMPTY
  }

  function ParamSub(params: seq<ParamEdge>, name: Bytes): Trie {
    if params == [] then EMPTY
    else if params[0].name == name then params[0].sub
    else ParamSub(params[1..], name)
  }

  /** An edge keeps the constraint it was created with. */
  function PutParam(params: seq<ParamEdge>, name: Bytes, rx: Regex, sub: Trie): seq<ParamEdge> {
    if params == [] then [ParamEdge(name, rx, sub)]
    else if params[0].name == name then [params[0].(sub := sub)] + params[1..]
    else [params[0]] + PutParam(params[1..], name, rx, sub)
  }

  /** Adds a route; None if the tree already has it, or if something follows a wildcard. */
  function Insert(t: Trie, items: seq<Item>, h: Handler): Option<Trie>
    decreases |items|
  {
    if items == [] then
      if t.handler.Some? then None else Some(t.(handler := Some(h)))
    else
      match items[0]
      case Ch(c) =>
        var sub := Insert(Sub(t, c), items[1..], h);
        if sub.None? then None else Some(t.(statics := t.statics[c := sub.value]))
      case Par(name, rx) =>
        var sub := Insert(ParamSub(t.params, name), items[1..], h);
        if sub.None? then None else Some(t.(params := PutParam(t.params, name, rx, sub.value)))
      case Wild(name) =>
        if |items| > 1 || t.wild.Some? then None else Some(t.(wild := Some(WildEdge(name, h))))
  }

  // ---------------------------------------------------------------- what a trie holds

  /** Is there a handler at the end of these items? Constraints and names of wildcards do not matter. */
  predicate Has(t: Trie, items: seq<Item>)
    decreases |items|
  {
    if items == [] then t.handler.Some?
    else
      match items[0]
      case Ch(c) => Has(Sub(t, c), items[1..])
      case Par(name, _) => Has(ParamSub(t.params, name), items[1..])
      case Wild(_) => |items| == 1 && t.wild.Some?
  }

  predicate SameItem(a: Item, b: Item) {
    match a
    case Ch(c) => b.Ch? && b.c == c
    case Par(name, _) => b.Par? && b.name == name
    case Wild(_) => b.Wild?
  }

  predicate SameItems(a: seq<Item>, b: seq<Item>) {
    |a| == |b| && forall i :: 0 <= i < |a| ==> SameItem(a[i], b[i])
  }

  predicate WildLast(items: seq<Item>) {
    forall i :: 0 <= i < |items| - 1 ==> !items[i].Wild?
  }

  lemma {:induction false} EmptyHas(items: seq<Item>)
    ensures !Has(EMPTY, items)
    decreases |items|
  {
    if items != [] {
      EmptyHas(items[1..]);
    }
  }

  /** An insertion succeeds exactly if nothing follows a wildcard and there is no handler yet. */
  lemma {:induction false} InsertSucceeds(t: Trie, items: seq<Item>, h: Handler)
    ensures Insert(t, items, h).Some? <==> WildLast(items) && !Has(t, items)
    decreases |items|
  {
    if items != [] {
      WildLastRest(items);
      match items[0]
      case Ch(c) => InsertSucceeds(Sub(t, c), items[1..], h);
      case Par(name, _) => InsertSucceeds(ParamSub(t.params, name), items[1..], h);
      case Wild(_) =>
    }
  }

  lemma WildLastRest(items: seq<Item>)
    requires items != []
    ensures WildLast(items) <==> (|items| > 1 ==> !items[0].Wild?) && WildLast(items[1..])
  {
    var rest := items[1..];
    assert forall i :: 0 <= i < |rest| ==> rest[i] == items[i + 1];
    if WildLast(rest) && (|items| > 1 ==> !items[0].Wild?) {
      forall i | 0 <= i < |items| - 1 ensures !items[i].Wild? {
        if i > 0 {
          assert rest[i - 1] == items[i];
        }
      }
    }
  }

  lemma {:induction false} PutThenGet(params: seq<ParamEdge>, name: Bytes, rx: Regex, sub: Trie, other: Bytes)
    ensures ParamSub(PutParam(params, name, rx, sub), other) == if other == name then sub else ParamSub(params, other)
  {
    if params == [] {
      assert [ParamEdge(name, rx, sub)][1..] == [];
    } else if params[0].name != name {
      PutThenGet(params[1..], name, rx, sub, other);
    }
  }

  /** It adds these items, and changes nothing else. */
  lemma {:induction false} InsertAdds(t: Trie, items: seq<Item>, h: Handler, other: seq<Item>)
    requires Insert(t, items, h).Some?
    ensures Has(Insert(t, items, h).value, other) <==> Has(t, other) || SameItems(items, other)
    decreases |items|
  {
    if items != [] && other != [] {
      SameRest(items, other);
      match items[0]
      case Ch(c) =>
        if SameItem(items[0], other[0]) {
          InsertAdds(Sub(t, c), items[1..], h, other[1..]);
        }
      case Par(name, rx) =>
        if other[0].Par? {
          var sub := Insert(ParamSub(t.params, name), items[1..], h).value;
          PutThenGet(t.params, name, rx, sub, other[0].name);
          if other[0].name == name {
            InsertAdds(ParamSub(t.params, name), items[1..], h, other[1..]);
          }
        }
      case Wild(_) =>
    }
  }

  lemma SameRest(a: seq<Item>, b: seq<Item>)
    requires a != [] && b != []
    ensures SameItems(a, b) <==> SameItem(a[0], b[0]) && SameItems(a[1..], b[1..])
  {
    hide SameItem;
    if SameItem(a[0], b[0]) && SameItems(a[1..], b[1..]) {
      forall i | 0 <= i < |a| ensures SameItem(a[i], b[i]) {
        if i > 0 {
          assert SameItem(a[1..][i - 1], b[1..][i - 1]);
        }
      }
    }
  }

  // ---------------------------------------------------------------- search

  datatype Found = Found(handler: Option<Handler>, caps: seq<Capture>)

  /** The search below a node: the static edge first, then each parameter, then the wildcard. The captures of a
      branch that fails are taken back one by one. */
  function Find(t: Trie, path: Bytes, caps: seq<Capture>): Found
    decreases |path|, 1, 0
  {
    var byText := FindStatic(t, path, caps);
    if byText.handler.Some? then byText
    else
      var byParam := FindParams(t.params, path, byText.caps);
      if byParam.handler.Some? || t.wild.None? then byParam
      else Found(Some(t.wild.value.handler), SetCapture(byParam.caps, t.wild.value.name, path))
  }

  function FindStatic(t: Trie, path: Bytes, caps: seq<Capture>): Found
    decreases |path|, 0, 0
  {
    if path == [] || path[0] !in t.statics then Found(None, caps)
    else Arrive(t.statics[path[0]], path[1..], caps)
  }

  /** At the end of a static edge or a parameter: the path ends here, or the search goes on. */
  function Arrive(t: Trie, path: Bytes, caps: seq<Capture>): Found
    decreases |path|, 2, 0
  {
    if path == [] then Found(t.handler, caps) else Find(t, path, caps)
  }

  /** Where the first path segment ends. */
  function ValueEnd(path: Bytes): (end: nat)
    ensures end <= |path|
  {
    var i := IndexByte(path, SLASH);
    if i < 0 then |path| else i
  }

  function FindParams(params: seq<ParamEdge>, path: Bytes, caps: seq<Capture>): Found
    decreases |path|, 0, |params|
  {
    if params == [] then Found(None, caps)
    else
      var tried := FindParam(params[0], path, caps);
      if tried.handler.Some? then tried else FindParams(params[1..], path, tried.caps)
  }

  /** One parameter: it takes a whole segment, which must not be empty and must meet the constraint. */
  function FindParam(edge: ParamEdge, path: Bytes, caps: seq<Capture>): Found
    decreases |path|, 0, 0
  {
    var end := ValueEnd(path);
    var value := path[..end];
    if value == [] || !Accepts(edge.rx, value) then Found(None, caps)
    else
      var with := SetCapture(caps, edge.name, value);
      var deeper := if end == |path| then Found(edge.sub.handler, with) else Find(edge.sub, path[end + 1..], with);
      if deeper.handler.Some? then deeper else Found(None, DelCapture(deeper.caps, edge.name))
  }
}
