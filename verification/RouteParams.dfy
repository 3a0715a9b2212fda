/** The captures of one request: a fixed array and a count (ctx_lifecycle.go). */
module RouteParams {
  import opened Bytes
  import opened RouterTrie

  class Params {
    const items: array<Capture>
    var count: nat

    constructor ()
      ensures Valid() && fresh(items) && Captures() == []
    {
      items := new Capture[MAX_PARAMS](_ => Capture([], []));
      count := 0;
    }

    ghost predicate Valid()
      reads this`count
    {
      items.Length == MAX_PARAMS && count <= MAX_PARAMS
    }

    ghost function Captures(): (s: seq<Capture>)
      reads this`count, items
      requires Valid()
    {
      items[..count]
    }

    method Set(key: Bytes, value: Bytes)
      requires Valid()
      modifies this, items
      ensures Valid() && Captures() == SetCapture(old(Captures()), key, value)
    {
      var i := 0;
      while i < count
        invariant 0 <= i <= count && KeyFrom(Captures(), key, 0) == KeyFrom(Captures(), key, i)
      {
        if items[i].key == key {
          items[i] := Capture(key, value);
          return;
        }
        i := i + 1;
      }
      if count < MAX_PARAMS {
        items[count] := Capture(key, value);
        count := count + 1;
      }
    }

    method Get(key: Bytes) returns (value: Bytes)
      requires Valid()
      ensures var i := KeyFrom(Captures(), key, 0); value == if i < count then Captures()[i].value else []
    {
      var i := 0;
      while i < count
        invariant 0 <= i <= count && KeyFrom(Captures(), key, 0) == KeyFrom(Captures(), key, i)
      {
        if items[i].key == key {
          return items[i].value;
        }
        i := i + 1;
      }
      return [];
    }

    /** Moves the last capture into the place of the one removed. */
    method Del(key: Bytes)
      requires Valid()
      modifies this, items
      ensures Valid() && Captures() == DelCapture(old(Captures()), key)
      ensures count < old(count) ==> items[count] == Capture([], [])
    {
      var i := 0;
      while i < count
        invariant 0 <= i <= count && KeyFrom(Captures(), key, 0) == KeyFrom(Captures(), key, i)
      {
        if items[i].key == key {
          count := count - 1;
          items[i] := items[count];
          items[count] := Capture([], []);
          return;
        }
        i := i + 1;
      }
    }

    method Reset()
      requires Valid()
      modifies this
      ensures Valid() && Captures() == []
    {
      count := 0;
    }
  }
}
