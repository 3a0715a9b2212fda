/** Query parameters: one at a time (QueryParam), and all at once as the generated binders scan them. */
module BinderQuery {
  import opened Bytes

  const AMP: Byte := 38
  const EQUALS: Byte := 61

  datatype Pair = Pair(text: Bytes, rest: Bytes)

  /** The text before the first ampersand, and what follows it. */
  function FirstPair(q: Bytes): (p: Pair)
    requires q != []
    ensures |p.rest| < |q|
  {
    var i := IndexByte(q, AMP);
    if i < 0 then Pair(q, []) else Pair(q[..i], q[i + 1..])
  }

  predicate Names(pair: Bytes, name: Bytes) {
    var eq := IndexByte(pair, EQUALS);
    eq >= 0 && pair[..eq] == name
  }

  function ValueOf(pair: Bytes): Bytes {
    var eq := IndexByte(pair, EQUALS);
    if eq < 0 then [] else pair[eq + 1..]
  }

  /** The value of the first pair with this name; empty if there is none. Nothing is unescaped. */
  function QueryValue(q: Bytes, name: Bytes): Bytes
    decreases |q|
  {
    if q == [] then []
    else
      var p := FirstPair(q);
      if Names(p.text, name) then ValueOf(p.text) else QueryValue(p.rest, name)
  }

  method NextPair(q: Bytes) returns (pair: Bytes, rest: Bytes)
    requires q != []
    ensures Pair(pair, rest) == FirstPair(q) && |rest| < |q|
  {
    var i := IndexByte(q, AMP);
    if i >= 0 {
      pair, rest := q[..i], q[i + 1..];
    } else {
      pair, rest := q, [];
    }
  }

  /** QueryParam. */
  method QueryParam(query: Bytes, name: Bytes) returns (value: Bytes)
    ensures value == QueryValue(query, name)
  {
    hide IndexByte, FirstPair;
    var q := query;
    while q != []
      invariant QueryValue(query, name) == QueryValue(q, name)
      decreases |q|
    {
      var kv, rest := NextPair(q);
      var eq := IndexByte(kv, EQUALS);
      if eq >= 0 && kv[..eq] == name {
        return kv[eq + 1..];
      }
      q := rest;
    }
    return [];
  }

  // ---------------------------------------------------------------- what a query says

  /** The text `name=value`, where the first equals sign ends the name. */
  predicate PairIs(pair: Bytes, name: Bytes, value: Bytes) {
    EQUALS !in name && pair == name + Ascii("=") + value
  }

  ghost predicate HasName(pair: Bytes, name: Bytes) {
    exists value :: PairIs(pair, name, value)
  }

  lemma Separators()
    ensures Ascii("=") == [EQUALS] && Ascii("&") == [AMP]
  {
  }

  lemma PairExactly(pair: Bytes, name: Bytes)
    ensures Names(pair, name) <==> HasName(pair, name)
    ensures forall value :: PairIs(pair, name, value) ==> value == ValueOf(pair)
    ensures Names(pair, name) ==> PairIs(pair, name, ValueOf(pair))
  {
    hide IndexByte, Ascii;
    Separators();
    IndexByteIsFirst(pair, EQUALS);
    var eq := IndexByte(pair, EQUALS);
    if Names(pair, name) {
      assert pair == pair[..eq] + [EQUALS] + pair[eq + 1..];
      assert PairIs(pair, name, ValueOf(pair));
    }
    forall value | PairIs(pair, name, value) ensures Names(pair, name) && value == ValueOf(pair) {
      assert forall k :: 0 <= k < |name| ==> pair[k] == name[k];
      IndexByteUnique(pair, EQUALS, |name|);
      assert pair[..|name|] == name && pair[|name| + 1..] == value;
    }
  }

  /** The first of the pairs between ampersands that has the name. */
  ghost predicate FirstNamed(q: Bytes, name: Bytes, lo: nat, hi: nat) {
    && Element(q, AMP, lo, hi) && HasName(q[lo..hi], name)
    && forall i: nat, j: nat :: Element(q, AMP, i, j) && HasName(q[i..j], name) ==> lo <= i
  }

  ghost predicate NoneNamed(q: Bytes, name: Bytes) {
    forall i: nat, j: nat :: Element(q, AMP, i, j) ==> !HasName(q[i..j], name)
  }

  ghost predicate ValueIsFirst(q: Bytes, name: Bytes, value: Bytes) {
    exists lo: nat, hi: nat :: FirstNamed(q, name, lo, hi) && PairIs(q[lo..hi], name, value)
  }

  /** The pairs behind the first. */
  lemma RestNamed(q: Bytes, name: Bytes, n: nat, rest: Bytes)
    requires Element(q, AMP, 0, n) && n < |q| && rest == q[n + 1..] && !HasName(q[0..n], name)
    requires n == IndexByte(q, AMP)
    ensures NoneNamed(rest, name) <==> NoneNamed(q, name)
    ensures forall value :: ValueIsFirst(rest, name, value) ==> ValueIsFirst(q, name, value)
  {
    hide IndexByte, HasName;
    forall i: nat, j: nat | Element(q, AMP, i, j)
      ensures if i == 0 then j == n
        else n < i && Element(rest, AMP, i - n - 1, j - n - 1) && q[i..j] == rest[i - n - 1..j - n - 1]
    {
      LaterElement(q, AMP, i, j);
    }
    forall i: nat, j: nat | Element(rest, AMP, i, j)
      ensures Element(q, AMP, n + 1 + i, n + 1 + j) && q[n + 1 + i..n + 1 + j] == rest[i..j]
    {
      LaterElement(q, AMP, n + 1 + i, n + 1 + j);
    }
    forall lo: nat, hi: nat | FirstNamed(rest, name, lo, hi)
      ensures FirstNamed(q, name, n + 1 + lo, n + 1 + hi) && q[n + 1 + lo..n + 1 + hi] == rest[lo..hi]
    {
      LaterElement(q, AMP, n + 1 + lo, n + 1 + hi);
    }
    hide FirstNamed;
  }

  lemma FirstIsNamed(q: Bytes, name: Bytes, n: nat)
    requires Element(q, AMP, 0, n) && HasName(q[0..n], name)
    ensures FirstNamed(q, name, 0, n) && !NoneNamed(q, name)
  {
  }

  lemma SinglePair(q: Bytes, name: Bytes)
    requires IndexByte(q, AMP) < 0 && !HasName(q, name)
    ensures NoneNamed(q, name)
  {
    hide IndexByte, HasName;
    forall i: nat, j: nat | Element(q, AMP, i, j) ensures !HasName(q[i..j], name) {
      LaterElement(q, AMP, i, j);
      assert q[0..|q|] == q;
    }
  }

  /** A parameter has the value of the first pair with its name, and is empty if there is none. */
  lemma {:induction false} QueryExactly(q: Bytes, name: Bytes)
    ensures if NoneNamed(q, name) then QueryValue(q, name) == [] else ValueIsFirst(q, name, QueryValue(q, name))
    decreases |q|
  {
    hide IndexByte, Names, ValueOf, PairIs, NoneNamed, HasName, Element;
    NothingNamed(name);
    if q != [] {
      var n, rest := FirstElement(q, AMP);
      PairExactly(q[0..n], name);
      assert q[0..n] == q[..n] && q[..|q|] == q;
      if HasName(q[0..n], name) {
        FirstIsNamed(q, name, n);
      } else if n == |q| {
        SinglePair(q, name);
      } else {
        QueryExactly(rest, name);
        RestNamed(q, name, n, rest);
        assert QueryValue(q, name) == QueryValue(rest, name);
      }
    }
  }

  lemma NothingNamed(name: Bytes)
    ensures !HasName([], name) && NoneNamed([], name) && QueryValue([], name) == []
  {
  }

  // ---------------------------------------------------------------- the single pass

  ghost predicate Distinct(tags: seq<Bytes>) {
    forall i, j :: 0 <= i < j < |tags| ==> tags[i] != tags[j]
  }

  function CountUnseen(seen: seq<bool>): nat {
    if seen == [] then 0 else CountUnseen(seen[..|seen| - 1]) + (if seen[|seen| - 1] then 0 else 1)
  }

  lemma {:induction false} SeeOne(seen: seq<bool>, i: nat)
    requires i < |seen| && !seen[i]
    ensures CountUnseen(seen) > 0 && CountUnseen(seen[i := true]) == CountUnseen(seen) - 1
  {
    var n := |seen| - 1;
    if i == n {
      assert seen[i := true][..n] == seen[..n];
    } else {
      SeeOne(seen[..n], i);
      assert seen[i := true][..n] == seen[..n][i := true];
    }
  }

  lemma {:induction false} NoneUnseen(seen: seq<bool>)
    requires CountUnseen(seen) == 0
    ensures forall i :: 0 <= i < |seen| ==> seen[i]
  {
    if seen != [] {
      NoneUnseen(seen[..|seen| - 1]);
      assert forall i :: 0 <= i < |seen| - 1 ==> seen[i] == seen[..|seen| - 1][i];
    }
  }

  lemma {:induction false} AllUnseen(n: nat)
    ensures CountUnseen(seq(n, _ => false)) == n
  {
    if n > 0 {
      AllUnseen(n - 1);
      assert seq(n, _ => false)[..n - 1] == seq(n - 1, _ => false);
    }
  }

  /** What has been collected agrees with the rest of the query still to be scanned. */
  ghost predicate Collected(rawQuery: Bytes, query: Bytes, tags: seq<Bytes>, values: seq<Bytes>, seen: seq<bool>) {
    && |values| == |seen| == |tags|
    && forall i :: 0 <= i < |tags| ==>
         if seen[i] then values[i] == QueryValue(rawQuery, tags[i])
         else values[i] == [] && QueryValue(rawQuery, tags[i]) == QueryValue(query, tags[i])
  }

  /** The switch over the tags: at most one of them has the name. */
  method FindTag(name: Bytes, tags: seq<Bytes>) returns (i: nat)
    ensures i <= |tags| && (i < |tags| ==> tags[i] == name)
    ensures i == |tags| ==> forall k :: 0 <= k < |tags| ==> tags[k] != name
  {
    i := 0;
    while i < |tags|
      invariant i <= |tags| && forall k :: 0 <= k < i ==> tags[k] != name
    {
      if tags[i] == name {
        return;
      }
      i := i + 1;
    }
  }

  /** The scanner that a generated binder contains: one pass, the first occurrence of each tag, and an early end
      when all have been seen. */
  method Scan(rawQuery: Bytes, tags: seq<Bytes>) returns (values: seq<Bytes>)
    requires Distinct(tags)
    ensures |values| == |tags| && forall i :: 0 <= i < |tags| ==> values[i] == QueryValue(rawQuery, tags[i])
  {
    hide IndexByte, QueryValue, FirstPair;
    values := seq(|tags|, _ => []);
    var seen := seq(|tags|, _ => false);
    var remaining := |tags|;
    var query := rawQuery;
    AllUnseen(|tags|);
    while query != [] && remaining > 0
      invariant Collected(rawQuery, query, tags, values, seen) && remaining == CountUnseen(seen)
      decreases |query|
    {
      var pair, rest := NextPair(query);
      var eq := IndexByte(pair, EQUALS);
      var i := |tags|;
      if eq >= 0 {
        i := FindTag(pair[..eq], tags);
      }
      PairStep(rawQuery, query, tags, values, seen, i);
      if i < |tags| && !seen[i] {
        SeeOne(seen, i);
        values, seen, remaining := values[i := pair[eq + 1..]], seen[i := true], remaining - 1;
      }
      query := rest;
    }
    if remaining == 0 {
      NoneUnseen(seen);
    }
    ScanDone(rawQuery, query, tags, values, seen);
  }

  /** One pair: the tag it names, if there is one and it is unseen, gets its value. */
  lemma PairStep(rawQuery: Bytes, before: Bytes, tags: seq<Bytes>, values: seq<Bytes>, seen: seq<bool>, i: nat)
    requires before != [] && Distinct(tags) && Collected(rawQuery, before, tags, values, seen) && i <= |tags|
    requires var pair := FirstPair(before).text;
      forall k :: 0 <= k < |tags| ==> (Names(pair, tags[k]) <==> k == i)
    ensures var p := FirstPair(before);
      if i < |tags| && !seen[i] then Collected(rawQuery, p.rest, tags, values[i := ValueOf(p.text)], seen[i := true])
      else Collected(rawQuery, p.rest, tags, values, seen)
  {
    hide FirstPair, Names, ValueOf;
  }

  lemma ScanDone(rawQuery: Bytes, query: Bytes, tags: seq<Bytes>, values: seq<Bytes>, seen: seq<bool>)
    requires Collected(rawQuery, query, tags, values, seen)
    requires query == [] || forall i :: 0 <= i < |seen| ==> seen[i]
    ensures forall i :: 0 <= i < |tags| ==> values[i] == QueryValue(rawQuery, tags[i])
  {
  }
}
