/** Bytes, byte strings and the small scanners that the HTTP readers share. */
module Bytes {

  newtype Byte = x: int | 0 <= x < 256
  type Bytes = seq<Byte>

  const HTAB: Byte := 9
  const LF: Byte := 10
  const CR: Byte := 13
  const SP: Byte := 32

  /** Text as bytes. */
  function Ascii(text: string): (s: Bytes)
    ensures |s| == |text|
  {
    seq(|text|, i requires 0 <= i < |text| => (text[i] as int % 256) as Byte)
  }

  function Char(c: Byte): char { c as int as char }

  function IndexFrom(s: Bytes, c: Byte, start: nat): (i: int)
    requires start <= |s|
    ensures i == -1 || (start <= i < |s| && s[i] == c)
    decreases |s| - start
  {
    if start == |s| then -1
    else if s[start] == c then start
    else IndexFrom(s, c, start + 1)
  }

  /** Position of the first `c` in `s`, or -1: Go's bytes.IndexByte. */
  function IndexByte(s: Bytes, c: Byte): (i: int)
    ensures i == -1 || (0 <= i < |s| && s[i] == c)
  {
    IndexFrom(s, c, 0)
  }

  lemma {:induction false} IndexFromIsFirst(s: Bytes, c: Byte, start: nat)
    requires start <= |s|
    ensures forall k :: start <= k < |s| && (IndexFrom(s, c, start) == -1 || k < IndexFrom(s, c, start)) ==> s[k] != c
    decreases |s| - start
  {
    if start < |s| && s[start] != c {
      IndexFromIsFirst(s, c, start + 1);
    }
  }

  lemma IndexByteIsFirst(s: Bytes, c: Byte)
    ensures forall k :: 0 <= k < |s| && (IndexByte(s, c) == -1 || k < IndexByte(s, c)) ==> s[k] != c
    ensures IndexByte(s, c) == -1 <==> c !in s
  {
    IndexFromIsFirst(s, c, 0);
  }

  lemma IndexByteUnique(s: Bytes, c: Byte, i: nat)
    requires i < |s| && s[i] == c && forall k :: 0 <= k < i ==> s[k] != c
    ensures IndexByte(s, c) == i
  {
    IndexByteIsFirst(s, c);
  }

  /** An element of a list lies between two separators, or between a separator and an end. */
  predicate Element(s: Bytes, sep: Byte, lo: nat, hi: nat) {
    && lo <= hi <= |s| && (forall k :: lo <= k < hi ==> s[k] != sep)
    && (lo == 0 || s[lo - 1] == sep) && (hi == |s| || s[hi] == sep)
  }

  /** The first element, and what is behind its separator. */
  lemma FirstElement(s: Bytes, sep: Byte) returns (n: nat, rest: Bytes)
    ensures Element(s, sep, 0, n) && n == if IndexByte(s, sep) < 0 then |s| else IndexByte(s, sep)
    ensures rest == if n < |s| then s[n + 1..] else []
  {
    IndexByteIsFirst(s, sep);
    n := if IndexByte(s, sep) < 0 then |s| else IndexByte(s, sep);
    rest := if n < |s| then s[n + 1..] else [];
  }

  /** The other elements are the elements of that. */
  lemma LaterElement(s: Bytes, sep: Byte, lo: nat, hi: nat)
    ensures var n := if IndexByte(s, sep) < 0 then |s| else IndexByte(s, sep);
      && (Element(s, sep, lo, hi) && lo == 0 ==> hi == n)
      && (Element(s, sep, lo, hi) && lo > 0 ==> n < lo && n < |s|)
      && (n < |s| && n < lo <= hi <= |s| ==>
            (Element(s, sep, lo, hi) <==> Element(s[n + 1..], sep, lo - n - 1, hi - n - 1))
            && s[lo..hi] == s[n + 1..][lo - n - 1..hi - n - 1])
  {
    hide IndexByte;
    IndexByteIsFirst(s, sep);
    var n := if IndexByte(s, sep) < 0 then |s| else IndexByte(s, sep);
    if n < |s| && n < lo <= hi <= |s| {
      ShiftedElement(s, sep, n, lo, hi);
    }
  }

  lemma ShiftedElement(s: Bytes, sep: Byte, n: nat, lo: nat, hi: nat)
    requires n < lo <= hi <= |s| && s[n] == sep
    ensures Element(s, sep, lo, hi) <==> Element(s[n + 1..], sep, lo - n - 1, hi - n - 1)
    ensures s[lo..hi] == s[n + 1..][lo - n - 1..hi - n - 1]
  {
    var rest := s[n + 1..];
    assert forall k :: 0 <= k < |rest| ==> rest[k] == s[n + 1 + k];
    if Element(rest, sep, lo - n - 1, hi - n - 1) {
      forall k | lo <= k < hi ensures s[k] != sep {
        assert rest[k - n - 1] == s[k];
      }
    }
  }

  predicate TerminatorAt(s: Bytes, i: int) {
    0 <= i && i + 4 <= |s| && s[i] == CR && s[i + 1] == LF && s[i + 2] == CR && s[i + 3] == LF
  }

  function IndexTerminatorFrom(s: Bytes, start: nat): (i: int)
    requires start <= |s|
    ensures i == -1 || (start <= i && TerminatorAt(s, i))
    decreases |s| - start
  {
    if start == |s| then -1
    else if TerminatorAt(s, start) then start
    else IndexTerminatorFrom(s, start + 1)
  }

  /** Position of the first CR LF CR LF in `s`, or -1: Go's bytes.Index. */
  function IndexTerminator(s: Bytes): (i: int)
    ensures i == -1 || TerminatorAt(s, i)
  {
    IndexTerminatorFrom(s, 0)
  }

  lemma {:induction false} IndexTerminatorFromIsFirst(s: Bytes, start: nat, j: int)
    requires start <= |s| && start <= j && TerminatorAt(s, j)
    ensures 0 <= IndexTerminatorFrom(s, start) <= j
    decreases |s| - start
  {
    if !TerminatorAt(s, start) {
      IndexTerminatorFromIsFirst(s, start + 1, j);
    }
  }

  lemma IndexTerminatorIsFirst(s: Bytes, j: int)
    requires TerminatorAt(s, j)
    ensures 0 <= IndexTerminator(s) <= j
  {
    IndexTerminatorFromIsFirst(s, 0, j);
  }

  /** More bytes never move a terminator that has been found. */
  lemma IndexTerminatorStable(s: Bytes, more: Bytes)
    requires IndexTerminator(s) >= 0
    ensures IndexTerminator(s + more) == IndexTerminator(s)
  {
    var i := IndexTerminator(s);
    assert TerminatorAt(s + more, i);
    IndexTerminatorIsFirst(s + more, i);
    assert TerminatorAt(s, IndexTerminator(s + more));
    IndexTerminatorIsFirst(s, IndexTerminator(s + more));
  }

  predicate CRLFAt(s: Bytes, i: int) {
    0 <= i && i + 2 <= |s| && s[i] == CR && s[i + 1] == LF
  }

  function BlankFrom(s: Bytes, start: nat): (n: nat)
    requires start <= |s|
    ensures start <= n <= |s| && !CRLFAt(s, n)
    decreases |s| - start
  {
    if CRLFAt(s, start) then BlankFrom(s, start + 2) else start
  }

  /** Number of bytes in the run of empty lines (CR LF pairs) that starts `s`. */
  function BlankPrefix(s: Bytes): (n: nat)
    ensures n <= |s| && !CRLFAt(s, n)
  {
    BlankFrom(s, 0)
  }

  /** Every pair of the run is a CR LF, and no pair follows it. */
  lemma BlankPrefixExactly(s: Bytes, n: nat)
    ensures BlankPrefix(s) == n
      <==> n <= |s| && n % 2 == 0 && (forall k :: 0 <= k < n && k % 2 == 0 ==> CRLFAt(s, k)) && !CRLFAt(s, n)
  {
    BlankFromExactly(s, 0);
    var m := BlankPrefix(s);
    if n < m && n % 2 == 0 {
      assert CRLFAt(s, n);
    }
  }

  lemma {:induction false} BlankFromExactly(s: Bytes, start: nat)
    requires start <= |s| && start % 2 == 0
    ensures BlankFrom(s, start) % 2 == 0
    ensures forall k :: start <= k < BlankFrom(s, start) && k % 2 == 0 ==> CRLFAt(s, k)
    decreases |s| - start
  {
    if CRLFAt(s, start) {
      BlankFromExactly(s, start + 2);
    }
  }

  predicate IsBlank(c: Byte) { c == SP || c == HTAB }

  function TrimLeft(s: Bytes): Bytes {
    if s != [] && IsBlank(s[0]) then TrimLeft(s[1..]) else s
  }

  function TrimRight(s: Bytes): Bytes {
    if s != [] && IsBlank(s[|s| - 1]) then TrimRight(s[..|s| - 1]) else s
  }

  /** Optional white space (SP and HTAB) removed at both ends. */
  function Trim(s: Bytes): Bytes {
    TrimRight(TrimLeft(s))
  }

  lemma {:induction false} TrimLeftUnique(s: Bytes, n: nat)
    requires n <= |s| && forall k :: 0 <= k < n ==> IsBlank(s[k])
    requires n == |s| || !IsBlank(s[n])
    ensures TrimLeft(s) == s[n..]
  {
    if n > 0 {
      TrimLeftUnique(s[1..], n - 1);
      assert s[1..][n - 1..] == s[n..];
    }
  }

  lemma {:induction false} TrimRightUnique(s: Bytes, n: nat)
    requires n <= |s| && forall k :: n <= k < |s| ==> IsBlank(s[k])
    requires n == 0 || !IsBlank(s[n - 1])
    ensures TrimRight(s) == s[..n]
  {
    if n < |s| {
      TrimRightUnique(s[..|s| - 1], n);
      assert s[..|s| - 1][..n] == s[..n];
    }
  }

  /** The slice has white space on both sides of it and none at its ends. */
  ghost predicate TrimmedTo(s: Bytes, lo: nat, hi: nat) {
    && lo <= hi <= |s|
    && (forall k :: 0 <= k < lo || hi <= k < |s| ==> IsBlank(s[k]))
    && (lo < hi ==> !IsBlank(s[lo]) && !IsBlank(s[hi - 1]))
  }

  ghost predicate Trimmed(s: Bytes, r: Bytes) {
    exists lo: nat, hi: nat :: TrimmedTo(s, lo, hi) && r == s[lo..hi]
  }

  /** What trimming leaves is such a slice. */
  lemma {:induction false} TrimIsSlice(s: Bytes) returns (lo: nat, hi: nat)
    ensures TrimmedTo(s, lo, hi) && Trim(s) == s[lo..hi]
  {
    lo := 0;
    while lo < |s| && IsBlank(s[lo])
      invariant lo <= |s| && forall k :: 0 <= k < lo ==> IsBlank(s[k])
    {
      lo := lo + 1;
    }
    TrimLeftUnique(s, lo);
    hi := |s|;
    while hi > lo && IsBlank(s[hi - 1])
      invariant lo <= hi <= |s| && forall k :: hi <= k < |s| ==> IsBlank(s[k])
    {
      hi := hi - 1;
    }
    TrimRightUnique(s[lo..], hi - lo);
    assert s[lo..][..hi - lo] == s[lo..hi];
  }

  lemma TrimIdentity(s: Bytes)
    requires s == [] || (!IsBlank(s[0]) && !IsBlank(s[|s| - 1]))
    ensures Trim(s) == s
  {
  }

  /** There is one such slice, up to the place of an empty one. */
  lemma TrimExactly(s: Bytes, r: Bytes)
    ensures Trimmed(s, r) <==> r == Trim(s)
  {
    hide Trim;
    var lo, hi := TrimIsSlice(s);
    if Trimmed(s, r) {
      var from: nat, to: nat :| TrimmedTo(s, from, to) && r == s[from..to];
      if lo < hi {
        assert !IsBlank(s[lo]) && !IsBlank(s[hi - 1]);
        assert from < to;
      }
    }
  }

  /** The two trimming loops, on slices of one buffer. */
  method TrimHTTPSpaces(b: Bytes) returns (r: Bytes)
    ensures r == Trim(b)
    ensures Trimmed(b, r)
  {
    var lo := 0;
    while lo < |b| && IsBlank(b[lo])
      invariant 0 <= lo <= |b|
      invariant forall k :: 0 <= k < lo ==> IsBlank(b[k])
    {
      lo := lo + 1;
    }
    var left := b[lo..];
    assert left == TrimLeft(b) by { TrimLeftUnique(b, lo); }
    var n := |left|;
    while n > 0 && IsBlank(left[n - 1])
      invariant 0 <= n <= |left|
      invariant forall k :: n <= k < |left| ==> IsBlank(left[k])
    {
      n := n - 1;
    }
    r := left[..n];
    assert r == TrimRight(left) by { TrimRightUnique(left, n); }
    ghost var from, to := TrimIsSlice(b);
  }

  function LowerByte(c: Byte): Byte {
    if 65 <= c <= 90 then c + 32 else c
  }

  function Lower(s: Bytes): Bytes {
    seq(|s|, i requires 0 <= i < |s| => LowerByte(s[i]))
  }

  predicate EqualFold(a: Bytes, b: Bytes) {
    |a| == |b| && forall i :: 0 <= i < |a| ==> LowerByte(a[i]) == LowerByte(b[i])
  }

  predicate IsDigit(c: Byte) { 48 <= c <= 57 }

  predicate AllDigits(s: Bytes) {
    s != [] && forall i :: 0 <= i < |s| ==> IsDigit(s[i])
  }

  function Digit(c: Byte): nat
    requires IsDigit(c)
  {
    (c - 48) as nat
  }

  /** The number a run of decimal digits denotes. */
  function Decimal(s: Bytes): nat
    requires forall i :: 0 <= i < |s| ==> IsDigit(s[i])
  {
    if s == [] then 0 else 10 * Decimal(s[..|s| - 1]) + Digit(s[|s| - 1])
  }

  function Pow10(k: nat): nat {
    if k == 0 then 1 else 10 * Pow10(k - 1)
  }

  /** Every digit counts by its place. */
  lemma {:induction false} DecimalPlaces(s: Bytes)
    requires s != [] && forall i :: 0 <= i < |s| ==> IsDigit(s[i])
    ensures Decimal(s) == Digit(s[0]) * Pow10(|s| - 1) + Decimal(s[1..])
  {
    var n := |s| - 1;
    if n == 0 {
      assert s[..0] == s[1..] == [];
    } else {
      DecimalPlaces(s[..n]);
      assert s[..n][1..] == s[1..][..n - 1];
      assert 10 * (Digit(s[0]) * Pow10(n - 1)) == Digit(s[0]) * Pow10(n);
    }
  }
}
