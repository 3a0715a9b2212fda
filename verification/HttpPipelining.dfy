/** Requests on one connection follow one another without separators (section 9.3.2 of RFC 9112): what the
    parser makes of the first does not depend on what comes after it. */
module HttpPipelining {
  import opened Bytes
  import opened Options
  import opened HttpParser

  lemma {:induction false} BlankFromAgrees(s: Bytes, t: Bytes, start: nat)
    requires start <= |s| && BlankFrom(s, start) + 2 <= |t|
    requires forall i :: start <= i < BlankFrom(s, start) + 2 && i < |s| ==> s[i] == t[i]
    requires BlankFrom(s, start) + 2 <= |s|
    ensures BlankFrom(t, start) == BlankFrom(s, start)
    decreases |s| - start
  {
    if CRLFAt(s, start) {
      BlankFromAgrees(s, t, start + 2);
    }
  }

  /** A parsed request depends on no byte past the ones it consumed. */
  lemma ParseStable(data: Bytes, more: Bytes, lim: Limits)
    requires Parse(data, lim).Some?
    ensures Parse(data[..Parse(data, lim).value.consumed] + more, lim) == Parse(data, lim)
  {
    hide ParseHead, BlankPrefix, IndexTerminator;
    var p := Parse(data, lim).value;
    var all := data[..p.consumed] + more;
    var skip := BlankPrefix(data);
    var d := data[skip..];
    var headerEnd := IndexTerminator(d);
    var bodyStart := headerEnd + 4;
    assert skip + bodyStart <= p.consumed;
    BlankPrefixAgrees(data, all, skip + bodyStart);
    var e := all[skip..];
    assert forall i :: 0 <= i < p.consumed - skip ==> e[i] == d[i];
    TerminatorAgrees(d, e, bodyStart);
    assert e[..headerEnd + 2] == d[..headerEnd + 2];
    var h := ParseHead(d[..headerEnd + 2], lim).value;
    assert e[bodyStart..bodyStart + h.contentLength] == d[bodyStart..bodyStart + h.contentLength];
  }

  lemma BlankPrefixAgrees(s: Bytes, t: Bytes, n: nat)
    requires BlankPrefix(s) + 4 <= n <= |s| && n <= |t|
    requires forall i :: 0 <= i < n ==> s[i] == t[i]
    ensures BlankPrefix(t) == BlankPrefix(s)
  {
    BlankFromAgrees(s, t, 0);
  }

  lemma TerminatorAgrees(s: Bytes, t: Bytes, n: nat)
    requires IndexTerminator(s) >= 0 && n == IndexTerminator(s) + 4 <= |t|
    requires forall i :: 0 <= i < n ==> s[i] == t[i]
    ensures IndexTerminator(t) == IndexTerminator(s)
  {
    hide IndexTerminator;
    var i := IndexTerminator(s);
    assert TerminatorAt(t, i);
    IndexTerminatorIsFirst(t, i);
    var j := IndexTerminator(t);
    assert TerminatorAt(s, j);
    IndexTerminatorIsFirst(s, j);
  }

  lemma ParseExtends(data: Bytes, more: Bytes, lim: Limits)
    requires Parse(data, lim).Some?
    ensures Parse(data + more, lim) == Parse(data, lim)
  {
    hide Parse;
    var n := Parse(data, lim).value.consumed;
    ParseStable(data, data[n..] + more, lim);
    assert data[..n] + (data[n..] + more) == data + more;
  }

  // ---------------------------------------------------------------- whole streams

  /** Every request that can be taken off the front of `data`, one after the other. */
  function ParseAll(data: Bytes, lim: Limits): seq<Request>
    decreases |data|
  {
    match Parse(data, lim)
    case None => []
    case Some(p) => [p.request] + ParseAll(data[p.consumed..], lim)
  }

  /** How many bytes those requests take. */
  function ConsumedAll(data: Bytes, lim: Limits): (n: nat)
    ensures n <= |data|
    decreases |data|
  {
    match Parse(data, lim)
    case None => 0
    case Some(p) => p.consumed + ConsumedAll(data[p.consumed..], lim)
  }

  /** Requests already taken stay the same, whatever arrives later; what arrives is read as if it came
      right after the bytes they left over. */
  lemma {:induction false} ParseAllExtends(data: Bytes, more: Bytes, lim: Limits)
    ensures ParseAll(data + more, lim) == ParseAll(data, lim) + ParseAll(data[ConsumedAll(data, lim)..] + more, lim)
    ensures ConsumedAll(data + more, lim)
         == ConsumedAll(data, lim) + ConsumedAll(data[ConsumedAll(data, lim)..] + more, lim)
    decreases |data|
  {
    hide Parse;
    match Parse(data, lim)
    case None =>
      assert data[0..] == data;
    case Some(p) =>
      ParseExtends(data, more, lim);
      var rest := data[p.consumed..];
      assert (data + more)[p.consumed..] == rest + more;
      ParseAllExtends(rest, more, lim);
      assert rest[ConsumedAll(rest, lim)..] == data[ConsumedAll(data, lim)..];
  }

  lemma ParseAllMonotone(data: Bytes, more: Bytes, lim: Limits)
    ensures ParseAll(data, lim) <= ParseAll(data + more, lim)
  {
    ParseAllExtends(data, more, lim);
  }

  /** `data` is exactly one request. */
  predicate IsRequest(data: Bytes, r: Request, lim: Limits) {
    Parse(data, lim) == Some(Parsed(r, |data|))
  }

  function Concat(chunks: seq<Bytes>): Bytes {
    if chunks == [] then [] else chunks[0] + Concat(chunks[1..])
  }

  lemma ParseOneMore(chunk: Bytes, r: Request, rest: Bytes, lim: Limits)
    requires IsRequest(chunk, r, lim)
    ensures ParseAll(chunk + rest, lim) == [r] + ParseAll(rest, lim)
  {
    hide Parse;
    ParseExtends(chunk, rest, lim);
    assert (chunk + rest)[|chunk|..] == rest;
  }

  /** Requests sent back to back are read as exactly those requests, and then the tail is read. */
  lemma {:induction false} ParsePipelined(chunks: seq<Bytes>, requests: seq<Request>, tail: Bytes, lim: Limits)
    requires |chunks| == |requests|
    requires forall i :: 0 <= i < |chunks| ==> IsRequest(chunks[i], requests[i], lim)
    ensures ParseAll(Concat(chunks) + tail, lim) == requests + ParseAll(tail, lim)
  {
    hide Parse, ParseAll, IsRequest;
    if chunks == [] {
      assert Concat(chunks) + tail == tail;
    } else {
      var rest := Concat(chunks[1..]) + tail;
      assert Concat(chunks) + tail == chunks[0] + rest;
      ParseOneMore(chunks[0], requests[0], rest, lim);
      ParsePipelined(chunks[1..], requests[1..], tail, lim);
    }
  }
}
