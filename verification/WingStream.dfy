/** What a connection has done with the bytes it was sent, as statements about byte strings. */
module WingStream {
  import opened Bytes
  import opened Options
  import opened HttpParser
  import opened HttpClassifier
  import opened HttpPipelining
  import opened HttpVerdicts

  /** `consumed` is exactly the bytes of the requests `dispatched`. */
  ghost predicate Consumed(consumed: Bytes, dispatched: seq<Request>, lim: Limits) {
    ParseAll(consumed, lim) == dispatched && ConsumedAll(consumed, lim) == |consumed|
  }

  lemma NothingConsumed(lim: Limits)
    ensures Consumed([], [], lim)
    ensures Parse([], lim) == None
  {
    hide ParseHead;
    assert Parse([], lim) == None;
  }

  /** Taking one whole request off the stream. */
  lemma ConsumeOne(consumed: Bytes, dispatched: seq<Request>, next: Bytes, lim: Limits)
    requires Consumed(consumed, dispatched, lim)
    requires Parse(next, lim).Some? && Parse(next, lim).value.consumed == |next|
    ensures Consumed(consumed + next, dispatched + [Parse(next, lim).value.request], lim)
  {
    NothingConsumed(lim);
    hide Parse;
    ParseAllExtends(consumed, next, lim);
    assert consumed[|consumed|..] + next == next;
    assert next[|next|..] == [];
  }

  lemma PrefixIsWhole(data: Bytes, lim: Limits)
    requires Parse(data, lim).Some?
    ensures var n := Parse(data, lim).value.consumed;
      Parse(data[..n], lim) == Parse(data, lim)
  {
    hide Parse;
    var n := Parse(data, lim).value.consumed;
    ParseStable(data, [], lim);
    assert data[..n] + [] == data[..n];
  }

  /** `head` starts the stream `rest`, wants a body of `need` bytes, and `taken` bytes of it were set aside as its
      header block: everything up to the first empty line of the raw bytes. */
  ghost predicate AwaitsBody(head: Bytes, taken: nat, need: nat, rest: Bytes, lim: Limits) {
    && head <= rest
    && Classify(head, lim).status == NeedBody
    && Classify(head, lim).need == need > 0
    && IndexTerminator(head) >= 0
    && taken == IndexTerminator(head) + 4
  }

  /** Nothing shorter than header block and body is a request; if both together are one, it is exactly them.
      This holds even if empty lines before the request made the header block too short. */
  lemma AwaitedRequest(head: Bytes, taken: nat, need: nat, rest: Bytes, full: Bytes, lim: Limits)
    requires AwaitsBody(head, taken, need, rest, lim)
    requires full <= rest && |full| <= taken + need
    requires Parse(full, lim).Some?
    ensures Parse(full, lim).value.consumed == |full| == taken + need
  {
    hide BlankPrefix, IndexTerminator, ParseHead, ClassifyHead;
    var p := Parse(full, lim).value;
    ParseExtends(full, rest[|full|..], lim);
    assert full + rest[|full|..] == rest;
    var more := rest[|head|..];
    assert head + more == rest;
    var skip := BlankPrefix(head);
    var headerEnd := IndexTerminator(head[skip..]);
    HeadIsKept(head, more);
    HeadAgrees(HeadOf(head), lim);
    assert p.consumed == skip + headerEnd + 4 + need;
    assert TerminatorAt(head, skip + headerEnd);
    IndexTerminatorIsFirst(head, skip + headerEnd);
  }

  /** If two or more empty lines came first, then what was set aside is one empty line too many short of a
      header, and the completed bytes are never a request. */
  lemma AwaitedBehindEmptyLines(head: Bytes, taken: nat, need: nat, rest: Bytes, lim: Limits)
    requires AwaitsBody(head, taken, need, rest, lim) && taken + need <= |rest| && BlankPrefix(head) >= 4
    ensures Parse(rest[..taken + need], lim).None?
  {
    hide BlankPrefix, IndexTerminator, Parse, Classify;
    var full := rest[..taken + need];
    BlankRun(head, BlankPrefix(head));
    if Parse(full, lim).Some? {
      AwaitedRequest(head, taken, need, rest, full, lim);
      assert full + rest[|full|..] == rest;
      ParseExtends(full, rest[|full|..], lim);
      AwaitedSpan(head, need, rest, lim);
    }
  }

  /** How far the request at the front of the whole stream reaches. */
  lemma AwaitedSpan(head: Bytes, need: nat, rest: Bytes, lim: Limits)
    requires head <= rest && Classify(head, lim).status == NeedBody && Classify(head, lim).need == need
    requires Parse(rest, lim).Some?
    ensures IndexTerminator(head[BlankPrefix(head)..]) >= 0
    ensures Parse(rest, lim).value.consumed
         == BlankPrefix(head) + IndexTerminator(head[BlankPrefix(head)..]) + 4 + need
  {
    hide BlankPrefix, IndexTerminator, ParseHead, ClassifyHead;
    assert head + rest[|head|..] == rest;
    HeadIsKept(head, rest[|head|..]);
    HeadAgrees(HeadOf(head), lim);
  }

  /** Otherwise it is a request exactly when the whole stream starts with one. */
  lemma AwaitedRequestAccepted(head: Bytes, taken: nat, need: nat, rest: Bytes, lim: Limits)
    requires AwaitsBody(head, taken, need, rest, lim) && taken + need <= |rest| && BlankPrefix(head) < 4
    ensures Parse(rest[..taken + need], lim).Some? <==> Parse(rest, lim).Some?
  {
    hide BlankPrefix, IndexTerminator, Parse, Classify;
    var full := rest[..taken + need];
    if Parse(full, lim).Some? {
      assert full + rest[|full|..] == rest;
      ParseExtends(full, rest[|full|..], lim);
    }
    if Parse(rest, lim).Some? {
      AwaitedSpan(head, need, rest, lim);
      RawTerminator(head);
      PrefixIsWhole(rest, lim);
    }
  }

  /** At most one empty line before the request does not hide its terminator from a search of the raw bytes. */
  lemma RawTerminator(head: Bytes)
    requires BlankPrefix(head) < 4 && IndexTerminator(head) >= 0
    requires IndexTerminator(head[BlankPrefix(head)..]) >= 0
    ensures IndexTerminator(head) == BlankPrefix(head) + IndexTerminator(head[BlankPrefix(head)..])
  {
    hide BlankPrefix, IndexTerminator;
    var skip := BlankPrefix(head);
    var d := head[skip..];
    BlankRun(head, skip);
    assert TerminatorAt(head, skip + IndexTerminator(d));
    IndexTerminatorIsFirst(head, skip + IndexTerminator(d));
    assert TerminatorAt(d, IndexTerminator(head) - skip);
    IndexTerminatorIsFirst(d, IndexTerminator(head) - skip);
  }

  /** The empty lines before a request are CR LF pairs, so two of them are already a terminator. */
  lemma BlankRun(s: Bytes, skip: nat)
    requires skip == BlankPrefix(s) && IndexTerminator(s) >= 0
    ensures skip % 2 == 0
    ensures skip >= 4 ==> IndexTerminator(s) == 0
    ensures skip < 4 ==> skip <= IndexTerminator(s)
  {
    BlankEven(s, 0);
    if skip >= 4 {
      assert CRLFAt(s, 0) && CRLFAt(s, 2);
      assert TerminatorAt(s, 0);
      IndexTerminatorIsFirst(s, 0);
    } else if skip == 2 {
      assert !CRLFAt(s, 2);
      assert CRLFAt(s, 0);
    }
  }

  lemma {:induction false} BlankEven(s: Bytes, start: nat)
    requires start <= |s|
    ensures (BlankFrom(s, start) - start) % 2 == 0
    decreases |s| - start
  {
    if CRLFAt(s, start) {
      BlankEven(s, start + 2);
    }
  }

  /** However these bytes go on, they do not start with a request. */
  ghost predicate NeverARequest(d: Bytes, lim: Limits) {
    forall more: Bytes :: Parse(d + more, lim).None?
  }

  /** Some of the bytes at the front rule a request out, or they start with two empty lines. */
  ghost predicate Unservable(rest: Bytes, lim: Limits) {
    BlankPrefix(rest) >= 4 || exists n :: 0 <= n <= |rest| && NeverARequest(rest[..n], lim)
  }

  /** What may be refused: no request, one with an unfinished body if there is a budget that may be spent, or an
      unfinished header in a full buffer. */
  ghost predicate Refusable(d: Bytes, size: nat, budget: nat, lim: Limits) {
    || NeverARequest(d, lim)
    || (Parse(d, lim).None? && Classify(d, lim).status == NeedBody && budget > 0)
    || (Parse(d, lim).None? && Classify(d, lim).status == NeedHeaderMore && |d| == size)
  }

  /** The length of the request that starts the data, up to its body. */
  function HeadLength(data: Bytes, lim: Limits): int
    requires Parse(data, lim).Some?
  {
    Parse(data, lim).value.consumed - |Parse(data, lim).value.request.body|
  }

  /** Bytes that hold all of the head have the empty line that ends it. */
  lemma HeadHasTerminator(rest: Bytes, d: Bytes, lim: Limits)
    requires d <= rest && Parse(rest, lim).Some? && HeadLength(rest, lim) <= |d|
    ensures HasTerminator(d)
  {
    hide BlankPrefix, IndexTerminator, ParseHead;
    var skip := BlankPrefix(rest);
    var e := IndexTerminator(rest[skip..]);
    BlankPrefixAgrees(rest, d, skip + e + 4);
    assert TerminatorAt(rest[skip..], e);
    assert TerminatorAt(d[skip..], e);
  }

  /** So do bytes that are classified as lacking only a body. */
  lemma NeedBodyHasTerminator(d: Bytes, lim: Limits)
    requires Classify(d, lim).status == NeedBody
    ensures IndexTerminator(d) >= 0
  {
    hide Classify, BlankPrefix, IndexTerminator;
    NeedHeaderMoreExactly(d, lim);
    var skip := BlankPrefix(d);
    var j :| TerminatorAt(d[skip..], j);
    assert TerminatorAt(d, skip + j);
    IndexTerminatorIsFirst(d, skip + j);
  }

  lemma RejectedForGood(d: Bytes, lim: Limits)
    requires Parse(d, lim).None?
    requires Classify(d, lim).status != NeedHeaderMore && Classify(d, lim).status != NeedBody
    ensures NeverARequest(d, lim)
  {
    hide Parse, Classify;
    forall more: Bytes ensures Parse(d + more, lim).None? {
      VerdictsAreFinal(d, more, lim);
    }
  }

  lemma Hopeless(d: Bytes, rest: Bytes, lim: Limits)
    requires d <= rest && NeverARequest(d, lim)
    ensures Unservable(rest, lim)
  {
    hide NeverARequest, BlankPrefix;
    assert rest[..|d|] == d;
  }

  /** A body that has been waited for, but does not complete a request. */
  lemma AwaitedInVain(head: Bytes, taken: nat, need: nat, rest: Bytes, lim: Limits)
    requires AwaitsBody(head, taken, need, rest, lim) && taken + need <= |rest|
    requires Parse(rest[..taken + need], lim).None?
    ensures Unservable(rest, lim)
  {
    hide BlankPrefix, IndexTerminator, Parse, ClassifyHead;
    HeadIsKept(head, rest[|head|..]);
    assert head + rest[|head|..] == rest;
    if BlankPrefix(head) < 4 {
      var n := if |head| < taken + need then taken + need else |head|;
      var d := rest[..n];
      forall more: Bytes ensures Parse(d + more, lim).None? {
        assert (d + more)[..taken + need] == rest[..taken + need];
        AwaitedRequestAccepted(head, taken, need, d + more, lim);
      }
      Hopeless(d, rest, lim);
    }
  }

  /** What has been dispatched is a prefix of the requests in the whole stream. */
  lemma DispatchedIsPrefix(consumed: Bytes, dispatched: seq<Request>, rest: Bytes, lim: Limits)
    requires Consumed(consumed, dispatched, lim)
    ensures dispatched <= ParseAll(consumed + rest, lim)
  {
    ParseAllMonotone(consumed, rest, lim);
  }

  /** All requests received have been dispatched exactly if none starts the bytes that are held back. */
  lemma DispatchedIsAll(consumed: Bytes, dispatched: seq<Request>, held: Bytes, lim: Limits)
    requires Consumed(consumed, dispatched, lim)
    ensures ParseAll(consumed + held, lim) == dispatched <==> Parse(held, lim).None?
  {
    hide Parse;
    ParseAllExtends(consumed, held, lim);
    assert consumed[|consumed|..] + held == held;
    assert ParseAll(held, lim) == [] <==> Parse(held, lim).None?;
  }
}
