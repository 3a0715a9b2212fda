/** The two token buckets (wing_accept_limits.go, contrib/ratelimit/token_bucket.go), over real numbers. */
module TokenBuckets {
  import opened Times

  /** Tokens now, what they are capped at, what a unit of time adds, and the time of the last call. */
  datatype Bucket = Bucket(tokens: real, burst: real, rate: real, last: int)

  /** What an amount of time adds. */
  function Gain(elapsed: int, rate: real): real {
    elapsed as real * rate
  }

  lemma GainAdds(a: int, b: int, rate: real)
    ensures Gain(a + b, rate) == Gain(a, rate) + Gain(b, rate)
    ensures Gain(0, rate) == 0.0
    ensures rate >= 0.0 && a >= 0 ==> Gain(a, rate) >= 0.0
  {
    assert (a + b) as real * rate == (a as real + b as real) * rate;
  }

  function Min(a: real, b: real): real {
    if a <= b then a else b
  }

  // ---------------------------------------------------------------- the accept bucket

  /** Time that went back adds nothing, but is remembered. */
  function AcceptRefill(b: Bucket, now: int): Bucket {
    if now > b.last then b.(tokens := Min(b.tokens + Gain(now - b.last, b.rate), b.burst), last := now)
    else b.(last := now)
  }

  // ---------------------------------------------------------------- the request bucket

  /** Time that went back takes tokens away. */
  function RequestRefill(b: Bucket, now: int): Bucket {
    b.(tokens := Min(b.tokens + Gain(now - b.last, b.rate), b.burst), last := now)
  }

  function Refill(request: bool, b: Bucket, now: int): Bucket {
    if request then RequestRefill(b, now) else AcceptRefill(b, now)
  }

  /** One call: a token is spent if there is one. */
  function Spend(b: Bucket): Bucket {
    if b.tokens < 1.0 then b else b.(tokens := b.tokens - 1.0)
  }

  function Call(request: bool, b: Bucket, now: int): Bucket {
    Spend(Refill(request, b, now))
  }

  predicate Allows(request: bool, b: Bucket, now: int) {
    Refill(request, b, now).tokens >= 1.0
  }

  /** newTokenBucket: full, and the burst is at least one second's worth. */
  function NewAcceptBucket(perSec: nat, burst: nat): Bucket {
    var most := (if burst < perSec then perSec else burst) as real;
    Bucket(most, most, perSec as real / 1000000000.0, 0)
  }

  class AcceptBucket {
    var tokens: real
    var burst: real
    var ratePerNano: real
    var last: int

    constructor (perSec: nat, burst: nat)
      ensures Value() == NewAcceptBucket(perSec, burst)
      ensures Filled(Value()) && perSec as real <= this.burst
    {
      var b := burst;
      if b < perSec {
        b := perSec;
      }
      tokens, this.burst, ratePerNano, last := b as real, b as real, perSec as real / 1000000000.0, 0;
    }

    function Value(): Bucket
      reads this
    {
      Bucket(tokens, burst, ratePerNano, last)
    }

    /** allow. */
    method Allow(now: int) returns (allowed: bool)
      modifies this
      ensures Value() == Call(false, old(Value()), now) && allowed == Allows(false, old(Value()), now)
    {
      if now > last {
        tokens := tokens + (now - last) as real * ratePerNano;
        if tokens > burst {
          tokens := burst;
        }
      }
      last := now;
      if tokens < 1.0 {
        return false;
      }
      tokens := tokens - 1.0;
      return true;
    }
  }

  /** What the request limiter answers; the times are in nanoseconds. */
  datatype Verdict = Verdict(allowed: bool, remaining: int, resetAt: int, retryAfter: int)

  function PerNano(limit: nat, window: int): (rate: real)
    requires window > 0
    ensures limit > 0 ==> rate > 0.0
  {
    limit as real / window as real
  }

  /** How long to wait for a whole token, in whole nanoseconds. */
  function Wait(b: Bucket): int
    requires b.rate > 0.0
  {
    ((1.0 - b.tokens) / b.rate).Floor
  }

  /** An entry of the request limiter. The first request is always let through. */
  class RequestEntry {
    var tokens: real
    var last: int
    var windowStart: int
    var used: bool

    constructor ()
      ensures !used
    {
      tokens, last, windowStart, used := 0.0, 0, 0, false;
    }

    function Value(limit: nat, window: int): Bucket
      requires window > 0
      reads this
    {
      Bucket(tokens, limit as real, PerNano(limit, window), last)
    }

    /** tokenBucketAllow. */
    method Allow(limit: nat, window: int, now: int) returns (r: Verdict)
      requires limit > 0 && window > 0
      modifies this
      ensures used
      ensures !old(used) ==>
        r.allowed && Value(limit, window) == Bucket(limit as real - 1.0, limit as real, PerNano(limit, window), now)
      ensures old(used) ==> Value(limit, window) == Call(true, old(Value(limit, window)), now)
      ensures old(used) ==> r.allowed == Allows(true, old(Value(limit, window)), now)
      ensures r.remaining == if r.allowed then tokens.Floor else 0
      ensures windowStart == if !old(used) || now - old(windowStart) >= window then now else old(windowStart)
      ensures r.resetAt == windowStart + window
      ensures r.retryAfter == if r.allowed then 0 else Wait(Value(limit, window))
    {
      hide PerNano, Gain;
      if !used {
        tokens, last, windowStart, used := (limit - 1) as real, now, now, true;
        return Verdict(true, limit - 1, now + window, 0);
      }
      var elapsed := now - last;
      var rate := PerNano(limit, window);
      tokens := tokens + Gain(elapsed, rate);
      if tokens > limit as real {
        tokens := limit as real;
      }
      last := now;
      if now - windowStart >= window {
        windowStart := now;
      }
      var resetAt := windowStart + window;
      if tokens < 1.0 {
        var deficit := 1.0 - tokens;
        return Verdict(false, 0, resetAt, (deficit / rate).Floor);
      }
      tokens := tokens - 1.0;
      var remaining := tokens.Floor;
      if remaining < 0 {
        remaining := 0;
      }
      return Verdict(true, remaining, resetAt, 0);
    }
  }

  // ---------------------------------------------------------------- how much is let through

  predicate Filled(b: Bucket) {
    b.tokens <= b.burst && b.rate >= 0.0
  }

  /** The calls let through, at these times. */
  function Admitted(request: bool, b: Bucket, times: seq<int>): nat
    decreases |times|
  {
    if times == [] then 0
    else (if Allows(request, b, times[0]) then 1 else 0) + Admitted(request, Call(request, b, times[0]), times[1..])
  }

  /** How far time has gone forward, all steps back left out. */
  function Ascent(from: int, times: seq<int>): nat
    decreases |times|
  {
    if times == [] then 0
    else (if times[0] > from then times[0] - from else 0) + Ascent(times[0], times[1..])
  }

  /** The accept bucket lets through no more than its tokens and the rate over all the time gone forward. */
  lemma {:induction false} AcceptBound(b: Bucket, times: seq<int>)
    requires Filled(b) && b.tokens >= 0.0
    ensures Admitted(false, b, times) as real <= b.tokens + Gain(Ascent(b.last, times), b.rate)
    decreases |times|
  {
    hide Gain;
    GainAdds(0, 0, b.rate);
    if times != [] {
      var now := times[0];
      var next := Call(false, b, now);
      var step := if now > b.last then now - b.last else 0;
      GainAdds(step, Ascent(now, times[1..]), b.rate);
      AcceptBound(next, times[1..]);
    }
  }

  /** That is the time between the ends exactly if the clock has not gone back; otherwise it is more. */
  lemma {:induction false} AscentExactly(from: int, times: seq<int>)
    requires times != []
    ensures Ascent(from, times) >= times[|times| - 1] - from
    ensures Ascent(from, times) == times[|times| - 1] - from <==> Ordered([from] + times)
    decreases |times|
  {
    OrderedCons(from, times);
    OrderedCons(times[0], times[1..]);
    if |times| > 1 {
      AscentExactly(times[0], times[1..]);
    } else {
      assert Ascent(times[0], times[1..]) == 0;
    }
  }

  lemma OrderedCons(from: int, times: seq<int>)
    ensures Ordered([from] + times) <==> times == [] || (from <= times[0] && Ordered(times))
    ensures times != [] ==> [times[0]] + times[1..] == times
  {
    var all := [from] + times;
    assert all[0] == from && forall i :: 0 <= i < |times| ==> all[i + 1] == times[i];
    if times != [] && from <= times[0] && Ordered(times) {
      forall i, j | 0 <= i < j < |all| ensures all[i] <= all[j] {
        assert times[0] <= times[j - 1];
      }
    }
    if Ordered(all) {
      forall i, j | 0 <= i < j < |times| ensures times[i] <= times[j] {
        assert all[i + 1] <= all[j + 1];
      }
    }
  }

  /** Both buckets never hold more than the burst, and the accept bucket never less than nothing. */
  lemma CallKeeps(request: bool, b: Bucket, now: int)
    requires Filled(b)
    ensures Filled(Call(request, b, now))
    ensures !request && b.tokens >= 0.0 && b.burst >= 0.0 ==> Call(request, b, now).tokens >= 0.0
  {
    hide Gain;
    GainAdds(now - b.last, 0, b.rate);
  }

  /** While the clock does not go back, calls over a span of time let through at most the burst and the rate over
      that span. */
  lemma AcceptBoundOverSpan(b: Bucket, times: seq<int>)
    requires Filled(b) && b.tokens >= 0.0 && times != [] && Ordered(times) && b.burst >= 0.0
    ensures Admitted(false, b, times) as real <= b.burst + Gain(times[|times| - 1] - times[0], b.rate)
  {
    hide Gain, Ordered, Ascent;
    var at := AcceptRefill(b, times[0]);
    GainAdds(0, 0, b.rate);
    GainAdds(times[0] - b.last, 0, b.rate);
    assert Admitted(false, b, times) == Admitted(false, at, times) by {
      assert AcceptRefill(at, times[0]) == at;
    }
    AcceptBound(at, times);
    OrderedCons(times[0], times);
    AscentExactly(times[0], times);
  }

  // ---------------------------------------------------------------- a clock that goes back

  /** The time between the earliest reading and the latest. */
  function Span(times: seq<int>): nat
    requires times != []
  {
    Latest(times) - Earliest(times)
  }

  function Earliest(times: seq<int>): (t: int)
    requires times != []
    ensures t in times && forall i :: 0 <= i < |times| ==> t <= times[i]
  {
    if |times| == 1 || times[0] <= Earliest(times[1..]) then times[0] else Earliest(times[1..])
  }

  function Latest(times: seq<int>): (t: int)
    requires times != []
    ensures t in times && forall i :: 0 <= i < |times| ==> times[i] <= t
  {
    if |times| == 1 || times[0] >= Latest(times[1..]) then times[0] else Latest(times[1..])
  }

  /** Calls at these readings of the clock, any number of them at each. */
  predicate CallsAt(calls: seq<int>, times: seq<int>)
    decreases |calls| + |times|
  {
    calls == []
    || (times != [] && ((calls[0] == times[0] && CallsAt(calls[1..], times)) || CallsAt(calls, times[1..])))
  }

  /** Leaving out readings does not add to the time gone forward. */
  lemma {:induction false} AscentOfCalls(from: int, calls: seq<int>, times: seq<int>)
    requires CallsAt(calls, times)
    ensures Ascent(from, calls) <= Ascent(from, times)
    decreases |calls| + |times|
  {
    if calls != [] {
      if calls[0] == times[0] && CallsAt(calls[1..], times) {
        AscentOfCalls(calls[0], calls[1..], times);
      } else {
        AscentOfCalls(from, calls, times[1..]);
        SkipFirst(from, times);
      }
    }
  }

  lemma SkipFirst(from: int, times: seq<int>)
    requires times != []
    ensures Ascent(from, times[1..]) <= Ascent(from, times)
  {
  }

  function EachTimes(times: seq<int>, n: nat): seq<int> {
    if times == [] then [] else Repeat(times[0], n) + EachTimes(times[1..], n)
  }

  lemma {:induction false} RepeatedCalls(time: int, n: nat, rest: seq<int>, times: seq<int>)
    requires times != [] && times[0] == time && CallsAt(rest, times)
    ensures CallsAt(Repeat(time, n) + rest, times)
  {
    if n == 0 {
      assert Repeat(time, 0) + rest == rest;
    } else {
      RepeatedCalls(time, n - 1, rest, times);
      assert (Repeat(time, n) + rest)[1..] == Repeat(time, n - 1) + rest;
    }
  }

  lemma {:induction false} EachTimesAreCalls(times: seq<int>, n: nat)
    ensures CallsAt(EachTimes(times, n), times)
  {
    if times != [] {
      EachTimesAreCalls(times[1..], n);
      if EachTimes(times[1..], n) != [] {
        assert CallsAt(EachTimes(times[1..], n), times);
      }
      RepeatedCalls(times[0], n, EachTimes(times[1..], n), times);
    }
  }

  /** Calls at one reading take every whole token. */
  lemma {:induction false} Drained(b: Bucket, k: nat, n: nat, rest: seq<int>)
    requires b.tokens == k as real && k <= n
    ensures Admitted(false, b, Repeat(b.last, n) + rest) == k + Admitted(false, b.(tokens := 0.0), rest)
    decreases n
  {
    var calls := Repeat(b.last, n) + rest;
    if n == 0 {
      assert calls == rest;
    } else {
      assert calls[1..] == Repeat(b.last, n - 1) + rest;
      if k == 0 {
        assert Call(false, b, b.last) == b;
        Drained(b, 0, n - 1, rest);
      } else {
        var next := b.(tokens := (k - 1) as real);
        assert Call(false, b, b.last) == next;
        Drained(next, k - 1, n - 1, rest);
      }
    }
  }

  /** A token a nanosecond, and room for all: whatever time goes forward is let through, over and over. */
  lemma {:induction false} EveryStepCounts(b: Bucket, times: seq<int>, n: nat)
    requires b.tokens == 0.0 && b.rate == 1.0 && b.burst == n as real && Ascent(b.last, times) <= n
    ensures Admitted(false, b, EachTimes(times, n)) == Ascent(b.last, times)
    decreases |times|
  {
    if times != [] && n > 0 {
      var now := times[0];
      var step := if now > b.last then now - b.last else 0;
      var at := AcceptRefill(b, now);
      assert at == Bucket(step as real, b.burst, b.rate, now);
      FirstRefill(b, now, n, EachTimes(times[1..], n));
      Drained(at, step, n, EachTimes(times[1..], n));
      EveryStepCounts(at.(tokens := 0.0), times[1..], n);
    } else if times != [] {
      EveryStepCounts(b.(last := times[0]), times[1..], n);
      assert EachTimes(times, 0) == EachTimes(times[1..], 0);
      NoCalls(times);
      NoCalls(times[1..]);
    }
  }

  lemma {:induction false} NoCalls(times: seq<int>)
    ensures EachTimes(times, 0) == []
  {
    if times != [] {
      NoCalls(times[1..]);
    }
  }

  /** The first call at a reading refills; it may as well have been refilled before. */
  lemma FirstRefill(b: Bucket, now: int, n: nat, rest: seq<int>)
    requires n > 0
    ensures Admitted(false, b, Repeat(now, n) + rest)
         == Admitted(false, AcceptRefill(b, now), Repeat(now, n) + rest)
  {
    var calls := Repeat(now, n) + rest;
    assert calls[0] == now && AcceptRefill(AcceptRefill(b, now), now) == AcceptRefill(b, now);
  }

  /** With this clock no bucket, new and called in any way, lets more through than its burst and its rate over the
      span of the readings. */
  ghost predicate SpanBoundHolds(times: seq<int>)
    requires times != []
  {
    forall perSec: nat, burst: nat, calls | CallsAt(calls, times) ::
      var b := NewAcceptBucket(perSec, burst);
      Admitted(false, b, calls) as real <= b.burst + Gain(Span(times), b.rate)
  }

  /** That is so exactly if the time that the clock has gone forward, counted again where it had gone back, is no
      more than the span. */
  lemma AcceptSpanExactly(times: seq<int>)
    requires times != []
    ensures SpanBoundHolds(times) <==> Ascent(times[0], times) <= Span(times)
    ensures Ordered(times) ==> SpanBoundHolds(times)
  {
    if Ordered(times) {
      OrderedCons(times[0], times);
      AscentExactly(times[0], times);
    }
    if Ascent(times[0], times) <= Span(times) {
      forall perSec: nat, burst: nat, calls | CallsAt(calls, times)
        ensures var b := NewAcceptBucket(perSec, burst);
          Admitted(false, b, calls) as real <= b.burst + Gain(Span(times), b.rate)
      {
        SpanBoundKept(perSec, burst, calls, times);
      }
    } else {
      SpanBoundBroken(times);
    }
  }

  lemma SpanBoundKept(perSec: nat, burst: nat, calls: seq<int>, times: seq<int>)
    requires times != [] && CallsAt(calls, times) && Ascent(times[0], times) <= Span(times)
    ensures var b := NewAcceptBucket(perSec, burst);
      Admitted(false, b, calls) as real <= b.burst + Gain(Span(times), b.rate)
  {
    hide Gain;
    var b := NewAcceptBucket(perSec, burst);
    GainAdds(Span(times), 0, b.rate);
    if calls != [] {
      var at := AcceptRefill(b, calls[0]);
      GainAdds(calls[0], 0, b.rate);
      assert at == b.(last := calls[0]);
      assert AcceptRefill(at, calls[0]) == at;
      assert Admitted(false, b, calls) == Admitted(false, at, calls);
      AcceptBound(at, calls);
      AscentOfCalls(times[0], calls, times);
      var used := Ascent(calls[0], calls);
      assert used <= Ascent(times[0], calls);
      GainAdds(used, Span(times) - used, b.rate);
      GainAdds(Span(times) - used, 0, b.rate);
    }
  }

  lemma SpanBoundBroken(times: seq<int>)
    requires times != [] && Ascent(times[0], times) > Span(times)
    ensures !SpanBoundHolds(times)
  {
    var perSec, n := 1_000_000_000, 1_000_000_000 + Ascent(times[0], times);
    var b := NewAcceptBucket(perSec, n);
    assert b == Bucket(n as real, n as real, 1.0, 0);
    var calls := EachTimes(times, n);
    EachTimesAreCalls(times, n);
    var at := AcceptRefill(b, times[0]);
    assert at == b.(last := times[0]);
    var rest := EachTimes(times[1..], n);
    FirstRefill(b, times[0], n, rest);
    Drained(at, n, n, rest);
    EveryStepCounts(at.(tokens := 0.0), times[1..], n);
    assert Admitted(false, b, calls) == n + Ascent(times[0], times);
    assert Gain(Span(times), 1.0) == Span(times) as real;
  }

  /** One token a second, and a clock that goes back by a second twice: three are let through within that second,
      where the burst and the rate allow two. */
  lemma AcceptClockMustNotGoBack()
    ensures var b, times :=
      NewAcceptBucket(1, 1), [2_000_000_000, 1_000_000_000, 2_000_000_000, 1_000_000_000, 2_000_000_000];
      && Admitted(false, b, times) == 3 && b.burst + Gain(Span(times), b.rate) == 2.0
  {
    var s, t := 1_000_000_000, 2_000_000_000;
    var b0 := NewAcceptBucket(1, 1);
    var times := [t, s, t, s, t];
    var empty := b0.(tokens := 0.0, last := t);
    var early := b0.(tokens := 0.0, last := s);
    assert Call(false, b0, t) == empty && Call(false, empty, s) == early && Call(false, early, t) == empty;
    assert times[1..] == [s, t, s, t] && times[1..][1..] == [t, s, t] && [t, s, t][1..] == [s, t];
    assert [s, t][1..] == [t] && [t][1..] == [];
    assert Admitted(false, early, [t]) == 1;
    assert Admitted(false, empty, [s, t]) == 1;
    assert Admitted(false, early, [t, s, t]) == 2;
    assert Admitted(false, empty, [s, t, s, t]) == 2;
    assert times[0] == t && times[1] == s;
    assert Span(times) == s;
  }

  // ---------------------------------------------------------------- the request bucket

  function RunCalls(b: Bucket, times: seq<int>): Bucket
    decreases |times|
  {
    if times == [] then b else RunCalls(Call(true, b, times[0]), times[1..])
  }

  /** What is let through, and what is left, is paid for by the time between the first call and the last, whatever
      the clock did in between. */
  lemma {:induction false} RequestBalance(b: Bucket, times: seq<int>)
    requires Filled(b)
    ensures Admitted(true, b, times) as real + RunCalls(b, times).tokens
         <= b.tokens + (if times == [] then 0.0 else Gain(times[|times| - 1] - b.last, b.rate))
    decreases |times|
  {
    hide Gain;
    if times != [] {
      var now := times[0];
      RequestBalance(Call(true, b, now), times[1..]);
      if |times| > 1 {
        var end := times[|times| - 1];
        assert times[1..][|times| - 2] == end;
        GainAdds(now - b.last, end - now, b.rate);
      }
    }
  }

  lemma {:induction false} LastCall(b: Bucket, times: seq<int>)
    requires times != []
    ensures RunCalls(b, times) == Call(true, RunCalls(b, times[..|times| - 1]), times[|times| - 1])
    decreases |times|
  {
    if |times| > 1 {
      LastCall(Call(true, b, times[0]), times[1..]);
      assert times[1..][..|times| - 2] == times[..|times| - 1][1..];
    } else {
      assert times[..0] == [] && times[1..] == [];
    }
  }

  /** Up to a call that is let through, at most the limit and the rate since the first call: no assumption on the
      clock. */
  lemma RequestBound(b: Bucket, times: seq<int>)
    requires Filled(b) && times != []
    requires Allows(true, RunCalls(b, times[..|times| - 1]), times[|times| - 1])
    ensures Admitted(true, b, times) as real <= b.burst + Gain(times[|times| - 1] - times[0], b.rate)
  {
    hide Gain;
    var at := RequestRefill(b, times[0]);
    GainAdds(0, 0, b.rate);
    assert RequestRefill(at, times[0]) == at;
    RequestBalance(at, times);
    LastCall(b, times);
    assert RunCalls(at, times) == RunCalls(b, times);
  }

  /** The number of requests promised is the number that the same moment still sees let through. */
  lemma {:induction false} RemainingIsKept(b: Bucket, n: nat)
    requires 0.0 <= b.tokens <= b.burst
    ensures Admitted(true, b, Repeat(b.last, n)) == if n <= b.tokens.Floor then n else b.tokens.Floor
    decreases n
  {
    if n > 0 {
      var calls := Repeat(b.last, n);
      assert calls[1..] == Repeat(b.last, n - 1);
      assert RequestRefill(b, b.last) == b;
      RemainingIsKept(Spend(b), n - 1);
    }
  }

  /** A refused client is let through after a wait exactly if the wait earns the missing part of a token: one
      nanosecond more than the time to retry is enough, and anything shorter than that time is not. */
  lemma RetryExactly(b: Bucket, wait: int)
    requires b.tokens < 1.0 <= b.burst && b.rate > 0.0
    ensures Allows(true, b, b.last + wait) <==> wait as real >= (1.0 - b.tokens) / b.rate
    ensures wait > Wait(b) ==> Allows(true, b, b.last + wait)
    ensures wait < Wait(b) ==> !Allows(true, b, b.last + wait)
  {
    var need := (1.0 - b.tokens) / b.rate;
    assert need * b.rate == 1.0 - b.tokens;
    if wait as real >= need {
      assert wait as real * b.rate >= need * b.rate;
    } else {
      assert wait as real * b.rate < need * b.rate;
    }
  }

  // ---------------------------------------------------------------- what the limits mean

  lemma RateOver(n: nat, time: int)
    requires time > 0
    ensures Gain(time, n as real / time as real) == n as real
  {
  }

  /** A window earns the limit, and a second what the accept bucket is made for. */
  lemma LimitsAreEarned(limit: nat, window: int, perSec: nat, burst: nat)
    requires window > 0
    ensures Gain(window, PerNano(limit, window)) == limit as real
    ensures Gain(1_000_000_000, NewAcceptBucket(perSec, burst).rate) == perSec as real
  {
    RateOver(limit, window);
    RateOver(perSec, 1_000_000_000);
  }

  /** After a window without a call, or longer, a client may make as many requests at once as the limit, and no more. */
  lemma WindowRestores(b: Bucket, limit: nat, window: int, idle: int, n: nat)
    requires window > 0 && b == Bucket(b.tokens, limit as real, PerNano(limit, window), b.last)
    requires 0.0 <= b.tokens <= limit as real && idle >= window && n >= limit
    ensures Admitted(true, b, Repeat(b.last + idle, n)) == limit
  {
    hide PerNano, Gain, RequestRefill, Admitted, Repeat;
    var now := b.last + idle;
    FullAgain(b, limit, window, idle);
    RemainingIsKept(RequestRefill(b, now), n);
    FirstRequestRefill(b, now, n);
  }

  lemma FullAgain(b: Bucket, limit: nat, window: int, idle: int)
    requires window > 0 && b == Bucket(b.tokens, limit as real, PerNano(limit, window), b.last)
    requires 0.0 <= b.tokens <= limit as real && idle >= window
    ensures RequestRefill(b, b.last + idle) == Bucket(limit as real, limit as real, b.rate, b.last + idle)
  {
    hide PerNano, Gain;
    LimitsAreEarned(limit, window, 0, 0);
    GainAdds(window, idle - window, b.rate);
    RateIsPositive(limit, window, idle - window);
  }

  lemma RateIsPositive(limit: nat, window: int, more: nat)
    requires window > 0
    ensures Gain(more, PerNano(limit, window)) >= 0.0
  {
    GainAdds(more, 0, PerNano(limit, window));
  }

  lemma FirstRequestRefill(b: Bucket, now: int, n: nat)
    ensures Admitted(true, b, Repeat(now, n)) == Admitted(true, RequestRefill(b, now), Repeat(now, n))
  {
    hide Gain;
    GainAdds(0, 0, b.rate);
    if n > 0 {
      assert Repeat(now, n)[0] == now && RequestRefill(RequestRefill(b, now), now) == RequestRefill(b, now);
    }
  }

  /** A new accept bucket lets its whole burst through at once, and no more at that moment. */
  lemma BurstAtOnce(perSec: nat, burst: nat, n: nat)
    requires n >= burst && n >= perSec
    ensures Admitted(false, NewAcceptBucket(perSec, burst), Repeat(0, n)) == if burst < perSec then perSec else burst
  {
    var b := NewAcceptBucket(perSec, burst);
    Drained(b, if burst < perSec then perSec else burst, n, []);
    assert Repeat(0, n) + [] == Repeat(0, n);
  }

  // ---------------------------------------------------------------- the default cap

  const CEILING := 262144
  const RESERVE := 256

  /** deriveMaxConns: never zero, which would mean no limit, and within what the descriptors leave. */
  function DeriveMaxConns(rlimitSoft: nat, workers: nat): (r: nat)
    ensures 1 <= r <= CEILING
    ensures rlimitSoft > 3 * workers + RESERVE ==> r + 3 * workers + RESERVE <= rlimitSoft
    ensures r == CEILING || r == 1 || r + 3 * workers + RESERVE == rlimitSoft
  {
    var headroom := 3 * workers + RESERVE;
    if rlimitSoft <= headroom then 1
    else if rlimitSoft - headroom > CEILING then CEILING
    else rlimitSoft - headroom
  }
}
