/** Readings of a clock, in nanoseconds. */
module Times {

  predicate Ordered(times: seq<int>) {
    forall i, j :: 0 <= i < j < |times| ==> times[i] <= times[j]
  }

  function Repeat(time: int, n: nat): (times: seq<int>)
    ensures |times| == n && forall i :: 0 <= i < n ==> times[i] == time
  {
    seq(n, _ => time)
  }
}
