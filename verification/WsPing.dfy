/** The limit on pings: a count for a window that starts again with the first ping a second or more after its start. */
module WsPing {
  import opened Times

  const SECOND := 1_000_000_000

  datatype Window = Window(count: nat, start: int)

  function CountPing(w: Window, now: int): Window {
    if now - w.start >= SECOND then Window(1, now) else Window(w.count + 1, w.start)
  }

  function CountPings(w: Window, times: seq<int>): Window
    decreases |times|
  {
    if times == [] then w else CountPings(CountPing(w, times[0]), times[1..])
  }

  /** How many of these pings are answered: the first above the limit ends the connection. */
  function Answered(w: Window, times: seq<int>, max: nat): nat
    decreases |times|
  {
    if times == [] then 0
    else
      var next := CountPing(w, times[0]);
      if next.count > max then 0 else 1 + Answered(next, times[1..], max)
  }

  lemma {:induction false} WithinWindow(w: Window, times: seq<int>, max: nat)
    requires forall i :: 0 <= i < |times| ==> times[i] - w.start < SECOND
    ensures Answered(w, times, max) <= if w.count <= max then max - w.count else 0
    decreases |times|
  {
    if times != [] {
      WithinWindow(CountPing(w, times[0]), times[1..], max);
    }
  }

  /** In less than a second, what is left of a window is answered and at most one whole window more. */
  lemma {:induction false} TwoWindows(w: Window, times: seq<int>, max: nat)
    requires Ordered(times) && (times != [] ==> times[|times| - 1] - times[0] < SECOND)
    ensures Answered(w, times, max) <= max + if w.count <= max then max - w.count else 0
    ensures times != [] && times[0] - w.start >= SECOND ==> Answered(w, times, max) <= max
    decreases |times|
  {
    if times != [] {
      var next, rest := CountPing(w, times[0]), times[1..];
      if times[0] - w.start >= SECOND {
        forall i | 0 <= i < |rest| ensures rest[i] - next.start < SECOND {
          assert rest[i] == times[i + 1] && times[i + 1] <= times[|times| - 1];
        }
        WithinWindow(next, rest, max);
      } else {
        if rest != [] {
          assert times[0] <= rest[0] && rest[|rest| - 1] == times[|times| - 1];
        }
        TwoWindows(next, rest, max);
      }
    }
  }

  /** A window that a ping has started counts that ping. */
  lemma {:induction false} CountsItself(w: Window, times: seq<int>)
    requires w.count >= 1 || times != []
    ensures CountPings(w, times).count >= 1
    decreases |times|
  {
    if times != [] {
      CountsItself(CountPing(w, times[0]), times[1..]);
    }
  }

  /** A connection starts with no ping, and with a window that ended long ago. Whatever pings `before` it has counted,
      less than a second never sees more answers than twice the limit less one. */
  lemma InLessThanASecond(zero: int, before: seq<int>, times: seq<int>, max: nat)
    requires max >= 1 && Ordered(times) && (times != [] ==> times[|times| - 1] - times[0] < SECOND)
    requires before + times != [] ==> (before + times)[0] - zero >= SECOND
    ensures Answered(CountPings(Window(0, zero), before), times, max) <= 2 * max - 1
  {
    if before == [] {
      assert before + times == times;
    } else {
      CountsItself(Window(0, zero), before);
    }
    TwoWindows(CountPings(Window(0, zero), before), times, max);
  }

  // ---------------------------------------------------------------- the bound is reached

  lemma {:induction false} AnsweredTogether(w: Window, now: int, n: nat, rest: seq<int>, max: nat)
    requires now - w.start < SECOND && w.count + n <= max
    ensures Answered(w, Repeat(now, n) + rest, max) == n + Answered(Window(w.count + n, w.start), rest, max)
    decreases n
  {
    if n == 0 {
      assert Repeat(now, n) + rest == rest;
    } else {
      assert (Repeat(now, n) + rest)[1..] == Repeat(now, n - 1) + rest;
      AnsweredTogether(CountPing(w, now), now, n - 1, rest, max);
    }
  }

  /** For every limit there is a run of a new connection in which so many are answered within a nanosecond: one ping
      starts a window, the others come at its end and at the beginning of the next. */
  lemma ReachedForEveryLimit(zero: int, start: int, max: nat)
    requires max >= 1 && start - zero >= SECOND
    ensures var times := Repeat(start + SECOND - 1, max - 1) + Repeat(start + SECOND, max);
      && Ordered([start] + times) && times[|times| - 1] - times[0] <= 1
      && Answered(Window(0, zero), [start], max) == 1
      && Answered(CountPings(Window(0, zero), [start]), times, max) == 2 * max - 1
  {
    var early, late := Repeat(start + SECOND - 1, max - 1), Repeat(start + SECOND, max);
    var w := Window(1, start);
    assert [start][1..] == [];
    assert CountPings(Window(0, zero), [start]) == CountPings(w, []) == w;
    AnsweredTogether(w, start + SECOND - 1, max - 1, late, max);
    var next := Window(1, start + SECOND);
    assert CountPing(Window(max, start), start + SECOND) == next;
    assert late[1..] == Repeat(start + SECOND, max - 1) + [];
    AnsweredTogether(next, start + SECOND, max - 1, [], max);
  }
}
