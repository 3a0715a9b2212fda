/** Closing a hijacked connection (wing_ws.go). Any number of goroutines of the application may call Close, at any
    time, even after the server has taken the descriptor back; the goroutine that runs the takeover waits for one of
    them or for the server's shutdown, closes the adapter itself in that case, and then lets the event loop close
    the descriptor, whose number the kernel may use again. */
module Hijack {

  type Caller = nat

  /** Inside Close. */
  datatype Pc =
    | Started       // about to swap the closed flag
    | Lost          // someone else was first; waits for done
    | Won           // first; about to shut the raw descriptor down
    | ShutDown      // has done so; about to close the done channel
    | Returned

  /** The takeover goroutine after the handler has returned. */
  datatype Server =
    | Waiting               // for done or for the server's shutdown
    | Closing(id: Caller)   // in its own call of Close
    | Finished              // about to send the message
    | Sent                  // the event loop may close the descriptor

  datatype State = State(
    flag: bool,
    done: bool,
    callers: map<Caller, Pc>,
    shutdowns: nat,          // raw shutdowns of the descriptor number
    cancelled: bool,
    server: Server,
    open: bool)              // the descriptor is still this connection's

  ghost predicate Init(s: State) {
    s == State(false, false, map[], 0, s.cancelled, Waiting, true)
  }

  /** One more call of Close. */
  ghost predicate Call(s: State, t: State, c: Caller) {
    c !in s.callers && t == s.(callers := s.callers[c := Started])
  }

  ghost predicate Swap(s: State, t: State, c: Caller) {
    && c in s.callers && s.callers[c] == Started
    && t == s.(flag := true, callers := s.callers[c := if s.flag then Lost else Won])
  }

  ghost predicate Shut(s: State, t: State, c: Caller) {
    && c in s.callers && s.callers[c] == Won
    && t == s.(shutdowns := s.shutdowns + 1, callers := s.callers[c := ShutDown])
  }

  ghost predicate CloseDone(s: State, t: State, c: Caller) {
    && c in s.callers && s.callers[c] == ShutDown
    && t == s.(done := true, callers := s.callers[c := Returned])
  }

  ghost predicate WakeUp(s: State, t: State, c: Caller) {
    && c in s.callers && s.callers[c] == Lost && s.done
    && t == s.(callers := s.callers[c := Returned])
  }

  ghost predicate Cancel(s: State, t: State) {
    t == s.(cancelled := true)
  }

  ghost predicate SeeDone(s: State, t: State) {
    s.server == Waiting && s.done && t == s.(server := Finished)
  }

  /** The shutdown wins the race: the server calls Close like anyone else. */
  ghost predicate SeeCancelled(s: State, t: State, c: Caller) {
    && s.server == Waiting && s.cancelled && c !in s.callers
    && t == s.(server := Closing(c), callers := s.callers[c := Started])
  }

  ghost predicate OwnCloseReturns(s: State, t: State) {
    && s.server.Closing? && s.server.id in s.callers && s.callers[s.server.id] == Returned
    && t == s.(server := Finished)
  }

  ghost predicate SendMessage(s: State, t: State) {
    s.server == Finished && t == s.(server := Sent)
  }

  /** The event loop takes the message and closes the descriptor. */
  ghost predicate Reclaim(s: State, t: State) {
    s.server == Sent && s.open && t == s.(open := false)
  }

  ghost predicate CallerStep(s: State, t: State, c: Caller) {
    Swap(s, t, c) || Shut(s, t, c) || CloseDone(s, t, c) || WakeUp(s, t, c)
  }

  ghost predicate ServerStep(s: State, t: State) {
    SeeDone(s, t) || OwnCloseReturns(s, t) || SendMessage(s, t) || Reclaim(s, t)
  }

  ghost predicate Next(s: State, t: State) {
    || Cancel(s, t) || ServerStep(s, t)
    || (exists c :: Call(s, t, c) || SeeCancelled(s, t, c) || CallerStep(s, t, c))
  }

  // ---------------------------------------------------------------- the invariant

  /** At most one caller is past the swap as the winner, and it is there exactly while the flag is set and done is
      not. */
  ghost predicate WinnerOk(s: State) {
    && (forall c :: c in s.callers && Winning(s.callers[c]) ==> s.flag && !s.done)
    && (forall c, d :: c in s.callers && d in s.callers && Winning(s.callers[c]) && Winning(s.callers[d]) ==> c == d)
    && (s.flag && !s.done ==> exists c :: c in s.callers && Winning(s.callers[c]))
    && (s.done ==> s.flag)
  }

  predicate Winning(pc: Pc) {
    pc == Won || pc == ShutDown
  }

  ghost predicate CountOk(s: State) {
    && s.shutdowns <= 1
    && (s.done ==> s.shutdowns == 1)
    && (s.shutdowns == 1 <==> s.done || exists c :: c in s.callers && s.callers[c] == ShutDown)
  }

  ghost predicate OthersOk(s: State) {
    && (forall c :: c in s.callers && s.callers[c] == Lost ==> s.flag)
    && (forall c :: c in s.callers && s.callers[c] == Returned ==> s.done)
    && (s.server == Finished || s.server == Sent ==> s.done)
    && (s.server.Closing? ==> s.server.id in s.callers)
    && (!s.open ==> s.server == Sent)
  }

  ghost predicate Inv(s: State) {
    WinnerOk(s) && CountOk(s) && OthersOk(s)
  }

  lemma CallerStepKeeps(s: State, t: State, c: Caller)
    requires Inv(s) && CallerStep(s, t, c)
    ensures Inv(t)
  {
    assert forall d :: d in t.callers && d != c ==> d in s.callers && t.callers[d] == s.callers[d];
    if Swap(s, t, c) {
      if !s.flag {
        assert Winning(t.callers[c]);
      } else if !s.done {
        var d :| d in s.callers && Winning(s.callers[d]);
        assert d in t.callers && Winning(t.callers[d]);
      }
      if s.shutdowns == 1 && !s.done {
        var d :| d in s.callers && s.callers[d] == ShutDown;
        assert t.callers[d] == ShutDown;
      }
    } else if Shut(s, t, c) {
      assert Winning(t.callers[c]) && t.callers[c] == ShutDown;
    }
  }

  lemma CallKeeps(s: State, t: State, c: Caller)
    requires Inv(s) && (Call(s, t, c) || SeeCancelled(s, t, c))
    ensures Inv(t)
  {
    assert forall d :: d in s.callers ==> d != c && t.callers[d] == s.callers[d];
    if s.flag && !s.done {
      var d :| d in s.callers && Winning(s.callers[d]);
      assert Winning(t.callers[d]);
    }
    if s.shutdowns == 1 && !s.done {
      var d :| d in s.callers && s.callers[d] == ShutDown;
      assert t.callers[d] == ShutDown;
    }
  }

  lemma NextKeeps(s: State, t: State)
    requires Inv(s) && Next(s, t)
    ensures Inv(t)
  {
    if Cancel(s, t) || ServerStep(s, t) {
    } else {
      var c :| Call(s, t, c) || SeeCancelled(s, t, c) || CallerStep(s, t, c);
      if CallerStep(s, t, c) {
        CallerStepKeeps(s, t, c);
      } else {
        CallKeeps(s, t, c);
      }
    }
  }

  ghost predicate Run(run: seq<State>) {
    && run != [] && Init(run[0])
    && forall i :: 0 <= i < |run| - 1 ==> Next(run[i], run[i + 1])
  }

  lemma {:induction false} RunKeeps(run: seq<State>, i: nat)
    requires Run(run) && i < |run|
    ensures Inv(run[i])
  {
    hide Inv, Next;
    if i == 0 {
      InitHolds(run[0]);
    } else {
      RunKeeps(run, i - 1);
      assert Next(run[i - 1], run[i - 1 + 1]);
      NextKeeps(run[i - 1], run[i]);
    }
  }

  lemma InitHolds(s: State)
    requires Init(s)
    ensures Inv(s)
  {
  }

  /** In every run: the raw shutdown happens at most once, and only on this connection's own descriptor; no Close
      returns before it has happened; and the message that gives the descriptor back comes after it. */
  lemma CloseIsSafe(run: seq<State>, i: nat)
    requires Run(run) && i < |run|
    ensures var s := run[i];
      && s.shutdowns <= 1
      && (forall c :: c in s.callers && s.callers[c] == Won ==> s.open && s.server != Sent)
      && (forall c :: c in s.callers && s.callers[c] == Returned ==> s.shutdowns == 1)
      && (s.server == Sent || !s.open ==> s.shutdowns == 1)
  {
    RunKeeps(run, i);
  }

  /** Nobody is stuck: while a Close has not returned, some caller can take a step. */
  lemma SomeCloseGoesOn(s: State, c: Caller) returns (d: Caller, t: State)
    requires Inv(s) && c in s.callers && s.callers[c] != Returned
    ensures CallerStep(s, t, d)
  {
    if s.callers[c] == Lost && !s.done {
      d :| d in s.callers && Winning(s.callers[d]);
    } else {
      d := c;
    }
    match s.callers[d]
    case Started => t := s.(flag := true, callers := s.callers[d := if s.flag then Lost else Won]);
    case Lost => t := s.(callers := s.callers[d := Returned]);
    case Won => t := s.(shutdowns := s.shutdowns + 1, callers := s.callers[d := ShutDown]);
    case ShutDown => t := s.(done := true, callers := s.callers[d := Returned]);
  }

  lemma {:induction false} AnotherCaller(callers: set<Caller>) returns (c: Caller)
    ensures forall d :: d in callers ==> d < c
    decreases |callers|
  {
    c := 0;
    if callers != {} {
      var d :| d in callers;
      var above := AnotherCaller(callers - {d});
      c := if above > d then above else d + 1;
      assert forall e :: e in callers ==> e == d || e in callers - {d};
    }
  }

  /** The takeover ends: as soon as some Close is over or the server shuts down, the goroutine can go on, or is in a
      call of Close that can, until the descriptor has been given back and closed. */
  lemma ServerGoesOn(s: State) returns (t: State, c: Caller)
    requires Inv(s) && s.open && (s.done || s.cancelled)
    ensures ServerStep(s, t) || SeeCancelled(s, t, c) || (s.server.Closing? && CallerStep(s, t, c))
  {
    c := 0;
    match s.server
    case Waiting =>
      if s.done {
        t := s.(server := Finished);
      } else {
        c := AnotherCaller(s.callers.Keys);
        t := s.(server := Closing(c), callers := s.callers[c := Started]);
      }
    case Closing(id) =>
      if s.callers[id] == Returned {
        t := s.(server := Finished);
      } else {
        c, t := SomeCloseGoesOn(s, id);
      }
    case Finished => t := s.(server := Sent);
    case Sent => t := s.(open := false);
  }

  /** Every step of a caller brings all the calls closer to their end, so those under way are over after finitely
      many. */
  function Distance(pc: Pc): nat {
    match pc
    case Started => 3
    case Won => 2
    case Lost => 1
    case ShutDown => 1
    case Returned => 0
  }

  lemma StepsEnd(s: State, t: State, c: Caller)
    requires CallerStep(s, t, c)
    ensures t.callers.Keys == s.callers.Keys && Distance(t.callers[c]) < Distance(s.callers[c])
    ensures forall d :: d in s.callers && d != c ==> t.callers[d] == s.callers[d]
  {
  }
}
