/** One wait of the event loop (wing_engine_linux.go): kernel events become worker events in an array of fixed size.
    The listener's one event may become many, and connection events are edge triggered: one that is dropped is lost. */
module EpollBatch {

  datatype KernelEvent = Listener | WakeFd | Socket(fd: nat, readable: bool, writable: bool)

  datatype Event = Nothing | Accepted(fd: nat) | AcceptFailed | Woken | CanRead(fd: nat) | CanWrite(fd: nat)

  /** What a kernel event that is not the listener's must become. Writability wins over readability. */
  function Deliver(k: KernelEvent): seq<Event> {
    match k
    case Listener => []
    case WakeFd => [Woken]
    case Socket(fd, readable, writable) =>
      if writable then [CanWrite(fd)] else if readable then [CanRead(fd)] else []
  }

  function DeliverAll(ks: seq<KernelEvent>): seq<Event> {
    if ks == [] then [] else DeliverAll(ks[..|ks| - 1]) + Deliver(ks[|ks| - 1])
  }

  /** The kernel reports something that a worker must hear of. */
  predicate Reports(k: KernelEvent) {
    k.WakeFd? || (k.Socket? && (k.readable || k.writable))
  }

  function CountReports(ks: seq<KernelEvent>): nat {
    if ks == [] then 0 else CountReports(ks[..|ks| - 1]) + (if Reports(ks[|ks| - 1]) then 1 else 0)
  }

  /** A wake-up is a wake-up; a descriptor that can be written is one to write, and else it is one to read. */
  predicate Tells(k: KernelEvent, e: Event) {
    match e
    case Woken => k.WakeFd?
    case CanWrite(fd) => k.Socket? && k.fd == fd && k.writable
    case CanRead(fd) => k.Socket? && k.fd == fd && k.readable && !k.writable
    case _ => false
  }

  /** The events to deliver are one for each report of the kernel, in the same order, and no others. */
  lemma {:induction false} DeliversExactly(ks: seq<KernelEvent>)
    ensures |DeliverAll(ks)| == CountReports(ks)
    ensures forall j :: 0 <= j < |ks| && Reports(ks[j]) ==>
      CountReports(ks[..j]) < |DeliverAll(ks)| && Tells(ks[j], DeliverAll(ks)[CountReports(ks[..j])])
  {
    if ks != [] {
      var front := ks[..|ks| - 1];
      DeliversExactly(front);
      forall j | 0 <= j < |ks| && Reports(ks[j])
        ensures CountReports(ks[..j]) < |DeliverAll(ks)| && Tells(ks[j], DeliverAll(ks)[CountReports(ks[..j])])
      {
        if j < |front| {
          assert front[j] == ks[j] && front[..j] == ks[..j];
        } else {
          assert ks[..j] == front;
        }
      }
    }
  }

  predicate FromAccept(e: Event) {
    e.Accepted? || e.AcceptFailed?
  }

  function WithoutAccepts(es: seq<Event>): seq<Event> {
    if es == [] then []
    else WithoutAccepts(es[..|es| - 1]) + (if FromAccept(es[|es| - 1]) then [] else [es[|es| - 1]])
  }

  predicate OnlyAccepts(es: seq<Event>) {
    forall i :: 0 <= i < |es| ==> FromAccept(es[i])
  }

  lemma {:induction false} SkipAccepts(es: seq<Event>, more: seq<Event>)
    requires OnlyAccepts(more)
    ensures WithoutAccepts(es + more) == WithoutAccepts(es)
    decreases |more|
  {
    if more == [] {
      assert es + more == es;
    } else {
      var all := es + more;
      assert all[..|all| - 1] == es + more[..|more| - 1];
      SkipAccepts(es, more[..|more| - 1]);
    }
  }

  /** The queue of connections that wait to be accepted: each call of accept4 gives one, or says that there is none,
      or fails. */
  datatype AcceptResult = Got(fd: nat) | Again | Error

  method Accept4() returns (r: AcceptResult)
  {
    r := *;
  }

  /** What the loop must hear of it. */
  function Heard(r: AcceptResult): seq<Event> {
    match r
    case Got(fd) => [Accepted(fd)]
    case Again => []
    case Error => [AcceptFailed]
  }

  function AllHeard(rs: seq<AcceptResult>): seq<Event> {
    if rs == [] then [] else AllHeard(rs[..|rs| - 1]) + Heard(rs[|rs| - 1])
  }

  lemma {:induction false} HeardBoth(rs: seq<AcceptResult>, more: seq<AcceptResult>)
    ensures AllHeard(rs + more) == AllHeard(rs) + AllHeard(more)
    decreases |more|
  {
    hide Heard;
    if more == [] {
      assert rs + more == rs;
    } else {
      var all, front, last := rs + more, more[..|more| - 1], more[|more| - 1];
      assert all[..|all| - 1] == rs + front && all[|all| - 1] == last;
      HeardBoth(rs, front);
      assert AllHeard(rs) + (AllHeard(front) + Heard(last)) == AllHeard(rs) + AllHeard(front) + Heard(last);
    }
  }

  lemma {:induction false} HeardIsFromAccept(rs: seq<AcceptResult>)
    ensures OnlyAccepts(AllHeard(rs)) && |AllHeard(rs)| <= |rs|
  {
    if rs != [] {
      HeardIsFromAccept(rs[..|rs| - 1]);
    }
  }

  function AcceptsIn(es: seq<Event>): seq<Event> {
    if es == [] then []
    else AcceptsIn(es[..|es| - 1]) + (if FromAccept(es[|es| - 1]) then [es[|es| - 1]] else [])
  }

  lemma {:induction false} AddAccepts(es: seq<Event>, more: seq<Event>)
    requires OnlyAccepts(more)
    ensures AcceptsIn(es + more) == AcceptsIn(es) + more
    decreases |more|
  {
    if more == [] {
      assert es + more == es;
    } else {
      var all := es + more;
      assert all[..|all| - 1] == es + more[..|more| - 1];
      AddAccepts(es, more[..|more| - 1]);
    }
  }

  /** drainAccept: into the slots from `at` on, `slots` of them. It asks until the slots are full or an answer is not a
      connection, and the loop hears of every answer. */
  method DrainAccept(events: array<Event>, at: nat, slots: nat)
      returns (count: nat, ghost answers: seq<AcceptResult>)
    requires at + slots <= events.Length
    modifies events
    ensures count <= slots && events[at..at + count] == AllHeard(answers) && (slots > 0 ==> answers != [])
    ensures forall i :: 0 <= i < |answers| - 1 ==> answers[i].Got?
    ensures count == slots || !answers[|answers| - 1].Got?
    ensures forall i :: 0 <= i < events.Length && !(at <= i < at + count) ==> events[i] == old(events[i])
  {
    count, answers := 0, [];
    while count < slots
      invariant count <= slots && events[at..at + count] == AllHeard(answers) && (count > 0 ==> answers != [])
      invariant forall i :: 0 <= i < |answers| ==> answers[i].Got?
      invariant forall i :: 0 <= i < events.Length && !(at <= i < at + count) ==> events[i] == old(events[i])
    {
      ghost var before, asked := events[at..at + count], answers;
      var r := Accept4();
      answers := answers + [r];
      assert answers[..|asked|] == asked;
      match r {
        case Again =>
          return;
        case Error =>
          events[at + count] := AcceptFailed;
          count := count + 1;
          assert events[at..at + count] == before + [AcceptFailed];
          return;
        case Got(fd) =>
          events[at + count] := Accepted(fd);
          count := count + 1;
          assert events[at..at + count] == before + [Accepted(fd)];
      }
    }
  }

  lemma OneMore(es: seq<Event>, more: seq<Event>)
    requires |more| <= 1 && forall i :: 0 <= i < |more| ==> !FromAccept(more[i])
    ensures WithoutAccepts(es + more) == WithoutAccepts(es) + more && AcceptsIn(es + more) == AcceptsIn(es)
  {
    hide FromAccept;
    if more == [] {
      assert es + more == es;
    } else {
      assert more == [more[0]];
      OneOther(es, more[0]);
    }
  }

  lemma OneOther(es: seq<Event>, e: Event)
    requires !FromAccept(e)
    ensures WithoutAccepts(es + [e]) == WithoutAccepts(es) + [e] && AcceptsIn(es + [e]) == AcceptsIn(es)
  {
    hide FromAccept;
    var all := es + [e];
    assert all[..|all| - 1] == es && all[|all| - 1] == e;
  }

  /** One event of the batch that is not the listener's. */
  method DeliverOne(k: KernelEvent, events: array<Event>, at: nat) returns (count: nat)
    requires !k.Listener? && at < events.Length
    modifies events
    ensures at <= count <= at + 1 && events[..count] == old(events[..at]) + Deliver(k)
  {
    count := at;
    match k {
      case WakeFd =>
        events[at] := Woken;
        count := count + 1;
      case Socket(fd, readable, writable) =>
        if writable {
          events[at] := CanWrite(fd);
          count := count + 1;
        } else if readable {
          events[at] := CanRead(fd);
          count := count + 1;
        }
    }
  }

  /** The listener's event. */
  method Listen(events: array<Event>, at: nat, slots: nat) returns (count: nat, ghost answers: seq<AcceptResult>)
    requires at + slots <= events.Length && slots > 0
    modifies events
    ensures count <= slots && answers != []
    ensures WithoutAccepts(events[..at + count]) == WithoutAccepts(old(events[..at]))
    ensures AcceptsIn(events[..at + count]) == AcceptsIn(old(events[..at])) + AllHeard(answers)
  {
    hide WithoutAccepts, AcceptsIn, FromAccept, AllHeard, OnlyAccepts;
    ghost var before := events[..at];
    count, answers := DrainAccept(events, at, slots);
    assert events[..at + count] == before + AllHeard(answers);
    HeardIsFromAccept(answers);
    SkipAccepts(before, AllHeard(answers));
    AddAccepts(before, AllHeard(answers));
  }

  /** waitWithTimeout: every event of the batch that is not the listener's is delivered, in order. Everything that a
      call of accept4 has answered is heard of too, in order; and a listener always gets a slot, so that it is asked. */
  method Translate(ks: seq<KernelEvent>, events: array<Event>)
      returns (count: nat, ghost answers: seq<AcceptResult>)
    requires |ks| <= events.Length
    modifies events
    ensures count <= events.Length
    ensures WithoutAccepts(events[..count]) == DeliverAll(ks) && |WithoutAccepts(events[..count])| == CountReports(ks)
    ensures forall j :: 0 <= j < |ks| && Reports(ks[j]) ==>
      CountReports(ks[..j]) < CountReports(ks) && Tells(ks[j], WithoutAccepts(events[..count])[CountReports(ks[..j])])
    ensures AcceptsIn(events[..count]) == AllHeard(answers)
    ensures Listener in ks ==> answers != []
  {
    hide WithoutAccepts, AcceptsIn, Deliver, FromAccept, CountReports, Reports, Tells, AllHeard;
    count, answers := 0, [];
    NoEvents();
    assert events[..0] == [];
    var i := 0;
    while i < |ks| && count < events.Length
      invariant 0 <= i <= |ks| && count + (|ks| - i) <= events.Length
      invariant WithoutAccepts(events[..count]) == DeliverAll(ks[..i])
      invariant AcceptsIn(events[..count]) == AllHeard(answers)
      invariant Listener in ks[..i] ==> answers != []
      decreases |ks| - i
    {
      var n := |ks|;
      ghost var before := events[..count];
      assert ks[..i + 1] == ks[..i] + [ks[i]] && ks[..i + 1][..i] == ks[..i];
      if ks[i].Listener? {
        var acceptSlots := events.Length - count - (n - i - 1);
        assert acceptSlots >= 1;
        if acceptSlots > 0 {
          ghost var more;
          var got;
          got, more := Listen(events, count, acceptSlots);
          HeardBoth(answers, more);
          count, answers := count + got, answers + more;
        }
        Delivered(ks[i]);
      } else {
        Delivered(ks[i]);
        OneMore(before, Deliver(ks[i]));
        count := DeliverOne(ks[i], events, count);
        assert forall j :: 0 <= j < |before| ==> events[..count][j] == before[j];
      }
      i := i + 1;
    }
    assert ks[..i] == ks;
    DeliversExactly(ks);
  }

  lemma NoEvents()
    ensures WithoutAccepts([]) == [] && AcceptsIn([]) == [] && AllHeard([]) == []
  {
  }

  lemma Delivered(k: KernelEvent)
    ensures k.Listener? ==> Deliver(k) == []
    ensures |Deliver(k)| <= 1 && forall i :: 0 <= i < |Deliver(k)| ==> !FromAccept(Deliver(k)[i])
  {
  }
}
