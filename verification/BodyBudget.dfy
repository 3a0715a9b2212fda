/** The budget for bodies in flight (wing_transport.go), where one is set: one counter a worker, charged and refunded
    with atomic adds by the event loop and by takeover goroutines. A reservation adds first and looks at the total
    afterwards, so the counter may exceed the limit; what passes the check never does. Every exit has its own refund in
    the source, and its own step here, which subtracts what its goroutine has in hand. */
module BodyBudget {
  import opened Sums

  /** Where the event loop is with a connection. `Idle` is between calls. */
  datatype LoopPc =
    | Idle
    | Added(total: int, need: nat)   // has added the need; `total` is what the add returned
    | Over(need: nat)                // has seen a total over the limit
    | Fits(need: nat)                // may collect the body; about to look for the end of the header

  /** Where a goroutine is that has taken over a connection. */
  datatype TaskPc =
    | Reading                        // between requests
    | Charged(total: int, need: nat)
    | Refused(need: nat)
    | Interim(need: nat)             // about to write the 100 response that the client waits for
    | Collecting(need: nat)
    | Left

  /** A connection of the event loop, with its bodyNeed, or a goroutine. */
  datatype Holder = Loop(pc: LoopPc, bodyNeed: nat) | Task(task: TaskPc)

  type Id = nat

  /** The counter; and, for the statement only, how often it has been charged and refunded. */
  datatype State = State(counter: int, holders: map<Id, Holder>, charges: nat, refunds: nat)

  ghost predicate Init(s: State) {
    s == State(0, map[], 0, 0)
  }

  // ---------------------------------------------------------------- the event loop

  ghost predicate Opens(s: State, t: State, h: Id, l: Holder) {
    && h !in s.holders && (l == Loop(Idle, 0) || l == Task(Reading))
    && t == s.(holders := s.holders[h := l])
  }

  /** The holder goes on to `l` without touching the counter. */
  function GoesOn(s: State, h: Id, l: Holder): State {
    s.(holders := s.holders[h := l])
  }

  /** The holder adds to the counter. */
  function Charges(s: State, h: Id, need: nat, l: Holder): State {
    State(s.counter + need, s.holders[h := l], s.charges + 1, s.refunds)
  }

  /** The holder subtracts from the counter. */
  function Refunds(s: State, h: Id, need: nat, l: Holder): State {
    State(s.counter - need, s.holders[h := l], s.charges, s.refunds + 1)
  }

  /** beginBodyAccum, from one atomic access to the next; only a connection that collects nothing calls it. */
  ghost predicate Begins(s: State, t: State, limit: nat, h: Id, need: nat) {
    && h in s.holders && s.holders[h].Loop?
    && match s.holders[h].pc
       case Idle => s.holders[h].bodyNeed == 0 < need
         && t == Charges(s, h, need, Loop(Added(s.counter + need, need), 0))
       case Added(total, n) => t == GoesOn(s, h, Loop(if total > limit then Over(n) else Fits(n), 0))
       case Over(n) => t == Refunds(s, h, n, Loop(Idle, 0))
       case Fits(n) => t == GoesOn(s, h, Loop(Idle, n))
  }

  /** No end of the header is found. */
  ghost predicate NoHeader(s: State, t: State, h: Id) {
    && h in s.holders && s.holders[h].Loop? && s.holders[h].pc.Fits?
    && t == Refunds(s, h, s.holders[h].pc.need, Loop(Idle, 0))
  }

  /** finishBodyAccum: the refund, and bodyNeed is zero. */
  ghost predicate Finishes(s: State, t: State, h: Id) {
    && h in s.holders && s.holders[h].Loop? && s.holders[h].pc.Idle? && s.holders[h].bodyNeed > 0
    && t == Refunds(s, h, s.holders[h].bodyNeed, Loop(Idle, 0))
  }

  /** removeConnBookkeeping, at any time and any number of times: a refund only of a body being collected. */
  ghost predicate Closes(s: State, t: State, h: Id) {
    && h in s.holders && s.holders[h].Loop? && s.holders[h].pc.Idle?
    && var n := s.holders[h].bodyNeed;
    t == if n > 0 then Refunds(s, h, n, Loop(Idle, 0)) else GoesOn(s, h, Loop(Idle, 0))
  }

  // ---------------------------------------------------------------- goroutines

  /** takeoverLoop up to the body, from one atomic access to the next. */
  ghost predicate TaskBegins(s: State, t: State, limit: nat, h: Id, need: nat, expectContinue: bool) {
    && h in s.holders && s.holders[h].Task?
    && match s.holders[h].task
       case Reading => 0 < need && t == Charges(s, h, need, Task(Charged(s.counter + need, need)))
       case Charged(total, n) =>
         t == GoesOn(s, h,
           Task(if total > limit then Refused(n) else if expectContinue then Interim(n) else Collecting(n)))
       case Refused(n) => t == Refunds(s, h, n, Task(Left))
       case Interim(n) => t == GoesOn(s, h, Task(Collecting(n)))
       case _ => false
  }

  /** The 100 response cannot be written. */
  ghost predicate InterimFails(s: State, t: State, h: Id) {
    && h in s.holders && s.holders[h].Task? && s.holders[h].task.Interim?
    && t == Refunds(s, h, s.holders[h].task.need, Task(Left))
  }

  /** Reading the body fails. */
  ghost predicate ReadFails(s: State, t: State, h: Id) {
    && h in s.holders && s.holders[h].Task? && s.holders[h].task.Collecting?
    && t == Refunds(s, h, s.holders[h].task.need, Task(Left))
  }

  /** The body is complete; the goroutine goes on to the next request. */
  ghost predicate Completes(s: State, t: State, h: Id) {
    && h in s.holders && s.holders[h].Task? && s.holders[h].task.Collecting?
    && t == Refunds(s, h, s.holders[h].task.need, Task(Reading))
  }

  /** The goroutine ends between requests. */
  ghost predicate Leaves(s: State, t: State, h: Id) {
    && h in s.holders && s.holders[h] == Task(Reading)
    && t == GoesOn(s, h, Task(Left))
  }

  ghost predicate Next(s: State, t: State, limit: nat) {
    || (exists h, l :: Opens(s, t, h, l))
    || (exists h, need :: Begins(s, t, limit, h, need))
    || (exists h, need, expectContinue :: TaskBegins(s, t, limit, h, need, expectContinue))
    || (exists h :: NoHeader(s, t, h) || Finishes(s, t, h) || Closes(s, t, h))
    || (exists h :: InterimFails(s, t, h) || ReadFails(s, t, h) || Completes(s, t, h) || Leaves(s, t, h))
  }

  // ---------------------------------------------------------------- the accounts

  /** What a holder has charged and not refunded. */
  function Owes(l: Holder): nat {
    match l
    case Loop(Idle, n) => n
    case Loop(pc, n) => n + pc.need
    case Task(Reading) => 0
    case Task(Left) => 0
    case Task(task) => task.need
  }

  /** What of it has passed the check. */
  function Passed(l: Holder, limit: nat): nat {
    match l
    case Loop(Added(total, need), n) => n + if total <= limit then need else 0
    case Loop(Over(_), n) => n
    case Task(Charged(total, need)) => if total <= limit then need else 0
    case Task(Refused(_)) => 0
    case _ => Owes(l)
  }

  /** What may allocate memory. */
  function Collected(l: Holder): nat {
    match l
    case Loop(_, n) => n
    case Task(Collecting(n)) => n
    case _ => 0
  }

  function One(n: nat): nat {
    if n > 0 then 1 else 0
  }

  function Passing(limit: nat): Holder -> nat {
    l => Passed(l, limit)
  }

  function Owing(): Holder -> nat {
    l => One(Owes(l))
  }

  function Shares(holders: map<Id, Holder>, f: Holder -> nat): map<Id, nat> {
    map h | h in holders :: f(holders[h])
  }

  ghost function Total(s: State, f: Holder -> nat): nat {
    Sum(Shares(s.holders, f))
  }

  ghost predicate Inv(s: State, limit: nat) {
    && s.counter == Total(s, Owes)
    && Total(s, Passing(limit)) <= limit
    && s.charges == s.refunds + Total(s, Owing())
    && forall h :: h in s.holders ==> HolderOk(s.holders[h])
  }

  /** A connection charges for a body only while it collects none. */
  predicate HolderOk(l: Holder) {
    && (l.Loop? ==> l.pc.Idle? || (l.bodyNeed == 0 && l.pc.need > 0))
    && (l.Task? ==> l.task.Reading? || l.task.Left? || l.task.need > 0)
  }

  /** One holder changes. */
  lemma TotalChanges(s: State, t: State, h: Id, l: Holder, f: Holder -> nat)
    requires t.holders == s.holders[h := l]
    ensures h in s.holders ==> Total(t, f) + f(s.holders[h]) == Total(s, f) + f(l)
    ensures h !in s.holders ==> Total(t, f) == Total(s, f) + f(l)
  {
    var a, b := Shares(s.holders, f), Shares(t.holders, f);
    assert a - {h} == b - {h};
    SumWithout(b, h);
    if h in s.holders {
      SumWithout(a, h);
    } else {
      assert a - {h} == a;
    }
  }

  lemma AllChange(s: State, t: State, limit: nat, h: Id, l: Holder)
    requires t.holders == s.holders[h := l]
    ensures h in s.holders ==>
      && Total(t, Owes) + Owes(s.holders[h]) == Total(s, Owes) + Owes(l)
      && Total(t, Passing(limit)) + Passed(s.holders[h], limit) == Total(s, Passing(limit)) + Passed(l, limit)
      && Total(t, Owing()) + One(Owes(s.holders[h])) == Total(s, Owing()) + One(Owes(l))
    ensures h !in s.holders ==>
      && Total(t, Owes) == Total(s, Owes) + Owes(l)
      && Total(t, Passing(limit)) == Total(s, Passing(limit)) + Passed(l, limit)
      && Total(t, Owing()) == Total(s, Owing()) + One(Owes(l))
  {
    hide Total;
    TotalChanges(s, t, h, l, Owes);
    TotalChanges(s, t, h, l, Passing(limit));
    TotalChanges(s, t, h, l, Owing());
  }

  /** One total is nowhere above another. */
  lemma {:induction false} TotalBelow(holders: map<Id, Holder>, f: Holder -> nat, g: Holder -> nat)
    requires forall h :: h in holders ==> f(holders[h]) <= g(holders[h])
    ensures Sum(Shares(holders, f)) <= Sum(Shares(holders, g))
    decreases |holders|
  {
    if holders == map[] {
      assert Shares(holders, f) == map[];
    } else {
      var h :| h in holders;
      var rest := holders - {h};
      assert Shares(holders, f) - {h} == Shares(rest, f) && Shares(holders, g) - {h} == Shares(rest, g);
      SumWithout(Shares(holders, f), h);
      SumWithout(Shares(holders, g), h);
      TotalBelow(rest, f, g);
    }
  }

  // ---------------------------------------------------------------- each step keeps them

  /** Adding first and checking afterwards: the total that passes covers everything that has passed. */
  lemma ChargeKeeps(s: State, limit: nat, h: Id, need: nat, l: Holder)
    requires Inv(s, limit) && h in s.holders && Owes(s.holders[h]) == 0 < need
    requires l == Loop(Added(s.counter + need, need), 0) || l == Task(Charged(s.counter + need, need))
    ensures Inv(Charges(s, h, need, l), limit)
  {
    hide Total;
    AllChange(s, Charges(s, h, need, l), limit, h, l);
    TotalBelow(s.holders, Passing(limit), Owes);
    assert Total(s, Passing(limit)) <= Total(s, Owes) by { TotalsBelow(s, limit); }
  }

  lemma TotalsBelow(s: State, limit: nat)
    ensures Total(s, Passing(limit)) <= Total(s, Owes)
  {
    TotalBelow(s.holders, Passing(limit), Owes);
  }

  /** A refund takes back exactly what the holder owes, whichever exit it is at. */
  lemma RefundKeeps(s: State, limit: nat, h: Id, need: nat, l: Holder)
    requires Inv(s, limit) && h in s.holders && Owes(s.holders[h]) == need > 0 && Owes(l) == 0 && HolderOk(l)
    ensures Inv(Refunds(s, h, need, l), limit)
  {
    hide Total;
    AllChange(s, Refunds(s, h, need, l), limit, h, l);
  }

  lemma GoOnKeeps(s: State, limit: nat, h: Id, l: Holder)
    requires Inv(s, limit) && h in s.holders && Owes(l) == Owes(s.holders[h]) && HolderOk(l)
    requires Passed(l, limit) == Passed(s.holders[h], limit)
    ensures Inv(GoesOn(s, h, l), limit)
  {
    hide Total;
    AllChange(s, GoesOn(s, h, l), limit, h, l);
  }

  lemma OpenKeeps(s: State, t: State, limit: nat, h: Id, l: Holder)
    requires Inv(s, limit) && Opens(s, t, h, l)
    ensures Inv(t, limit)
  {
    hide Total;
    AllChange(s, t, limit, h, l);
  }

  lemma LoopKeeps(s: State, t: State, limit: nat, h: Id, need: nat)
    requires Inv(s, limit)
    requires Begins(s, t, limit, h, need) || NoHeader(s, t, h) || Finishes(s, t, h) || Closes(s, t, h)
    ensures Inv(t, limit)
  {
    var l := s.holders[h];
    assert HolderOk(l);
    hide Inv;
    if Begins(s, t, limit, h, need) {
      match l.pc
      case Idle => ChargeKeeps(s, limit, h, need, t.holders[h]);
      case Added(_, _) => GoOnKeeps(s, limit, h, t.holders[h]);
      case Over(n) => RefundKeeps(s, limit, h, n, t.holders[h]);
      case Fits(n) => GoOnKeeps(s, limit, h, t.holders[h]);
    } else if NoHeader(s, t, h) {
      RefundKeeps(s, limit, h, l.pc.need, t.holders[h]);
    } else if l.bodyNeed > 0 {
      RefundKeeps(s, limit, h, l.bodyNeed, t.holders[h]);
    } else {
      GoOnKeeps(s, limit, h, t.holders[h]);
    }
  }

  lemma TaskKeeps(s: State, t: State, limit: nat, h: Id, need: nat, expectContinue: bool)
    requires Inv(s, limit)
    requires TaskBegins(s, t, limit, h, need, expectContinue)
          || InterimFails(s, t, h) || ReadFails(s, t, h) || Completes(s, t, h) || Leaves(s, t, h)
    ensures Inv(t, limit)
  {
    var l := s.holders[h];
    assert HolderOk(l);
    hide Inv;
    if TaskBegins(s, t, limit, h, need, expectContinue) {
      match l.task
      case Reading => ChargeKeeps(s, limit, h, need, t.holders[h]);
      case Charged(_, _) => GoOnKeeps(s, limit, h, t.holders[h]);
      case Refused(n) => RefundKeeps(s, limit, h, n, t.holders[h]);
      case Interim(n) => GoOnKeeps(s, limit, h, t.holders[h]);
    } else if Leaves(s, t, h) {
      GoOnKeeps(s, limit, h, t.holders[h]);
    } else {
      RefundKeeps(s, limit, h, l.task.need, t.holders[h]);
    }
  }

  lemma NextKeeps(s: State, t: State, limit: nat)
    requires Inv(s, limit) && Next(s, t, limit)
    ensures Inv(t, limit)
  {
    hide Inv, Opens, Begins, TaskBegins, NoHeader, Finishes, Closes, InterimFails, ReadFails, Completes, Leaves;
    if h, l :| Opens(s, t, h, l) {
      OpenKeeps(s, t, limit, h, l);
    } else if h, need :| Begins(s, t, limit, h, need) {
      LoopKeeps(s, t, limit, h, need);
    } else if h, need, expectContinue :| TaskBegins(s, t, limit, h, need, expectContinue) {
      TaskKeeps(s, t, limit, h, need, expectContinue);
    } else if h :| NoHeader(s, t, h) || Finishes(s, t, h) || Closes(s, t, h) {
      LoopKeeps(s, t, limit, h, 0);
    } else {
      var h :| InterimFails(s, t, h) || ReadFails(s, t, h) || Completes(s, t, h) || Leaves(s, t, h);
      TaskKeeps(s, t, limit, h, 0, false);
    }
  }

  // ---------------------------------------------------------------- who is let through

  /** What a body passes the check with: everything that is owed at the moment of the charge, and its own need. */
  lemma PassesExactly(s: State, t: State, u: State, v: State, limit: nat, h: Id, need: nat, more: nat)
    requires Inv(s, limit) && Begins(s, t, limit, h, need) && s.holders[h].pc.Idle?
    requires h in u.holders && u.holders[h] == t.holders[h] && Begins(u, v, limit, h, more)
    ensures v.holders[h] == Loop(if Total(s, Owes) + need <= limit then Fits(need) else Over(need), 0)
  {
    hide Total;
  }

  lemma TaskPassesExactly(s: State, t: State, u: State, v: State, limit: nat, h: Id, need: nat, more: nat,
      expectContinue: bool)
    requires Inv(s, limit) && TaskBegins(s, t, limit, h, need, expectContinue) && s.holders[h].task.Reading?
    requires h in u.holders && u.holders[h] == t.holders[h] && TaskBegins(u, v, limit, h, more, expectContinue)
    ensures v.holders[h]
      == Task(if Total(s, Owes) + need > limit then Refused(need) else if expectContinue then Interim(need)
              else Collecting(need))
  {
    hide Total;
  }

  /** A connection that nobody disturbs collects a body that fits, in these steps, and gives back what it has taken. */
  lemma FittingIsCollected(s: State, limit: nat, h: Id, need: nat) returns (run: seq<State>)
    requires Inv(s, limit) && h in s.holders && s.holders[h] == Loop(Idle, 0) && need > 0
    requires Total(s, Owes) + need <= limit
    ensures |run| == 5 && run[0] == s && forall i :: 0 <= i < 4 ==> Next(run[i], run[i + 1], limit)
    ensures h in run[3].holders && run[3].holders[h] == Loop(Idle, need) && run[3].counter == s.counter + need
    ensures run[4].holders == s.holders && run[4].counter == s.counter
  {
    hide Total;
    var charged := Charges(s, h, need, Loop(Added(s.counter + need, need), 0));
    var fits := GoesOn(charged, h, Loop(Fits(need), 0));
    var collects := GoesOn(fits, h, Loop(Idle, need));
    var finished := Refunds(collects, h, need, Loop(Idle, 0));
    BeginsIsNext(s, charged, limit, h, need);
    BeginsIsNext(charged, fits, limit, h, need);
    BeginsIsNext(fits, collects, limit, h, need);
    assert Next(collects, finished, limit) by { FinishesIsNext(collects, finished, limit, h); }
    run := [s, charged, fits, collects, finished];
    assert finished.holders == s.holders;
  }

  /** So does a goroutine, with or without the interim response, and goes on to the next request. */
  lemma FittingIsServed(s: State, limit: nat, h: Id, need: nat, expectContinue: bool) returns (run: seq<State>)
    requires Inv(s, limit) && h in s.holders && s.holders[h] == Task(Reading) && need > 0
    requires Total(s, Owes) + need <= limit
    ensures |run| == (if expectContinue then 5 else 4) && run[0] == s
    ensures forall i :: 0 <= i < |run| - 1 ==> Next(run[i], run[i + 1], limit)
    ensures var t := run[|run| - 2]; h in t.holders && t.holders[h] == Task(Collecting(need))
    ensures run[|run| - 1].holders == s.holders && run[|run| - 1].counter == s.counter
  {
    hide Total;
    var charged := Charges(s, h, need, Task(Charged(s.counter + need, need)));
    var collects := GoesOn(charged, h, Task(Collecting(need)));
    var done := Refunds(collects, h, need, Task(Reading));
    TaskIsNext(s, charged, limit, h, need, expectContinue);
    CompletesIsNext(collects, done, limit, h);
    if expectContinue {
      var interim := GoesOn(charged, h, Task(Interim(need)));
      assert GoesOn(interim, h, Task(Collecting(need))) == collects;
      TaskIsNext(charged, interim, limit, h, need, true);
      TaskIsNext(interim, collects, limit, h, need, true);
      run := [s, charged, interim, collects, done];
    } else {
      TaskIsNext(charged, collects, limit, h, need, false);
      run := [s, charged, collects, done];
    }
    assert done.holders == s.holders;
  }

  /** Whoever owes anything can give back all of it by one or two steps of its own, which leave the others as they
      are. */
  lemma OwedCanBeGivenBack(s: State, limit: nat, h: Id) returns (run: seq<State>)
    requires h in s.holders && HolderOk(s.holders[h]) && Owes(s.holders[h]) > 0
    ensures 2 <= |run| <= 3 && run[0] == s && forall i :: 0 <= i < |run| - 1 ==> Next(run[i], run[i + 1], limit)
    ensures var t := run[|run| - 1];
      && t.counter == s.counter - Owes(s.holders[h])
      && h in t.holders && Owes(t.holders[h]) == 0 && t.holders - {h} == s.holders - {h}
  {
    var l, n := s.holders[h], Owes(s.holders[h]);
    if l.Loop? {
      var last := Loop(Idle, 0);
      if l.pc.Added? {
        var mid := GoesOn(s, h, Loop(if l.pc.total > limit then Over(n) else Fits(n), 0));
        BeginsIsNext(s, mid, limit, h, n);
        LoopGivesBack(mid, Refunds(mid, h, n, last), limit, h);
        run := [s, mid, Refunds(mid, h, n, last)];
      } else {
        LoopGivesBack(s, Refunds(s, h, n, last), limit, h);
        run := [s, Refunds(s, h, n, last)];
      }
    } else if l.task.Charged? {
      var mid := GoesOn(s, h, Task(if l.task.total > limit then Refused(n) else Collecting(n)));
      TaskIsNext(s, mid, limit, h, n, false);
      TaskGivesBack(mid, Refunds(mid, h, n, Task(Left)), limit, h);
      run := [s, mid, Refunds(mid, h, n, Task(Left))];
    } else {
      TaskGivesBack(s, Refunds(s, h, n, Task(Left)), limit, h);
      run := [s, Refunds(s, h, n, Task(Left))];
    }
  }

  lemma LoopGivesBack(s: State, t: State, limit: nat, h: Id)
    requires h in s.holders && s.holders[h].Loop? && HolderOk(s.holders[h]) && Owes(s.holders[h]) > 0
    requires !s.holders[h].pc.Added? && t == Refunds(s, h, Owes(s.holders[h]), Loop(Idle, 0))
    ensures Next(s, t, limit)
  {
    if s.holders[h].pc.Over? {
      assert Begins(s, t, limit, h, 0);
    } else {
      assert NoHeader(s, t, h) || Finishes(s, t, h);
    }
  }

  lemma TaskGivesBack(s: State, t: State, limit: nat, h: Id)
    requires h in s.holders && s.holders[h].Task? && Owes(s.holders[h]) > 0 && !s.holders[h].task.Charged?
    requires t == Refunds(s, h, Owes(s.holders[h]), Task(Left))
    ensures Next(s, t, limit)
  {
    if s.holders[h].task.Refused? {
      assert TaskBegins(s, t, limit, h, 0, false);
    } else {
      assert InterimFails(s, t, h) || ReadFails(s, t, h);
    }
  }

  lemma TaskIsNext(s: State, t: State, limit: nat, h: Id, need: nat, expectContinue: bool)
    requires TaskBegins(s, t, limit, h, need, expectContinue)
    ensures Next(s, t, limit)
  {
    hide TaskBegins;
  }

  lemma CompletesIsNext(s: State, t: State, limit: nat, h: Id)
    requires Completes(s, t, h)
    ensures Next(s, t, limit)
  {
    hide Completes;
  }

  lemma BeginsIsNext(s: State, t: State, limit: nat, h: Id, need: nat)
    requires Begins(s, t, limit, h, need)
    ensures Next(s, t, limit)
  {
    hide Begins;
  }

  lemma FinishesIsNext(s: State, t: State, limit: nat, h: Id)
    requires Finishes(s, t, h)
    ensures Next(s, t, limit)
  {
    hide Finishes;
  }

  ghost predicate Run(run: seq<State>, limit: nat) {
    && run != [] && Init(run[0])
    && forall i :: 0 <= i < |run| - 1 ==> Next(run[i], run[i + 1], limit)
  }

  /** In every state of every run the counter is exactly what has been charged and not refunded; what collects a body is
      within the limit; and every charge has been refunded once, except those of the holders that owe one now. */
  lemma {:induction false} BudgetIsKept(run: seq<State>, limit: nat, i: nat)
    requires Run(run, limit) && i < |run|
    ensures Inv(run[i], limit)
    ensures run[i].counter == Total(run[i], Owes)
    ensures Total(run[i], Collected) <= limit
    ensures run[i].charges == run[i].refunds + Total(run[i], Owing())
    ensures (forall h :: h in run[i].holders ==> Owes(run[i].holders[h]) == 0) ==>
      run[i].counter == 0 && run[i].charges == run[i].refunds
  {
    var s := run[i];
    if i == 0 {
      assert Shares(s.holders, Owes) == Shares(s.holders, Passing(limit)) == Shares(s.holders, Owing()) == map[];
    } else {
      BudgetIsKept(run, limit, i - 1);
      assert Next(run[i - 1], run[i - 1 + 1], limit);
      NextKeeps(run[i - 1], run[i], limit);
    }
    TotalBelow(s.holders, Collected, Passing(limit));
    if forall h :: h in s.holders ==> Owes(s.holders[h]) == 0 {
      TotalBelow(s.holders, Owes, _ => 0);
      TotalBelow(s.holders, Owing(), _ => 0);
      NothingAdds(s.holders);
    }
  }

  lemma {:induction false} NothingAdds(holders: map<Id, Holder>)
    ensures Sum(Shares(holders, _ => 0)) == 0
    decreases |holders|
  {
    if holders == map[] {
      assert Shares(holders, _ => 0) == map[];
    } else {
      var h :| h in holders;
      assert Shares(holders, _ => 0) - {h} == Shares(holders - {h}, _ => 0);
      SumWithout(Shares(holders, _ => 0), h);
      NothingAdds(holders - {h});
    }
  }
}
