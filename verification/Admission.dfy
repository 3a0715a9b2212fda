/** Admission at accept (wing_transport.go): a counter of connections shared by all workers, taken by compare and swap,
    and a count for each peer address in every worker. Workers interleave at every access to the shared counter. */
module Admission {
  import opened Options

  type Worker = nat
  type Address = nat
  type Fd = nat

  datatype Limits = Limits(maxConns: nat, maxPerAddress: nat)   // 0 means no limit

  /** A worker handles one event at a time. */
  datatype Pc =
    | Idle
    | Loading(fd: Fd, peer: Option<Address>)               // about to load the counter
    | Loaded(fd: Fd, peer: Option<Address>, seen: int)     // about to swap it from `seen`
    | Reserved(fd: Fd, peer: Option<Address>)              // has its place, and is about to register the connection

  datatype Connection = Connection(worker: Worker, peer: Option<Address>, admitted: bool)

  datatype State = State(
    counter: int,
    pcs: map<Worker, Pc>,
    conns: map<Fd, Connection>,
    perAddress: map<(Worker, Address), int>)

  ghost predicate Init(s: State) {
    s.counter == 0 && s.conns == map[] && s.perAddress == map[] && forall w :: w in s.pcs ==> s.pcs[w].Idle?
  }

  predicate At(s: State, w: Worker, pc: Pc) {
    w in s.pcs && s.pcs[w] == pc
  }

  function Count(s: State, w: Worker, a: Address): int {
    if (w, a) in s.perAddress then s.perAddress[(w, a)] else 0
  }

  /** An accepted descriptor is refused by the rate or the address limit (t == s), or goes on. */
  ghost predicate Accept(s: State, t: State, l: Limits, w: Worker, fd: Fd, peer: Option<Address>) {
    && At(s, w, Idle) && fd !in s.conns && (forall v :: v in s.pcs ==> !OwnsFd(s.pcs[v], fd))
    && if l.maxPerAddress > 0 && peer.Some? && Count(s, w, peer.value) >= l.maxPerAddress then t == s
       else t == s.(pcs := s.pcs[w := if l.maxConns > 0 then Loading(fd, peer) else Reserved(fd, peer)])
  }

  predicate OwnsFd(pc: Pc, fd: Fd) {
    !pc.Idle? && pc.fd == fd
  }

  ghost predicate Load(s: State, t: State, l: Limits, w: Worker) {
    && w in s.pcs && s.pcs[w].Loading?
    && t == s.(pcs := s.pcs[w := if s.counter >= l.maxConns then Idle
                                 else Loaded(s.pcs[w].fd, s.pcs[w].peer, s.counter)])
  }

  ghost predicate Swap(s: State, t: State, w: Worker) {
    && w in s.pcs && s.pcs[w].Loaded?
    && var pc := s.pcs[w];
    t == if s.counter == pc.seen then s.(counter := pc.seen + 1, pcs := s.pcs[w := Reserved(pc.fd, pc.peer)])
         else s.(pcs := s.pcs[w := Loading(pc.fd, pc.peer)])
  }

  /** The connection enters the table and is counted for its address. */
  ghost predicate Register(s: State, t: State, l: Limits, w: Worker) {
    && w in s.pcs && s.pcs[w].Reserved?
    && var pc := s.pcs[w];
    && t.counter == s.counter && t.pcs == s.pcs[w := Idle]
    && t.conns == s.conns[pc.fd := Connection(w, pc.peer, true)]
    && t.perAddress == (if l.maxPerAddress > 0 && pc.peer.Some?
                        then s.perAddress[(w, pc.peer.value) := Count(s, w, pc.peer.value) + 1] else s.perAddress)
  }

  /** removeConnBookkeeping, for whichever reason the connection ends; a second call does nothing. */
  ghost predicate Release(s: State, t: State, l: Limits, w: Worker, fd: Fd) {
    && At(s, w, Idle) && fd in s.conns && s.conns[fd].worker == w
    && var c := s.conns[fd];
    t == if !c.admitted then s else
           State(if l.maxConns > 0 then s.counter - 1 else s.counter, s.pcs, s.conns[fd := c.(admitted := false)],
                 if l.maxPerAddress > 0 && c.peer.Some? then Decrement(s, w, c.peer.value) else s.perAddress)
  }

  function Decrement(s: State, w: Worker, a: Address): map<(Worker, Address), int> {
    var n := Count(s, w, a) - 1;
    if n <= 0 then s.perAddress - {(w, a)} else s.perAddress[(w, a) := n]
  }

  /** The table entry goes, after its release. */
  ghost predicate Drop(s: State, t: State, w: Worker, fd: Fd) {
    && At(s, w, Idle) && fd in s.conns && s.conns[fd].worker == w && !s.conns[fd].admitted
    && t == s.(conns := s.conns - {fd})
  }

  ghost predicate Next(s: State, t: State, l: Limits) {
    || (exists w, fd, peer :: Accept(s, t, l, w, fd, peer))
    || (exists w :: Load(s, t, l, w) || Swap(s, t, w) || Register(s, t, l, w))
    || (exists w, fd :: Release(s, t, l, w, fd) || Drop(s, t, w, fd))
  }

  // ---------------------------------------------------------------- the invariant

  ghost function Live(s: State): set<Fd> {
    set fd | fd in s.conns && s.conns[fd].admitted
  }

  ghost function Reserving(s: State): set<Worker> {
    set w | w in s.pcs && s.pcs[w].Reserved?
  }

  /** The live connections of a worker from an address. */
  ghost function From(s: State, w: Worker, a: Address): set<Fd> {
    set fd | fd in s.conns && s.conns[fd].admitted && s.conns[fd].worker == w && s.conns[fd].peer == Some(a)
  }

  ghost predicate CounterOk(s: State, l: Limits) {
    l.maxConns > 0 ==> s.counter == |Live(s)| + |Reserving(s)| && s.counter <= l.maxConns
  }

  ghost predicate SeenOk(s: State, l: Limits) {
    forall w :: w in s.pcs ==>
      (s.pcs[w].Loading? || s.pcs[w].Loaded? ==> l.maxConns > 0) && (s.pcs[w].Loaded? ==> s.pcs[w].seen < l.maxConns)
  }

  ghost predicate AddressesOk(s: State, l: Limits) {
    l.maxPerAddress > 0 ==> RangeOk(s, l) && ExactOk(s) && RoomOk(s, l)
  }

  ghost predicate RangeOk(s: State, l: Limits) {
    forall k :: k in s.perAddress ==> 1 <= s.perAddress[k] <= l.maxPerAddress
  }

  ghost predicate ExactOk(s: State) {
    forall w: Worker, a: Address :: Count(s, w, a) == |From(s, w, a)|
  }

  /** A worker that is letting a connection in has room for its address. */
  ghost predicate RoomOk(s: State, l: Limits) {
    forall w :: w in s.pcs && !s.pcs[w].Idle? && s.pcs[w].peer.Some? ==>
      Count(s, w, s.pcs[w].peer.value) < l.maxPerAddress
  }

  /** A descriptor on its way in is in no table, and no two workers have the same. */
  ghost predicate FdsOk(s: State) {
    && (forall w :: w in s.pcs && !s.pcs[w].Idle? ==> s.pcs[w].fd !in s.conns)
    && (forall v, w :: v in s.pcs && w in s.pcs && v != w && !s.pcs[v].Idle? && !s.pcs[w].Idle? ==>
        s.pcs[v].fd != s.pcs[w].fd)
  }

  ghost predicate Inv(s: State, l: Limits) {
    CounterOk(s, l) && SeenOk(s, l) && AddressesOk(s, l) && FdsOk(s)
  }

  // ---------------------------------------------------------------- each step keeps it

  lemma PcStepKeeps(s: State, t: State, l: Limits, w: Worker)
    requires Inv(s, l) && w in s.pcs && w in t.pcs && t == s.(pcs := t.pcs) && t.pcs == s.pcs[w := t.pcs[w]]
    requires !s.pcs[w].Reserved? && !t.pcs[w].Reserved?
    requires t.pcs[w].Loading? || t.pcs[w].Loaded? ==> l.maxConns > 0
    requires t.pcs[w].Loaded? ==> t.pcs[w].seen < l.maxConns
    requires !t.pcs[w].Idle? ==>
      && (if s.pcs[w].Idle? then t.pcs[w].fd !in s.conns && forall v :: v in s.pcs ==> !OwnsFd(s.pcs[v], t.pcs[w].fd)
          else t.pcs[w].fd == s.pcs[w].fd && t.pcs[w].peer == s.pcs[w].peer)
      && (l.maxPerAddress > 0 && t.pcs[w].peer.Some? ==> Count(s, w, t.pcs[w].peer.value) < l.maxPerAddress)
    ensures Inv(t, l)
  {
    assert Reserving(t) == Reserving(s) && Live(t) == Live(s);
    assert forall v, a :: From(t, v, a) == From(s, v, a) && Count(t, v, a) == Count(s, v, a);
  }

  /** The worker takes a place: one more reservation. */
  lemma ReserveKeeps(s: State, t: State, l: Limits, w: Worker, pc: Pc)
    requires Inv(s, l) && w in s.pcs && !s.pcs[w].Reserved? && pc.Reserved?
    requires t == State(if l.maxConns > 0 then s.counter + 1 else s.counter, s.pcs[w := pc], s.conns, s.perAddress)
    requires l.maxConns > 0 ==> s.counter < l.maxConns
    requires if s.pcs[w].Idle? then pc.fd !in s.conns && forall v :: v in s.pcs ==> !OwnsFd(s.pcs[v], pc.fd)
             else pc.fd == s.pcs[w].fd && pc.peer == s.pcs[w].peer
    requires l.maxPerAddress > 0 && pc.peer.Some? ==> Count(s, w, pc.peer.value) < l.maxPerAddress
    ensures Inv(t, l)
  {
    assert Reserving(t) == Reserving(s) + {w} && Live(t) == Live(s);
    assert forall v, a :: From(t, v, a) == From(s, v, a) && Count(t, v, a) == Count(s, v, a);
  }

  lemma AcceptKeeps(s: State, t: State, l: Limits, w: Worker, fd: Fd, peer: Option<Address>)
    requires Inv(s, l) && Accept(s, t, l, w, fd, peer)
    ensures Inv(t, l)
  {
    hide CounterOk, AddressesOk, FdsOk;
    if t != s {
      if l.maxConns > 0 {
        PcStepKeeps(s, t, l, w);
      } else {
        ReserveKeeps(s, t, l, w, Reserved(fd, peer));
      }
    }
  }

  lemma LoadKeeps(s: State, t: State, l: Limits, w: Worker)
    requires Inv(s, l) && Load(s, t, l, w)
    ensures Inv(t, l)
  {
    PcStepKeeps(s, t, l, w);
  }

  lemma SwapKeeps(s: State, t: State, l: Limits, w: Worker)
    requires Inv(s, l) && Swap(s, t, w)
    ensures Inv(t, l)
  {
    var pc := s.pcs[w];
    if s.counter == pc.seen {
      ReserveKeeps(s, t, l, w, Reserved(pc.fd, pc.peer));
    } else {
      PcStepKeeps(s, t, l, w);
    }
  }

  lemma RegisterKeeps(s: State, t: State, l: Limits, w: Worker)
    requires Inv(s, l) && Register(s, t, l, w)
    ensures Inv(t, l)
  {
    var pc := s.pcs[w];
    assert Live(t) == Live(s) + {pc.fd} && Reserving(s) == Reserving(t) + {w};
    assert w !in Reserving(t) && pc.fd !in Live(s);
    RegisterCounts(s, t, l, w);
  }

  lemma RegisterCounts(s: State, t: State, l: Limits, w: Worker)
    requires Inv(s, l) && Register(s, t, l, w)
    ensures AddressesOk(t, l)
  {
    hide CounterOk, SeenOk, ExactOk, From;
    var pc := s.pcs[w];
    if l.maxPerAddress > 0 {
      RegisterExact(s, t, l, w);
      if pc.peer.Some? {
        CountIsNatural(s, w, pc.peer.value);
        assert Count(s, w, pc.peer.value) < l.maxPerAddress;
      }
    }
  }

  lemma CountIsNatural(s: State, w: Worker, a: Address)
    requires ExactOk(s)
    ensures Count(s, w, a) >= 0
  {
    assert Count(s, w, a) == |From(s, w, a)|;
  }

  lemma RegisterExact(s: State, t: State, l: Limits, w: Worker)
    requires l.maxPerAddress > 0 && ExactOk(s) && Register(s, t, l, w) && s.pcs[w].fd !in s.conns
    ensures ExactOk(t)
  {
    var pc := s.pcs[w];
    forall v: Worker, a: Address ensures Count(t, v, a) == |From(t, v, a)| {
      assert Count(s, v, a) == |From(s, v, a)|;
      if v == w && pc.peer == Some(a) {
        assert From(t, v, a) == From(s, v, a) + {pc.fd} && pc.fd !in From(s, v, a);
      } else {
        assert From(t, v, a) == From(s, v, a);
      }
    }
  }

  lemma ReleaseKeeps(s: State, t: State, l: Limits, w: Worker, fd: Fd)
    requires Inv(s, l) && Release(s, t, l, w, fd)
    ensures Inv(t, l)
  {
    if t != s {
      assert Live(s) == Live(t) + {fd} && fd !in Live(t) && Reserving(t) == Reserving(s);
      ReleaseCounts(s, t, l, w, fd);
    }
  }

  lemma ReleaseCounts(s: State, t: State, l: Limits, w: Worker, fd: Fd)
    requires Inv(s, l) && Release(s, t, l, w, fd) && s.conns[fd].admitted
    ensures AddressesOk(t, l)
  {
    hide CounterOk, SeenOk, FdsOk, ExactOk, From;
    if l.maxPerAddress > 0 {
      ReleaseExact(s, t, l, w, fd);
    }
  }

  lemma ReleaseExact(s: State, t: State, l: Limits, w: Worker, fd: Fd)
    requires l.maxPerAddress > 0 && ExactOk(s) && Release(s, t, l, w, fd) && s.conns[fd].admitted
    ensures ExactOk(t)
  {
    var c := s.conns[fd];
    forall v: Worker, a: Address ensures Count(t, v, a) == |From(t, v, a)| {
      assert Count(s, v, a) == |From(s, v, a)|;
      if v == w && c.peer == Some(a) {
        assert From(s, v, a) == From(t, v, a) + {fd} && fd !in From(t, v, a);
      } else {
        assert From(t, v, a) == From(s, v, a);
      }
    }
  }

  lemma DropKeeps(s: State, t: State, l: Limits, w: Worker, fd: Fd)
    requires Inv(s, l) && Drop(s, t, w, fd)
    ensures Inv(t, l)
  {
    assert Live(t) == Live(s) && Reserving(t) == Reserving(s);
    assert forall v, a :: From(t, v, a) == From(s, v, a) && Count(t, v, a) == Count(s, v, a);
  }

  lemma NextKeeps(s: State, t: State, l: Limits)
    requires Inv(s, l) && Next(s, t, l)
    ensures Inv(t, l)
  {
    hide Inv, Accept, Load, Swap, Register, Release, Drop;
    if w, fd, peer :| Accept(s, t, l, w, fd, peer) {
      AcceptKeeps(s, t, l, w, fd, peer);
    } else if w :| Load(s, t, l, w) || Swap(s, t, w) || Register(s, t, l, w) {
      if Load(s, t, l, w) {
        LoadKeeps(s, t, l, w);
      } else if Swap(s, t, w) {
        SwapKeeps(s, t, l, w);
      } else {
        RegisterKeeps(s, t, l, w);
      }
    } else {
      var w, fd :| Release(s, t, l, w, fd) || Drop(s, t, w, fd);
      if Release(s, t, l, w, fd) {
        ReleaseKeeps(s, t, l, w, fd);
      } else {
        DropKeeps(s, t, l, w, fd);
      }
    }
  }

  // ---------------------------------------------------------------- who is let in

  /** A peer address is at its cap. */
  ghost predicate AddressFull(s: State, l: Limits, w: Worker, peer: Option<Address>) {
    l.maxPerAddress > 0 && peer.Some? && |From(s, w, peer.value)| == l.maxPerAddress
  }

  /** All places are taken, by connections or by those being admitted. */
  ghost predicate Full(s: State, l: Limits) {
    l.maxConns > 0 && |Live(s)| + |Reserving(s)| == l.maxConns
  }

  /** Nobody is refused while there is a place: at accept only where the address is at its cap, at the counter only
      when every place is taken. */
  lemma RefusedExactly(s: State, t: State, l: Limits, w: Worker, fd: Fd, peer: Option<Address>)
    requires Inv(s, l)
    ensures Accept(s, t, l, w, fd, peer) ==> (t == s <==> AddressFull(s, l, w, peer))
    ensures Load(s, t, l, w) ==> (t.pcs[w].Idle? <==> Full(s, l))
    ensures Swap(s, t, w) ==> (t.pcs[w].Reserved? <==> s.counter == s.pcs[w].seen)
  {
    hide From, Live, Reserving;
    if Accept(s, t, l, w, fd, peer) {
      AcceptRefuses(s, t, l, w, fd, peer);
    }
  }

  lemma AcceptRefuses(s: State, t: State, l: Limits, w: Worker, fd: Fd, peer: Option<Address>)
    requires Inv(s, l) && Accept(s, t, l, w, fd, peer)
    ensures t == s <==> AddressFull(s, l, w, peer)
  {
    hide From;
    if l.maxPerAddress > 0 && peer.Some? {
      assert Count(s, w, peer.value) == |From(s, w, peer.value)|;
      assert (w, peer.value) in s.perAddress ==> s.perAddress[(w, peer.value)] <= l.maxPerAddress;
    }
    assert t.pcs == s.pcs ==> t.pcs[w].Idle?;
  }

  /** A worker that nobody disturbs lets a connection in, in these steps, if there is a place for it. */
  lemma FreePlaceIsGiven(s: State, l: Limits, w: Worker, fd: Fd, peer: Option<Address>) returns (run: seq<State>)
    requires Inv(s, l) && At(s, w, Idle) && fd !in s.conns && forall v :: v in s.pcs ==> !OwnsFd(s.pcs[v], fd)
    requires !AddressFull(s, l, w, peer) && !Full(s, l)
    ensures run != [] && run[0] == s && forall i :: 0 <= i < |run| - 1 ==> Next(run[i], run[i + 1], l)
    ensures var t := run[|run| - 1];
      t.conns == s.conns[fd := Connection(w, peer, true)] && At(t, w, Idle)
  {
    hide From, Live, Reserving, Next;
    var first := if l.maxConns > 0 then Loading(fd, peer) else Reserved(fd, peer);
    var accepted := s.(pcs := s.pcs[w := first]);
    AcceptRefuses(s, if AcceptedAt(s, l, w, peer) then accepted else s, l, w, fd, peer);
    StepIsNext(s, accepted, l, w, fd, peer);
    run := [s, accepted];
    var reserved := accepted;
    if l.maxConns > 0 {
      var loaded := s.(pcs := accepted.pcs[w := Loaded(fd, peer, s.counter)]);
      reserved := s.(counter := s.counter + 1, pcs := loaded.pcs[w := Reserved(fd, peer)]);
      StepIsNext(accepted, loaded, l, w, fd, peer);
      StepIsNext(loaded, reserved, l, w, fd, peer);
      run := [s, accepted, loaded, reserved];
    }
    var t := State(reserved.counter, reserved.pcs[w := Idle], s.conns[fd := Connection(w, peer, true)],
      if l.maxPerAddress > 0 && peer.Some?
      then s.perAddress[(w, peer.value) := Count(reserved, w, peer.value) + 1] else s.perAddress);
    StepIsNext(reserved, t, l, w, fd, peer);
    run := run + [t];
  }

  ghost predicate AcceptedAt(s: State, l: Limits, w: Worker, peer: Option<Address>) {
    !(l.maxPerAddress > 0 && peer.Some? && Count(s, w, peer.value) >= l.maxPerAddress)
  }

  lemma StepIsNext(s: State, t: State, l: Limits, w: Worker, fd: Fd, peer: Option<Address>)
    requires Accept(s, t, l, w, fd, peer) || Load(s, t, l, w) || Swap(s, t, w) || Register(s, t, l, w)
    ensures Next(s, t, l)
  {
    hide Accept, Load, Swap, Register, Release, Drop;
  }

  ghost predicate Run(run: seq<State>, l: Limits) {
    && run != [] && Init(run[0])
    && forall i :: 0 <= i < |run| - 1 ==> Next(run[i], run[i + 1], l)
  }

  /** In every run, with a cap on connections the counter is exactly the connections admitted and being admitted,
      and never above the cap; with a cap for an address the counts are exact, positive and within it. */
  lemma {:induction false} AdmissionIsExact(run: seq<State>, l: Limits, i: nat)
    requires Run(run, l) && i < |run|
    ensures var s := run[i];
      && Inv(s, l)
      && (l.maxConns > 0 ==> s.counter == |Live(s)| + |Reserving(s)| <= l.maxConns)
      && (l.maxPerAddress > 0 ==> forall w, a :: Count(s, w, a) == |From(s, w, a)| <= l.maxPerAddress)
  {
    hide Next;
    if i == 0 {
      var s := run[0];
      assert Live(s) == {} && Reserving(s) == {};
      assert forall w, a :: From(s, w, a) == {};
    } else {
      AdmissionIsExact(run, l, i - 1);
      assert Next(run[i - 1], run[i - 1 + 1], l);
      NextKeeps(run[i - 1], run[i], l);
    }
  }
}
