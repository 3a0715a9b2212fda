/** Who closes which descriptor (wing_transport.go). Descriptor numbers are used again as soon as they are closed, by
    this worker or by anyone else in the process, so a late close, write or completion could hit a stranger. Here every
    connection has an identity besides its number, and `wrong` records the first use of a number that no longer
    belongs to the connection it is meant for. */
module FdOwnership {

  type Fd = nat

  /** A connection: the number it was given, and which use of the number this is. */
  datatype Id = Id(fd: Fd, use: nat)

  datatype Conn = Conn(id: Id, pending: nat, takenOver: bool, closePending: bool)

  /** A goroutine with the number in hand; a takeover has the descriptor as a file. */
  datatype Job = Job(fd: Fd, takeover: bool)

  /** A completion on its way to the event loop; it carries the file of a takeover. */
  datatype Done = Done(fd: Fd, file: bool)

  datatype Phase = Running | Stopping | Draining | Closing | Finished

  datatype State = State(
    kernel: map<Fd, Id>,     // open descriptors, of this worker and of others
    conns: map<Fd, Conn>,    // the event loop's table
    jobs: map<Id, Job>,
    done: map<Id, Done>,
    accepted: set<Id>,
    closed: set<Id>,
    phase: Phase,
    wrong: bool)

  ghost predicate Init(s: State) {
    && s.conns == map[] && s.jobs == map[] && s.done == map[] && s.accepted == {} && s.closed == {}
    && s.phase == Running && !s.wrong && forall f :: f in s.kernel ==> s.kernel[f].fd == f
  }

  predicate Holds(s: State, fd: Fd, id: Id) {
    fd in s.kernel && s.kernel[fd] == id
  }

  /** close(fd), meant for connection `id`. */
  function CloseFd(s: State, fd: Fd, id: Id): State {
    if Holds(s, fd, id) then s.(kernel := s.kernel - {fd}, closed := s.closed + {id}) else s.(wrong := true)
  }

  /** write(fd) or shutdown(fd), meant for connection `id`. */
  function UseFd(s: State, fd: Fd, id: Id): State {
    if Holds(s, fd, id) then s else s.(wrong := true)
  }

  // ---------------------------------------------------------------- others in the process

  ghost predicate OtherOpens(s: State, t: State, fd: Fd, id: Id) {
    && fd !in s.kernel && id.fd == fd && id !in s.accepted
    && t == s.(kernel := s.kernel[fd := id])
  }

  ghost predicate OtherCloses(s: State, t: State, fd: Fd) {
    fd in s.kernel && s.kernel[fd] !in s.accepted && t == s.(kernel := s.kernel - {fd})
  }

  // ---------------------------------------------------------------- the event loop

  ghost predicate Accept(s: State, t: State, fd: Fd, id: Id) {
    && s.phase == Running && fd !in s.kernel && id.fd == fd && id !in s.accepted
    && t == s.(kernel := s.kernel[fd := id], conns := s.conns[fd := Conn(id, 0, false, false)],
               accepted := s.accepted + {id})
  }

  /** Over a limit: accepted and closed at once. */
  ghost predicate Refuse(s: State, t: State, fd: Fd, id: Id) {
    && s.phase == Running && fd !in s.kernel && id.fd == fd && id !in s.accepted
    && t == CloseFd(s.(kernel := s.kernel[fd := id], accepted := s.accepted + {id}), fd, id)
  }

  /** A request goes to a handler in another goroutine, or its response to the completion channel at once. */
  ghost predicate Dispatch(s: State, t: State, fd: Fd, takeover: bool, atOnce: bool) {
    && s.phase == Running && fd in s.conns && s.conns[fd].pending == 0 && !(takeover && atOnce)
    && var c := s.conns[fd];
    t == s.(conns := s.conns[fd := c.(pending := 1, takenOver := takeover)],
            jobs := if atOnce then s.jobs else s.jobs[c.id := Job(fd, takeover)],
            done := if atOnce then s.done[c.id := Done(fd, false)] else s.done)
  }

  /** closeConn: every caller has seen that no handler is pending. */
  ghost predicate LoopClose(s: State, t: State, fd: Fd) {
    && s.phase == Running && fd in s.conns && s.conns[fd].pending == 0
    && t == CloseFd(s.(conns := s.conns - {fd}), fd, s.conns[fd].id)
  }

  /** A write failed while a handler is pending: the close waits for the completion. */
  ghost predicate DeferClose(s: State, t: State, fd: Fd) {
    && s.phase == Running && fd in s.conns && s.conns[fd].pending > 0
    && t == s.(conns := s.conns[fd := s.conns[fd].(closePending := true)])
  }

  /** handleDone. The message names a number; the connection is whatever the table has under it. */
  ghost predicate HandleDone(s: State, t: State, id: Id) {
    && s.phase == Running && id in s.done
    && var m := s.done[id];
    var r := s.(done := s.done - {id});
    if m.file then t == CloseFd(r.(conns := r.conns - {m.fd}), m.fd, id)
    else if m.fd !in s.conns then t == r
    else
      var c := s.conns[m.fd];
      if c.id != id || c.pending == 0 then t == r.(wrong := true)
      else if c.closePending && c.pending == 1 then t == CloseFd(r.(conns := r.conns - {m.fd}), m.fd, c.id)
      else t == r.(conns := r.conns[m.fd := c.(pending := c.pending - 1)])
  }

  // ---------------------------------------------------------------- handlers

  ghost predicate JobUses(s: State, t: State, id: Id) {
    id in s.jobs && t == UseFd(s, s.jobs[id].fd, id)
  }

  ghost predicate JobEnds(s: State, t: State, id: Id) {
    && id in s.jobs
    && t == s.(jobs := s.jobs - {id}, done := s.done[id := Done(s.jobs[id].fd, s.jobs[id].takeover)])
  }

  // ---------------------------------------------------------------- cleanup

  ghost predicate PendingNotHeld(s: State) {
    exists fd :: fd in s.conns && s.conns[fd].pending > 0 && !Holds(s, fd, s.conns[fd].id)
  }

  /** Connections with a handler pending are shut down but not closed. */
  ghost predicate Stop(s: State, t: State) {
    s.phase == Running && t == s.(phase := Stopping, wrong := s.wrong || PendingNotHeld(s))
  }

  /** Completions are drained, before and after the handlers have ended; only a file is of interest. */
  ghost predicate Drain(s: State, t: State, id: Id) {
    && (s.phase == Stopping || s.phase == Draining) && id in s.done
    && var r := s.(done := s.done - {id});
    t == if s.done[id].file then CloseFd(r, s.done[id].fd, id) else r
  }

  ghost predicate Proceed(s: State, t: State) {
    || (s.phase == Stopping && s.jobs == map[] && t == s.(phase := Draining))
    || (s.phase == Draining && s.done == map[] && t == s.(phase := Closing))
    || (s.phase == Closing && s.conns == map[] && t == s.(phase := Finished))
  }

  /** What is left in the table is closed, except what a takeover's file has closed. */
  ghost predicate CloseRest(s: State, t: State, fd: Fd) {
    && s.phase == Closing && fd in s.conns
    && var c := s.conns[fd];
    var r := s.(conns := s.conns - {fd});
    t == if c.takenOver then r else CloseFd(r, fd, c.id)
  }

  ghost predicate Next(s: State, t: State) {
    || Stop(s, t) || Proceed(s, t)
    || (exists fd, id :: OtherOpens(s, t, fd, id) || Accept(s, t, fd, id) || Refuse(s, t, fd, id))
    || (exists fd :: OtherCloses(s, t, fd) || LoopClose(s, t, fd) || DeferClose(s, t, fd) || CloseRest(s, t, fd))
    || (exists fd, takeover, atOnce :: Dispatch(s, t, fd, takeover, atOnce))
    || (exists id :: HandleDone(s, t, id) || JobUses(s, t, id) || JobEnds(s, t, id) || Drain(s, t, id))
  }

  // ---------------------------------------------------------------- the invariant

  /** What was accepted is open or closed, and not both; while open, the table has it. */
  ghost predicate KernelOk(s: State) {
    && s.closed <= s.accepted
    && (forall f :: f in s.kernel ==> s.kernel[f].fd == f && s.kernel[f] !in s.closed)
    && (forall f :: f in s.kernel && s.kernel[f] in s.accepted ==> f in s.conns && s.conns[f].id == s.kernel[f])
    && (forall id :: id in s.accepted && id !in s.closed ==> Holds(s, id.fd, id))
  }

  /** A connection in the table is open under its number, unless its takeover's file was closed in the cleanup. */
  ghost predicate TableOk(s: State) {
    forall f :: f in s.conns ==> ConnOk(s, f, s.conns[f])
  }

  ghost predicate ConnOk(s: State, f: Fd, c: Conn) {
    && c.id.fd == f && c.id in s.accepted && c.pending <= 1 && (c.takenOver ==> c.pending == 1)
    && (Holds(s, f, c.id) || (c.takenOver && s.phase != Running && c.id in s.closed))
    && ((c.pending == 1 && s.phase == Running) || c.takenOver ==>
          c.id in s.jobs || c.id in s.done || (s.phase != Running && c.id in s.closed))
  }

  ghost predicate Busy(s: State, fd: Fd, id: Id, takeover: bool) {
    fd in s.conns && s.conns[fd].id == id && s.conns[fd].pending == 1 && s.conns[fd].takenOver == takeover
      && Holds(s, fd, id)
  }

  /** A goroutine or a completion belongs to the connection that is in the table under its number. */
  ghost predicate HandlersOk(s: State) {
    && (forall id :: id in s.jobs ==> id !in s.done && Busy(s, s.jobs[id].fd, id, s.jobs[id].takeover))
    && (forall id :: id in s.done ==> Busy(s, s.done[id].fd, id, s.done[id].file))
    && (s.phase == Draining || s.phase == Closing || s.phase == Finished ==> s.jobs == map[])
    && (s.phase == Closing || s.phase == Finished ==> s.done == map[])
    && (s.phase == Finished ==> s.conns == map[])
  }

  ghost predicate Inv(s: State) {
    !s.wrong && KernelOk(s) && TableOk(s) && HandlersOk(s)
  }

  // ---------------------------------------------------------------- each step keeps it

  lemma OpenKeeps(s: State, t: State, fd: Fd, id: Id)
    requires Inv(s) && (OtherOpens(s, t, fd, id) || Accept(s, t, fd, id))
    ensures Inv(t)
  {
    OpenKernel(s, t, fd, id);
    OpenTable(s, t, fd, id);
    OpenHandlers(s, t, fd, id);
  }

  lemma OpenKernel(s: State, t: State, fd: Fd, id: Id)
    requires KernelOk(s) && TableOk(s) && (OtherOpens(s, t, fd, id) || Accept(s, t, fd, id))
    ensures KernelOk(t)
  {
    assert fd !in s.conns || (s.conns[fd].takenOver && s.phase != Running);
    assert forall f :: f in s.kernel ==> Holds(t, f, s.kernel[f]);
    assert Holds(t, fd, id);
  }

  lemma OpenTable(s: State, t: State, fd: Fd, id: Id)
    requires KernelOk(s) && TableOk(s) && (OtherOpens(s, t, fd, id) || Accept(s, t, fd, id))
    ensures TableOk(t)
  {
    assert fd !in s.conns || (s.conns[fd].takenOver && s.phase != Running);
    assert forall f :: f in s.kernel ==> Holds(t, f, s.kernel[f]);
    assert Holds(t, fd, id);
  }

  lemma OpenHandlers(s: State, t: State, fd: Fd, id: Id)
    requires Inv(s) && (OtherOpens(s, t, fd, id) || Accept(s, t, fd, id))
    ensures HandlersOk(t)
  {
    assert fd !in s.conns || (s.conns[fd].takenOver && s.phase != Running);
    assert forall f :: f in s.kernel ==> Holds(t, f, s.kernel[f]);
  }

  lemma RefuseKeeps(s: State, t: State, fd: Fd, id: Id)
    requires Inv(s) && Refuse(s, t, fd, id)
    ensures Inv(t)
  {
    assert t.kernel == s.kernel;
  }

  lemma OtherClosesKeeps(s: State, t: State, fd: Fd)
    requires Inv(s) && OtherCloses(s, t, fd)
    ensures Inv(t)
  {
    assert forall f, id :: Holds(s, f, id) && id in s.accepted ==> Holds(t, f, id);
  }

  lemma LoopCloseKeeps(s: State, t: State, fd: Fd)
    requires Inv(s) && LoopClose(s, t, fd)
    ensures Inv(t)
  {
    assert forall f, id :: Holds(s, f, id) && f != fd ==> Holds(t, f, id);
  }

  lemma DeferCloseKeeps(s: State, t: State, fd: Fd)
    requires Inv(s) && DeferClose(s, t, fd)
    ensures Inv(t)
  {
    hide HandlersOk;
    assert forall f, id :: Holds(s, f, id) ==> Holds(t, f, id);
    DeferCloseHandlers(s, t, fd);
  }

  lemma DeferCloseHandlers(s: State, t: State, fd: Fd)
    requires HandlersOk(s) && DeferClose(s, t, fd)
    ensures HandlersOk(t)
  {
    assert forall f, id, takeover :: Busy(s, f, id, takeover) ==> Busy(t, f, id, takeover);
  }

  lemma DispatchKeeps(s: State, t: State, fd: Fd, takeover: bool, atOnce: bool)
    requires Inv(s) && Dispatch(s, t, fd, takeover, atOnce)
    ensures Inv(t)
  {
    hide KernelOk, HandlersOk;
    DispatchTable(s, t, fd, takeover, atOnce);
    DispatchHandlers(s, t, fd, takeover, atOnce);
  }

  lemma DispatchTable(s: State, t: State, fd: Fd, takeover: bool, atOnce: bool)
    requires Inv(s) && Dispatch(s, t, fd, takeover, atOnce)
    ensures KernelOk(t) && TableOk(t)
  {
    hide HandlersOk;
    assert ConnOk(s, fd, s.conns[fd]);
    assert t.kernel == s.kernel;
  }

  lemma DispatchHandlers(s: State, t: State, fd: Fd, takeover: bool, atOnce: bool)
    requires Inv(s) && Dispatch(s, t, fd, takeover, atOnce)
    ensures HandlersOk(t)
  {
    hide KernelOk, TableOk;
    var id := s.conns[fd].id;
    InTable(s, fd);
    if id in s.jobs {
      InTable(s, s.jobs[id].fd);
    }
    if id in s.done {
      InTable(s, s.done[id].fd);
    }
    assert id !in s.jobs && id !in s.done;
    assert forall f, i, over :: Busy(s, f, i, over) ==> f != fd && Busy(t, f, i, over);
  }

  lemma InTable(s: State, fd: Fd)
    requires TableOk(s) && fd in s.conns
    ensures ConnOk(s, fd, s.conns[fd])
  {
  }

  /** A completion with which its connection is closed. */
  ghost predicate ClosedAtDone(s: State, t: State, id: Id) {
    && s.phase == Running && id in s.done
    && var fd := s.done[id].fd;
    t == CloseFd(s.(done := s.done - {id}, conns := s.conns - {fd}), fd, id)
  }

  lemma ClosedAtDoneTable(s: State, t: State, id: Id)
    requires Inv(s) && ClosedAtDone(s, t, id)
    ensures !t.wrong && KernelOk(t) && TableOk(t)
  {
    var fd := s.done[id].fd;
    assert Busy(s, fd, id, s.done[id].file);
    hide HandlersOk;
    assert forall f, i :: Holds(s, f, i) && f != fd ==> Holds(t, f, i);
  }

  lemma ClosedAtDoneHandlers(s: State, t: State, id: Id)
    requires Inv(s) && ClosedAtDone(s, t, id)
    ensures HandlersOk(t)
  {
    hide KernelOk;
    var fd := s.done[id].fd;
    assert Busy(s, fd, id, s.done[id].file);
    assert forall f, i :: Holds(s, f, i) && f != fd ==> Holds(t, f, i);
  }

  lemma FileDoneKeeps(s: State, t: State, id: Id)
    requires Inv(s) && HandleDone(s, t, id) && s.done[id].file
    ensures Inv(t)
  {
    hide KernelOk, TableOk, HandlersOk;
    ClosedAtDoneTable(s, t, id);
    ClosedAtDoneHandlers(s, t, id);
  }

  lemma HandlerDoneKeeps(s: State, t: State, id: Id)
    requires Inv(s) && HandleDone(s, t, id) && !s.done[id].file
    requires s.done[id].fd in s.conns && !s.conns[s.done[id].fd].closePending
    ensures Inv(t)
  {
    hide KernelOk, HandlersOk;
    HandlerDoneHandlers(s, t, id);
    HandlerDoneTable(s, t, id);
  }

  lemma HandlerDoneTable(s: State, t: State, id: Id)
    requires Inv(s) && HandleDone(s, t, id) && !s.done[id].file && !t.wrong
    requires s.done[id].fd in s.conns && !s.conns[s.done[id].fd].closePending
    ensures KernelOk(t) && TableOk(t)
  {
    assert Busy(s, s.done[id].fd, id, false);
  }

  lemma HandlerDoneHandlers(s: State, t: State, id: Id)
    requires Inv(s) && HandleDone(s, t, id) && !s.done[id].file
    requires s.done[id].fd in s.conns && !s.conns[s.done[id].fd].closePending
    ensures HandlersOk(t) && !t.wrong
  {
    hide KernelOk, TableOk;
    assert Busy(s, s.done[id].fd, id, false);
  }

  lemma DeferredCloseKeeps(s: State, t: State, id: Id)
    requires Inv(s) && HandleDone(s, t, id) && !s.done[id].file
    requires s.done[id].fd in s.conns && s.conns[s.done[id].fd].closePending
    ensures Inv(t)
  {
    hide KernelOk, TableOk;
    assert Busy(s, s.done[id].fd, id, false);
    hide HandlersOk;
    ClosedAtDoneTable(s, t, id);
    ClosedAtDoneHandlers(s, t, id);
  }

  lemma DoneIsInTable(s: State, id: Id)
    requires Inv(s) && id in s.done
    ensures s.done[id].fd in s.conns
  {
    assert Busy(s, s.done[id].fd, id, s.done[id].file);
  }

  lemma JobKeeps(s: State, t: State, id: Id)
    requires Inv(s) && (JobUses(s, t, id) || JobEnds(s, t, id))
    ensures Inv(t)
  {
    assert Busy(s, s.jobs[id].fd, id, s.jobs[id].takeover);
    assert forall f, i :: Holds(s, f, i) ==> Holds(t, f, i);
  }

  lemma StopKeeps(s: State, t: State)
    requires Inv(s) && Stop(s, t)
    ensures Inv(t)
  {
    assert forall f, i :: Holds(s, f, i) ==> Holds(t, f, i);
  }

  lemma ProceedKeeps(s: State, t: State)
    requires Inv(s) && Proceed(s, t)
    ensures Inv(t)
  {
    assert forall f, i :: Holds(s, f, i) ==> Holds(t, f, i);
  }

  lemma DrainKeeps(s: State, t: State, id: Id)
    requires Inv(s) && Drain(s, t, id)
    ensures Inv(t)
  {
    hide KernelOk, TableOk, HandlersOk;
    DrainTable(s, t, id);
    DrainHandlers(s, t, id);
  }

  lemma DrainTable(s: State, t: State, id: Id)
    requires Inv(s) && Drain(s, t, id)
    ensures !t.wrong && KernelOk(t) && TableOk(t)
  {
    var m := s.done[id];
    assert Busy(s, m.fd, id, m.file);
    hide HandlersOk;
    assert forall f, i :: Holds(s, f, i) && (f != m.fd || !m.file) ==> Holds(t, f, i);
  }

  lemma DrainHandlers(s: State, t: State, id: Id)
    requires Inv(s) && Drain(s, t, id)
    ensures HandlersOk(t)
  {
    hide KernelOk, TableOk;
    var m := s.done[id];
    assert Busy(s, m.fd, id, m.file);
    assert forall f, i :: Holds(s, f, i) && (f != m.fd || !m.file) ==> Holds(t, f, i);
  }

  lemma CloseRestKeeps(s: State, t: State, fd: Fd)
    requires Inv(s) && CloseRest(s, t, fd)
    ensures Inv(t)
  {
    assert forall f, i :: Holds(s, f, i) && f != fd ==> Holds(t, f, i);
  }

  lemma NextKeeps(s: State, t: State)
    requires Inv(s) && Next(s, t)
    ensures Inv(t)
  {
    hide Inv, Stop, Proceed, OtherOpens, Accept, Refuse, OtherCloses, LoopClose, DeferClose, CloseRest, Dispatch,
      Drain, JobUses, JobEnds;
    if Stop(s, t) {
      StopKeeps(s, t);
    } else if Proceed(s, t) {
      ProceedKeeps(s, t);
    } else if fd, id :| OtherOpens(s, t, fd, id) || Accept(s, t, fd, id) || Refuse(s, t, fd, id) {
      if Refuse(s, t, fd, id) {
        RefuseKeeps(s, t, fd, id);
      } else {
        OpenKeeps(s, t, fd, id);
      }
    } else if fd :| OtherCloses(s, t, fd) || LoopClose(s, t, fd) || DeferClose(s, t, fd) || CloseRest(s, t, fd) {
      if OtherCloses(s, t, fd) {
        OtherClosesKeeps(s, t, fd);
      } else if LoopClose(s, t, fd) {
        LoopCloseKeeps(s, t, fd);
      } else if DeferClose(s, t, fd) {
        DeferCloseKeeps(s, t, fd);
      } else {
        CloseRestKeeps(s, t, fd);
      }
    } else if fd, takeover, atOnce :| Dispatch(s, t, fd, takeover, atOnce) {
      DispatchKeeps(s, t, fd, takeover, atOnce);
    } else {
      var id :| HandleDone(s, t, id) || JobUses(s, t, id) || JobEnds(s, t, id) || Drain(s, t, id);
      if HandleDone(s, t, id) {
        DoneIsInTable(s, id);
        if s.done[id].file {
          FileDoneKeeps(s, t, id);
        } else if s.conns[s.done[id].fd].closePending {
          DeferredCloseKeeps(s, t, id);
        } else {
          HandlerDoneKeeps(s, t, id);
        }
      } else if Drain(s, t, id) {
        DrainKeeps(s, t, id);
      } else {
        JobKeeps(s, t, id);
      }
    }
  }

  ghost predicate Run(run: seq<State>) {
    && run != [] && Init(run[0])
    && forall i :: 0 <= i < |run| - 1 ==> Next(run[i], run[i + 1])
  }

  lemma {:induction false} RunKeeps(run: seq<State>, i: nat)
    requires Run(run) && i < |run|
    ensures Inv(run[i])
  {
    hide Next, Inv;
    if i == 0 {
      InitHolds(run[0]);
    } else {
      RunKeeps(run, i - 1);
      assert Next(run[i - 1], run[i - 1 + 1]);
      NextKeeps(run[i - 1], run[i]);
    }
  }

  lemma InitHolds(s: State)
    requires Init(s)
    ensures Inv(s)
  {
  }

  /** The cleanup comes to its end: until then some handler can finish, some completion be drained, some connection be
      closed, or the next phase begin. */
  lemma CleanupGoesOn(s: State) returns (t: State)
    requires s.phase == Stopping || s.phase == Draining || s.phase == Closing
    ensures CleanupStep(s, t) && Left(t) < Left(s)
  {
    hide Left, CleanupStep;
    if s.phase != Closing && s.done != map[] {
      t := DrainsOne(s);
    } else if s.phase == Stopping && s.jobs != map[] {
      t := EndsOne(s);
    } else if s.phase == Closing && s.conns != map[] {
      t := ClosesOne(s);
    } else {
      t := NextPhase(s);
    }
  }

  lemma DrainsOne(s: State) returns (t: State)
    requires (s.phase == Stopping || s.phase == Draining) && s.done != map[]
    ensures CleanupStep(s, t) && Left(t) < Left(s)
  {
    var id :| id in s.done;
    var r := s.(done := s.done - {id});
    t := if s.done[id].file then CloseFd(r, s.done[id].fd, id) else r;
    assert Drain(s, t, id) && |t.done| == |s.done| - 1;
  }

  lemma EndsOne(s: State) returns (t: State)
    requires s.phase == Stopping && s.jobs != map[]
    ensures CleanupStep(s, t) && Left(t) < Left(s)
  {
    var id :| id in s.jobs;
    t := s.(jobs := s.jobs - {id}, done := s.done[id := Done(s.jobs[id].fd, s.jobs[id].takeover)]);
    assert JobEnds(s, t, id) && |t.jobs| == |s.jobs| - 1 && |t.done| <= |s.done| + 1;
  }

  lemma ClosesOne(s: State) returns (t: State)
    requires s.phase == Closing && s.conns != map[]
    ensures CleanupStep(s, t) && Left(t) < Left(s)
  {
    var fd :| fd in s.conns;
    var r := s.(conns := s.conns - {fd});
    t := if s.conns[fd].takenOver then r else CloseFd(r, fd, s.conns[fd].id);
    assert CloseRest(s, t, fd) && |t.conns| == |s.conns| - 1;
  }

  lemma NextPhase(s: State) returns (t: State)
    requires s.phase == Stopping || s.phase == Draining || s.phase == Closing
    requires s.phase == Stopping ==> s.jobs == map[]
    requires s.phase == Draining ==> s.done == map[]
    requires s.phase == Closing ==> s.conns == map[]
    ensures CleanupStep(s, t) && Left(t) < Left(s)
  {
    t := s.(phase := if s.phase == Stopping then Draining else if s.phase == Draining then Closing else Finished);
    assert Proceed(s, t);
  }

  ghost predicate CleanupStep(s: State, t: State) {
    Proceed(s, t) || (exists id :: Drain(s, t, id) || JobEnds(s, t, id)) || exists fd :: CloseRest(s, t, fd)
  }

  /** How much of the cleanup is left to do. */
  function Left(s: State): nat {
    2 * |s.jobs| + |s.done| + |s.conns|
    + match s.phase case Running => 4 case Stopping => 3 case Draining => 2 case Closing => 1 case Finished => 0
  }

  /** The owner of an open descriptor while the worker runs. */
  datatype Owner = EventLoop | Handler | TakeoverFile

  ghost predicate Owns(s: State, id: Id, o: Owner) {
    match o
    case EventLoop => id.fd in s.conns && s.conns[id.fd].id == id && s.conns[id.fd].pending == 0
    case Handler => (id in s.jobs && !s.jobs[id].takeover) || (id in s.done && !s.done[id].file)
    case TakeoverFile => (id in s.jobs && s.jobs[id].takeover) || (id in s.done && s.done[id].file)
  }

  /** In every run no number is ever closed, written or matched for the wrong connection, so each is closed at most
      once; while the worker runs each open one has exactly one owner; and when the cleanup is over, every connection
      ever accepted has been closed. */
  lemma ClosedExactlyOnce(run: seq<State>, i: nat)
    requires Run(run) && i < |run|
    ensures var s := run[i];
      && !s.wrong
      && (forall f :: f in s.kernel ==> s.kernel[f] !in s.closed)
      && (s.phase == Running ==> forall id :: id in s.accepted - s.closed ==> OneOwner(s, id))
      && (s.phase == Finished ==> s.closed == s.accepted)
  {
    RunKeeps(run, i);
    var s := run[i];
    forall id | id in s.accepted - s.closed ensures Holds(s, id.fd, id) && (s.phase == Running ==> OneOwner(s, id)) {
      assert Holds(s, id.fd, id);
      assert ConnOk(s, id.fd, s.conns[id.fd]);
      if s.phase == Running {
        FindOwner(s, id);
      }
    }
  }

  ghost predicate OneOwner(s: State, id: Id) {
    exists o :: Owns(s, id, o) && forall p :: Owns(s, id, p) ==> p == o
  }

  lemma FindOwner(s: State, id: Id)
    requires Inv(s) && s.phase == Running && id in s.accepted && id !in s.closed
    ensures OneOwner(s, id)
  {
    assert Holds(s, id.fd, id);
    var c := s.conns[id.fd];
    assert ConnOk(s, id.fd, c);
    var o := if c.pending == 0 then EventLoop else if c.takenOver then TakeoverFile else Handler;
    if id in s.jobs {
      assert Busy(s, s.jobs[id].fd, id, s.jobs[id].takeover);
    } else if id in s.done {
      assert Busy(s, s.done[id].fd, id, s.done[id].file);
    }
    assert Owns(s, id, o);
  }
}
