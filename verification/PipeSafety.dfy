/** No lost wakeups and no lost bytes, over every interleaving. */
module PipeSafety {
  import opened Pipe

  ghost predicate LocksOk(s: State) {
    && -1 <= s.h.lk < |s.procs| && -1 <= s.h.pt < |s.procs|
    && (forall j :: 0 <= j < |s.procs| ==> (HasLk(s.procs[j].pc) <==> s.h.lk == j))
    && (forall j :: 0 <= j < |s.procs| ==> (HasPt(s.procs[j].pc) <==> s.h.pt == j))
  }

  /** Each program point belongs to the right kind of call, and a process on its way
      to sleep, while it still has the lock, has just found the reason to sleep. */
  predicate PcOk(h: Shared, pc: Pc) {
    match pc
    case Copy(op) => op.R?
    case WakeFull(op) => op.W? && Reason(h, NWrite)
    case Sleep1(op) => (op.R? || op.W?) && Reason(h, SleepChan(op))
    case Sleep2(op) => (op.R? || op.W?) && Reason(h, SleepChan(op))
    case Sleep3(op) => op.R? || op.W?
    case Asleep(op) => op.R? || op.W?
    case Woken(op) => op.R? || op.W?
    case WakeDone(op) => (op.CloseR? ==> !h.readopen) && (op.CloseW? ==> !h.writeopen)
    case _ => true
  }

  ghost predicate PcsOk(s: State) {
    forall j :: 0 <= j < |s.procs| ==> PcOk(s.h, s.procs[j].pc)
  }

  /** A reader sleeps while the pipe is empty, a writer while it is full, and the other
      end is open. */
  predicate Reason(h: Shared, chan: Chan) {
    if chan == NRead then Empty(h) && h.writeopen else Full(h) && h.readopen
  }

  predicate InCall(pc: Pc, op: Op) {
    !pc.Idle? && Kind(pc.op) == Kind(op)
  }

  function Kind(op: Op): int {
    match op case W(_) => 0 case R(_, _) => 1 case CloseW => 2 case CloseR => 3
  }

  /** No read is in progress on a closed end or beside its close; the same for
      writes. */
  ghost predicate EndsOk(s: State) {
    && (forall j :: 0 <= j < |s.procs| && InCall(s.procs[j].pc, R(0, 0)) ==> s.h.readopen && NobodyCloses(s, true))
    && (forall j :: 0 <= j < |s.procs| && InCall(s.procs[j].pc, W([])) ==> s.h.writeopen && NobodyCloses(s, false))
  }

  predicate Sleeper(pc: Pc, chan: Chan) {
    (pc.Sleep3? || pc.Asleep?) && SleepChan(pc.op) == chan
  }

  /** The holder of the pipe lock is bound to wake chan before it gives the lock up. */
  predicate Waker(pc: Pc, chan: Chan) {
    if chan == NRead then
      (pc.Loop? && pc.op.W?) || pc.WakeFull? || (pc.WakeDone? && WakeChan(pc.op) == NRead)
    else
      pc.Copy? || (pc.WakeDone? && WakeChan(pc.op) == NWrite)
  }

  predicate Excused(s: State, chan: Chan) {
    Reason(s.h, chan) || (0 <= s.h.lk < |s.procs| && Waker(s.procs[s.h.lk].pc, chan))
  }

  ghost predicate NobodySleeps(s: State, chan: Chan) {
    forall j :: 0 <= j < |s.procs| ==> !Sleeper(s.procs[j].pc, chan)
  }

  /** Whoever sleeps on chan has a reason to, or is about to be woken. */
  ghost predicate NoLost(s: State, chan: Chan) {
    NobodySleeps(s, chan) || Excused(s, chan)
  }

  /** What every run keeps. */
  ghost predicate Core(s: State) {
    RingOk(s.h) && LocksOk(s) && EndsOk(s) && PcsOk(s)
  }

  /** A killed writer finds the pipe full and leaves without a wakeup, although a
      reader sleeps. */
  ghost predicate LeavesReaderAsleep(s: State, e: Event) {
    && e.Step? && e.i < |s.procs|
    && var p := s.procs[e.i];
    && p.pc.Loop? && p.pc.op.W? && p.pc.op.rest != []
    && Full(s.h) && s.h.readopen && p.killed && !NobodySleeps(s, NRead)
  }

  // ----- one process at a time -----

  predicate SameFlags(h: Shared, k: Shared) {
    k.readopen == h.readopen && k.writeopen == h.writeopen
  }

  lemma MoveLocks(h: Shared, i: nat, pc: Pc, killed: bool)
    requires CanMove(h, pc) && |h.data| == PIPESIZE
    requires (HasLk(pc) <==> h.lk == i) && (HasPt(pc) <==> h.pt == i)
    ensures var (k, q) := Move(h, i, pc, killed);
            && (HasLk(q) <==> k.lk == i) && (HasPt(q) <==> k.pt == i)
            && (k.lk == h.lk || (h.lk == -1 && k.lk == i) || (h.lk == i && k.lk == -1))
            && (k.pt == h.pt || (h.pt == -1 && k.pt == i) || (h.pt == i && k.pt == -1))
  {
  }

  lemma MovePc(h: Shared, i: nat, pc: Pc, killed: bool)
    requires CanMove(h, pc) && |h.data| == PIPESIZE && PcOk(h, pc)
    ensures var (k, q) := Move(h, i, pc, killed);
            && PcOk(k, q)
            && (HasLk(pc) || (k.nread == h.nread && k.nwrite == h.nwrite && SameFlags(h, k)))
            && (k.readopen ==> h.readopen) && (k.writeopen ==> h.writeopen)
  {
  }

  lemma MoveKind(h: Shared, i: nat, pc: Pc, killed: bool)
    requires CanMove(h, pc) && |h.data| == PIPESIZE && PcOk(h, pc)
    ensures var (k, q) := Move(h, i, pc, killed);
            && !pc.Idle? && (q.Idle? || Kind(q.op) == Kind(pc.op))
            && (k.readopen == h.readopen || pc.op.CloseR?)
            && (k.writeopen == h.writeopen || pc.op.CloseW?)
  {
  }

  /** A process that goes to sleep has a reason. */
  lemma MoveToSleep(h: Shared, i: nat, pc: Pc, killed: bool, chan: Chan)
    requires CanMove(h, pc) && |h.data| == PIPESIZE && PcOk(h, pc)
    ensures var (k, q) := Move(h, i, pc, killed);
            Sleeper(q, chan) ==> Sleeper(pc, chan) || Reason(k, chan)
  {
  }

  /** The holder of the lock keeps the excuse, wakes the sleepers, or is a writer that
      gives up. */
  lemma MoveExcuse(h: Shared, i: nat, pc: Pc, killed: bool, chan: Chan)
    requires CanMove(h, pc) && |h.data| == PIPESIZE && PcOk(h, pc)
    requires Reason(h, chan) || (HasLk(pc) && Waker(pc, chan))
    requires RingOk(h)
    ensures var (k, q) := Move(h, i, pc, killed);
            || Reason(k, chan) || (HasLk(q) && Waker(q, chan)) || Rouses(pc, chan)
            || (chan == NRead && pc.Loop? && pc.op.W? && pc.op.rest != [] && Full(h) && (!h.readopen || killed))
  {
    TestsExact(h);
  }

  // ----- all processes -----

  lemma LocksStep(s: State, i: nat)
    requires Core(s) && Enabled(s, Step(i))
    ensures LocksOk(Next(s, Step(i)))
  {
    hide RingOk, EndsOk, PcOk, Move, CanMove;
    var p := s.procs[i];
    MoveLocks(s.h, i, p.pc, p.killed);
    var t := Next(s, Step(i));
    forall j | 0 <= j < |s.procs| && j != i
      ensures HasLk(t.procs[j].pc) == HasLk(s.procs[j].pc) && HasPt(t.procs[j].pc) == HasPt(s.procs[j].pc)
    {
      assert t.procs[j] == Nudge(p.pc, s.procs[j]);
    }
  }

  lemma PcsStep(s: State, i: nat)
    requires Core(s) && Enabled(s, Step(i))
    ensures PcsOk(Next(s, Step(i)))
  {
    hide RingOk, EndsOk, Move, CanMove;
    var p := s.procs[i];
    assert PcOk(s.h, p.pc);
    MovePc(s.h, i, p.pc, p.killed);
    var t := Next(s, Step(i));
    forall j | 0 <= j < |s.procs| && j != i ensures PcOk(t.h, t.procs[j].pc) {
      assert t.procs[j] == Nudge(p.pc, s.procs[j]);
      assert PcOk(s.h, s.procs[j].pc) && (HasLk(s.procs[j].pc) <==> s.h.lk == j);
    }
  }

  lemma EndsStep(s: State, i: nat)
    requires Core(s) && Enabled(s, Step(i))
    ensures EndsOk(Next(s, Step(i)))
  {
    hide RingOk, LocksOk, Move, CanMove, PcOk;
    var p := s.procs[i];
    assert PcOk(s.h, p.pc);
    MoveKind(s.h, i, p.pc, p.killed);
    var t := Next(s, Step(i));
    forall j | 0 <= j < |s.procs|
      ensures t.procs[j].pc.Idle? || (!s.procs[j].pc.Idle? && Kind(t.procs[j].pc.op) == Kind(s.procs[j].pc.op))
    {
      if j != i {
        assert t.procs[j] == Nudge(p.pc, s.procs[j]);
      }
    }
  }

  /** After a wakeup nobody sleeps on the channel: no process can be between taking
      the process table lock and sleeping. */
  lemma Roused(s: State, i: nat, chan: Chan)
    requires Core(s) && Enabled(s, Step(i)) && Rouses(s.procs[i].pc, chan)
    ensures NobodySleeps(Next(s, Step(i)), chan)
  {
    hide RingOk, EndsOk, PcOk;
    var p := s.procs[i];
    var t := Next(s, Step(i));
    forall j | 0 <= j < |s.procs| ensures !Sleeper(t.procs[j].pc, chan) {
      if j != i {
        assert t.procs[j] == Nudge(p.pc, s.procs[j]);
        assert HasPt(s.procs[j].pc) <==> s.h.pt == j;
      }
    }
  }

  lemma ReadersGone(s: State)
    requires EndsOk(s) && !s.h.readopen && PcsOk(s)
    ensures NobodySleeps(s, NRead)
  {
    forall j | 0 <= j < |s.procs| ensures !Sleeper(s.procs[j].pc, NRead) {
      assert PcOk(s.h, s.procs[j].pc);
    }
  }

  /** A step of process i makes no sleeper of another process. */
  lemma SleepersStep(s: State, i: nat, chan: Chan)
    requires Core(s) && Enabled(s, Step(i))
    ensures var t := Next(s, Step(i));
            |t.procs| == |s.procs| && (NobodySleeps(s, chan) ==> NobodySleeps(t, chan) || Reason(t.h, chan))
  {
    hide RingOk, LocksOk, EndsOk, Move, CanMove, PcOk, Reason;
    var p := s.procs[i];
    assert PcOk(s.h, p.pc);
    MoveToSleep(s.h, i, p.pc, p.killed, chan);
    var t := Next(s, Step(i));
    forall j | 0 <= j < |s.procs| && j != i
      ensures Sleeper(t.procs[j].pc, chan) ==> Sleeper(s.procs[j].pc, chan)
    {
      assert t.procs[j] == Nudge(p.pc, s.procs[j]);
    }
  }

  /** A process without the pipe lock leaves the excuse alone. */
  lemma ExcuseOfOthers(s: State, i: nat, chan: Chan)
    requires Core(s) && Enabled(s, Step(i)) && s.h.lk != i && Excused(s, chan)
    ensures Excused(Next(s, Step(i)), chan)
  {
    hide RingOk, EndsOk, PcOk;
    var p := s.procs[i];
    assert HasLk(p.pc) <==> s.h.lk == i;
    if s.h.lk != -1 {
      var j := s.h.lk;
      assert Next(s, Step(i)).procs[j] == Nudge(p.pc, s.procs[j]);
      assert HasLk(s.procs[j].pc);
    }
  }

  lemma ExcuseOfHolder(s: State, i: nat, chan: Chan)
    requires Core(s) && Enabled(s, Step(i)) && s.h.lk == i && Excused(s, chan)
    ensures || NoLost(Next(s, Step(i)), chan)
            || (chan == NRead && LeavesReaderAsleep(s, Step(i)))
  {
    hide RingOk, Move, PcOk, CanMove, Reason, Waker, Rouses, NobodySleeps;
    var p := s.procs[i];
    assert PcOk(s.h, p.pc);
    MoveExcuse(s.h, i, p.pc, p.killed, chan);
    LocksStep(s, i);
    var t := Next(s, Step(i));
    assert HasLk(t.procs[i].pc) <==> t.h.lk == i;
    if Rouses(p.pc, chan) {
      Roused(s, i, chan);
    }
    SleepersStep(s, i, NRead);
    if !s.h.readopen {
      ReadersGone(s);
    }
  }

  lemma NoLostStep(s: State, i: nat, chan: Chan)
    requires Core(s) && NoLost(s, chan) && Enabled(s, Step(i))
    requires chan == NRead ==> !LeavesReaderAsleep(s, Step(i))
    ensures NoLost(Next(s, Step(i)), chan)
  {
    hide RingOk, Move, PcOk, CanMove, Reason, Waker, LeavesReaderAsleep, Next, NobodySleeps;
    if !Excused(s, chan) {
      SleepersStep(s, i, chan);
    } else if s.h.lk == i {
      ExcuseOfHolder(s, i, chan);
    } else {
      ExcuseOfOthers(s, i, chan);
    }
  }

  lemma CoreStart(s: State, e: Event)
    requires Core(s) && e.Start? && Enabled(s, e)
    ensures Core(Next(s, e))
  {
    hide RingOk;
    var t := Next(s, e);
    assert LocksOk(t) by { hide EndsOk, PcOk; }
    assert PcsOk(t) by { hide EndsOk, LocksOk; }
    assert EndsOk(t) by { hide LocksOk, PcOk; }
  }

  lemma CoreKill(s: State, e: Event)
    requires Core(s) && e.Kill? && Enabled(s, e)
    ensures Core(Next(s, e))
  {
    hide RingOk;
    var t := Next(s, e);
    assert LocksOk(t) by { hide EndsOk, PcOk; }
    assert PcsOk(t) by { hide EndsOk, LocksOk; }
    assert EndsOk(t) by { hide LocksOk, PcOk; }
  }

  lemma CoreStep(s: State, e: Event)
    requires Core(s) && Enabled(s, e)
    ensures Core(Next(s, e))
  {
    hide RingOk, LocksOk, EndsOk, Move, PcOk, CanMove;
    if e.Step? {
      RingMove(s.h, e.i, s.procs[e.i].pc, s.procs[e.i].killed);
      LocksStep(s, e.i);
      EndsStep(s, e.i);
      PcsStep(s, e.i);
    } else if e.Start? {
      CoreStart(s, e);
    } else {
      CoreKill(s, e);
    }
  }

  /** Starting a call and killing a process put nobody to sleep and free no lock. */
  lemma NoLostOther(s: State, e: Event, chan: Chan)
    requires Core(s) && Enabled(s, e) && !e.Step? && NoLost(s, chan)
    ensures NoLost(Next(s, e), chan)
  {
    hide RingOk, EndsOk, PcOk;
    var t := Next(s, e);
    if NobodySleeps(s, chan) {
      forall j | 0 <= j < |s.procs| ensures !Sleeper(t.procs[j].pc, chan) {
        assert !Sleeper(s.procs[j].pc, chan);
      }
    }
  }

  /** The step that gives up does lose the reader. */
  lemma LeavingLoses(s: State, e: Event)
    requires Core(s) && Enabled(s, e) && LeavesReaderAsleep(s, e)
    ensures !NoLost(Next(s, e), NRead)
  {
    hide EndsOk, PcOk, RingOk;
    TestsExact(s.h);
    var t := Next(s, e);
    assert !Empty(s.h) by { assert RingOk(s.h); NotBoth(s.h); }
    var j :| 0 <= j < |s.procs| && Sleeper(s.procs[j].pc, NRead);
    assert t.procs[j] == Nudge(s.procs[e.i].pc, s.procs[j]);
    assert HasLk(s.procs[e.i].pc) <==> s.h.lk == e.i;
  }

  lemma NotBoth(h: Shared)
    requires RingOk(h)
    ensures !(Full(h) && Empty(h))
  {
    TestsExact(h);
  }

  /** Readers are lost by exactly one kind of step. */
  lemma LostIff(s: State, e: Event)
    requires Core(s) && NoLost(s, NRead) && Enabled(s, e)
    ensures NoLost(Next(s, e), NRead) <==> !LeavesReaderAsleep(s, e)
  {
    hide RingOk, LocksOk, EndsOk, NoLost, Move, PcOk, CanMove, Next;
    if LeavesReaderAsleep(s, e) {
      LeavingLoses(s, e);
    } else if e.Step? {
      NoLostStep(s, e.i, NRead);
    } else {
      NoLostOther(s, e, NRead);
    }
  }
}
