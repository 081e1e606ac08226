/** Whom kill reaches. It compares pids of all slots, those not in use included, and
    allocproc does not clear the mark. */
module SchedulerKill {
  import opened Scheduler
  import opened SchedulerRun
  import opened SchedulerSafety
  import opened SchedulerFamily

  /** No free slot is marked. */
  ghost predicate FreeUnmarked(s: Sys) {
    forall p :: 0 <= p < |s.t.procs| && s.t.procs[p].state == UNUSED ==> !s.t.procs[p].killed
  }

  /** A kill whose pid is first found in a free slot, or the failure of an allocation
      whose embryo has been killed. */
  predicate MarksFree(s: Sys, e: Event) {
    match e
    case Kill(pid) => var p := FirstPid(s.t.procs, pid, 0); p < |s.t.procs| && s.t.procs[p].state == UNUSED
    case Abandon(p) => 0 <= p < |s.t.procs| && s.t.procs[p].killed
    case _ => false
  }

  lemma KillMarks(s: Sys, pid: int)
    requires Inv(s) && FreeUnmarked(s)
    ensures FreeUnmarked(Next(s, Kill(pid))) <==> !MarksFree(s, Kill(pid))
  {
    hide QueueOk, ProcsOk, CpusOk;
    var u, p := Next(s, Kill(pid)), FirstPid(s.t.procs, pid, 0);
    if p < NPROC && s.t.procs[p].state == UNUSED {
      assert u.t.procs[p].state == UNUSED && u.t.procs[p].killed;
    }
  }

  /** How a step changes the state and the mark of one slot. */
  ghost predicate Marked(a: Proc, b: Proc, e: Event, p: int) {
    && (b.state == UNUSED ==> a.state == UNUSED || e == Abandon(p) || (e.Reap? && e.p == p))
    && (a.state == UNUSED ==> b.state == UNUSED || e.Alloc?)
    && b.killed == (a.killed && !(e.Reap? && e.p == p))
  }

  lemma MarkedDispatch(s: Sys, c: nat, random: nat, p: int)
    requires Inv(s) && Enabled(s, Dispatch(c, random)) && 0 <= p < NPROC
    ensures |Next(s, Dispatch(c, random)).t.procs| == NPROC && Marked(s.t.procs[p], Next(s, Dispatch(c, random)).t.procs[p], Dispatch(c, random), p)
  {
    hide ProcsOk, CpusOk, Choose;
    ChooseFinds(s.t, s.phase, random);
    if Choose(s.t, random).Pick? {
      assert QueueOk(s.t.procs, Choose(s.t, random).k, s.t.queues[Choose(s.t, random).k]);
    }
  }

  lemma MarkedTick(s: Sys, e: Event, p: int)
    requires Inv(s) && Enabled(s, e) && 0 <= p < NPROC && (e.AgeTick? || e.ClockTick? || e.EndTick? || e.WakeChan?)
    ensures |Next(s, e).t.procs| == NPROC && Marked(s.t.procs[p], Next(s, e).t.procs[p], e, p)
  {
    hide ProcsOk, CpusOk, QueueOk, MakeReady;
    AgreeAgeUpTo(s.t, NPROC);
  }

  lemma MarkedExit(s: Sys, c: nat, p: int)
    requires Inv(s) && Enabled(s, Exit(c)) && 0 <= p < NPROC
    ensures |Next(s, Exit(c)).t.procs| == NPROC && Marked(s.t.procs[p], Next(s, Exit(c)).t.procs[p], Exit(c), p)
  {
    hide ProcsOk, QueueOk, ExitOf;
    ExitEffect(s.t, s.cpus[c], s.initproc, p);
  }

  lemma MarkedOther(s: Sys, e: Event, p: int)
    requires Inv(s) && Enabled(s, e) && 0 <= p < NPROC
    requires e.Alloc? || e.Abandon? || e.Admit? || e.Yield? || e.Sleep? || e.Wait? || e.Reap? || e.SetPriority?
    ensures |Next(s, e).t.procs| == NPROC && Marked(s.t.procs[p], Next(s, e).t.procs[p], e, p)
  {
    hide ProcsOk, QueueOk, FirstUnused;
  }

  lemma StepMarks(s: Sys, e: Event)
    requires Inv(s) && Enabled(s, e) && FreeUnmarked(s)
    ensures FreeUnmarked(Next(s, e)) <==> !MarksFree(s, e)
  {
    hide Inv, Next, Enabled, Marked;
    AgreeOf(s);
    if e.Kill? {
      KillMarks(s, e.pid);
    } else {
      var u := Next(s, e);
      forall p | 0 <= p < NPROC ensures |u.t.procs| == NPROC && Marked(s.t.procs[p], u.t.procs[p], e, p) {
        match e
        case Dispatch(c, random) => MarkedDispatch(s, c, random, p);
        case AgeTick => MarkedTick(s, e, p);
        case ClockTick => MarkedTick(s, e, p);
        case EndTick(_) => MarkedTick(s, e, p);
        case WakeChan(_) => MarkedTick(s, e, p);
        case Exit(c) => MarkedExit(s, c, p);
        case _ => MarkedOther(s, e, p);
      }
      SameInit(s, e);
      AbandonFrees(s, e);
      MarkedAll(s, u, e);
    }
  }

  lemma AbandonFrees(s: Sys, e: Event)
    requires Inv(s) && Enabled(s, e) && Shape(Next(s, e).t)
    ensures e.Abandon? ==> 0 <= e.p < NPROC && Next(s, e).t.procs[e.p].state == UNUSED
  {
    hide ProcsOk, QueueOk, CpusOk;
  }

  lemma MarkedAll(s: Sys, u: Sys, e: Event)
    requires |s.t.procs| == |u.t.procs| == NPROC && FreeUnmarked(s) && !e.Kill? && (e.Abandon? ==> 0 <= e.p < NPROC && u.t.procs[e.p].state == UNUSED)
    requires forall p :: 0 <= p < NPROC ==> Marked(s.t.procs[p], u.t.procs[p], e, p)
    ensures FreeUnmarked(u) <==> !MarksFree(s, e)
  {
    if e.Abandon? && s.t.procs[e.p].killed {
      assert Marked(s.t.procs[e.p], u.t.procs[e.p], e, e.p);
      assert u.t.procs[e.p].killed;
    }
  }

  /** On every run: the free slots stay unmarked exactly when no kill is first found in a
      free slot and no killed embryo is given up. */
  lemma NeverMarkedIff(states: seq<Sys>, es: seq<Event>)
    requires IsRun(states, es) && FreeUnmarked(states[0])
    ensures (forall i :: 0 <= i <= |es| ==> FreeUnmarked(states[i])) <==> (forall i :: 0 <= i < |es| ==> !MarksFree(states[i], es[i]))
  {
    hide Inv, Next, Enabled, FreeUnmarked, MarksFree;
    if forall i :: 0 <= i <= |es| ==> FreeUnmarked(states[i]) {
      forall i | 0 <= i < |es| ensures !MarksFree(states[i], es[i]) {
        MarksAt(states, es, i);
        assert FreeUnmarked(states[i + 1]);
      }
    }
    if forall i :: 0 <= i < |es| ==> !MarksFree(states[i], es[i]) {
      forall i | 0 <= i <= |es| ensures FreeUnmarked(states[i]) {
        UnmarkedUpTo(states, es, i);
      }
    }
  }

  lemma MarksAt(states: seq<Sys>, es: seq<Event>, i: nat)
    requires IsRun(states, es) && i < |es| && FreeUnmarked(states[i])
    ensures FreeUnmarked(states[i + 1]) <==> !MarksFree(states[i], es[i])
  {
    hide Inv, Next, Enabled, FreeUnmarked, MarksFree;
    InvAlways(states, es, i);
    assert StepAt(states, es, i);
    StepMarks(states[i], es[i]);
  }

  lemma {:induction false} UnmarkedUpTo(states: seq<Sys>, es: seq<Event>, i: nat)
    requires IsRun(states, es) && i <= |es| && FreeUnmarked(states[0]) && forall j :: 0 <= j < |es| ==> !MarksFree(states[j], es[j])
    ensures FreeUnmarked(states[i])
  {
    hide Inv, Next, Enabled, FreeUnmarked, MarksFree;
    if i > 0 {
      UnmarkedUpTo(states, es, i - 1);
      MarksAt(states, es, i - 1);
    }
  }

  /** A new process starts with the mark of its slot. */
  lemma BornMarkedIff(s: Sys)
    requires Inv(s) && FirstUnused(s.t.procs, 0) < NPROC
    ensures var p, u := FirstUnused(s.t.procs, 0), Next(s, Alloc).t.procs;
            |u| == NPROC && u[p].state == EMBRYO && u[p].pid == s.t.nextpid && (u[p].killed <==> s.t.procs[p].killed)
  {
  }

  /** And a free slot does get marked: kill(0), with every slot free, marks the slot that
      init is then made in. */
  lemma KillZero(ncpu: nat)
    ensures var s0 := Boot(ncpu);
            var s1 := Next(s0, Kill(0));
            && Inv(s0) && Inv(s1) && FreeUnmarked(s0) && MarksFree(s0, Kill(0))
            && FirstUnused(s1.t.procs, 0) == 0 && s1.t.procs[0].killed
            && |Next(s1, Alloc).t.procs| == NPROC && Next(s1, Alloc).t.procs[0].state == EMBRYO && Next(s1, Alloc).t.procs[0].killed
  {
    var s0 := Boot(ncpu);
    BootInv(ncpu);
    assert FirstPid(s0.t.procs, 0, 0) == 0;
    InvKill(s0, 0);
    var s1 := Next(s0, Kill(0));
    assert s1.t.procs[0].state == UNUSED && s1.t.procs[0].killed;
    BornMarkedIff(s1);
  }
}
