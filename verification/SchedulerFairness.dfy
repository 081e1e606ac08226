/** No starvation, with bounds: aging carries a waiting process to the top queue,
    and the top queue is served in order. */
module SchedulerFairness {
  import opened Scheduler
  import opened SchedulerRun
  import opened SchedulerPolicy
  import opened SchedulerSafety

  /** Ticks of waiting that a process's priority and aging counter stand for. */
  function Credit(pr: Proc): int {
    if pr.priority == 0 then pr.readyTimeAging
    else if pr.priority == 1 then T01 + pr.readyTimeAging
    else if pr.priority == 2 then T01 + T12 + pr.readyTimeAging
    else T01 + T12 + T23
  }

  /** How one step treats a process that waits. */
  ghost predicate Waits(a: Proc, b: Proc, e: Event) {
    && b.state == RUNNABLE
    && if e.ClockTick? then b.priority == a.priority && b.readyTimeAging == a.readyTimeAging + 1
       else if e.AgeTick? then
         if Due(a) then b.priority == a.priority + 1 && b.readyTimeAging == 0
         else b.priority == a.priority && b.readyTimeAging == a.readyTimeAging
       else b.priority == a.priority && b.readyTimeAging == a.readyTimeAging
  }

  lemma DispatchWaits(s: Sys, c: nat, random: nat, p: int)
    requires Inv(s) && Enabled(s, Dispatch(c, random)) && 0 <= p < NPROC && s.t.procs[p].state == RUNNABLE
    ensures var s' := Next(s, Dispatch(c, random));
            s'.cpus[c] == p || Waits(s.t.procs[p], s'.t.procs[p], Dispatch(c, random))
  {
    ChooseFinds(s.t, s.phase, random);
  }

  lemma ExitWaits(s: Sys, c: nat, p: int)
    requires Inv(s) && Enabled(s, Exit(c)) && 0 <= p < NPROC && s.t.procs[p].state == RUNNABLE
    ensures Waits(s.t.procs[p], Next(s, Exit(c)).t.procs[p], Exit(c))
    ensures s.t.queues[3] <= Next(s, Exit(c)).t.queues[3]
  {
    hide MakeReady, WakeUpTo, ReparentUpTo;
    var x := s.cpus[c];
    var chan := ProcChan(s.t.procs[x].parent);
    WakeupOnlyWakes(s.t, chan);
    ReparentOnlyWakes(Wakeup(s.t, chan), x, s.initproc, NPROC);
    OnlyWakesTrans(s.t, Wakeup(s.t, chan), ReparentUpTo(Wakeup(s.t, chan), x, s.initproc, NPROC));
  }

  lemma ProcessStepWaits(s: Sys, e: Event, p: int)
    requires Inv(s) && Enabled(s, e) && 0 <= p < NPROC && s.t.procs[p].state == RUNNABLE
    requires e.Alloc? || e.Abandon? || e.Admit? || e.Yield? || e.Sleep? || e.Wait? || e.Reap? || e.SetPriority?
    ensures |Next(s, e).t.procs| == NPROC && Next(s, e).t.procs[p] == s.t.procs[p]
  {
    hide QueueOk, ProcsOk;
  }

  lemma WakeStepWaits(s: Sys, e: Event, p: int)
    requires Inv(s) && Enabled(s, e) && 0 <= p < NPROC && s.t.procs[p].state == RUNNABLE
    requires e.WakeChan? || e.Kill? || e.EndTick?
    ensures |Next(s, e).t.procs| == NPROC && Waits(s.t.procs[p], Next(s, e).t.procs[p], e)
  {
    hide QueueOk, ProcsOk, CpusOk;
  }

  /** A waiting process goes on waiting or is dispatched. */
  lemma StepWaits(s: Sys, e: Event, p: int)
    requires Inv(s) && Enabled(s, e) && 0 <= p < NPROC && s.t.procs[p].state == RUNNABLE
    ensures Shape(Next(s, e).t)
    ensures (e.Dispatch? && Next(s, e).cpus[e.c] == p) || Waits(s.t.procs[p], Next(s, e).t.procs[p], e)
  {
    hide Next, QueueOk, CpusOk, ProcsOk;
    assert Shape(Next(s, e).t) by { InvStepShape(s, e); }
    match e
    case Dispatch(c, random) => DispatchWaits(s, c, random, p);
    case Exit(c) => ExitWaits(s, c, p);
    case ClockTick => TickWaits(s, e, p);
    case AgeTick => TickWaits(s, e, p);
    case WakeChan(chan) => WakeStepWaits(s, e, p);
    case Kill(pid) => WakeStepWaits(s, e, p);
    case EndTick(chan) => WakeStepWaits(s, e, p);
    case _ => ProcessStepWaits(s, e, p);
  }

  lemma InvStepShape(s: Sys, e: Event)
    requires Inv(s) && Enabled(s, e)
    ensures Shape(Next(s, e).t)
  {
    hide Next;
    InvStep(s, e);
  }

  lemma TickWaits(s: Sys, e: Event, p: int)
    requires Inv(s) && Enabled(s, e) && 0 <= p < NPROC && s.t.procs[p].state == RUNNABLE
    requires e.ClockTick? || e.AgeTick?
    ensures |Next(s, e).t.procs| == NPROC && Waits(s.t.procs[p], Next(s, e).t.procs[p], e)
  {
    AgreeAgeUpTo(s.t, NPROC);
  }

  lemma CreditStep(s: Sys, e: Event, p: int)
    requires Inv(s) && Enabled(s, e) && 0 <= p < NPROC && s.t.procs[p].state == RUNNABLE
    requires Shape(Next(s, e).t) && Next(s, e).t.procs[p].state == RUNNABLE
    ensures Credit(Next(s, e).t.procs[p]) >= Credit(s.t.procs[p]) + (if e.ClockTick? && s.t.procs[p].priority < 3 then 1 else 0)
    ensures Next(s, e).t.procs[p].priority >= s.t.procs[p].priority
  {
    InvStep(s, e);
    if e.Dispatch? {
      assert Next(s, e).cpus[e.c] != p;
    }
    StepWaits(s, e, p);
    assert ProcOk(s.t.procs[p], s.t.nextpid, s.phase);
  }

  ghost function Ticks(es: seq<Event>, i: nat, j: nat): nat
    requires i <= j <= |es|
  {
    if i == j then 0 else Ticks(es, i, j - 1) + if es[j - 1].ClockTick? then 1 else 0
  }

  ghost predicate WaitsAll(states: seq<Sys>, i: nat, j: nat, p: int)
    requires i <= j < |states|
  {
    forall x :: i <= x <= j ==> 0 <= p < |states[x].t.procs| && states[x].t.procs[p].state == RUNNABLE
  }

  lemma {:induction false} CreditGrows(states: seq<Sys>, es: seq<Event>, i: nat, j: nat, p: int)
    requires IsRun(states, es) && i <= j <= |es| && 0 <= p < NPROC && WaitsAll(states, i, j, p)
    ensures var pr := states[j].t.procs[p];
            0 <= pr.priority < NUMFILAS && (pr.priority == 3 || Credit(pr) >= Ticks(es, i, j))
    decreases j
  {
    hide Next, Enabled, QueueOk, CpusOk, PidsUnique;
    InvAlways(states, es, j);
    assert ProcOk(states[j].t.procs[p], states[j].t.nextpid, states[j].phase);
    if i < j {
      CreditGrows(states, es, i, j - 1, p);
      InvAlways(states, es, j - 1);
      assert StepAt(states, es, j - 1);
      CreditStep(states[j - 1], es[j - 1], p);
    }
  }

  /** A process that stays runnable for 450 ticks is in the top queue. */
  lemma AgedToTheTop(states: seq<Sys>, es: seq<Event>, i: nat, j: nat, p: int)
    requires IsRun(states, es) && i <= j <= |es| && 0 <= p < NPROC && WaitsAll(states, i, j, p)
    requires Ticks(es, i, j) >= 450 && states[j].phase != ClockDone
    ensures Shape(states[j].t) && states[j].t.procs[p].priority == 3 && p in states[j].t.queues[3]
  {
    CreditGrows(states, es, i, j, p);
    InvAlways(states, es, j);
    assert ProcOk(states[j].t.procs[p], states[j].t.nextpid, states[j].phase);
  }

  // ----- the top queue -----

  ghost function Dispatches(es: seq<Event>, i: nat, j: nat): nat
    requires i <= j <= |es|
  {
    if i == j then 0 else Dispatches(es, i, j - 1) + if es[j - 1].Dispatch? then 1 else 0
  }

  /** A dispatch takes the head of a nonempty top queue; nothing else takes
      anything from it, and what is added goes behind. */
  lemma TopQueueStep(s: Sys, e: Event)
    requires Inv(s) && Enabled(s, e) && s.t.queues[3] != []
    ensures Shape(Next(s, e).t)
    ensures e.Dispatch? ==> e.c < |Next(s, e).cpus| && Next(s, e).cpus[e.c] == s.t.queues[3][0] && s.t.queues[3][1..] <= Next(s, e).t.queues[3]
    ensures !e.Dispatch? ==> s.t.queues[3] <= Next(s, e).t.queues[3]
  {
    hide ShortestUpTo, LotteryFrom, TicketSum, ExitOf, CpusOk, PidsUnique;
    InvStep(s, e);
    assert QueueOk(s.t.procs, 3, s.t.queues[3]);
    match e
    case Dispatch(c, random) =>
      assert RemoveAt(s.t.queues[3], 0) == s.t.queues[3][1..];
    case Exit(c) => ExitWaits(s, c, s.t.queues[3][0]);
    case _ =>
  }

  /** While fewer than m + 1 dispatches have happened, the process that was at
      position m of the top queue has moved forward by one for each. */
  lemma {:induction false} NeverOvertaken(states: seq<Sys>, es: seq<Event>, i: nat, j: nat, m: nat)
    requires IsRun(states, es) && i <= j <= |es| && Shape(states[i].t) && m < |states[i].t.queues[3]|
    requires Dispatches(es, i, j) <= m
    ensures Shape(states[j].t) && m - Dispatches(es, i, j) < |states[j].t.queues[3]|
    ensures states[j].t.queues[3][m - Dispatches(es, i, j)] == states[i].t.queues[3][m]
    decreases j
  {
    hide Inv, Next, Enabled;
    if i < j {
      NeverOvertaken(states, es, i, j - 1, m);
      InvAlways(states, es, j - 1);
      assert StepAt(states, es, j - 1);
      TopQueueStep(states[j - 1], es[j - 1]);
    }
  }

  /** The process at position m of the top queue is taken by the dispatch that
      comes after m others, whichever processor makes it. */
  lemma TakenInTurn(states: seq<Sys>, es: seq<Event>, i: nat, j: nat, m: nat)
    requires IsRun(states, es) && i <= j < |es| && Shape(states[i].t) && m < |states[i].t.queues[3]|
    requires Dispatches(es, i, j) == m && es[j].Dispatch?
    ensures es[j].c < |states[j + 1].cpus| && states[j + 1].cpus[es[j].c] == states[i].t.queues[3][m]
  {
    hide Inv, Next, Enabled;
    NeverOvertaken(states, es, i, j, m);
    InvAlways(states, es, j);
    assert StepAt(states, es, j);
    TopQueueStep(states[j], es[j]);
  }

  lemma {:induction false} FindDispatch(es: seq<Event>, i: nat, l: nat, m: nat) returns (j: nat)
    requires i <= l <= |es| && Dispatches(es, i, l) > m
    ensures i <= j < l && es[j].Dispatch? && Dispatches(es, i, j) == m
  {
    if Dispatches(es, i, l - 1) > m {
      j := FindDispatch(es, i, l - 1, m);
    } else {
      j := l - 1;
    }
  }

  /** When a waiting process stops waiting, a dispatch has just taken it. */
  lemma {:induction false} StopsByDispatch(states: seq<Sys>, es: seq<Event>, i: nat, j: nat, p: int) returns (x: nat)
    requires IsRun(states, es) && i <= j <= |es| && 0 <= p < NPROC && |states[i].t.procs| == NPROC
    requires states[i].t.procs[p].state == RUNNABLE && !WaitsAll(states, i, j, p)
    ensures i <= x < j && es[x].Dispatch? && es[x].c < |states[x + 1].cpus| && states[x + 1].cpus[es[x].c] == p
    decreases j - i
  {
    if i < j {
      InvAlways(states, es, i);
      assert StepAt(states, es, i);
      StepWaits(states[i], es[i], p);
      if es[i].Dispatch? && states[i + 1].cpus[es[i].c] == p {
        x := i;
      } else {
        x := StopsByDispatch(states, es, i + 1, j, p);
      }
    } else {
      assert false;
    }
  }

  /** No starvation: a runnable process is on a processor at some point before 450
      ticks and then 64 dispatches have gone by. */
  lemma NoStarvation(states: seq<Sys>, es: seq<Event>, i: nat, j: nat, l: nat, p: int)
    requires IsRun(states, es) && i <= j <= l <= |es| && 0 <= p < NPROC
    requires Shape(states[i].t) && states[i].t.procs[p].state == RUNNABLE
    requires Ticks(es, i, j) >= 450 && states[j].phase != ClockDone && Dispatches(es, j, l) >= NPROC
    ensures exists x :: i <= x < l && es[x].Dispatch? && es[x].c < |states[x + 1].cpus| && states[x + 1].cpus[es[x].c] == p
  {
    if WaitsAll(states, i, j, p) {
      AgedToTheTop(states, es, i, j, p);
      InvAlways(states, es, j);
      QueuesFit(states[j].t);
      var m :| 0 <= m < |states[j].t.queues[3]| && states[j].t.queues[3][m] == p;
      var x := FindDispatch(es, j, l, m);
      TakenInTurn(states, es, j, x, m);
    } else {
      var x := StopsByDispatch(states, es, i, j, p);
    }
  }
}
