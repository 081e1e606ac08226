/** The queue invariant in every run. */
module SchedulerSafety {
  import opened Scheduler
  import opened SchedulerRun
  import opened SchedulerPolicy

  lemma InvAlloc(s: Sys)
    requires Inv(s)
    ensures Inv(Next(s, Alloc))
  {
    var p := FirstUnused(s.t.procs, 0);
    if p < NPROC {
      var t' := AllocOne(s.t);
      AgreeSetProc(s.t, p, t'.procs[p]);
      assert Agree(t');
      assert ProcOk(s.t.procs[p], s.t.nextpid, s.phase);
      OneProcKeeps(s.t, t', p, s.phase);
      OffCpuKeeps(s.t.procs, t'.procs, p, s.cpus);
    }
  }

  /** Steps that rewrite one process which is runnable neither before nor after. */
  lemma InvSetProc(s: Sys, p: int, pr: Proc)
    requires Inv(s) && 0 <= p < NPROC
    requires s.t.procs[p].state != RUNNABLE && pr.state != RUNNABLE
    requires (s.t.procs[p].state == RUNNING) == (pr.state == RUNNING)
    requires ProcOk(pr, s.t.nextpid, s.phase) && pr.pid in {0, s.t.procs[p].pid}
    ensures Inv(s.(t := SetProc(s.t, p, pr)))
  {
    var t' := SetProc(s.t, p, pr);
    AgreeSetProc(s.t, p, pr);
    OneProcKeeps(s.t, t', p, s.phase);
    OffCpuKeeps(s.t.procs, t'.procs, p, s.cpus);
  }

  lemma InvAdmit(s: Sys, p: int, parent: int)
    requires Inv(s) && Enabled(s, Admit(p, parent))
    ensures Inv(Next(s, Admit(p, parent)))
  {
    var pr := s.t.procs[p].(parent := parent, priority := PRIO);
    assert ProcOk(s.t.procs[p], s.t.nextpid, s.phase);
    InvSetProc(s, p, pr);
    var m := SetProc(s.t, p, pr);
    AgreeMakeReady(m, p);
    OneProcKeeps(m, MakeReady(m, p), p, s.phase);
    OffCpuKeeps(m.procs, MakeReady(m, p).procs, p, s.cpus);
  }

  lemma LotteryFinds(t: Table, phase: Phase, random: nat)
    requires Agree(t) && ProcsOk(t, phase) && t.queues[0] != []
    ensures forall i :: 0 <= i < |t.queues[0]| ==> 0 <= t.queues[0][i] < |t.procs|
    ensures var total := TicketSum(t.procs, t.queues[0], |t.queues[0]|);
            0 <= total && LotteryFrom(t.procs, t.queues[0], random % (total + 1), 0) < |t.queues[0]|
  {
    var q := t.queues[0];
    assert QueueOk(t.procs, 0, q);
    forall i | 0 <= i < |q| ensures 0 <= t.procs[q[i]].tickets {
      assert ProcOk(t.procs[q[i]], t.nextpid, phase);
    }
    TicketSumMonotone(t.procs, q, 0, |q|);
    LotteryWinner(t.procs, q, random % (TicketSum(t.procs, q, |q|) + 1), 0);
  }

  lemma QueuedInRange(t: Table)
    requires Agree(t)
    ensures forall k, i :: 0 <= k < NUMFILAS && 0 <= i < |t.queues[k]| ==> 0 <= t.queues[k][i] < NPROC
  {
    forall k, i | 0 <= k < NUMFILAS && 0 <= i < |t.queues[k]| ensures 0 <= t.queues[k][i] < NPROC {
      assert QueueOk(t.procs, k, t.queues[k]);
    }
  }

  /** The scheduler always finds a process when a queue is nonempty, and takes it
      from the highest nonempty queue. */
  lemma ChooseFinds(t: Table, phase: Phase, random: nat)
    requires Agree(t) && ProcsOk(t, phase)
    ensures forall k, i :: 0 <= k < NUMFILAS && 0 <= i < |t.queues[k]| ==> 0 <= t.queues[k][i] < NPROC
    ensures Choose(t, random).Nothing? <==> forall k :: 0 <= k < NUMFILAS ==> t.queues[k] == []
    ensures Choose(t, random).Pick? ==>
              && 0 <= Choose(t, random).k < NUMFILAS && Choose(t, random).i < |t.queues[Choose(t, random).k]|
              && forall k :: Choose(t, random).k < k < NUMFILAS ==> t.queues[k] == []
  {
    hide TicketSum, LotteryFrom, ShortestUpTo, QueueOk, ProcsOk;
    QueuedInRange(t);
    if t.queues[0] != [] {
      LotteryFinds(t, phase, random);
    }
  }

  /** Which process the scheduler settles on, queue by queue. */
  lemma ChooseMeaning(t: Table, phase: Phase, random: nat)
    requires Agree(t) && ProcsOk(t, phase)
    ensures forall k, i :: 0 <= k < NUMFILAS && 0 <= i < |t.queues[k]| ==> 0 <= t.queues[k][i] < NPROC
    ensures var q, c := t.queues, Choose(t, random);
            if q[3] != [] then c == Pick(3, 0)
            else if q[2] != [] then c.Pick? && c.k == 2 && JobToTake(t.procs, q[2], c.i)
            else if q[1] != [] then c == Pick(1, 0)
            else if q[0] != [] then
              var total := TicketSum(t.procs, q[0], |q[0]|);
              0 <= total && c.Pick? && c.k == 0 && WinsDraw(t.procs, q[0], random % (total + 1), c.i)
            else c.Nothing?
  {
    QueuedInRange(t);
    if t.queues[2] != [] {
      ShortestIsJobToTake(t.procs, t.queues[2]);
    }
    hide JobToTake, ShortestUpTo;
    if t.queues[0] != [] {
      LotteryFinds(t, phase, random);
    }
  }

  /** From s to u processor c has taken the process at position i of queue k. */
  ghost predicate Served(s: Sys, u: Sys, c: nat, k: int, i: nat) {
    && c < |s.cpus| && 0 <= k < |s.t.queues| && i < |s.t.queues[k]| && 0 <= s.t.queues[k][i] < |s.t.procs|
    && var q, p := s.t.queues[k], s.t.queues[k][i];
    && u.cpus == s.cpus[c := p]
    && u.t.queues == s.t.queues[k := q[..i] + q[i + 1..]]
    && u.t.procs == s.t.procs[p := s.t.procs[p].(state := RUNNING, clock := 0, readyTimeAging := 0)]
    && u.t.nextpid == s.t.nextpid && u.initproc == s.initproc && u.phase == s.phase
  }

  /** A dispatch: the head of queue 3; else of queue 2 the job to take; else the head of
      queue 1; else of queue 0 the winner of the draw; else nothing. */
  lemma DispatchTakes(s: Sys, c: nat, random: nat)
    requires Inv(s) && Enabled(s, Dispatch(c, random))
    ensures forall k, i :: 0 <= k < NUMFILAS && 0 <= i < |s.t.queues[k]| ==> 0 <= s.t.queues[k][i] < NPROC
    ensures var q, u := s.t.queues, Next(s, Dispatch(c, random));
            if q[3] != [] then Served(s, u, c, 3, 0)
            else if q[2] != [] then exists i: nat :: JobToTake(s.t.procs, q[2], i) && Served(s, u, c, 2, i)
            else if q[1] != [] then Served(s, u, c, 1, 0)
            else if q[0] != [] then
              var total := TicketSum(s.t.procs, q[0], |q[0]|);
              0 <= total && exists i: nat :: WinsDraw(s.t.procs, q[0], random % (total + 1), i) && Served(s, u, c, 0, i)
            else u == s
  {
    hide JobToTake, WinsDraw, TicketSum, Choose;
    ChooseMeaning(s.t, s.phase, random);
    var choice := Choose(s.t, random);
    if choice.Pick? {
      assert Served(s, Next(s, Dispatch(c, random)), c, choice.k, choice.i);
    }
  }

  lemma InvDispatch(s: Sys, c: nat, random: nat)
    requires Inv(s) && Enabled(s, Dispatch(c, random))
    ensures Inv(Next(s, Dispatch(c, random)))
  {
    ChooseFinds(s.t, s.phase, random);
    match Choose(s.t, random)
    case Nothing =>
    case Pick(k, i) =>
      var p := s.t.queues[k][i];
      assert QueueOk(s.t.procs, k, s.t.queues[k]);
      AgreeTake(s.t, k, i);
      assert ProcOk(s.t.procs[p], s.t.nextpid, s.phase);
      OneProcKeeps(s.t, Take(s.t, k, i), p, s.phase);
      EnterCpuKeeps(s.t.procs, Take(s.t, k, i).procs, p, c, s.cpus);
  }

  lemma InvYield(s: Sys, c: nat)
    requires Inv(s) && Enabled(s, Yield(c))
    ensures Inv(Next(s, Yield(c)))
  {
    var p := s.cpus[c];
    AgreeMakeReady(s.t, p);
    assert ProcOk(s.t.procs[p], s.t.nextpid, s.phase);
    OneProcKeeps(s.t, MakeReady(s.t, p), p, s.phase);
    LeaveCpuKeeps(s.t.procs, MakeReady(s.t, p).procs, c, s.cpus);
  }

  /** Sleep and wait's sleep. */
  lemma InvSleep(s: Sys, c: nat, chan: int)
    requires Inv(s) && OnCpu(s, c)
    ensures Inv(s.(t := SetProc(s.t, s.cpus[c], AsleepOn(s.t.procs[s.cpus[c]], chan)), cpus := s.cpus[c := -1]))
  {
    var p := s.cpus[c];
    var pr := AsleepOn(s.t.procs[p], chan);
    AgreeSetProc(s.t, p, pr);
    assert ProcOk(s.t.procs[p], s.t.nextpid, s.phase);
    OneProcKeeps(s.t, SetProc(s.t, p, pr), p, s.phase);
    LeaveCpuKeeps(s.t.procs, SetProc(s.t, p, pr).procs, c, s.cpus);
  }

  lemma InvExit(s: Sys, c: nat)
    requires Inv(s) && Enabled(s, Exit(c))
    ensures Inv(Next(s, Exit(c)))
  {
    hide MakeReady, WakeUpTo, ReparentUpTo;
    var p := s.cpus[c];
    var a := Wakeup(s.t, ProcChan(s.t.procs[p].parent));
    WakeupOnlyWakes(s.t, ProcChan(s.t.procs[p].parent));
    var b := ReparentUpTo(a, p, s.initproc, NPROC);
    ReparentOnlyWakes(a, p, s.initproc, NPROC);
    OnlyWakesTrans(s.t, a, b);
    OnlyWakesKeeps(s.t, b, s.phase, s.cpus);
    assert Woke(s.t.procs[p], b.procs[p]);
    var pr := b.procs[p].(state := ZOMBIE);
    AgreeSetProc(b, p, pr);
    assert ProcOk(b.procs[p], b.nextpid, s.phase);
    OneProcKeeps(b, SetProc(b, p, pr), p, s.phase);
    LeaveCpuKeeps(b.procs, SetProc(b, p, pr).procs, c, s.cpus);
  }

  lemma InvWake(s: Sys, chan: int)
    requires Inv(s)
    ensures Inv(s.(t := Wakeup(s.t, chan)))
  {
    WakeupOnlyWakes(s.t, chan);
    OnlyWakesKeeps(s.t, Wakeup(s.t, chan), s.phase, s.cpus);
  }

  lemma InvKill(s: Sys, pid: int)
    requires Inv(s)
    ensures Inv(Next(s, Kill(pid)))
  {
    hide QueueOk;
    var p := FirstPid(s.t.procs, pid, 0);
    if p < NPROC {
      var r := SetProc(s.t, p, s.t.procs[p].(killed := true));
      AgreeSameKey(s.t, p, r.procs[p]);
      assert ProcOk(s.t.procs[p], s.t.nextpid, s.phase);
      OneProcKeeps(s.t, r, p, s.phase);
      OffCpuKeeps(s.t.procs, r.procs, p, s.cpus);
      if r.procs[p].state == SLEEPING {
        AgreeMakeReady(r, p);
        OneProcKeeps(r, MakeReady(r, p), p, s.phase);
        OffCpuKeeps(r.procs, MakeReady(r, p).procs, p, s.cpus);
      }
    }
  }

  lemma InvClock(s: Sys)
    requires Inv(s) && Enabled(s, ClockTick)
    ensures Inv(Next(s, ClockTick))
  {
    hide QueueOk;
    AgreeUpdateClock(s.t);
    var t' := UpdateClock(s.t);
    forall p | 0 <= p < NPROC ensures ProcOk(t'.procs[p], t'.nextpid, ClockDone) {
      assert ProcOk(s.t.procs[p], s.t.nextpid, s.phase);
    }
  }

  lemma InvAge(s: Sys)
    requires Inv(s) && Enabled(s, AgeTick)
    ensures Inv(Next(s, AgeTick))
  {
    hide QueueOk;
    AgreeAgeUpTo(s.t, NPROC);
    var t' := AgeUpTo(s.t, NPROC);
    forall p | 0 <= p < NPROC ensures ProcOk(t'.procs[p], t'.nextpid, AgeDone) {
      assert ProcOk(s.t.procs[p], s.t.nextpid, s.phase);
    }
    assert CpusOk(t'.procs, s.cpus);
  }

  lemma InvEndTick(s: Sys, chan: int)
    requires Inv(s) && Enabled(s, EndTick(chan))
    ensures Inv(Next(s, EndTick(chan)))
  {
    InvWake(s, chan);
    var s' := s.(t := Wakeup(s.t, chan));
    forall p | 0 <= p < NPROC ensures ProcOk(s'.t.procs[p], s'.t.nextpid, Quiet) {
      assert ProcOk(s'.t.procs[p], s'.t.nextpid, s.phase);
    }
  }

  lemma InvOther(s: Sys, e: Event)
    requires Inv(s) && Enabled(s, e) && (e.Abandon? || e.Reap? || e.SetPriority?)
    ensures Inv(Next(s, e))
  {
    hide QueueOk;
    match e
    case Abandon(p) =>
      assert ProcOk(s.t.procs[p], s.t.nextpid, s.phase);
      InvSetProc(s, p, s.t.procs[p].(state := UNUSED));
    case Reap(c, p) =>
      assert ProcOk(s.t.procs[p], s.t.nextpid, s.phase);
      InvSetProc(s, p, s.t.procs[p].(state := UNUSED, pid := 0, parent := -1, killed := false));
    case SetPriority(c, priority) =>
      var p := s.cpus[c];
      assert ProcOk(s.t.procs[p], s.t.nextpid, s.phase);
      if 1 <= priority <= 4 {
        InvSetProc(s, p, s.t.procs[p].(priority := priority - 1));
      }
  }

  /** Every step keeps the invariant. */
  lemma InvStep(s: Sys, e: Event)
    requires Inv(s) && Enabled(s, e)
    ensures Inv(Next(s, e))
  {
    hide Inv;
    match e
    case Alloc => InvAlloc(s);
    case Abandon(p) => InvOther(s, e);
    case Admit(p, parent) => InvAdmit(s, p, parent);
    case Dispatch(c, random) => InvDispatch(s, c, random);
    case Yield(c) => InvYield(s, c);
    case Sleep(c, chan) => InvSleep(s, c, chan);
    case Wait(c) => InvSleep(s, c, ProcChan(s.cpus[c]));
    case Exit(c) => InvExit(s, c);
    case Reap(c, p) => InvOther(s, e);
    case SetPriority(c, priority) => InvOther(s, e);
    case WakeChan(chan) => InvWake(s, chan);
    case Kill(pid) => InvKill(s, pid);
    case ClockTick => InvClock(s);
    case AgeTick => InvAge(s);
    case EndTick(chan) => InvEndTick(s, chan);
  }

  // ----- runs -----

  /** States of a run from s, one per event, the first being s. */
  ghost predicate IsRun(states: seq<Sys>, es: seq<Event>) {
    && |states| == |es| + 1
    && Inv(states[0])
    && forall i :: 0 <= i < |es| ==> StepAt(states, es, i)
  }

  ghost predicate StepAt(states: seq<Sys>, es: seq<Event>, i: nat)
    requires |states| == |es| + 1 && i < |es|
  {
    Agree(states[i].t) && Enabled(states[i], es[i]) && states[i + 1] == Next(states[i], es[i])
  }

  /** The invariant at every point of every run. */
  lemma {:induction false} InvAlways(states: seq<Sys>, es: seq<Event>, i: nat)
    requires IsRun(states, es) && i <= |es|
    ensures Inv(states[i])
  {
    hide Inv, Next, Enabled, Agree;
    if i > 0 {
      InvAlways(states, es, i - 1);
      assert StepAt(states, es, i - 1);
      InvStep(states[i - 1], es[i - 1]);
    }
  }

  /** The machine as pinit leaves it: nothing runs, nothing is queued. */
  function Boot(ncpu: nat): Sys {
    var empty := Proc(UNUSED, 0, -1, 0, false, 0, 0, 0, 0, 0, 0, 0);
    Sys(Table(seq(NPROC, _ => empty), [[], [], [], []], 1), seq(ncpu, _ => -1), 0, Quiet)
  }

  lemma BootInv(ncpu: nat)
    ensures Inv(Boot(ncpu))
  {
  }

  /** The statement about queues in plain words: at every point of every run each
      process is runnable exactly when it occurs in the queue of its priority, it
      occurs there once, and it occurs in no other queue; the four counts sum to
      at most NPROC. */
  lemma QueuesAlwaysAgree(states: seq<Sys>, es: seq<Event>, i: nat, p: int)
    requires IsRun(states, es) && i <= |es| && 0 <= p < NPROC
    ensures Shape(states[i].t) && 0 <= states[i].t.procs[p].priority < NUMFILAS
    ensures var t := states[i].t;
            var k := t.procs[p].priority;
            && (t.procs[p].state == RUNNABLE <==> p in t.queues[k])
            && NoDup(t.queues[k])
            && (forall j :: 0 <= j < NUMFILAS && j != k ==> p !in t.queues[j])
            && |t.queues[0]| + |t.queues[1]| + |t.queues[2]| + |t.queues[3]| <= NPROC
  {
    InvAlways(states, es, i);
    QueuesFit(states[i].t);
    var t := states[i].t;
    assert forall j :: 0 <= j < NUMFILAS ==> QueueOk(t.procs, j, t.queues[j]);
  }

  /** The repair branch after change_prio's yield is never taken: a process that
      executes is on a processor, and such a process is RUNNING. */
  lemma RepairNeverTaken(states: seq<Sys>, es: seq<Event>, i: nat, c: nat)
    requires IsRun(states, es) && i <= |es| && OnCpu(states[i], c)
    ensures states[i].t.procs[states[i].cpus[c]].state != RUNNABLE
  {
    InvAlways(states, es, i);
  }
}
