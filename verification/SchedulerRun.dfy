/** The scheduler as a state machine: processors, the process table, the timer,
    and one step per section that runs under the process table lock. */
module SchedulerRun {
  import opened Scheduler

  /** Where the timer interrupt of processor 0 stands: updateClock has run, then
      upgradePriority_Aging has run, then the tick is over. */
  datatype Phase = Quiet | ClockDone | AgeDone

  /** `cpus[c]` is the process on processor c, or -1. */
  datatype Sys = Sys(t: Table, cpus: seq<int>, initproc: int, phase: Phase)

  datatype Event =
    | Alloc                               // allocproc's locked section
    | Abandon(p: int)                     // allocation failed after all: EMBRYO to UNUSED
    | Admit(p: int, parent: int)          // fork and userinit make the new process runnable
    | Dispatch(c: nat, random: nat)       // the scheduler on an idle processor
    | Yield(c: nat)
    | Sleep(c: nat, chan: int)            // on anything but a process
    | Wait(c: nat)                        // wait found no zombie child: sleep on oneself
    | Exit(c: nat)
    | Reap(c: nat, p: int)                // wait frees a zombie child
    | SetPriority(c: nat, priority: int)  // change_prio, before it yields
    | WakeChan(chan: int)
    | Kill(pid: int)
    | ClockTick
    | AgeTick
    | EndTick(chan: int)                  // wakeup(&ticks)

  /** The channel a parent sleeps on in wait: its own address, null for none. */
  function ProcChan(p: int): int {
    p + 1
  }

  predicate IsProcChan(chan: int) {
    1 <= chan <= NPROC
  }

  predicate ZombieOf(pr: Proc, p: int) {
    pr.state == ZOMBIE && pr.parent == p
  }

  predicate HasZombie(t: Table, p: int) {
    exists x :: 0 <= x < |t.procs| && ZombieOf(t.procs[x], p)
  }

  predicate HasChild(t: Table, p: int) {
    exists x :: 0 <= x < |t.procs| && t.procs[x].parent == p
  }

  predicate OnCpu(s: Sys, c: nat) {
    c < |s.cpus| && 0 <= s.cpus[c] < |s.t.procs|
  }

  predicate Enabled(s: Sys, e: Event) {
    match e
    case Alloc => true
    case Abandon(p) => 0 <= p < |s.t.procs| && s.t.procs[p].state == EMBRYO
    case Admit(p, parent) =>
      && 0 <= p < |s.t.procs| && s.t.procs[p].state == EMBRYO
      && if p == s.initproc then parent == -1 else 0 <= parent && parent in s.cpus
    case Dispatch(c, random) => c < |s.cpus| && s.cpus[c] == -1
    case Yield(c) => OnCpu(s, c)
    case Sleep(c, chan) => OnCpu(s, c) && !IsProcChan(chan)
    case Wait(c) => OnCpu(s, c) && !s.t.procs[s.cpus[c]].killed && HasChild(s.t, s.cpus[c]) && !HasZombie(s.t, s.cpus[c])
    case Exit(c) => OnCpu(s, c) && s.cpus[c] != s.initproc
    case Reap(c, p) => OnCpu(s, c) && 0 <= p < |s.t.procs| && ZombieOf(s.t.procs[p], s.cpus[c])
    case SetPriority(c, priority) => OnCpu(s, c)
    case WakeChan(chan) => true
    case Kill(pid) => true
    case ClockTick => s.phase == Quiet
    case AgeTick => s.phase == ClockDone
    case EndTick(chan) => s.phase == AgeDone
  }

  /** The first slot from i on that satisfies a test, or the table's length. */
  function FirstUnused(procs: seq<Proc>, i: nat): (r: nat)
    requires i <= |procs|
    ensures i <= r <= |procs|
    ensures r < |procs| ==> procs[r].state == UNUSED
    ensures forall j :: i <= j < r ==> procs[j].state != UNUSED
    decreases |procs| - i
  {
    if i == |procs| || procs[i].state == UNUSED then i else FirstUnused(procs, i + 1)
  }

  function FirstPid(procs: seq<Proc>, pid: int, i: nat): (r: nat)
    requires i <= |procs|
    ensures i <= r <= |procs|
    ensures r < |procs| ==> procs[r].pid == pid
    ensures forall j :: i <= j < r ==> procs[j].pid != pid
    decreases |procs| - i
  {
    if i == |procs| || procs[i].pid == pid then i else FirstPid(procs, pid, i + 1)
  }

  predicate Indexed(t: Table) {
    && |t.procs| == NPROC && |t.queues| == NUMFILAS
    && forall p :: 0 <= p < |t.procs| ==> 0 <= t.procs[p].priority < NUMFILAS
  }

  function AllocOne(t: Table): Table {
    var p := FirstUnused(t.procs, 0);
    if p == |t.procs| then t
    else SetProc(t.(nextpid := t.nextpid + 1), p,
                 t.procs[p].(state := EMBRYO, pid := t.nextpid, tickets := 10, estimatedburst := 2,
                             previousburst := 0, bstime := 0, readyTimeAging := 0))
  }

  /** updateBurst with truncation, for the nonnegative bursts it is used on. */
  function AsleepOn(pr: Proc, chan: int): Proc {
    pr.(state := SLEEPING, chan := chan, bstime := 0, previousburst := pr.bstime,
        estimatedburst := (pr.estimatedburst + pr.bstime) / 2)
  }

  /** exit's loop over the first n slots: children go to init. */
  function ReparentUpTo(t: Table, p: int, init: int, n: nat): (r: Table)
    requires Indexed(t) && n <= NPROC
    ensures Indexed(r)
  {
    if n == 0 then t
    else
      var r := ReparentUpTo(t, p, init, n - 1);
      if r.procs[n - 1].parent == p then
        var r' := SetProc(r, n - 1, r.procs[n - 1].(parent := init));
        if r'.procs[n - 1].state == ZOMBIE then Wakeup(r', ProcChan(init)) else r'
      else r
  }

  function ExitOf(t: Table, p: int, init: int): Table
    requires Indexed(t) && 0 <= p < NPROC
  {
    var r := ReparentUpTo(Wakeup(t, ProcChan(t.procs[p].parent)), p, init, NPROC);
    SetProc(r, p, r.procs[p].(state := ZOMBIE))
  }

  function KillOne(t: Table, pid: int): Table
    requires Indexed(t)
  {
    var p := FirstPid(t.procs, pid, 0);
    if p == NPROC then t
    else
      var r := SetProc(t, p, t.procs[p].(killed := true));
      if r.procs[p].state == SLEEPING then MakeReady(r, p) else r
  }

  ghost function Next(s: Sys, e: Event): Sys
    requires Agree(s.t) && Enabled(s, e)
  {
    match e
    case Alloc => s.(t := AllocOne(s.t))
    case Abandon(p) => s.(t := SetProc(s.t, p, s.t.procs[p].(state := UNUSED)))
    case Admit(p, parent) =>
      s.(t := MakeReady(SetProc(s.t, p, s.t.procs[p].(parent := parent, priority := PRIO)), p))
    case Dispatch(c, random) =>
      (match Choose(s.t, random)
       case Nothing => s
       case Pick(k, i) => s.(t := Take(s.t, k, i), cpus := s.cpus[c := s.t.queues[k][i]]))
    case Yield(c) => s.(t := MakeReady(s.t, s.cpus[c]), cpus := s.cpus[c := -1])
    case Sleep(c, chan) =>
      s.(t := SetProc(s.t, s.cpus[c], AsleepOn(s.t.procs[s.cpus[c]], chan)), cpus := s.cpus[c := -1])
    case Wait(c) =>
      s.(t := SetProc(s.t, s.cpus[c], AsleepOn(s.t.procs[s.cpus[c]], ProcChan(s.cpus[c]))), cpus := s.cpus[c := -1])
    case Exit(c) => s.(t := ExitOf(s.t, s.cpus[c], s.initproc), cpus := s.cpus[c := -1])
    case Reap(c, p) =>
      s.(t := SetProc(s.t, p, s.t.procs[p].(state := UNUSED, pid := 0, parent := -1, killed := false)))
    case SetPriority(c, priority) =>
      if 1 <= priority <= 4
      then s.(t := SetProc(s.t, s.cpus[c], s.t.procs[s.cpus[c]].(priority := priority - 1)))
      else s
    case WakeChan(chan) => s.(t := Wakeup(s.t, chan))
    case Kill(pid) => s.(t := KillOne(s.t, pid))
    case ClockTick => s.(t := UpdateClock(s.t), phase := ClockDone)
    case AgeTick => s.(t := AgeUpTo(s.t, NPROC), phase := AgeDone)
    case EndTick(chan) => s.(t := Wakeup(s.t, chan), phase := Quiet)
  }

  // ----- the invariant -----

  /** On a processor means RUNNING, and one processor each. */
  ghost predicate CpusOk(procs: seq<Proc>, cpus: seq<int>) {
    && (forall c :: 0 <= c < |cpus| && cpus[c] != -1 ==> 0 <= cpus[c] < |procs| && procs[cpus[c]].state == RUNNING)
    && (forall c, d :: 0 <= c < d < |cpus| && cpus[c] == cpus[d] ==> cpus[c] == -1)
    && (forall p :: 0 <= p < |procs| && procs[p].state == RUNNING ==> p in cpus)
  }

  /** What holds of one process, given how far the current tick has got. */
  ghost predicate ProcOk(pr: Proc, nextpid: int, phase: Phase) {
    && 0 <= pr.priority < NUMFILAS
    && 0 <= pr.pid < nextpid && (pr.state != UNUSED ==> 0 < pr.pid)
    && 0 <= pr.tickets
    && 0 <= pr.readyTimeAging
    && (pr.state != RUNNABLE ==> pr.readyTimeAging == 0)
    && (pr.priority < 3 ==> pr.readyTimeAging < Threshold(pr.priority) + if phase == ClockDone then 1 else 0)
  }

  ghost predicate PidsUnique(procs: seq<Proc>) {
    forall p, q :: 0 <= p < q < |procs| && procs[p].pid == procs[q].pid ==> procs[p].pid == 0
  }

  ghost predicate ProcsOk(t: Table, phase: Phase) {
    && Shape(t) && 0 < t.nextpid
    && (forall p :: 0 <= p < NPROC ==> ProcOk(t.procs[p], t.nextpid, phase))
    && PidsUnique(t.procs)
  }

  ghost predicate Inv(s: Sys) {
    Agree(s.t) && ProcsOk(s.t, s.phase) && CpusOk(s.t.procs, s.cpus)
  }

  // ----- processes that only wake up -----

  ghost predicate Woke(a: Proc, b: Proc) {
    || b == a.(parent := b.parent)
    || (a.state == SLEEPING && b == a.(parent := b.parent, state := RUNNABLE))
  }

  ghost predicate OnlyWakes(t: Table, r: Table) {
    && |t.procs| == |r.procs| && |t.queues| == |r.queues| && r.nextpid == t.nextpid
    && (forall p :: 0 <= p < |t.procs| ==> Woke(t.procs[p], r.procs[p]))
    && (forall k :: 0 <= k < |t.queues| ==> t.queues[k] <= r.queues[k])
  }

  lemma OnlyWakesTrans(a: Table, b: Table, c: Table)
    requires OnlyWakes(a, b) && OnlyWakes(b, c)
    ensures OnlyWakes(a, c)
  {
    forall p | 0 <= p < |a.procs| ensures Woke(a.procs[p], c.procs[p]) {
      assert Woke(a.procs[p], b.procs[p]) && Woke(b.procs[p], c.procs[p]);
    }
  }

  lemma OnlyWakesKeeps(t: Table, r: Table, phase: Phase, cpus: seq<int>)
    requires OnlyWakes(t, r) && ProcsOk(t, phase) && CpusOk(t.procs, cpus)
    ensures ProcsOk(r, phase) && CpusOk(r.procs, cpus)
  {
    forall p | 0 <= p < NPROC ensures ProcOk(r.procs[p], r.nextpid, phase) && r.procs[p].pid == t.procs[p].pid {
      assert Woke(t.procs[p], r.procs[p]) && ProcOk(t.procs[p], t.nextpid, phase);
    }
    assert forall p :: 0 <= p < NPROC ==> Woke(t.procs[p], r.procs[p]);
  }

  lemma WakeupOnlyWakes(t: Table, chan: int)
    requires Agree(t)
    ensures Agree(Wakeup(t, chan)) && OnlyWakes(t, Wakeup(t, chan))
  {
    AgreeWakeUpTo(t, chan, NPROC);
  }

  lemma {:induction false} ReparentOnlyWakes(t: Table, p: int, init: int, n: nat)
    requires Agree(t) && n <= NPROC
    ensures Agree(ReparentUpTo(t, p, init, n)) && OnlyWakes(t, ReparentUpTo(t, p, init, n))
  {
    hide MakeReady, WakeUpTo;
    if n > 0 {
      ReparentOnlyWakes(t, p, init, n - 1);
      var r := ReparentUpTo(t, p, init, n - 1);
      if r.procs[n - 1].parent == p {
        var r' := SetProc(r, n - 1, r.procs[n - 1].(parent := init));
        AgreeSameKey(r, n - 1, r.procs[n - 1].(parent := init));
        assert OnlyWakes(r, r');
        OnlyWakesTrans(t, r, r');
        if r'.procs[n - 1].state == ZOMBIE {
          WakeupOnlyWakes(r', ProcChan(init));
          OnlyWakesTrans(t, r', Wakeup(r', ProcChan(init)));
        }
      }
    }
  }

  // ----- one process changes -----

  /** Only slot p differs, and it is fine. */
  lemma OneProcKeeps(t: Table, r: Table, p: int, phase: Phase)
    requires ProcsOk(t, phase) && Shape(r) && 0 <= p < NPROC && t.nextpid <= r.nextpid
    requires forall x :: 0 <= x < NPROC && x != p ==> r.procs[x] == t.procs[x]
    requires ProcOk(r.procs[p], r.nextpid, phase)
    requires r.procs[p].pid in {0, t.procs[p].pid} || t.nextpid <= r.procs[p].pid
    ensures ProcsOk(r, phase)
  {
    forall x | 0 <= x < NPROC ensures ProcOk(r.procs[x], r.nextpid, phase) {
      assert ProcOk(t.procs[x], t.nextpid, phase);
    }
    assert forall x :: 0 <= x < NPROC ==> ProcOk(t.procs[x], t.nextpid, phase);
  }

  /** A process that is on no processor changes, and does not start to run. */
  lemma OffCpuKeeps(procs: seq<Proc>, procs': seq<Proc>, p: int, cpus: seq<int>)
    requires CpusOk(procs, cpus) && |procs'| == |procs| && 0 <= p < |procs|
    requires forall x :: 0 <= x < |procs| && x != p ==> procs'[x] == procs[x]
    requires (procs[p].state == RUNNING) == (procs'[p].state == RUNNING)
    ensures CpusOk(procs', cpus)
  {
  }

  /** The process on processor c leaves it. */
  lemma LeaveCpuKeeps(procs: seq<Proc>, procs': seq<Proc>, c: nat, cpus: seq<int>)
    requires CpusOk(procs, cpus) && |procs'| == |procs| && c < |cpus| && cpus[c] != -1
    requires forall x :: 0 <= x < |procs| && x != cpus[c] ==> procs'[x] == procs[x]
    requires procs'[cpus[c]].state != RUNNING
    ensures CpusOk(procs', cpus[c := -1])
  {
    var cpus' := cpus[c := -1];
    forall p | 0 <= p < |procs| && procs'[p].state == RUNNING ensures p in cpus' {
      var d :| 0 <= d < |cpus| && cpus[d] == p;
      assert cpus'[d] == p;
    }
  }

  lemma EnterCpuKeeps(procs: seq<Proc>, procs': seq<Proc>, p: int, c: nat, cpus: seq<int>)
    requires CpusOk(procs, cpus) && |procs'| == |procs| && c < |cpus| && cpus[c] == -1
    requires 0 <= p < |procs| && procs[p].state != RUNNING && procs'[p].state == RUNNING
    requires forall x :: 0 <= x < |procs| && x != p ==> procs'[x] == procs[x]
    ensures CpusOk(procs', cpus[c := p])
  {
    var cpus' := cpus[c := p];
    assert cpus'[c] == p;
    forall x | 0 <= x < |procs| && procs'[x].state == RUNNING ensures x in cpus' {
      if x != p {
        var d :| 0 <= d < |cpus| && cpus[d] == x;
        assert cpus'[d] == x;
      }
    }
  }
}
