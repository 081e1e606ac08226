/** Runs of the kernel, from boot, that come to the two policies' failing branches: the
    lottery with its wrong counter, and shortest job first with long estimates. */
module SchedulerWitness {
  import opened Scheduler
  import opened SchedulerRun
  import opened SchedulerPolicy
  import opened SchedulerSafety
  import opened SchedulerTable

  /** Some run leads from s to t. */
  ghost predicate Reach(s: Sys, t: Sys) {
    exists states, es :: IsRun(states, es) && states[0] == s && states[|es|] == t
  }

  lemma ReachSelf(s: Sys)
    requires Inv(s)
    ensures Reach(s, s)
  {
    assert IsRun([s], []);
  }

  lemma ReachStep(s: Sys, t: Sys, e: Event, u: Sys)
    requires Reach(s, t) && Agree(t.t) && Enabled(t, e) && u == Next(t, e)
    ensures Reach(s, u) && Agree(u.t)
  {
    hide Inv, Next, Enabled, Agree;
    var states, es :| IsRun(states, es) && states[0] == s && states[|es|] == t;
    var states', es' := states + [u], es + [e];
    forall i | 0 <= i < |es'| ensures StepAt(states', es', i) {
      if i < |es| {
        assert StepAt(states, es, i);
      }
    }
    assert IsRun(states', es');
    InvAlways(states', es', |es'|);
    AgreeOfInv(u);
  }

  lemma AgreeOfInv(s: Sys)
    requires Inv(s)
    ensures Agree(s.t)
  {
  }

  // ----- a table with two processes -----

  function Empty(): Proc {
    Proc(UNUSED, 0, -1, 0, false, 0, 0, 0, 0, 0, 0, 0)
  }

  function Procs(a: Proc, b: Proc): (r: seq<Proc>)
    ensures |r| == NPROC && r[0] == a && r[1] == b && forall i :: 2 <= i < NPROC ==> r[i] == Empty()
  {
    seq(NPROC, i => if i == 0 then a else if i == 1 then b else Empty())
  }

  function Two(a: Proc, b: Proc, queues: seq<seq<int>>, nextpid: int, cpus: seq<int>): Sys {
    Sys(Table(Procs(a, b), queues, nextpid), cpus, 0, Quiet)
  }

  function None(): seq<seq<int>> {
    [[], [], [], []]
  }

  /** The table of a and b with slot x replaced. */
  lemma SetSlot(a: Proc, b: Proc, x: int, c: Proc)
    requires 0 <= x <= 1
    ensures Procs(a, b)[x := c] == if x == 0 then Procs(c, b) else Procs(a, c)
  {
  }

  function Slot(a: Proc, b: Proc, x: int): Proc {
    if x == 0 then a else b
  }

  /** The machine with slot x replaced. */
  function With(a: Proc, b: Proc, x: int, c: Proc, queues: seq<seq<int>>, nextpid: int, cpus: seq<int>): Sys {
    if x == 0 then Two(c, b, queues, nextpid, cpus) else Two(a, c, queues, nextpid, cpus)
  }

  /** allocproc's fields for a process with this pid. */
  function Born(pid: int): Proc {
    Empty().(state := EMBRYO, pid := pid, tickets := 10, estimatedburst := 2)
  }

  /** A process after fork, dispatch and change_prio to queue k. */
  function Started(pid: int, parent: int, k: int): Proc {
    Born(pid).(state := RUNNING, parent := parent, priority := k)
  }

  lemma AllocNext(a: Proc, b: Proc, x: int, nextpid: int, cpus: seq<int>)
    requires 0 <= x <= 1 && Slot(a, b, x) == Empty() && (x == 1 ==> a.state != UNUSED)
    requires Agree(Two(a, b, None(), nextpid, cpus).t)
    ensures Next(Two(a, b, None(), nextpid, cpus), Alloc) == With(a, b, x, Born(nextpid), None(), nextpid + 1, cpus)
  {
    hide Agree;
    var procs := Procs(a, b);
    assert FirstUnused(procs, 0) == if x == 0 then 0 else FirstUnused(procs, 1);
    assert FirstUnused(procs, 0) == x;
    SetSlot(a, b, x, Born(nextpid));
  }

  lemma AdmitNext(a: Proc, b: Proc, x: int, pid: int, parent: int, nextpid: int, cpus: seq<int>)
    requires if x == 0 then parent == -1 else 0 <= parent && parent in cpus
    requires 0 <= x <= 1 && Slot(a, b, x) == Born(pid) && Agree(Two(a, b, None(), nextpid, cpus).t)
    ensures Next(Two(a, b, None(), nextpid, cpus), Admit(x, parent)) ==
            With(a, b, x, Started(pid, parent, PRIO).(state := RUNNABLE), None()[PRIO := [x]], nextpid, cpus)
  {
    hide Agree;
    var set1 := Born(pid).(parent := parent, priority := PRIO);
    SetSlot(a, b, x, set1);
    SetSlot(if x == 0 then set1 else a, if x == 0 then b else set1, x, set1.(state := RUNNABLE));
    assert None()[PRIO] + [x] == [x];
  }

  lemma DispatchNext(a: Proc, b: Proc, x: int, pid: int, parent: int, nextpid: int, cpus: seq<int>, c: nat)
    requires 0 <= x <= 1 && Slot(a, b, x) == Started(pid, parent, PRIO).(state := RUNNABLE)
    requires c < |cpus| && cpus[c] == -1 && Agree(Two(a, b, None()[PRIO := [x]], nextpid, cpus).t)
    ensures Next(Two(a, b, None()[PRIO := [x]], nextpid, cpus), Dispatch(c, 0)) ==
            With(a, b, x, Started(pid, parent, PRIO), None(), nextpid, cpus[c := x])
  {
    hide Agree;
    SetSlot(a, b, x, Started(pid, parent, PRIO));
    assert RemoveAt([x], 0) == [];
    assert None()[PRIO := [x]][PRIO := []] == None();
  }

  lemma PriorityNext(a: Proc, b: Proc, x: int, pid: int, parent: int, k: int, nextpid: int, cpus: seq<int>, c: nat)
    requires 0 <= x <= 1 && Slot(a, b, x) == Started(pid, parent, PRIO) && 0 <= k < NUMFILAS
    requires c < |cpus| && cpus[c] == x && Agree(Two(a, b, None(), nextpid, cpus).t)
    ensures Next(Two(a, b, None(), nextpid, cpus), SetPriority(c, k + 1)) ==
            With(a, b, x, Started(pid, parent, k), None(), nextpid, cpus)
  {
    hide Agree;
    SetSlot(a, b, x, Started(pid, parent, k));
  }

  /** allocproc, fork or userinit, dispatch on processor x, and change_prio to queue k. */
  lemma Starts(s: Sys, a: Proc, b: Proc, x: int, parent: int, k: int, nextpid: int, cpus: seq<int>)
    requires 0 <= x <= 1 && Slot(a, b, x) == Empty() && (x == 1 ==> a.state != UNUSED) && 0 <= k < NUMFILAS
    requires x < |cpus| && cpus[x] == -1 && if x == 0 then parent == -1 else 0 <= parent && parent in cpus
    requires Reach(s, Two(a, b, None(), nextpid, cpus)) && Agree(Two(a, b, None(), nextpid, cpus).t)
    ensures var u := With(a, b, x, Started(nextpid, parent, k), None(), nextpid + 1, cpus[x := x]); Reach(s, u) && Agree(u.t)
  {
    hide Reach, Agree, Next, Procs;
    var pid, np := nextpid, nextpid + 1;
    var ready, runs := Started(pid, parent, PRIO).(state := RUNNABLE), Started(pid, parent, PRIO);
    var s1 := With(a, b, x, Born(pid), None(), np, cpus);
    AllocNext(a, b, x, nextpid, cpus);
    ReachStep(s, Two(a, b, None(), nextpid, cpus), Alloc, s1);
    var s2 := With(a, b, x, ready, None()[PRIO := [x]], np, cpus);
    AdmitNext(if x == 0 then Born(pid) else a, if x == 0 then b else Born(pid), x, pid, parent, np, cpus);
    ReachStep(s, s1, Admit(x, parent), s2);
    var s3 := With(a, b, x, runs, None(), np, cpus[x := x]);
    DispatchNext(if x == 0 then ready else a, if x == 0 then b else ready, x, pid, parent, np, cpus, x);
    ReachStep(s, s2, Dispatch(x, 0), s3);
    PriorityNext(if x == 0 then runs else a, if x == 0 then b else runs, x, pid, parent, k, np, cpus[x := x], x);
    ReachStep(s, s3, SetPriority(x, k + 1), With(a, b, x, Started(pid, parent, k), None(), np, cpus[x := x]));
  }

  lemma BootReached(n: nat, cpus: seq<int>)
    requires |cpus| == n && forall c :: 0 <= c < n ==> cpus[c] == -1
    ensures Boot(n) == Two(Empty(), Empty(), None(), 1, cpus) && Reach(Boot(n), Boot(n)) && Agree(Boot(n).t)
  {
    BootInv(n);
    ReachSelf(Boot(n));
    AgreeOfInv(Boot(n));
    hide Reach, Agree, Inv;
    assert Boot(n).t.procs == Procs(Empty(), Empty());
    assert Boot(n).cpus == cpus;
  }

  // ----- the lottery -----

  lemma YieldNext(pid: int, parent: int, nextpid: int)
    requires Agree(Two(Started(pid, parent, 0), Empty(), None(), nextpid, [0]).t)
    ensures Next(Two(Started(pid, parent, 0), Empty(), None(), nextpid, [0]), Yield(0)) ==
            Two(Started(pid, parent, 0).(state := RUNNABLE), Empty(), None()[0 := [0]], nextpid, [-1])
  {
    hide Agree;
    SetSlot(Started(pid, parent, 0), Empty(), 0, Started(pid, parent, 0).(state := RUNNABLE));
    assert None()[0] + [0] == [0];
  }

  /** A process lowers its priority and yields: the next dispatch draws lots, and with
      the line as written leaves queues and states in disagreement and the counter of
      queue 2 at -1, where the next append to that queue would write. */
  lemma LotteryReached() returns (s: Sys)
    ensures Reach(Boot(1), s) && Agree(s.t) && Enabled(s, Dispatch(0, 0))
    ensures forall k, i :: 0 <= k < NUMFILAS && 0 <= i < |s.t.queues[k]| ==> 0 <= s.t.queues[k][i] < |s.t.procs|
    ensures forall random: nat :: !Agree(DispatchAsWritten(s.t, random))
    ensures CountsAsWritten(s.t)[2] == -1
  {
    hide Reach, Agree, Next, Procs, Boot, Inv, Choose, DispatchAsWritten;
    var boot := Boot(1);
    BootReached(1, [-1]);
    Starts(boot, Empty(), Empty(), 0, -1, 0, 1, [-1]);
    var run := Started(1, -1, 0);
    var s1 := Two(run, Empty(), None(), 2, [0]);
    assert [-1][0 := 0] == [0];
    s := Two(run.(state := RUNNABLE), Empty(), None()[0 := [0]], 2, [-1]);
    YieldNext(1, -1, 2);
    ReachStep(boot, s1, Yield(0), s);
    ReachedProcs(boot, s);
    forall random: nat ensures !Agree(DispatchAsWritten(s.t, random)) {
      DispatchAsWrittenIff(s.t, s.phase, random);
    }
  }

  lemma ReachedProcs(s: Sys, t: Sys)
    requires Reach(s, t)
    ensures Inv(t) && ProcsOk(t.t, t.phase)
  {
    var states, es :| IsRun(states, es) && states[0] == s && states[|es|] == t;
    InvAlways(states, es, |es|);
  }

  // ----- shortest job first -----

  lemma {:induction false} NobodyDue(t: Table, n: nat)
    requires n <= |t.procs| && |t.queues| == NUMFILAS && forall p :: 0 <= p < |t.procs| ==> !Due(t.procs[p])
    ensures AgeUpTo(t, n) == t
  {
    if n > 0 {
      NobodyDue(t, n - 1);
    }
  }

  /** From slot m on nobody sleeps on chan. */
  lemma {:induction false} NobodyWakes(t: Table, chan: int, m: nat, n: nat)
    requires m <= n <= |t.procs| && forall p :: 0 <= p < |t.procs| ==> 0 <= t.procs[p].priority < |t.queues|
    requires forall p :: m <= p < |t.procs| ==> t.procs[p].state != SLEEPING || t.procs[p].chan != chan
    ensures WakeUpTo(t, chan, n) == WakeUpTo(t, chan, m)
    decreases n
  {
    hide MakeReady;
    if n > m {
      NobodyWakes(t, chan, m, n - 1);
    }
  }

  predicate Calm(a: Proc, chan: int) {
    (a.state == RUNNING || (a.state == SLEEPING && a.chan != chan)) && 0 <= a.priority < NUMFILAS
  }

  lemma ClockNext(a: Proc, b: Proc, nextpid: int, cpus: seq<int>)
    requires Agree(Two(a, b, None(), nextpid, cpus).t)
    ensures Next(Two(a, b, None(), nextpid, cpus), ClockTick) ==
            Two(Clocked(a), Clocked(b), None(), nextpid, cpus).(phase := ClockDone)
  {
    hide Agree;
    assert UpdateClock(Two(a, b, None(), nextpid, cpus).t).procs == Procs(Clocked(a), Clocked(b));
  }

  lemma CalmNext(a: Proc, b: Proc, chan: int, nextpid: int, cpus: seq<int>)
    requires Calm(a, chan) && Calm(b, chan) && Agree(Two(a, b, None(), nextpid, cpus).t)
    ensures var s := Two(a, b, None(), nextpid, cpus);
            Next(s.(phase := ClockDone), AgeTick) == s.(phase := AgeDone) && Next(s.(phase := AgeDone), EndTick(chan)) == s
  {
    hide Agree;
    var s := Two(a, b, None(), nextpid, cpus);
    NobodyDue(s.t, NPROC);
    NobodyWakes(s.t, chan, 0, NPROC);
  }

  /** A whole timer interrupt with nobody waiting for a processor or for the tick. */
  lemma TickReach(s: Sys, a: Proc, b: Proc, chan: int, nextpid: int, cpus: seq<int>)
    requires Calm(a, chan) && Calm(b, chan)
    requires Reach(s, Two(a, b, None(), nextpid, cpus)) && Agree(Two(a, b, None(), nextpid, cpus).t)
    ensures var u := Two(Clocked(a), Clocked(b), None(), nextpid, cpus); Reach(s, u) && Agree(u.t)
  {
    hide Reach, Agree, Next, Procs;
    var s0 := Two(a, b, None(), nextpid, cpus);
    var u := Two(Clocked(a), Clocked(b), None(), nextpid, cpus);
    ClockNext(a, b, nextpid, cpus);
    ReachStep(s, s0, ClockTick, u.(phase := ClockDone));
    CalmNext(Clocked(a), Clocked(b), chan, nextpid, cpus);
    ReachStep(s, u.(phase := ClockDone), AgeTick, u.(phase := AgeDone));
    ReachStep(s, u.(phase := AgeDone), EndTick(chan), u);
  }

  /** A running process after n ticks. */
  function Ran(a: Proc, n: nat): Proc {
    a.(bstime := a.bstime + n, clock := a.clock + n)
  }

  lemma {:induction false} TicksReach(s: Sys, a: Proc, b: Proc, n: nat, nextpid: int, cpus: seq<int>)
    requires a.state == RUNNING && b.state == RUNNING && 0 <= a.priority < NUMFILAS && 0 <= b.priority < NUMFILAS
    requires Reach(s, Two(a, b, None(), nextpid, cpus)) && Agree(Two(a, b, None(), nextpid, cpus).t)
    ensures var u := Two(Ran(a, n), Ran(b, n), None(), nextpid, cpus); Reach(s, u) && Agree(u.t)
    decreases n
  {
    hide Reach, Agree, Procs;
    if n > 0 {
      TicksReach(s, a, b, n - 1, nextpid, cpus);
      TickReach(s, Ran(a, n - 1), Ran(b, n - 1), 0, nextpid, cpus);
    }
  }

  lemma SleepNext(a: Proc, b: Proc, x: int, chan: int, nextpid: int, cpus: seq<int>)
    requires 0 <= x <= 1 && x < |cpus| && cpus[x] == x && !IsProcChan(chan) && Agree(Two(a, b, None(), nextpid, cpus).t)
    ensures Next(Two(a, b, None(), nextpid, cpus), Sleep(x, chan)) ==
            With(a, b, x, AsleepOn(Slot(a, b, x), chan), None(), nextpid, cpus[x := -1])
  {
    hide Agree;
    SetSlot(a, b, x, AsleepOn(Slot(a, b, x), chan));
  }

  lemma WakeNext(a: Proc, b: Proc, chan: int, nextpid: int, cpus: seq<int>)
    requires a.state == SLEEPING && b.state == SLEEPING && a.chan == chan == b.chan && a.priority == 2 == b.priority
    requires Agree(Two(a, b, None(), nextpid, cpus).t)
    ensures Next(Two(a, b, None(), nextpid, cpus), WakeChan(chan)) ==
            Two(a.(state := RUNNABLE), b.(state := RUNNABLE), None()[2 := [0, 1]], nextpid, cpus)
  {
    hide Agree;
    var t := Two(a, b, None(), nextpid, cpus).t;
    NobodyWakes(t, chan, 2, NPROC);
    var t1 := WakeUpTo(t, chan, 1);
    SetSlot(a, b, 0, a.(state := RUNNABLE));
    assert None()[2] + [0] == [0];
    assert WakeUpTo(t, chan, 0) == t;
    assert t1 == Table(Procs(a.(state := RUNNABLE), b), None()[2 := [0]], nextpid);
    SetSlot(a.(state := RUNNABLE), b, 1, b.(state := RUNNABLE));
    assert [0] + [1] == [0, 1];
    assert None()[2 := [0]][2 := [0, 1]] == None()[2 := [0, 1]];
    assert WakeUpTo(t, chan, 2) == MakeReady(t1, 1);
  }

  const LONG: nat := 20000

  /** Two processes on two processors after LONG ticks. */
  lemma BothRan() returns (a: Proc, b: Proc)
    ensures a == Ran(Started(1, -1, 2), LONG) && b == Ran(Started(2, 0, 2), LONG)
    ensures var s := Two(a, b, None(), 3, [0, 1]); Reach(Boot(2), s) && Agree(s.t)
  {
    hide Reach, Agree, Next, Procs, Boot;
    var boot := Boot(2);
    BootReached(2, [-1, -1]);
    assert [-1, -1][0 := 0] == [0, -1] && [0, -1][1 := 1] == [0, 1];
    Starts(boot, Empty(), Empty(), 0, -1, 2, 1, [-1, -1]);
    Starts(boot, Started(1, -1, 2), Empty(), 1, 0, 2, 2, [0, -1]);
    TicksReach(boot, Started(1, -1, 2), Started(2, 0, 2), LONG, 3, [0, 1]);
    a, b := Ran(Started(1, -1, 2), LONG), Ran(Started(2, 0, 2), LONG);
  }

  /** The second process sleeps, the first runs for two more ticks and sleeps. */
  lemma BothSleep(s: Sys, a: Proc, b: Proc, chan: int, nextpid: int)
    requires a.state == RUNNING && b.state == RUNNING && 0 <= a.priority < NUMFILAS && 0 <= b.priority < NUMFILAS
    requires chan != 0 && !IsProcChan(chan) && Reach(s, Two(a, b, None(), nextpid, [0, 1])) && Agree(Two(a, b, None(), nextpid, [0, 1]).t)
    ensures var u := Two(AsleepOn(Ran(a, 2), chan), AsleepOn(b, chan).(clock := 0), None(), nextpid, [-1, -1]);
            Reach(s, u) && Agree(u.t)
  {
    hide Reach, Agree, Next, Procs;
    assert [0, 1][1 := -1] == [0, -1] && [0, -1][0 := -1] == [-1, -1];
    var b1 := AsleepOn(b, chan);
    SleepNext(a, b, 1, chan, nextpid, [0, 1]);
    ReachStep(s, Two(a, b, None(), nextpid, [0, 1]), Sleep(1, chan), Two(a, b1, None(), nextpid, [0, -1]));
    TickReach(s, a, b1, 0, nextpid, [0, -1]);
    TickReach(s, Ran(a, 1), b1.(clock := 0), 0, nextpid, [0, -1]);
    SleepNext(Ran(a, 2), b1.(clock := 0), 0, chan, nextpid, [0, -1]);
    ReachStep(s, Two(Ran(a, 2), b1.(clock := 0), None(), nextpid, [0, -1]), Sleep(0, chan),
              Two(AsleepOn(Ran(a, 2), chan), b1.(clock := 0), None(), nextpid, [-1, -1]));
  }

  /** Two processes run for 20002 and 20000 ticks, each on its processor, and then
      sleep: their estimates are 10002 and 10001, and when both wake the longer job is
      taken first. */
  lemma LongJobTakenFirst() returns (s: Sys)
    ensures Reach(Boot(2), s) && Agree(s.t) && Enabled(s, Dispatch(0, 0)) && s.t.queues[2] == [0, 1]
    ensures forall random: nat :: Choose(s.t, random) == Pick(2, 0)
    ensures !Shortest(s.t.procs, s.t.queues[2], 2, 0) && s.t.procs[1].estimatedburst < s.t.procs[0].estimatedburst
  {
    hide Reach, Agree, Next, Procs, Boot;
    var a, b := BothRan();
    var chan := 100;
    BothSleep(Boot(2), a, b, chan, 3);
    var a1, b1 := AsleepOn(Ran(a, 2), chan), AsleepOn(b, chan).(clock := 0);
    WakeNext(a1, b1, chan, 3, [-1, -1]);
    s := Two(a1.(state := RUNNABLE), b1.(state := RUNNABLE), None()[2 := [0, 1]], 3, [-1, -1]);
    ReachStep(Boot(2), Two(a1, b1, None(), 3, [-1, -1]), WakeChan(chan), s);
    assert a1.estimatedburst == 10002 && b1.estimatedburst == 10001;
    assert s.t.procs[s.t.queues[2][1]].estimatedburst < s.t.procs[s.t.queues[2][0]].estimatedburst;
    LongChoice(s.t);
  }

  /** The minimum of ShortestJob starts at 10000: with only longer jobs it stays at the head. */
  lemma LongChoice(t: Table)
    requires |t.queues| == NUMFILAS && t.queues[2] == [0, 1] && t.queues[3] == [] && |t.procs| >= 2
    requires 10000 <= t.procs[0].estimatedburst && 10000 <= t.procs[1].estimatedburst
    requires forall k, i :: 0 <= k < NUMFILAS && 0 <= i < |t.queues[k]| ==> 0 <= t.queues[k][i] < |t.procs|
    ensures forall random: nat :: Choose(t, random) == Pick(2, 0)
  {
    ShortestUpToMeaning(t.procs, [0, 1], 2);
  }
}
