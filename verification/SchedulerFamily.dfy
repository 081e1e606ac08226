/** Parents and children: what exit does to every process, and that no run leaves a
    zombie that its parent will not hear of. */
module SchedulerFamily {
  import opened Scheduler
  import opened SchedulerRun
  import opened SchedulerSafety

  // ----- what exit does -----

  predicate ZombieBelow(procs: seq<Proc>, p: int, n: nat)
    requires n <= |procs|
  {
    exists z :: 0 <= z < n && ZombieOf(procs[z], p)
  }

  /** A process after its parent p has handed it to init, and after those who sleep on
      chan have been woken. */
  function Handed(pr: Proc, p: int, init: int): Proc {
    if pr.parent == p then pr.(parent := init) else pr
  }

  function Roused(pr: Proc, chan: int): Proc {
    if pr.state == SLEEPING && pr.chan == chan then pr.(state := RUNNABLE) else pr
  }

  lemma {:induction false} ReparentAt(t: Table, p: int, init: int, n: nat, x: int)
    requires Indexed(t) && n <= NPROC && 0 <= x < NPROC
    ensures ReparentUpTo(t, p, init, n).procs[x] ==
            var pr := if x < n then Handed(t.procs[x], p, init) else t.procs[x];
            if ZombieBelow(t.procs, p, n) then Roused(pr, ProcChan(init)) else pr
    decreases n
  {
    hide MakeReady;
    if n > 0 {
      ReparentAt(t, p, init, n - 1, x);
      ReparentAt(t, p, init, n - 1, n - 1);
      var r := ReparentUpTo(t, p, init, n - 1);
      assert ZombieBelow(t.procs, p, n) <==> ZombieBelow(t.procs, p, n - 1) || ZombieOf(t.procs[n - 1], p);
    }
  }

  /** The process in slot x after p's exit: whoever slept on p's parent is woken;
      children go to init, which is woken if one of them is a zombie; p is a zombie;
      nothing else changes. */
  function AfterExit(procs: seq<Proc>, p: int, init: int, x: int): Proc
    requires 0 <= p < |procs| && 0 <= x < |procs|
  {
    var pr := Roused(Handed(procs[x], p, init), ProcChan(procs[p].parent));
    if x == p then pr.(state := ZOMBIE)
    else if ZombieBelow(procs, p, |procs|) then Roused(pr, ProcChan(init)) else pr
  }

  lemma ExitEffect(t: Table, p: int, init: int, x: int)
    requires Agree(t) && 0 <= p < NPROC && 0 <= x < NPROC && t.procs[p].state == RUNNING
    ensures |ExitOf(t, p, init).procs| == NPROC && ExitOf(t, p, init).procs[x] == AfterExit(t.procs, p, init, x)
  {
    hide MakeReady, ReparentUpTo, QueueOk;
    var a := Wakeup(t, ProcChan(t.procs[p].parent));
    ReparentAt(a, p, init, NPROC, x);
    ReparentAt(a, p, init, NPROC, p);
    assert ZombieBelow(a.procs, p, NPROC) <==> ZombieBelow(t.procs, p, NPROC) by {
      assert forall z :: 0 <= z < NPROC ==> (ZombieOf(a.procs[z], p) <==> ZombieOf(t.procs[z], p));
    }
  }

  // ----- the invariant -----

  predicate Alive(pr: Proc) {
    pr.state == SLEEPING || pr.state == RUNNABLE || pr.state == RUNNING
  }

  predicate InUse(pr: Proc) {
    Alive(pr) || pr.state == ZOMBIE
  }

  /** In wait, and asleep. */
  predicate WaitsAsleep(procs: seq<Proc>, q: int)
    requires 0 <= q < |procs|
  {
    procs[q].state == SLEEPING && procs[q].chan == ProcChan(q)
  }

  /** A process in use has a parent that lives, and if it is a zombie the parent does
      not sleep in wait; one that is not in use has none. */
  ghost predicate ChildOk(procs: seq<Proc>, init: int, p: int)
    requires 0 <= p < |procs|
  {
    if p == init || !InUse(procs[p]) then procs[p].parent == -1 && procs[p].state != ZOMBIE
    else
      var q := procs[p].parent;
      && 0 <= q < |procs| && q != p && Alive(procs[q])
      && (procs[p].state == ZOMBIE ==> !WaitsAsleep(procs, q))
  }

  /** Everybody is accounted for, and once anyone is in use init lives. */
  ghost predicate FamilyOk(s: Sys) {
    && |s.t.procs| == NPROC && 0 <= s.initproc < NPROC
    && (forall p :: 0 <= p < NPROC ==> ChildOk(s.t.procs, s.initproc, p))
    && (forall p :: 0 <= p < NPROC && InUse(s.t.procs[p]) ==> Alive(s.t.procs[s.initproc]))
  }

  /** A change of one process that the family does not notice. */
  ghost predicate Gentle(a: Proc, b: Proc) {
    && b.parent == a.parent && (Alive(b) <==> Alive(a)) && (b.state == ZOMBIE <==> a.state == ZOMBIE)
    && (b.state == SLEEPING ==> a.state == SLEEPING && b.chan == a.chan)
  }

  lemma GentleKeeps(s: Sys, u: Sys)
    requires FamilyOk(s) && |u.t.procs| == NPROC && u.initproc == s.initproc
    requires forall p :: 0 <= p < NPROC ==> Gentle(s.t.procs[p], u.t.procs[p])
    ensures FamilyOk(u)
  {
    forall p | 0 <= p < NPROC ensures ChildOk(u.t.procs, u.initproc, p) {
      assert ChildOk(s.t.procs, s.initproc, p);
    }
  }

  /** The steps that neither start, end nor put to sleep a process. */
  predicate Minor(e: Event) {
    !e.Admit? && !e.Sleep? && !e.Wait? && !e.Exit? && !e.Reap?
  }

  lemma GentleDispatch(s: Sys, c: nat, random: nat, p: int)
    requires Inv(s) && Enabled(s, Dispatch(c, random)) && 0 <= p < NPROC
    ensures |Next(s, Dispatch(c, random)).t.procs| == NPROC && Gentle(s.t.procs[p], Next(s, Dispatch(c, random)).t.procs[p])
  {
    hide ProcsOk, CpusOk, Choose;
    ChooseFinds(s.t, s.phase, random);
    if Choose(s.t, random).Pick? {
      assert QueueOk(s.t.procs, Choose(s.t, random).k, s.t.queues[Choose(s.t, random).k]);
    }
  }

  lemma GentleTick(s: Sys, e: Event, p: int)
    requires Inv(s) && Enabled(s, e) && 0 <= p < NPROC && (e.AgeTick? || e.ClockTick? || e.EndTick? || e.WakeChan?)
    ensures |Next(s, e).t.procs| == NPROC && Gentle(s.t.procs[p], Next(s, e).t.procs[p])
  {
    hide ProcsOk, CpusOk, QueueOk, MakeReady;
    AgreeAgeUpTo(s.t, NPROC);
  }

  lemma GentleOther(s: Sys, e: Event, p: int)
    requires Inv(s) && Enabled(s, e) && 0 <= p < NPROC && (e.Alloc? || e.Abandon? || e.Yield? || e.SetPriority? || e.Kill?)
    ensures |Next(s, e).t.procs| == NPROC && Gentle(s.t.procs[p], Next(s, e).t.procs[p])
  {
    hide ProcsOk, QueueOk, FirstUnused, FirstPid;
  }

  lemma MinorKeeps(s: Sys, e: Event)
    requires Inv(s) && Enabled(s, e) && FamilyOk(s) && Minor(e)
    ensures FamilyOk(Next(s, e))
  {
    hide FamilyOk, Next, Inv, Enabled, Gentle;
    AgreeOf(s);
    var u := Next(s, e);
    forall p | 0 <= p < NPROC ensures |u.t.procs| == NPROC && Gentle(s.t.procs[p], u.t.procs[p]) {
      match e
      case Dispatch(c, random) => GentleDispatch(s, c, random, p);
      case AgeTick => GentleTick(s, e, p);
      case ClockTick => GentleTick(s, e, p);
      case EndTick(_) => GentleTick(s, e, p);
      case WakeChan(_) => GentleTick(s, e, p);
      case _ => GentleOther(s, e, p);
    }
    SameInit(s, e);
    GentleKeeps(s, u);
  }

  lemma AgreeOf(s: Sys)
    requires Inv(s)
    ensures Agree(s.t)
  {
  }

  lemma SameInit(s: Sys, e: Event)
    requires Inv(s) && Enabled(s, e)
    ensures Shape(Next(s, e).t) && Next(s, e).initproc == s.initproc && Agree(s.t) && |s.t.procs| == NPROC
  {
    assert Next(s, e).initproc == s.initproc by { hide Agree, ProcsOk, CpusOk; }
    hide Next;
    InvStep(s, e);
  }

  // ----- the steps that matter -----

  /** One process goes to sleep, on something else than itself unless it has no zombie
      child. */
  lemma SleepKeeps(s: Sys, e: Event)
    requires Inv(s) && Enabled(s, e) && FamilyOk(s) && (e.Sleep? || e.Wait?)
    ensures FamilyOk(Next(s, e))
  {
    hide QueueOk, ProcsOk, Agree;
    var u, q := Next(s, e), s.cpus[e.c];
    assert s.t.procs[q].state == RUNNING;
    forall p | 0 <= p < NPROC ensures ChildOk(u.t.procs, u.initproc, p) {
      assert ChildOk(s.t.procs, s.initproc, p);
      assert e.Wait? && p != q ==> !ZombieOf(s.t.procs[p], q);
    }
  }

  lemma AdmitKeeps(s: Sys, p: int, parent: int)
    requires Inv(s) && Enabled(s, Admit(p, parent)) && FamilyOk(s)
    ensures FamilyOk(Next(s, Admit(p, parent)))
  {
    hide QueueOk, ProcsOk;
    var u := Next(s, Admit(p, parent));
    if p != s.initproc {
      var c :| 0 <= c < |s.cpus| && s.cpus[c] == parent;
      assert s.t.procs[parent].state == RUNNING;
    }
    forall x | 0 <= x < NPROC ensures ChildOk(u.t.procs, u.initproc, x) {
      assert ChildOk(s.t.procs, s.initproc, x);
    }
  }

  lemma ReapKeeps(s: Sys, c: nat, p: int)
    requires Inv(s) && Enabled(s, Reap(c, p)) && FamilyOk(s)
    ensures FamilyOk(Next(s, Reap(c, p)))
  {
    hide QueueOk, ProcsOk, Agree;
    var u := Next(s, Reap(c, p));
    assert ChildOk(s.t.procs, s.initproc, p);
    forall x | 0 <= x < NPROC ensures ChildOk(u.t.procs, u.initproc, x) {
      assert ChildOk(s.t.procs, s.initproc, x);
    }
  }

  lemma ExitedAlive(procs: seq<Proc>, p: int, init: int, x: int)
    requires 0 <= p < |procs| && 0 <= x < |procs| && x != p
    ensures var b := AfterExit(procs, p, init, x); (Alive(b) <==> Alive(procs[x])) && (b.state == ZOMBIE <==> procs[x].state == ZOMBIE)
    ensures AfterExit(procs, p, init, x).parent == if procs[x].parent == p then init else procs[x].parent
    ensures AfterExit(procs, p, init, x).state == SLEEPING ==>
              && procs[x].state == SLEEPING && AfterExit(procs, p, init, x).chan == procs[x].chan != ProcChan(procs[p].parent)
              && (procs[x].chan == ProcChan(init) ==> !ZombieBelow(procs, p, |procs|))
  {
  }

  lemma ExitedChild(s: Sys, r: seq<Proc>, p: int, x: int)
    requires FamilyOk(s) && 0 <= p < NPROC && p != s.initproc && s.t.procs[p].state == RUNNING && 0 <= x < NPROC
    requires |r| == NPROC && forall y :: 0 <= y < NPROC ==> r[y] == AfterExit(s.t.procs, p, s.initproc, y)
    ensures ChildOk(r, s.initproc, x)
  {
    hide AfterExit, ZombieBelow;
    var procs, init := s.t.procs, s.initproc;
    var q := procs[x].parent;
    assert ChildOk(procs, init, p) && ChildOk(procs, init, x) && ChildOk(procs, init, init);
    ExitedSelf(procs, p, init);
    ExitedAlive(procs, p, init, init);
    if x == p {
      ExitedAlive(procs, p, init, q);
    } else {
      ExitedAlive(procs, p, init, x);
      if x != init && InUse(procs[x]) && q != p {
        ExitedAlive(procs, p, init, q);
      }
      if q == p && procs[x].state == ZOMBIE {
        ZombieThere(procs, p, x);
      }
    }
  }

  lemma ExitedSelf(procs: seq<Proc>, p: int, init: int)
    requires 0 <= p < |procs| && procs[p].parent != p
    ensures var b := AfterExit(procs, p, init, p); b.state == ZOMBIE && b.parent == procs[p].parent
  {
  }

  lemma ZombieThere(procs: seq<Proc>, p: int, x: int)
    requires 0 <= x < |procs| && procs[x].state == ZOMBIE && procs[x].parent == p
    ensures ZombieBelow(procs, p, |procs|)
  {
    assert ZombieOf(procs[x], p);
  }

  lemma ExitKeeps(s: Sys, c: nat)
    requires Inv(s) && Enabled(s, Exit(c)) && FamilyOk(s)
    ensures FamilyOk(Next(s, Exit(c)))
  {
    hide QueueOk, ProcsOk, ExitOf, AfterExit, ChildOk;
    var r, p := Next(s, Exit(c)).t.procs, s.cpus[c];
    assert s.t.procs[p].state == RUNNING;
    ExitEffect(s.t, p, s.initproc, 0);
    forall x | 0 <= x < NPROC ensures r[x] == AfterExit(s.t.procs, p, s.initproc, x) {
      ExitEffect(s.t, p, s.initproc, x);
    }
    forall x | 0 <= x < NPROC ensures ChildOk(r, s.initproc, x) {
      ExitedChild(s, r, p, x);
    }
    ExitedAlive(s.t.procs, p, s.initproc, s.initproc);
  }

  lemma FamilyStep(s: Sys, e: Event)
    requires Inv(s) && Enabled(s, e) && FamilyOk(s)
    ensures FamilyOk(Next(s, e))
  {
    hide Inv, Next, Enabled, FamilyOk;
    match e
    case Admit(p, parent) => AdmitKeeps(s, p, parent);
    case Sleep(_, _) => SleepKeeps(s, e);
    case Wait(_) => SleepKeeps(s, e);
    case Exit(c) => ExitKeeps(s, c);
    case Reap(c, p) => ReapKeeps(s, c, p);
    case _ => MinorKeeps(s, e);
  }

  lemma BootFamily(ncpu: nat)
    ensures FamilyOk(Boot(ncpu))
  {
  }

  lemma {:induction false} FamilyAlways(states: seq<Sys>, es: seq<Event>, i: nat)
    requires IsRun(states, es) && i <= |es| && FamilyOk(states[0])
    ensures FamilyOk(states[i])
  {
    hide Inv, Next, Enabled, FamilyOk;
    if i > 0 {
      FamilyAlways(states, es, i - 1);
      InvAlways(states, es, i - 1);
      assert StepAt(states, es, i - 1);
      FamilyStep(states[i - 1], es[i - 1]);
    }
  }

  /** At every point of every run from boot: a zombie has a parent that lives and does
      not sleep in wait, so that it will come to reap it; every other process in use
      but init has a parent that lives; init never goes; and wait's test for children
      meets no stale slot. */
  lemma NoZombieForgotten(states: seq<Sys>, es: seq<Event>, ncpu: nat, i: nat, p: int)
    requires IsRun(states, es) && states[0] == Boot(ncpu) && i <= |es| && 0 <= p < NPROC
    ensures var s := states[i];
            var procs := s.t.procs;
            && |procs| == NPROC && 0 <= s.initproc < NPROC
            && (procs[p].state == ZOMBIE ==>
                  0 <= procs[p].parent < NPROC && Alive(procs[procs[p].parent]) && !WaitsAsleep(procs, procs[p].parent))
            && (Alive(procs[p]) && p != s.initproc ==>
                  0 <= procs[p].parent < NPROC && Alive(procs[procs[p].parent]) && Alive(procs[s.initproc]))
            && (procs[p].parent != -1 ==> InUse(procs[p]))
  {
    hide Inv;
    BootFamily(ncpu);
    FamilyAlways(states, es, i);
    assert ChildOk(states[i].t.procs, states[i].initproc, p);
  }
}
