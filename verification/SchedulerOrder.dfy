/** The order in the ready queues: nothing is ever put in front of a waiting process, and
    queue 1 is served round robin. */
module SchedulerOrder {
  import opened Scheduler
  import opened SchedulerRun
  import opened SchedulerSafety

  ghost predicate Before(q: seq<int>, a: int, b: int) {
    exists i, j :: 0 <= i < j < |q| && q[i] == a && q[j] == b
  }

  /** r is what q has become: whatever stands before an old member of r is old too and
      stood before it. */
  ghost predicate Follows(q: seq<int>, r: seq<int>) {
    forall x, y :: 0 <= x < y < |r| && r[y] in q ==> Before(q, r[x], r[y])
  }

  lemma FollowsPrefix(q: seq<int>, r: seq<int>)
    requires q <= r && NoDup(r)
    ensures Follows(q, r)
  {
    forall x, y | 0 <= x < y < |r| && r[y] in q ensures Before(q, r[x], r[y]) {
      var j :| 0 <= j < |q| && q[j] == r[y];
      assert r[j] == q[j] && q[x] == r[x];
    }
  }

  lemma FollowsRemoved(q: seq<int>, r: seq<int>, i: nat)
    requires Follows(q, r) && i < |r|
    ensures Follows(q, RemoveAt(r, i))
  {
    var s := RemoveAt(r, i);
    forall x, y | 0 <= x < y < |s| && s[y] in q ensures Before(q, s[x], s[y]) {
      var x', y' := if x < i then x else x + 1, if y < i then y else y + 1;
      assert s[x] == r[x'] && s[y] == r[y'];
    }
  }

  lemma FollowsAppended(q: seq<int>, r: seq<int>, p: int)
    requires Follows(q, r) && p !in q
    ensures Follows(q, r + [p])
  {
    var s := r + [p];
    forall x, y | 0 <= x < y < |s| && s[y] in q ensures Before(q, s[x], s[y]) {
      assert y < |r| && s[x] == r[x] && s[y] == r[y];
    }
  }

  lemma FollowsSelf(q: seq<int>)
    ensures Follows(q, q)
  {
    forall x, y | 0 <= x < y < |q| ensures Before(q, q[x], q[y]) {
    }
  }

  /** A process comes no later in the queue than it was, and at least one place earlier
      when the head has gone. */
  lemma {:induction false} NoLater(q: seq<int>, r: seq<int>, i: nat, j: nat)
    requires Follows(q, r) && NoDup(q) && i < |q| && j < |r| && q[i] == r[j]
    ensures j <= i && (q[0] !in r ==> j < i)
    decreases j
  {
    if j > 0 {
      assert Before(q, r[j - 1], r[j]);
      var x, y :| 0 <= x < y < |q| && q[x] == r[j - 1] && q[y] == r[j];
      assert y == i;
      NoLater(q, r, x, j - 1);
    }
  }

  // ----- every step -----

  lemma {:induction false} AgeFollows(t: Table, n: nat, k: int)
    requires Agree(t) && n <= NPROC && 0 <= k < NUMFILAS
    ensures Follows(t.queues[k], AgeUpTo(t, n).queues[k])
    decreases n
  {
    if n == 0 {
      FollowsSelf(t.queues[k]);
    } else {
      AgeFollows(t, n - 1, k);
      AgreeAgeUpTo(t, n - 1);
      var r, p := AgeUpTo(t, n - 1), n - 1;
      hide Follows, AgeUpTo, RemoveAt;
      AgeMore(t, n);
      if Due(r.procs[p]) {
        var was := r.procs[p].priority;
        var at := IndexOf(r.queues[was], p);
        if k == was {
          FollowsRemoved(t.queues[k], r.queues[k], at);
        } else if k == was + 1 {
          assert QueueOk(t.procs, k, t.queues[k]);
          FollowsAppended(t.queues[k], r.queues[k], p);
        }
      }
    }
  }

  lemma AgeMore(t: Table, n: nat)
    requires Agree(t) && 0 < n <= NPROC && Agree(AgeUpTo(t, n - 1))
    ensures AgeUpTo(t, n) ==
            var r := AgeUpTo(t, n - 1);
            if Due(r.procs[n - 1]) then Promote(r, n - 1, IndexOf(r.queues[r.procs[n - 1].priority], n - 1)) else r
  {
  }

  /** Everything but a dispatch and aging only appends. */
  lemma QueuesGrow(s: Sys, e: Event, k: int)
    requires Inv(s) && Enabled(s, e) && !e.Dispatch? && !e.AgeTick? && 0 <= k < NUMFILAS
    ensures |Next(s, e).t.queues| == NUMFILAS && s.t.queues[k] <= Next(s, e).t.queues[k]
  {
    hide QueueOk, ProcsOk, CpusOk, WakeUpTo, FirstUnused, FirstPid;
    if e.Exit? {
      ExitGrows(s.t, s.cpus[e.c], s.initproc);
    }
  }

  lemma ExitGrows(t: Table, p: int, init: int)
    requires Agree(t) && 0 <= p < NPROC
    ensures |ExitOf(t, p, init).queues| == NUMFILAS
    ensures forall k :: 0 <= k < NUMFILAS ==> t.queues[k] <= ExitOf(t, p, init).queues[k]
  {
    hide MakeReady, WakeUpTo, ReparentUpTo;
    var chan := ProcChan(t.procs[p].parent);
    WakeupOnlyWakes(t, chan);
    ReparentOnlyWakes(Wakeup(t, chan), p, init, NPROC);
    OnlyWakesTrans(t, Wakeup(t, chan), ReparentUpTo(Wakeup(t, chan), p, init, NPROC));
  }

  /** In every step and every queue: who waits in a queue keeps its order, and newcomers
      stand behind. */
  lemma StepFollows(s: Sys, e: Event, k: int)
    requires Inv(s) && Enabled(s, e) && 0 <= k < NUMFILAS
    ensures |Next(s, e).t.queues| == NUMFILAS && Follows(s.t.queues[k], Next(s, e).t.queues[k])
    ensures NoDup(s.t.queues[k]) && NoDup(Next(s, e).t.queues[k])
  {
    hide Next, Enabled, Follows, ProcsOk, CpusOk;
    InvStep(s, e);
    var u := Next(s, e);
    assert QueueOk(s.t.procs, k, s.t.queues[k]) && QueueOk(u.t.procs, k, u.t.queues[k]);
    if e.Dispatch? {
      DispatchFollows(s, e, k);
    } else if e.AgeTick? {
      AgeTickFollows(s, k);
    } else {
      QueuesGrow(s, e, k);
      FollowsPrefix(s.t.queues[k], u.t.queues[k]);
    }
  }

  lemma DispatchFollows(s: Sys, e: Event, k: int)
    requires Inv(s) && Enabled(s, e) && e.Dispatch? && 0 <= k < NUMFILAS
    ensures |Next(s, e).t.queues| == NUMFILAS && Follows(s.t.queues[k], Next(s, e).t.queues[k])
  {
    hide Follows, ProcsOk, CpusOk, QueueOk, Choose;
    ChooseFinds(s.t, s.phase, e.random);
    FollowsSelf(s.t.queues[k]);
    var choice := Choose(s.t, e.random);
    if choice.Pick? && choice.k == k {
      FollowsRemoved(s.t.queues[k], s.t.queues[k], choice.i);
    }
  }

  lemma AgeTickFollows(s: Sys, k: int)
    requires Inv(s) && Enabled(s, AgeTick) && 0 <= k < NUMFILAS
    ensures |Next(s, AgeTick).t.queues| == NUMFILAS && Follows(s.t.queues[k], Next(s, AgeTick).t.queues[k])
  {
    hide Follows, AgeUpTo, ProcsOk, CpusOk, QueueOk;
    AgeFollows(s.t, NPROC, k);
  }

  // ----- round robin -----

  /** A dispatch that comes to queue 1. */
  predicate Turn(s: Sys, e: Event) {
    |s.t.queues| == NUMFILAS && e.Dispatch? && s.t.queues[3] == [] && s.t.queues[2] == [] && s.t.queues[1] != []
  }

  /** Each turn takes the head of queue 1; the others move up by one place, and no other
      step moves any of them back. */
  lemma RoundRobinStep(s: Sys, e: Event, i: nat)
    requires Inv(s) && Enabled(s, e) && i < |s.t.queues[1]|
    ensures |Next(s, e).t.queues| == NUMFILAS
    ensures Turn(s, e) ==> e.c < |Next(s, e).cpus| && Next(s, e).cpus[e.c] == s.t.queues[1][0] && Next(s, e).t.queues[1] == s.t.queues[1][1..]
    ensures forall j :: 0 <= j < |Next(s, e).t.queues[1]| && Next(s, e).t.queues[1][j] == s.t.queues[1][i] ==>
              j + (if Turn(s, e) then 1 else 0) <= i
  {
    hide Next, Enabled, Follows, ProcsOk, CpusOk;
    StepFollows(s, e, 1);
    var q, u := s.t.queues[1], Next(s, e);
    if Turn(s, e) {
      DispatchTakes(s, e.c, e.random);
      assert q[..0] + q[1..] == q[1..];
    }
    forall j | 0 <= j < |u.t.queues[1]| && u.t.queues[1][j] == q[i] ensures j + (if Turn(s, e) then 1 else 0) <= i {
      NoLater(q, u.t.queues[1], i, j);
    }
  }

  ghost function Turns(states: seq<Sys>, es: seq<Event>, i: nat, j: nat): nat
    requires i <= j <= |es| && |states| == |es| + 1
  {
    if i == j then 0 else Turns(states, es, i, j - 1) + if Turn(states[j - 1], es[j - 1]) then 1 else 0
  }

  /** p waits in queue 1 at all points from i to j. */
  ghost predicate InQueueOne(states: seq<Sys>, i: nat, j: nat, p: int)
    requires i <= j < |states|
  {
    forall x :: i <= x <= j ==> |states[x].t.queues| == NUMFILAS && p in states[x].t.queues[1]
  }

  /** A process at position m of queue 1 has moved forward by at least one place for each
      turn, for as long as it waits there. */
  lemma {:induction false} RoundRobin(states: seq<Sys>, es: seq<Event>, i: nat, j: nat, m: nat, p: int)
    requires IsRun(states, es) && i <= j <= |es| && InQueueOne(states, i, j, p)
    requires m < |states[i].t.queues[1]| && states[i].t.queues[1][m] == p
    ensures Turns(states, es, i, j) <= m
    ensures forall n :: 0 <= n < |states[j].t.queues[1]| && states[j].t.queues[1][n] == p ==> n + Turns(states, es, i, j) <= m
    decreases j
  {
    hide Inv, Next, Enabled;
    assert p in states[j].t.queues[1];
    if i < j {
      RoundRobin(states, es, i, j - 1, m, p);
      InvAlways(states, es, j - 1);
      assert StepAt(states, es, j - 1);
      assert p in states[j - 1].t.queues[1];
      var x :| 0 <= x < |states[j - 1].t.queues[1]| && states[j - 1].t.queues[1][x] == p;
      RoundRobinStep(states[j - 1], es[j - 1], x);
    } else {
      InvAlways(states, es, i);
      OnlyOnce(states[i], m, p);
    }
  }

  lemma OnlyOnce(s: Sys, m: nat, p: int)
    requires Inv(s) && m < |s.t.queues[1]| && s.t.queues[1][m] == p
    ensures forall n :: 0 <= n < |s.t.queues[1]| && s.t.queues[1][n] == p ==> n == m
  {
    assert QueueOk(s.t.procs, 1, s.t.queues[1]);
  }

  /** So it leaves queue 1, to a processor or promoted, before m + 1 turns are over, and
      the turn that comes after m others takes it. */
  lemma TakenByTurn(states: seq<Sys>, es: seq<Event>, i: nat, j: nat, m: nat, p: int)
    requires IsRun(states, es) && i <= j < |es| && InQueueOne(states, i, j, p)
    requires m < |states[i].t.queues[1]| && states[i].t.queues[1][m] == p
    requires Turns(states, es, i, j) == m && Turn(states[j], es[j])
    ensures es[j].c < |states[j + 1].cpus| && states[j + 1].cpus[es[j].c] == p
  {
    hide Inv, Next, Enabled;
    RoundRobin(states, es, i, j, m, p);
    InvAlways(states, es, j);
    assert StepAt(states, es, j);
    assert p in states[j].t.queues[1];
    var n :| 0 <= n < |states[j].t.queues[1]| && states[j].t.queues[1][n] == p;
    RoundRobinStep(states[j], es[j], n);
  }
}
