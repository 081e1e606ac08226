/** The process table and the four ready queues, as values, with one function per
    section of the kernel that runs under the process table lock. */
module Scheduler {

  const NPROC: nat := 64
  const NUMFILAS: nat := 4
  const PRIO: nat := 1
  const T01: nat := 200      // _1TO2
  const T12: nat := 150      // _2TO3
  const T23: nat := 100      // _3TO4

  datatype PState = UNUSED | EMBRYO | SLEEPING | RUNNABLE | RUNNING | ZOMBIE

  /** The scheduling fields of struct proc. A process is named by its slot; -1 is
      the null parent. */
  datatype Proc = Proc(state: PState, pid: int, parent: int, chan: int, killed: bool,
                       priority: int, clock: int, tickets: int,
                       estimatedburst: int, previousburst: int, bstime: int,
                       readyTimeAging: int)

  /** `queues[k]` is the counted prefix of queue_ready[k]. */
  datatype Table = Table(procs: seq<Proc>, queues: seq<seq<int>>, nextpid: int)

  ghost predicate NoDup(q: seq<int>) {
    forall i, j :: 0 <= i < j < |q| ==> q[i] != q[j]
  }

  ghost predicate Shape(t: Table) {
    |t.procs| == NPROC && |t.queues| == NUMFILAS
  }

  /** Everything in queue k is a runnable process of priority k, once. */
  ghost predicate QueueOk(procs: seq<Proc>, k: int, q: seq<int>) {
    && NoDup(q)
    && forall i :: 0 <= i < |q| ==>
         0 <= q[i] < |procs| && procs[q[i]].state == RUNNABLE && procs[q[i]].priority == k
  }

  /** A process is runnable exactly when it is in a ready queue; it is then in the
      queue of its priority, once, and in no other. */
  ghost predicate Agree(t: Table) {
    && Shape(t)
    && (forall p :: 0 <= p < NPROC ==> 0 <= t.procs[p].priority < NUMFILAS)
    && (forall k :: 0 <= k < NUMFILAS ==> QueueOk(t.procs, k, t.queues[k]))
    && (forall p :: 0 <= p < NPROC && t.procs[p].state == RUNNABLE ==> p in t.queues[t.procs[p].priority])
  }

  // ----- the elementary changes -----

  function RemoveAt(q: seq<int>, i: nat): seq<int>
    requires i < |q|
  {
    q[..i] + q[i + 1..]
  }

  function SetProc(t: Table, p: int, pr: Proc): Table
    requires 0 <= p < |t.procs|
  {
    t.(procs := t.procs[p := pr])
  }

  /** Append p to the queue of its priority and mark it runnable: the same three
      lines in fork, yield, wakeup1 and kill. */
  function MakeReady(t: Table, p: int): Table
    requires 0 <= p < |t.procs| && 0 <= t.procs[p].priority < |t.queues|
  {
    var k := t.procs[p].priority;
    Table(t.procs[p := t.procs[p].(state := RUNNABLE)], t.queues[k := t.queues[k] + [p]], t.nextpid)
  }

  /** Take the process at position i of queue k to a processor. */
  function Take(t: Table, k: int, i: nat): Table
    requires 0 <= k < |t.queues| && i < |t.queues[k]| && 0 <= t.queues[k][i] < |t.procs|
  {
    var p := t.queues[k][i];
    Table(t.procs[p := t.procs[p].(state := RUNNING, clock := 0, readyTimeAging := 0)],
          t.queues[k := RemoveAt(t.queues[k], i)], t.nextpid)
  }

  /** Move a runnable process one queue up. */
  function Promote(t: Table, p: int, i: nat): Table
    requires 0 <= p < |t.procs| && 0 <= t.procs[p].priority && t.procs[p].priority + 1 < |t.queues|
    requires i < |t.queues[t.procs[p].priority]|
  {
    var k := t.procs[p].priority;
    Table(t.procs[p := t.procs[p].(priority := k + 1, readyTimeAging := 0)],
          t.queues[k := RemoveAt(t.queues[k], i)][k + 1 := t.queues[k + 1] + [p]], t.nextpid)
  }

  // ----- they keep the agreement -----

  lemma RemoveAtMembers(q: seq<int>, i: nat)
    requires NoDup(q) && i < |q|
    ensures NoDup(RemoveAt(q, i))
    ensures forall x :: x in RemoveAt(q, i) <==> x in q && x != q[i]
  {
    var r := RemoveAt(q, i);
    forall x ensures x in r <==> x in q && x != q[i] {
      if x in q && x != q[i] {
        var j :| 0 <= j < |q| && q[j] == x;
        assert r[if j < i then j else j - 1] == x;
      }
    }
  }

  /** A change to a process that is runnable neither before nor after. */
  lemma AgreeSetProc(t: Table, p: int, pr: Proc)
    requires Agree(t) && 0 <= p < NPROC
    requires t.procs[p].state != RUNNABLE && pr.state != RUNNABLE && 0 <= pr.priority < NUMFILAS
    ensures Agree(SetProc(t, p, pr))
  {
  }

  /** A change that leaves state and priority alone. */
  lemma AgreeSameKey(t: Table, p: int, pr: Proc)
    requires Agree(t) && 0 <= p < NPROC
    requires pr.state == t.procs[p].state && pr.priority == t.procs[p].priority
    ensures Agree(SetProc(t, p, pr))
  {
  }

  /** Only slot p may differ. */
  ghost predicate OnlyAt(procs: seq<Proc>, procs': seq<Proc>, p: int) {
    |procs| == |procs'| && forall x :: 0 <= x < |procs| && x != p ==> procs'[x] == procs[x]
  }

  lemma QueueUntouched(procs: seq<Proc>, procs': seq<Proc>, k: int, q: seq<int>, p: int)
    requires QueueOk(procs, k, q) && 0 <= p < |procs| && OnlyAt(procs, procs', p)
    requires procs[p].state != RUNNABLE || procs[p].priority != k
    ensures p !in q && QueueOk(procs', k, q)
  {
  }

  lemma QueueAfterAppend(procs: seq<Proc>, procs': seq<Proc>, k: int, q: seq<int>, p: int)
    requires QueueOk(procs, k, q) && 0 <= p < |procs| && OnlyAt(procs, procs', p)
    requires procs[p].state != RUNNABLE || procs[p].priority != k
    requires procs'[p].state == RUNNABLE && procs'[p].priority == k
    ensures QueueOk(procs', k, q + [p])
  {
    QueueUntouched(procs, procs', k, q, p);
  }

  lemma QueueAfterRemove(procs: seq<Proc>, procs': seq<Proc>, k: int, q: seq<int>, i: nat)
    requires QueueOk(procs, k, q) && i < |q| && OnlyAt(procs, procs', q[i])
    ensures QueueOk(procs', k, RemoveAt(q, i))
    ensures forall x :: x in RemoveAt(q, i) <==> x in q && x != q[i]
  {
    RemoveAtMembers(q, i);
    var r := RemoveAt(q, i);
    forall m | 0 <= m < |r|
      ensures 0 <= r[m] < |procs'| && procs'[r[m]].state == RUNNABLE && procs'[r[m]].priority == k
    {
      assert r[m] in r;
    }
  }

  lemma AgreeMakeReady(t: Table, p: int)
    requires Agree(t) && 0 <= p < NPROC && t.procs[p].state != RUNNABLE
    ensures Agree(MakeReady(t, p))
  {
    var t' := MakeReady(t, p);
    var k := t.procs[p].priority;
    forall j | 0 <= j < NUMFILAS ensures QueueOk(t'.procs, j, t'.queues[j]) {
      if j == k {
        QueueAfterAppend(t.procs, t'.procs, j, t.queues[j], p);
      } else {
        QueueUntouched(t.procs, t'.procs, j, t.queues[j], p);
      }
    }
    assert t'.queues[k][|t.queues[k]|] == p;
  }

  lemma AgreeTake(t: Table, k: int, i: nat)
    requires Agree(t) && 0 <= k < NUMFILAS && i < |t.queues[k]|
    ensures 0 <= t.queues[k][i] < NPROC && Agree(Take(t, k, i))
  {
    assert QueueOk(t.procs, k, t.queues[k]);
    var t' := Take(t, k, i);
    var p := t.queues[k][i];
    QueueAfterRemove(t.procs, t'.procs, k, t.queues[k], i);
    forall j | 0 <= j < NUMFILAS && j != k ensures QueueOk(t'.procs, j, t'.queues[j]) {
      QueueUntouched(t.procs, t'.procs, j, t.queues[j], p);
    }
  }

  lemma AgreePromote(t: Table, p: int, i: nat)
    requires Agree(t) && 0 <= p < NPROC && t.procs[p].state == RUNNABLE && t.procs[p].priority + 1 < NUMFILAS
    requires i < |t.queues[t.procs[p].priority]| && t.queues[t.procs[p].priority][i] == p
    ensures Agree(Promote(t, p, i))
  {
    var t' := Promote(t, p, i);
    var k := t.procs[p].priority;
    QueueAfterRemove(t.procs, t'.procs, k, t.queues[k], i);
    QueueAfterAppend(t.procs, t'.procs, k + 1, t.queues[k + 1], p);
    forall j | 0 <= j < NUMFILAS && j != k && j != k + 1 ensures QueueOk(t'.procs, j, t'.queues[j]) {
      QueueUntouched(t.procs, t'.procs, j, t.queues[j], p);
    }
    assert t'.queues[k + 1][|t.queues[k + 1]|] == p;
  }

  // ----- room in the queues -----

  /** The numbers below n. */
  ghost function Below(n: nat): (s: set<int>)
    ensures |s| == n && forall x :: x in s <==> 0 <= x < n
  {
    if n == 0 then {} else Below(n - 1) + {n - 1}
  }

  lemma {:induction false} NoDupSize(q: seq<int>, s: set<int>)
    requires NoDup(q) && forall i :: 0 <= i < |q| ==> q[i] in s
    ensures |q| <= |s|
  {
    if q != [] {
      var m := |q| - 1;
      NoDupSize(q[..m], s - {q[m]});
    }
  }

  /** All four queues one after the other. */
  ghost function AllQueued(t: Table): seq<int>
    requires |t.queues| == NUMFILAS
  {
    t.queues[0] + t.queues[1] + t.queues[2] + t.queues[3]
  }

  lemma AllQueuedOk(t: Table)
    requires Agree(t)
    ensures NoDup(AllQueued(t))
    ensures forall i :: 0 <= i < |AllQueued(t)| ==>
              0 <= AllQueued(t)[i] < NPROC && t.procs[AllQueued(t)[i]].state == RUNNABLE
  {
    assert QueueOk(t.procs, 0, t.queues[0]) && QueueOk(t.procs, 1, t.queues[1]);
    assert QueueOk(t.procs, 2, t.queues[2]) && QueueOk(t.procs, 3, t.queues[3]);
    var a := t.queues[0] + t.queues[1];
    assert NoDup(a);
    var b := t.queues[2] + t.queues[3];
    assert NoDup(b);
    assert AllQueued(t) == a + b;
    assert forall i :: 0 <= i < |a| ==> t.procs[a[i]].priority <= 1;
    assert forall i :: 0 <= i < |b| ==> t.procs[b[i]].priority >= 2;
  }

  /** The counts sum to at most the number of processes, and to less when some
      process is not runnable, so the append of a process stays in bounds. */
  lemma QueuesFit(t: Table)
    requires Agree(t)
    ensures |t.queues[0]| + |t.queues[1]| + |t.queues[2]| + |t.queues[3]| <= NPROC
    ensures forall p :: 0 <= p < NPROC && t.procs[p].state != RUNNABLE ==>
              |t.queues[0]| + |t.queues[1]| + |t.queues[2]| + |t.queues[3]| < NPROC
  {
    AllQueuedOk(t);
    NoDupSize(AllQueued(t), Below(NPROC));
    forall p | 0 <= p < NPROC && t.procs[p].state != RUNNABLE
      ensures |t.queues[0]| + |t.queues[1]| + |t.queues[2]| + |t.queues[3]| < NPROC
    {
      NoDupSize(AllQueued(t), Below(NPROC) - {p});
    }
  }

  // ----- the locked sections -----

  /** wakeup1's loop over the first n slots. */
  function WakeUpTo(t: Table, chan: int, n: nat): (r: Table)
    requires n <= |t.procs| && forall p :: 0 <= p < |t.procs| ==> 0 <= t.procs[p].priority < |t.queues|
    ensures |r.procs| == |t.procs| && |r.queues| == |t.queues| && r.nextpid == t.nextpid
    ensures forall p :: 0 <= p < |t.procs| ==>
              r.procs[p] == if p < n && t.procs[p].state == SLEEPING && t.procs[p].chan == chan
                            then t.procs[p].(state := RUNNABLE) else t.procs[p]
    ensures forall k :: 0 <= k < |t.queues| ==> t.queues[k] <= r.queues[k]
  {
    if n == 0 then t
    else
      var r := WakeUpTo(t, chan, n - 1);
      if r.procs[n - 1].state == SLEEPING && r.procs[n - 1].chan == chan then MakeReady(r, n - 1) else r
  }

  function Wakeup(t: Table, chan: int): Table
    requires forall p :: 0 <= p < |t.procs| ==> 0 <= t.procs[p].priority < |t.queues|
  {
    WakeUpTo(t, chan, |t.procs|)
  }

  lemma WakeNone(t: Table, chan: int)
    requires forall p :: 0 <= p < |t.procs| ==> 0 <= t.procs[p].priority < |t.queues|
    ensures WakeUpTo(t, chan, 0) == t
  {
  }

  lemma WakeOneMore(t: Table, chan: int, n: nat)
    requires n < |t.procs| && forall p :: 0 <= p < |t.procs| ==> 0 <= t.procs[p].priority < |t.queues|
    ensures var r := WakeUpTo(t, chan, n);
            WakeUpTo(t, chan, n + 1) ==
            if r.procs[n].state == SLEEPING && r.procs[n].chan == chan then MakeReady(r, n) else r
  {
    hide MakeReady;
  }

  lemma {:induction false} AgreeWakeUpTo(t: Table, chan: int, n: nat)
    requires Agree(t) && n <= NPROC
    ensures Agree(WakeUpTo(t, chan, n))
  {
    if n > 0 {
      AgreeWakeUpTo(t, chan, n - 1);
      var r := WakeUpTo(t, chan, n - 1);
      if r.procs[n - 1].state == SLEEPING && r.procs[n - 1].chan == chan {
        AgreeMakeReady(r, n - 1);
      }
    }
  }

  function Clocked(pr: Proc): Proc {
    match pr.state
    case SLEEPING => pr.(clock := 0)
    case RUNNABLE => pr.(readyTimeAging := pr.readyTimeAging + 1, clock := 0)
    case RUNNING => pr.(bstime := pr.bstime + 1, clock := pr.clock + 1)
    case _ => pr
  }

  /** updateClock. */
  function UpdateClock(t: Table): (r: Table)
    ensures |r.procs| == |t.procs| && r.queues == t.queues && r.nextpid == t.nextpid
    ensures forall p :: 0 <= p < |t.procs| ==> r.procs[p] == Clocked(t.procs[p])
  {
    t.(procs := seq(|t.procs|, p requires 0 <= p < |t.procs| => Clocked(t.procs[p])))
  }

  lemma AgreeUpdateClock(t: Table)
    requires Agree(t)
    ensures Agree(UpdateClock(t))
  {
    var t' := UpdateClock(t);
    forall k | 0 <= k < NUMFILAS ensures QueueOk(t'.procs, k, t'.queues[k]) {
      assert QueueOk(t.procs, k, t.queues[k]);
    }
  }

  /** The first position of p in q. */
  function IndexOf(q: seq<int>, p: int): (i: nat)
    requires p in q
    ensures i < |q| && q[i] == p
  {
    if q[0] == p then 0 else 1 + IndexOf(q[1..], p)
  }

  /** The ready time after which a process of priority k is promoted. */
  function Threshold(k: int): nat {
    if k == 0 then T01 else if k == 1 then T12 else T23
  }

  predicate Due(pr: Proc) {
    pr.state == RUNNABLE && 0 <= pr.priority < 3 && pr.readyTimeAging >= Threshold(pr.priority)
  }

  /** upgradePriority_Aging at slot p. */
  function AgeOne(t: Table, p: int): (r: Table)
    requires 0 <= p < |t.procs| && |t.queues| == NUMFILAS
    ensures |r.procs| == |t.procs| && |r.queues| == NUMFILAS && r.nextpid == t.nextpid
    ensures t.queues[3] <= r.queues[3]
  {
    if Due(t.procs[p]) && p in t.queues[t.procs[p].priority]
    then Promote(t, p, IndexOf(t.queues[t.procs[p].priority], p))
    else t
  }

  /** upgradePriority_Aging's loop over the first n slots. */
  function AgeUpTo(t: Table, n: nat): (r: Table)
    requires n <= |t.procs| && |t.queues| == NUMFILAS
    ensures |r.procs| == |t.procs| && |r.queues| == NUMFILAS && r.nextpid == t.nextpid
    ensures t.queues[3] <= r.queues[3]
  {
    if n == 0 then t else AgeOne(AgeUpTo(t, n - 1), n - 1)
  }

  lemma {:induction false} AgreeAgeUpTo(t: Table, n: nat)
    requires Agree(t) && n <= NPROC
    ensures Agree(AgeUpTo(t, n))
    ensures forall p :: n <= p < NPROC ==> AgeUpTo(t, n).procs[p] == t.procs[p]
    ensures forall p :: 0 <= p < n ==>
              AgeUpTo(t, n).procs[p] ==
              if Due(t.procs[p]) then t.procs[p].(priority := t.procs[p].priority + 1, readyTimeAging := 0)
              else t.procs[p]
  {
    if n > 0 {
      AgreeAgeUpTo(t, n - 1);
      var r := AgeUpTo(t, n - 1);
      if Due(r.procs[n - 1]) {
        AgreePromote(r, n - 1, IndexOf(r.queues[r.procs[n - 1].priority], n - 1));
      }
    }
  }

  // ----- choosing a process -----

  /** Tickets of the first n processes of a queue. */
  function TicketSum(procs: seq<Proc>, q: seq<int>, n: nat): int
    requires n <= |q| && forall i :: 0 <= i < |q| ==> 0 <= q[i] < |procs|
  {
    if n == 0 then 0 else TicketSum(procs, q, n - 1) + procs[q[n - 1]].tickets
  }

  ghost predicate TicketsOk(procs: seq<Proc>, q: seq<int>) {
    forall i :: 0 <= i < |q| ==> 0 <= q[i] < |procs| && 0 <= procs[q[i]].tickets
  }

  /** The lottery's scan from position i on: the first whose running ticket sum
      reaches the drawn ticket; past the end when none does. */
  function LotteryFrom(procs: seq<Proc>, q: seq<int>, golden: int, i: nat): (r: nat)
    requires i <= |q| && forall j :: 0 <= j < |q| ==> 0 <= q[j] < |procs|
    ensures i <= r <= |q|
    ensures forall j :: i < j <= r ==> TicketSum(procs, q, j) < golden
    ensures r < |q| ==> TicketSum(procs, q, r + 1) >= golden
    decreases |q| - i
  {
    if i == |q| || TicketSum(procs, q, i + 1) >= golden then i else LotteryFrom(procs, q, golden, i + 1)
  }

  /** shortestBurst over the first n processes: the position and the burst. */
  function ShortestUpTo(procs: seq<Proc>, q: seq<int>, n: nat): (r: (nat, int))
    requires n <= |q| && forall i :: 0 <= i < |q| ==> 0 <= q[i] < |procs|
    ensures n > 0 ==> r.0 < n
    ensures r.1 <= 10000
  {
    if n == 0 then (0, 10000)
    else
      var r := ShortestUpTo(procs, q, n - 1);
      if procs[q[n - 1]].estimatedburst < r.1 then (n - 1, procs[q[n - 1]].estimatedburst) else r
  }

  datatype Choice = Nothing | Pick(k: int, i: nat)

  /** What the scheduler takes when it holds the lock: the highest nonempty queue,
      and in it the head, the shortest job, the head, or the lottery winner. */
  function Choose(t: Table, random: int): (c: Choice)
    requires |t.queues| == NUMFILAS && 0 <= random
    requires forall k, i :: 0 <= k < NUMFILAS && 0 <= i < |t.queues[k]| ==> 0 <= t.queues[k][i] < |t.procs|
  {
    if t.queues[3] != [] then Pick(3, 0)
    else if t.queues[2] != [] then Pick(2, ShortestUpTo(t.procs, t.queues[2], |t.queues[2]|).0)
    else if t.queues[1] != [] then Pick(1, 0)
    else if t.queues[0] != [] then
      var total := TicketSum(t.procs, t.queues[0], |t.queues[0]|);
      if total < 0 then Nothing else
      var i := LotteryFrom(t.procs, t.queues[0], random % (total + 1), 0);
      if i < |t.queues[0]| then Pick(0, i) else Nothing
    else Nothing
  }
}
