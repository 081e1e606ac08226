/** The process table as the kernel keeps it: fixed arrays with counts, changed in
    place. Every routine is proved to make the change the value model describes. */
module SchedulerTable {
  import opened Scheduler
  import opened SchedulerRun
  import opened SchedulerPolicy
  import opened SchedulerSafety
  import opened SchedulerFamily

  datatype WaitResult = Reaped(pid: int) | Denied | Waits

  class PTable {
    const procs: array<Proc>
    const slots: array2<int>     // queue_ready
    const count: array<int>      // count_queue
    var nextpid: int
    var next: int                // the static variable of Random

    ghost predicate Valid()
      reads this, procs, slots, count
    {
      && procs.Length == NPROC
      && slots.Length0 == NUMFILAS && slots.Length1 == NPROC
      && count.Length == NUMFILAS
      && forall k :: 0 <= k < NUMFILAS ==> 0 <= count[k] <= NPROC
    }

    /** The counted prefix of queue k. */
    ghost function Queue(k: int): (q: seq<int>)
      requires Valid() && 0 <= k < NUMFILAS
      reads this, procs, slots, count
      ensures |q| == count[k]
      ensures forall i :: 0 <= i < |q| ==> q[i] == slots[k, i]
    {
      seq(count[k], i requires 0 <= i < count[k] && Valid() reads this, procs, slots, count => slots[k, i])
    }

    ghost function Abs(): (t: Table)
      requires Valid()
      reads this, procs, slots, count
      ensures Shape(t) && t.procs == procs[..] && t.nextpid == nextpid
      ensures forall k :: 0 <= k < NUMFILAS ==> t.queues[k] == Queue(k)
    {
      Table(procs[..], [Queue(0), Queue(1), Queue(2), Queue(3)], nextpid)
    }

    constructor ()
      ensures Valid() && fresh(procs) && fresh(slots) && fresh(count)
      ensures Abs() == Boot(0).t && next == 3251
    {
      procs := new Proc[NPROC](_ => Proc(UNUSED, 0, -1, 0, false, 0, 0, 0, 0, 0, 0, 0));
      slots := new int[NUMFILAS, NPROC]((_, _) => 0);
      count := new int[NUMFILAS](_ => 0);
      nextpid := 1;
      next := 3251;
      new;
      assert Abs() == Boot(0).t;
    }

    /** The two lines that put a process at the end of queue k. */
    method Append(k: int, p: int)
      requires Valid() && 0 <= k < NUMFILAS && count[k] < NPROC
      modifies slots, count
      ensures Valid()
      ensures Abs() == old(Abs()).(queues := old(Abs()).queues[k := old(Abs()).queues[k] + [p]])
    {
      slots[k, count[k]] := p;
      count[k] := count[k] + 1;
      assert Queue(k) == old(Queue(k)) + [p];
      assert forall j :: 0 <= j < NUMFILAS && j != k ==> Queue(j) == old(Queue(j));
    }

    /** The loop that closes the gap at position pos of queue k, and its decrement. */
    method Close(k: int, pos: nat)
      requires Valid() && 0 <= k < NUMFILAS && pos < count[k]
      modifies slots, count
      ensures Valid()
      ensures Abs() == old(Abs()).(queues := old(Abs()).queues[k := RemoveAt(old(Abs()).queues[k], pos)])
    {
      Shift(k, pos);
      count[k] := count[k] - 1;
      assert Queue(k) == RemoveAt(old(Queue(k)), pos);
      assert forall j :: 0 <= j < NUMFILAS && j != k ==> Queue(j) == old(Queue(j));
    }

    method Shift(k: int, pos: nat)
      requires Valid() && 0 <= k < NUMFILAS && pos < count[k]
      modifies slots
      ensures Valid()
      ensures forall j, i :: 0 <= j < NUMFILAS && 0 <= i < NPROC ==>
                slots[j, i] == if j == k && pos <= i < count[k] - 1 then old(slots[j, i + 1]) else old(slots[j, i])
    {
      var i := pos;
      while i < count[k] - 1
        invariant pos <= i <= count[k] - 1
        invariant forall j, m :: 0 <= j < NUMFILAS && 0 <= m < NPROC ==>
                    slots[j, m] == if j == k && pos <= m < i then old(slots[j, m + 1]) else old(slots[j, m])
      {
        slots[k, i] := slots[k, i + 1];
        i := i + 1;
      }
    }

    /** One assignment to the fields of a process. */
    method Store(p: int, pr: Proc)
      requires Valid() && 0 <= p < NPROC
      modifies procs
      ensures Valid() && Abs() == SetProc(old(Abs()), p, pr)
    {
      procs[p] := pr;
      assert procs[..] == old(procs[..])[p := pr];
      assert forall k :: 0 <= k < NUMFILAS ==> Queue(k) == old(Queue(k));
    }

    /** Append p to the queue of its priority and mark it runnable. */
    method Ready(p: int)
      requires Valid() && Agree(Abs()) && 0 <= p < NPROC && procs[p].state != RUNNABLE
      modifies procs, slots, count
      ensures Valid() && Agree(Abs()) && Abs() == MakeReady(old(Abs()), p)
    {
      QueuesFit(Abs());
      AgreeMakeReady(Abs(), p);
      Append(procs[p].priority, p);
      Store(p, procs[p].(state := RUNNABLE));
    }

    /** The body of wakeup1's loop. */
    method WakeSlot(p: int, chan: int)
      requires Valid() && Agree(Abs()) && 0 <= p < NPROC
      modifies procs, slots, count
      ensures Valid()
      ensures Abs() == if old(procs[p]).state == SLEEPING && old(procs[p]).chan == chan
                       then MakeReady(old(Abs()), p) else old(Abs())
    {
      if procs[p].state == SLEEPING && procs[p].chan == chan {
        Ready(p);
      }
    }

    method Wakeup1(chan: int)
      requires Valid() && Agree(Abs())
      modifies procs, slots, count
      ensures Valid() && Agree(Abs()) && Abs() == Wakeup(old(Abs()), chan)
    {
      hide QueueOk, MakeReady, Abs, Queue, WakeUpTo;
      ghost var t := Abs();
      var p := 0;
      WakeNone(t, chan);
      while p < NPROC
        invariant 0 <= p <= NPROC && Valid()
        invariant Abs() == WakeUpTo(t, chan, p)
      {
        AgreeWakeUpTo(t, chan, p);
        WakeOneMore(t, chan, p);
        WakeSlot(p, chan);
        p := p + 1;
      }
      AgreeWakeUpTo(t, chan, NPROC);
    }

    /** kill: 0 when some process has the pid, -1 otherwise. */
    method KillPid(pid: int) returns (r: int)
      requires Valid() && Agree(Abs())
      modifies procs, slots, count
      ensures Valid() && Abs() == KillOne(old(Abs()), pid)
      ensures r == if exists p :: 0 <= p < NPROC && old(procs[p]).pid == pid then 0 else -1
      ensures forall p :: 0 <= p < NPROC ==>
                procs[p] == if old(procs[p]).pid == pid && (forall x :: 0 <= x < p ==> old(procs[x]).pid != pid)
                            then old(procs[p]).(killed := true, state := if old(procs[p]).state == SLEEPING then RUNNABLE else old(procs[p]).state)
                            else old(procs[p])
    {
      hide QueueOk;
      var p := 0;
      while p < NPROC
        invariant 0 <= p <= NPROC && Valid() && Agree(Abs()) && Abs() == old(Abs())
        invariant forall x :: 0 <= x < p ==> procs[x].pid != pid
        invariant FirstPid(Abs().procs, pid, 0) == FirstPid(Abs().procs, pid, p)
      {
        if procs[p].pid == pid {
          AgreeSameKey(Abs(), p, procs[p].(killed := true));
          Store(p, procs[p].(killed := true));
          if procs[p].state == SLEEPING {
            Ready(p);
          }
          return 0;
        }
        p := p + 1;
      }
      r := -1;
    }

    method UpdateClocks()
      requires Valid()
      modifies procs
      ensures Valid() && Abs() == UpdateClock(old(Abs()))
      ensures forall p :: 0 <= p < NPROC ==>
                var o := old(procs[p]);
                procs[p] == o.(clock := if o.state == RUNNING then o.clock + 1 else if o.state == SLEEPING || o.state == RUNNABLE then 0 else o.clock,
                               bstime := if o.state == RUNNING then o.bstime + 1 else o.bstime,
                               readyTimeAging := if o.state == RUNNABLE then o.readyTimeAging + 1 else o.readyTimeAging)
    {
      var p := 0;
      while p < NPROC
        invariant 0 <= p <= NPROC && Valid()
        invariant forall x :: 0 <= x < p ==> procs[x] == Clocked(old(procs[x]))
        invariant forall x :: p <= x < NPROC ==> procs[x] == old(procs[x])
      {
        if procs[p].state == SLEEPING {
          procs[p] := procs[p].(clock := 0);
        } else if procs[p].state == RUNNABLE {
          procs[p] := procs[p].(readyTimeAging := procs[p].readyTimeAging + 1, clock := 0);
        } else if procs[p].state == RUNNING {
          procs[p] := procs[p].(bstime := procs[p].bstime + 1, clock := procs[p].clock + 1);
        }
        p := p + 1;
      }
      assert procs[..] == UpdateClock(old(Abs())).procs;
      assert forall k :: 0 <= k < NUMFILAS ==> Queue(k) == old(Queue(k));
    }

    /** auxTrocarFilaPriority: find p by pid in the queue below, close the gap, and
        append p to the new queue. */
    method AuxTrocarFila(p: int, nova: int, ghost q: seq<int>, ghost at: nat)
      requires Valid() && 0 <= p < NPROC && 1 <= nova < NUMFILAS && count[nova] < NPROC
      requires q == Queue(nova - 1) && at < |q| && q[at] == p
      requires forall i :: 0 <= i < |q| ==> 0 <= q[i] < NPROC && (procs[q[i]].pid == procs[p].pid ==> i == at)
      modifies procs, slots, count
      ensures Valid()
      ensures var t := old(Abs());
              Abs() == Table(t.procs[p := t.procs[p].(readyTimeAging := 0)],
                             t.queues[nova - 1 := RemoveAt(t.queues[nova - 1], at)][nova := t.queues[nova] + [p]],
                             t.nextpid)
    {
      var antiga := nova - 1;
      var pos := 0;
      var i := 0;
      while i < count[antiga]
        invariant 0 <= i <= count[antiga]
        invariant pos == if i <= at then 0 else at
      {
        assert q[i] == slots[antiga, i];
        if procs[p].pid == procs[slots[antiga, i]].pid {
          pos := i;
        }
        i := i + 1;
      }
      Close(antiga, pos);
      Append(nova, p);
      Store(p, procs[p].(readyTimeAging := 0));
    }

    /** One promotion by upgradePriority_Aging. */
    method Upgrade(p: int)
      requires Valid() && Agree(Abs()) && PidsUnique(Abs().procs) && 0 <= p < NPROC
      requires procs[p].state == RUNNABLE && procs[p].priority < 3 && procs[p].pid > 0
      modifies procs, slots, count
      ensures Valid() && p in old(Abs()).queues[old(procs[p]).priority]
      ensures Abs() == Promote(old(Abs()), p, IndexOf(old(Abs()).queues[old(procs[p]).priority], p))
    {
      hide Abs, Queue, Agree, PidsUnique, IndexOf;
      ghost var t := Abs();
      var k := procs[p].priority;
      UpgradeReady(t, p);
      ghost var at := IndexOf(t.queues[k], p);
      Store(p, procs[p].(priority := k + 1));
      AuxTrocarFila(p, k + 1, t.queues[k], at);
    }

    /** The body of upgradePriority_Aging's loop. */
    method AgeSlot(p: int)
      requires Valid() && Agree(Abs()) && PidsUnique(Abs().procs) && 0 <= p < NPROC
      requires procs[p].state == RUNNABLE ==> procs[p].pid > 0
      modifies procs, slots, count
      ensures Valid() && Abs() == AgeOne(old(Abs()), p)
    {
      if procs[p].state == RUNNABLE && procs[p].priority == 0 && procs[p].readyTimeAging >= T01 {
        Upgrade(p);
      } else if procs[p].state == RUNNABLE && procs[p].priority == 1 && procs[p].readyTimeAging >= T12 {
        Upgrade(p);
      } else if procs[p].state == RUNNABLE && procs[p].priority == 2 && procs[p].readyTimeAging >= T23 {
        Upgrade(p);
      }
    }

    method UpgradePriorityAging()
      requires Valid() && Agree(Abs()) && ProcsOk(Abs(), ClockDone)
      modifies procs, slots, count
      ensures Valid() && Abs() == AgeUpTo(old(Abs()), NPROC)
      ensures forall p :: 0 <= p < NPROC ==>
                var o := old(procs[p]);
                procs[p] == if o.state == RUNNABLE && (|| (o.priority == 0 && o.readyTimeAging >= 200)
                                                       || (o.priority == 1 && o.readyTimeAging >= 150)
                                                       || (o.priority == 2 && o.readyTimeAging >= 100))
                            then o.(priority := o.priority + 1, readyTimeAging := 0) else o
    {
      hide AgeOne, QueueOk;
      ghost var t := Abs();
      var p := 0;
      while p < NPROC
        invariant 0 <= p <= NPROC && Valid()
        invariant Abs() == AgeUpTo(t, p)
      {
        AgreeAgeUpTo(t, p);
        AgeKeepsPids(t, p);
        AgeSlot(p);
        p := p + 1;
      }
      AgreeAgeUpTo(t, NPROC);
    }

    method ShortestBurst() returns (pos: nat)
      requires Valid() && forall i :: 0 <= i < count[2] ==> 0 <= slots[2, i] < NPROC
      ensures pos == ShortestUpTo(procs[..], Queue(2), count[2]).0
    {
      var shortest := 10000;
      pos := 0;
      var i := 0;
      while i < count[2]
        invariant 0 <= i <= count[2]
        invariant (pos, shortest) == ShortestUpTo(procs[..], Queue(2), i)
      {
        var p := slots[2, i];
        assert Queue(2)[i] == p;
        if procs[p].estimatedburst < shortest {
          shortest := procs[p].estimatedburst;
          pos := i;
        }
        i := i + 1;
      }
    }

    method LoteriaTotal() returns (total: int)
      requires Valid() && QueueOk(procs[..], 0, Queue(0))
      ensures total == TicketSum(procs[..], Queue(0), count[0])
    {
      total := 0;
      var i := 0;
      while i < count[0]
        invariant 0 <= i <= count[0]
        invariant total == TicketSum(procs[..], Queue(0), i)
      {
        var p := slots[0, i];
        assert Queue(0)[i] == p;
        if procs[p].state == RUNNABLE {
          total := total + procs[p].tickets;
        }
        i := i + 1;
      }
    }

    /** The scan for the golden ticket. */
    method LotteryScan(golden: int) returns (aux: nat)
      requires Valid() && QueueOk(procs[..], 0, Queue(0))
      ensures aux == LotteryFrom(procs[..], Queue(0), golden, 0)
    {
      var sum := 0;
      aux := 0;
      while aux < count[0]
        invariant 0 <= aux <= count[0]
        invariant sum == TicketSum(procs[..], Queue(0), aux)
        invariant LotteryFrom(procs[..], Queue(0), golden, 0) == LotteryFrom(procs[..], Queue(0), golden, aux)
      {
        var p := slots[0, aux];
        assert Queue(0)[aux] == p;
        if sum + procs[p].tickets < golden {
          sum := sum + procs[p].tickets;
          aux := aux + 1;
          continue;
        }
        break;
      }
    }

    /** scheduler, from acquiring the lock to switching to the process. The
        parameter is the counter that the lottery branch decrements: 0 is what the
        documentation describes, 2 is what the line says. */
    method Schedule(lotteryCounter: int, random: nat, ghost phase: Phase) returns (p: int)
      requires Valid() && Agree(Abs()) && ProcsOk(Abs(), phase)
      requires lotteryCounter == 0 || lotteryCounter == 2
      modifies procs, slots, count
      ensures forall k, i :: 0 <= k < NUMFILAS && 0 <= i < |old(Abs()).queues[k]| ==> 0 <= old(Abs()).queues[k][i] < NPROC
      ensures Switched(old(Abs()), random, lotteryCounter, p)
      ensures p == -1 <==> forall k :: 0 <= k < NUMFILAS ==> old(count[k]) == 0
      ensures old(count[3]) > 0 ==> p == old(slots[3, 0])
      ensures old(count[3]) == 0 && old(count[2]) > 0 ==> TakesJob(old(procs[..]), old(Abs()).queues[2], p)
      ensures old(count[3]) == 0 && old(count[2]) == 0 && old(count[1]) > 0 ==> p == old(slots[1, 0])
      ensures old(count[3]) == 0 && old(count[2]) == 0 && old(count[1]) == 0 && old(count[0]) > 0 ==>
                TakesWinner(old(procs[..]), old(Abs()).queues[0], random, p)
      ensures p == -1 ==> Valid() && Abs() == old(Abs())
      ensures p != -1 ==>
                0 <= p < NPROC && procs[..] == old(procs[..])[p := old(procs[p]).(state := RUNNING, clock := 0, readyTimeAging := 0)]
      ensures p != -1 && (lotteryCounter == 0 || old(count[1]) + old(count[2]) + old(count[3]) > 0) ==>
                Valid() && forall k :: 0 <= k < NUMFILAS ==> Without(old(Abs()).queues[k], Queue(k), p)
    {
      hide Choose, Agree, ProcsOk, RemoveAt, ClosedNotCounted, JobToTake, WinsDraw, Abs, Queue, TicketSum, Take, Without;
      ghost var t := Abs();
      ChooseMeaning(t, phase, random);
      p := Switch(lotteryCounter, random, phase);
      if p != -1 {
        TakeMeans(t, Choose(t, random).k, Choose(t, random).i);
      }
    }

    /** What the dispatch leaves, in terms of the choice. */
    ghost predicate Switched(t: Table, random: nat, lotteryCounter: int, p: int)
      requires Shape(t) && procs.Length == NPROC && slots.Length0 == NUMFILAS && slots.Length1 == NPROC && count.Length == NUMFILAS
      requires forall k, i :: 0 <= k < NUMFILAS && 0 <= i < |t.queues[k]| ==> 0 <= t.queues[k][i] < NPROC
      reads this, procs, slots, count
    {
      match Choose(t, random)
      case Nothing => p == -1 && Valid() && Abs() == t
      case Pick(k, i) =>
        && 0 <= k < NUMFILAS && i < |t.queues[k]| && p == t.queues[k][i]
        && (k != 0 || lotteryCounter == 0 ==> Valid() && Abs() == Take(t, k, i))
        && (k == 0 && lotteryCounter == 2 ==>
              && count[2] == -1 && count[0] == |t.queues[0]| && procs[..] == Take(t, k, i).procs
              && forall m :: 0 <= m < count[0] && m < NPROC ==> slots[0, m] == ClosedNotCounted(t.queues[0], i)[m])
    }

    method Switch(lotteryCounter: int, random: nat, ghost phase: Phase) returns (p: int)
      requires Valid() && Agree(Abs()) && ProcsOk(Abs(), phase)
      requires lotteryCounter == 0 || lotteryCounter == 2
      modifies procs, slots, count
      ensures forall k, i :: 0 <= k < NUMFILAS && 0 <= i < |old(Abs()).queues[k]| ==> 0 <= old(Abs()).queues[k][i] < NPROC
      ensures Switched(old(Abs()), random, lotteryCounter, p)
    {
      hide Choose, Agree, ProcsOk, RemoveAt, ClosedNotCounted;
      var k, i := Select(random, phase);
      if k == -1 {
        return -1;
      }
      p := slots[k, i];
      if k != 0 || lotteryCounter == 0 {
        TakeFrom(k, i);
      } else {
        TakeUncounted(i);
      }
    }

    /** The queue and the position the scheduler settles on, or -1. */
    method Select(random: nat, ghost phase: Phase) returns (k: int, i: nat)
      requires Valid() && Agree(Abs()) && ProcsOk(Abs(), phase)
      ensures forall k, i :: 0 <= k < NUMFILAS && 0 <= i < |Abs().queues[k]| ==> 0 <= Abs().queues[k][i] < NPROC
      ensures k == -1 ==> Choose(Abs(), random).Nothing?
      ensures k != -1 ==> 0 <= k < NUMFILAS && i < count[k] && Choose(Abs(), random) == Pick(k, i)
      ensures k != -1 ==> slots[k, i] == Abs().queues[k][i]
      ensures k == 0 ==> count[2] == 0
    {
      hide TicketSum, LotteryFrom, ShortestUpTo, ProcsOk;
      ghost var t := Abs();
      ChooseFinds(t, phase, random);
      if count[3] > 0 {
        k, i := 3, 0;
      } else if count[2] > 0 {
        assert QueueOk(t.procs, 2, t.queues[2]);
        i := ShortestBurst();
        k := 2;
      } else if count[1] > 0 {
        k, i := 1, 0;
      } else if count[0] > 0 {
        assert QueueOk(t.procs, 0, t.queues[0]);
        LotteryFinds(t, phase, random);
        var total := LoteriaTotal();
        i := LotteryScan(random % (total + 1));
        k := 0;
      } else {
        k, i := -1, 0;
      }
    }

    /** Take the process at position i of queue k: reset its clocks, close the gap,
        lower the count, mark it running. */
    method TakeFrom(k: int, i: nat)
      requires Valid() && 0 <= k < NUMFILAS && i < count[k] && 0 <= slots[k, i] < NPROC
      modifies procs, slots, count
      ensures Valid() && Abs() == Take(old(Abs()), k, i)
    {
      var p := slots[k, i];
      Store(p, procs[p].(clock := 0, readyTimeAging := 0));
      Close(k, i);
      Store(p, procs[p].(state := RUNNING));
    }

    /** The same for queue 0 with the decrement as written. */
    method TakeUncounted(i: nat)
      requires Valid() && i < count[0] && 0 <= slots[0, i] < NPROC && count[2] == 0
      modifies procs, slots, count
      ensures count[..] == CountsAsWritten(old(Abs()))
      ensures procs[..] == Take(old(Abs()), 0, i).procs
      ensures forall m :: 0 <= m < count[0] ==> slots[0, m] == ClosedNotCounted(old(Abs()).queues[0], i)[m]
    {
      hide Abs, Queue, ClosedNotCounted;
      var p := slots[0, i];
      Store(p, procs[p].(clock := 0, readyTimeAging := 0));
      Shift(0, i);
      count[2] := count[2] - 1;
      procs[p] := procs[p].(state := RUNNING);
      ghost var q := old(Abs()).queues[0];
      forall m | 0 <= m < count[0] ensures slots[0, m] == ClosedNotCounted(q, i)[m] {
        ClosedAt(q, i, m);
        assert q[m] == old(slots[0, m]);
        if m < count[0] - 1 { assert q[m + 1] == old(slots[0, m + 1]); }
      }
    }

    /** allocproc's locked section: the slot found, or NPROC. */
    method AllocProc() returns (p: nat)
      requires Valid()
      modifies this`nextpid, procs
      ensures Valid() && Abs() == AllocOne(old(Abs()))
      ensures p == FirstUnused(old(Abs()).procs, 0)
      ensures p <= NPROC && (forall x :: 0 <= x < p ==> old(procs[x]).state != UNUSED)
      ensures p == NPROC ==> procs[..] == old(procs[..]) && nextpid == old(nextpid)
      ensures p < NPROC ==>
                && old(procs[p]).state == UNUSED && nextpid == old(nextpid) + 1
                && procs[..] == old(procs[..])[p := old(procs[p]).(state := EMBRYO, pid := old(nextpid), tickets := 10, estimatedburst := 2,
                                                                   previousburst := 0, bstime := 0, readyTimeAging := 0)]
    {
      p := 0;
      while p < NPROC && procs[p].state != UNUSED
        invariant 0 <= p <= NPROC
        invariant FirstUnused(procs[..], 0) == FirstUnused(procs[..], p)
      {
        p := p + 1;
      }
      if p < NPROC {
        ghost var t := Abs();
        var pid := nextpid;
        nextpid := nextpid + 1;
        assert forall k :: 0 <= k < NUMFILAS ==> Queue(k) == old(Queue(k));
        assert Abs() == t.(nextpid := t.nextpid + 1);
        Store(p, procs[p].(state := EMBRYO, pid := pid, tickets := 10, estimatedburst := 2,
                           previousburst := 0, bstime := 0, readyTimeAging := 0));
      }
    }

    /** exit's locked section: wake the parent, hand the children to init, become a
        zombie. */
    method ExitProc(p: int, init: int)
      requires Valid() && Agree(Abs()) && 0 <= p < NPROC && procs[p].state == RUNNING
      modifies procs, slots, count
      ensures Valid() && Abs() == ExitOf(old(Abs()), p, init)
      ensures procs[p].state == ZOMBIE
      ensures forall x :: 0 <= x < NPROC ==>
                procs[x] == old(procs[x]).(state := procs[x].state, parent := if old(procs[x]).parent == p then init else old(procs[x]).parent)
      ensures var orphans := exists z :: 0 <= z < NPROC && ZombieOf(old(procs[z]), p);
              forall x :: 0 <= x < NPROC && x != p ==>
                var o := old(procs[x]);
                procs[x].state == if o.state == SLEEPING && (o.chan == ProcChan(old(procs[p]).parent) || (o.chan == ProcChan(init) && orphans))
                                  then RUNNABLE else o.state
    {
      hide Abs, Queue, Agree, ExitOf;
      ghost var t := Abs();
      ExitSection(p, init);
      forall x | 0 <= x < NPROC ensures procs[x] == AfterExit(t.procs, p, init, x) {
        ExitEffect(t, p, init, x);
      }
    }

    /** Its loop and the calls of wakeup1. */
    method ExitSection(p: int, init: int)
      requires Valid() && Agree(Abs()) && 0 <= p < NPROC && procs[p].state == RUNNING
      modifies procs, slots, count
      ensures Valid() && Abs() == ExitOf(old(Abs()), p, init)
    {
      hide QueueOk, WakeUpTo;
      WakeupOnlyWakes(Abs(), ProcChan(procs[p].parent));
      Wakeup1(ProcChan(procs[p].parent));
      ghost var t := Abs();
      var x := 0;
      while x < NPROC
        invariant 0 <= x <= NPROC && Valid() && Agree(Abs())
        invariant Abs() == ReparentUpTo(t, p, init, x)
      {
        if procs[x].parent == p {
          AgreeSameKey(Abs(), x, procs[x].(parent := init));
          Store(x, procs[x].(parent := init));
          if procs[x].state == ZOMBIE {
            Wakeup1(ProcChan(init));
          }
        }
        x := x + 1;
      }
      Store(p, procs[p].(state := ZOMBIE));
    }

    /** sleep's locked section. */
    method SleepOn(p: int, chan: int)
      requires Valid() && 0 <= p < NPROC
      modifies procs
      ensures Valid() && Abs() == SetProc(old(Abs()), p, AsleepOn(old(procs[p]), chan))
      ensures var o := old(procs[p]);
              procs[..] == old(procs[..])[p := o.(state := SLEEPING, chan := chan, previousburst := o.bstime,
                                                  estimatedburst := (o.estimatedburst + o.bstime) / 2, bstime := 0)]
    {
      var burst := procs[p].bstime;
      Store(p, procs[p].(previousburst := burst, estimatedburst := (procs[p].estimatedburst + burst) / 2));
      Store(p, procs[p].(chan := chan, state := SLEEPING, bstime := 0));
    }

    /** One pass of wait's loop: the first zombie child in the table is freed and its pid
        returned; without children, or killed, the call is refused; otherwise the caller
        sleeps on its own address. */
    method WaitOnce(cur: int) returns (r: WaitResult)
      requires Valid() && 0 <= cur < NPROC
      modifies procs
      ensures Valid() && Abs().queues == old(Abs()).queues && nextpid == old(nextpid)
      ensures r.Reaped? <==> HasZombie(old(Abs()), cur)
      ensures r.Reaped? ==> exists z ::
                && 0 <= z < NPROC && ZombieOf(old(procs[z]), cur) && r.pid == old(procs[z]).pid
                && (forall x :: 0 <= x < z ==> !ZombieOf(old(procs[x]), cur))
                && procs[..] == old(procs[..])[z := old(procs[z]).(state := UNUSED, pid := 0, parent := -1, killed := false)]
      ensures r.Denied? <==> !HasZombie(old(Abs()), cur) && (old(procs[cur]).killed || !HasChild(old(Abs()), cur))
      ensures r.Denied? ==> procs[..] == old(procs[..])
      ensures r.Waits? ==> procs[..] == old(procs[..])[cur := AsleepOn(old(procs[cur]), ProcChan(cur))]
    {
      var havekids := false;
      var x := 0;
      while x < NPROC
        invariant 0 <= x <= NPROC && Valid() && procs[..] == old(procs[..]) && Abs() == old(Abs())
        invariant forall z :: 0 <= z < x ==> !ZombieOf(procs[z], cur)
        invariant havekids <==> exists z :: 0 <= z < x && procs[z].parent == cur
      {
        if procs[x].parent == cur {
          havekids := true;
          if procs[x].state == ZOMBIE {
            var pid := procs[x].pid;
            assert ZombieOf(old(procs[x]), cur) && old(Abs()).procs[x] == old(procs[x]);
            Store(x, procs[x].(pid := 0, parent := -1, killed := false, state := UNUSED));
            return Reaped(pid);
          }
        }
        x := x + 1;
      }
      assert forall z :: 0 <= z < NPROC ==> old(Abs()).procs[z] == procs[z];
      if !havekids || procs[cur].killed {
        return Denied;
      }
      SleepOn(cur, ProcChan(cur));
      r := Waits;
    }

    method Random() returns (r: int)
      requires 0 <= next <= 9999
      modifies this`next
      ensures r == next == RandomNext(old(next)) && 0 <= next <= 9999
      ensures next == (old(next) * old(next) / 100) % 10000
    {
      next := ((next * next) / 100) % 10000;
      r := next;
    }
  }

  /** Of a queue of jobs p is the one to take. */
  ghost predicate TakesJob(procs: seq<Proc>, q: seq<int>, p: int) {
    && (forall j :: 0 <= j < |q| ==> 0 <= q[j] < |procs|)
    && exists i: nat :: JobToTake(procs, q, i) && p == q[i]
  }

  /** Of a queue with tickets p wins the draw. */
  ghost predicate TakesWinner(procs: seq<Proc>, q: seq<int>, random: nat, p: int) {
    && (forall j :: 0 <= j < |q| ==> 0 <= q[j] < |procs|)
    && var total := TicketSum(procs, q, |q|);
    && 0 <= total && exists i: nat :: WinsDraw(procs, q, random % (total + 1), i) && p == q[i]
  }

  /** b is a without p. */
  ghost predicate Without(a: seq<int>, b: seq<int>, p: int) {
    if p in a then exists i: nat :: i < |a| && a[i] == p && b == a[..i] + a[i + 1..] else b == a
  }

  lemma TakeMeans(t: Table, k: int, i: nat)
    requires Agree(t) && 0 <= k < NUMFILAS && i < |t.queues[k]|
    ensures var p := t.queues[k][i];
            && 0 <= p < NPROC
            && Take(t, k, i).procs == t.procs[p := t.procs[p].(state := RUNNING, clock := 0, readyTimeAging := 0)]
            && forall j :: 0 <= j < NUMFILAS ==> Without(t.queues[j], Take(t, k, i).queues[j], p)
  {
    forall j | 0 <= j < NUMFILAS ensures QueueOk(t.procs, j, t.queues[j]) {
    }
  }

  /** What a promotion finds: the process is in the queue below, alone with its pid, and
      the queue above has room. */
  lemma UpgradeReady(t: Table, p: int)
    requires Agree(t) && PidsUnique(t.procs) && 0 <= p < NPROC
    requires t.procs[p].state == RUNNABLE && t.procs[p].priority < 3 && t.procs[p].pid > 0
    ensures var k := t.procs[p].priority;
            && 0 <= k && p in t.queues[k] && |t.queues[k + 1]| < NPROC
            && forall i :: 0 <= i < |t.queues[k]| ==>
                 0 <= t.queues[k][i] < NPROC &&
                 (t.procs[t.queues[k][i]].pid == t.procs[p].pid ==> i == IndexOf(t.queues[k], p))
  {
    hide IndexOf;
    QueuesFit(t);
    assert QueueOk(t.procs, t.procs[p].priority, t.queues[t.procs[p].priority]);
  }

  // ----- the lottery branch as it is written -----

  /** The first |q| slots after the gap at i is closed but the count is not
      lowered: the last entry is still counted. */
  function ClosedNotCounted(q: seq<int>, i: nat): (r: seq<int>)
    requires i < |q|
    ensures |r| == |q|
  {
    RemoveAt(q, i) + [q[|q| - 1]]
  }

  lemma ClosedAt(q: seq<int>, i: nat, m: nat)
    requires i < |q| && m < |q|
    ensures ClosedNotCounted(q, i)[m] == if i <= m < |q| - 1 then q[m + 1] else q[m]
  {
  }

  /** The counters after the lottery branch as written: that of queue 2 is lowered
      instead of that of queue 0. */
  function CountsAsWritten(t: Table): seq<int>
    requires |t.queues| == NUMFILAS
  {
    [|t.queues[0]|, |t.queues[1]|, |t.queues[2]| - 1, |t.queues[3]|]
  }

  /** Where queue_ready[k][i] lies, counted in entries from the start of the array. */
  function Flat(k: int, i: int): int {
    k * NPROC + i
  }

  /** The table after the lottery branch as written, with queue 0 as far as it is then
      counted. The counter of queue 2, which is empty there, becomes -1. */
  function TakeAsWritten(t: Table, i: nat): Table
    requires |t.queues| == NUMFILAS && i < |t.queues[0]| && 0 <= t.queues[0][i] < |t.procs|
  {
    Take(t, 0, i).(queues := t.queues[0 := ClosedNotCounted(t.queues[0], i)])
  }

  function DispatchAsWritten(t: Table, random: nat): Table
    requires |t.queues| == NUMFILAS
    requires forall k, i :: 0 <= k < NUMFILAS && 0 <= i < |t.queues[k]| ==> 0 <= t.queues[k][i] < |t.procs|
  {
    match Choose(t, random)
    case Nothing => t
    case Pick(k, i) =>
      if k == 0 && i < |t.queues[0]| then TakeAsWritten(t, i)
      else if 0 <= k < NUMFILAS && i < |t.queues[k]| then Take(t, k, i) else t
  }

  /** From every agreeing state, closing the gap without lowering the counter of
      queue 0 leads to a state that does not agree: either the process that now
      runs is still counted, or the last one is counted twice. */
  lemma LotteryAsWrittenDisagrees(t: Table, i: nat)
    requires Agree(t) && i < |t.queues[0]|
    ensures 0 <= t.queues[0][i] < NPROC && !Agree(TakeAsWritten(t, i))
  {
    var q := t.queues[0];
    assert QueueOk(t.procs, 0, q);
    var t' := TakeAsWritten(t, i);
    var q' := ClosedNotCounted(q, i);
    if i == |q| - 1 {
      assert q'[|q| - 1] == q[i];
    } else {
      assert q'[|q| - 2] == q'[|q| - 1];
    }
    assert !QueueOk(t'.procs, 0, t'.queues[0]);
  }

  /** The dispatch as written keeps the queues in agreement exactly when it does
      not come to the lottery. */
  lemma DispatchAsWrittenIff(t: Table, phase: Phase, random: nat)
    requires Agree(t) && ProcsOk(t, phase)
    ensures forall k, i :: 0 <= k < NUMFILAS && 0 <= i < |t.queues[k]| ==> 0 <= t.queues[k][i] < |t.procs|
    ensures Agree(DispatchAsWritten(t, random)) <==>
            !(t.queues[3] == [] && t.queues[2] == [] && t.queues[1] == [] && t.queues[0] != [])
    ensures !Agree(DispatchAsWritten(t, random)) ==>
              CountsAsWritten(t)[2] == -1 && Flat(2, CountsAsWritten(t)[2]) == Flat(1, NPROC - 1)
  {
    ChooseFinds(t, phase, random);
    match Choose(t, random)
    case Nothing =>
    case Pick(k, i) =>
      if k == 0 {
        LotteryAsWrittenDisagrees(t, i);
      } else {
        AgreeTake(t, k, i);
      }
  }

  lemma AgeKeepsPids(t: Table, n: nat)
    requires Agree(t) && ProcsOk(t, ClockDone) && n <= NPROC
    ensures PidsUnique(AgeUpTo(t, n).procs)
    ensures forall p :: 0 <= p < NPROC && AgeUpTo(t, n).procs[p].state == RUNNABLE ==> AgeUpTo(t, n).procs[p].pid > 0
  {
    AgreeAgeUpTo(t, n);
    forall p | 0 <= p < NPROC
      ensures AgeUpTo(t, n).procs[p].pid == t.procs[p].pid && AgeUpTo(t, n).procs[p].state == t.procs[p].state
    {
    }
  }
}
