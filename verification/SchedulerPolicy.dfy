/** What the lottery, the shortest-job rule and the random number generator do. */
module SchedulerPolicy {
  import opened Scheduler

  lemma {:induction false} TicketSumMonotone(procs: seq<Proc>, q: seq<int>, i: nat, j: nat)
    requires TicketsOk(procs, q) && i <= j <= |q|
    ensures TicketSum(procs, q, i) <= TicketSum(procs, q, j)
  {
    if i < j {
      TicketSumMonotone(procs, q, i, j - 1);
    }
  }

  /** Every draw from 0 to the total selects a process of the queue, and position
      j wins exactly the draws above the tickets before it and up to its own. */
  lemma LotteryWinner(procs: seq<Proc>, q: seq<int>, golden: int, j: nat)
    requires TicketsOk(procs, q) && q != [] && 0 <= golden <= TicketSum(procs, q, |q|) && j < |q|
    ensures LotteryFrom(procs, q, golden, 0) < |q|
    ensures LotteryFrom(procs, q, golden, 0) == j <==>
            (j == 0 || TicketSum(procs, q, j) < golden) && golden <= TicketSum(procs, q, j + 1)
  {
    var r := LotteryFrom(procs, q, golden, 0);
    if j < r {
      assert TicketSum(procs, q, j + 1) < golden;
    } else if r < j {
      TicketSumMonotone(procs, q, r + 1, j);
    }
  }

  ghost function Interval(lo: int, hi: int): (s: set<int>)
    requires lo <= hi + 1
    ensures |s| == hi + 1 - lo && forall x :: x in s <==> lo <= x <= hi
    decreases hi + 1 - lo
  {
    if hi < lo then {} else Interval(lo, hi - 1) + {hi}
  }

  /** The draws that position j wins. */
  ghost function Wins(procs: seq<Proc>, q: seq<int>, j: nat): set<int>
    requires TicketsOk(procs, q) && 0 <= TicketSum(procs, q, |q|)
  {
    set g | g in Interval(0, TicketSum(procs, q, |q|)) && LotteryFrom(procs, q, g, 0) == j
  }

  /** Of the total + 1 possible draws the head of the queue owns one more than its
      tickets and every other process exactly its tickets. */
  lemma LotteryShares(procs: seq<Proc>, q: seq<int>, j: nat)
    requires TicketsOk(procs, q) && j < |q|
    ensures 0 <= TicketSum(procs, q, |q|)
    ensures |Wins(procs, q, j)| == procs[q[j]].tickets + if j == 0 then 1 else 0
  {
    TicketSumMonotone(procs, q, 0, |q|);
    TicketSumMonotone(procs, q, 0, j);
    TicketSumMonotone(procs, q, j + 1, |q|);
    var total := TicketSum(procs, q, |q|);
    var lo := if j == 0 then 0 else TicketSum(procs, q, j) + 1;
    var own := Interval(lo, TicketSum(procs, q, j + 1));
    forall g ensures g in Wins(procs, q, j) <==> g in own {
      if 0 <= g <= total {
        LotteryWinner(procs, q, g, j);
      }
    }
    assert Wins(procs, q, j) == own;
  }

  // ----- shortest job first -----

  ghost predicate Shortest(procs: seq<Proc>, q: seq<int>, n: nat, i: nat)
    requires i < n <= |q| && forall j :: 0 <= j < |q| ==> 0 <= q[j] < |procs|
  {
    forall j :: 0 <= j < n ==> procs[q[i]].estimatedburst <= procs[q[j]].estimatedburst
  }

  lemma {:induction false} ShortestUpToMeaning(procs: seq<Proc>, q: seq<int>, n: nat)
    requires n <= |q| && forall j :: 0 <= j < |q| ==> 0 <= q[j] < |procs|
    ensures var (i, least) := ShortestUpTo(procs, q, n);
            && (forall j :: 0 <= j < n ==> least <= procs[q[j]].estimatedburst || least == 10000)
            && (least == 10000 ==> i == 0 && forall j :: 0 <= j < n ==> 10000 <= procs[q[j]].estimatedburst)
            && (least < 10000 ==> i < n && procs[q[i]].estimatedburst == least
                                  && forall j :: 0 <= j < i ==> least < procs[q[j]].estimatedburst)
  {
    if n > 0 {
      ShortestUpToMeaning(procs, q, n - 1);
    }
  }

  /** The process taken from the SJF queue has the least estimated burst exactly
      when some estimate is below the starting value 10000, or the head happens to
      have the least one. */
  lemma ShortestJobIff(procs: seq<Proc>, q: seq<int>)
    requires q != [] && forall j :: 0 <= j < |q| ==> 0 <= q[j] < |procs|
    ensures Shortest(procs, q, |q|, ShortestUpTo(procs, q, |q|).0) <==>
            (exists j :: 0 <= j < |q| && procs[q[j]].estimatedburst < 10000) || Shortest(procs, q, |q|, 0)
  {
    ShortestUpToMeaning(procs, q, |q|);
  }

  /** The job at position i is the one to take: the first of least estimate, when some
      estimate is below 10000, and otherwise the head. */
  ghost predicate JobToTake(procs: seq<Proc>, q: seq<int>, i: nat)
    requires forall j :: 0 <= j < |q| ==> 0 <= q[j] < |procs|
    ensures JobToTake(procs, q, i) ==> i < |q|
  {
    && i < |q|
    && if exists j :: 0 <= j < |q| && procs[q[j]].estimatedburst < 10000 then
         && Shortest(procs, q, |q|, i)
         && forall j :: 0 <= j < i ==> procs[q[i]].estimatedburst < procs[q[j]].estimatedburst
       else i == 0
  }

  lemma ShortestIsJobToTake(procs: seq<Proc>, q: seq<int>)
    requires q != [] && forall j :: 0 <= j < |q| ==> 0 <= q[j] < |procs|
    ensures JobToTake(procs, q, ShortestUpTo(procs, q, |q|).0)
  {
    ShortestUpToMeaning(procs, q, |q|);
  }

  /** The process at position i wins the draw: its tickets and those before it reach it,
      and those before it do not, unless there are none. */
  ghost predicate WinsDraw(procs: seq<Proc>, q: seq<int>, golden: int, i: nat)
    requires forall j :: 0 <= j < |q| ==> 0 <= q[j] < |procs|
    ensures WinsDraw(procs, q, golden, i) ==> i < |q|
  {
    i < |q| && (i == 0 || TicketSum(procs, q, i) < golden) && golden <= TicketSum(procs, q, i + 1)
  }

  // ----- the generator -----

  const INT_MAX: int := 0x7fff_ffff

  /** One call of Random on the static variable: the middle digits of its square. */
  function RandomNext(next: int): int {
    Middle(next * next)
  }

  function Middle(square: int): int {
    (square / 100) % 10000
  }

  function RandomAt(n: nat): int {
    if n == 0 then 3251 else RandomNext(RandomAt(n - 1))
  }

  lemma {:induction false} TimesAtMost(x: nat, y: nat, z: nat)
    requires x <= y
    ensures 0 <= x * z <= y * z
  {
    if z > 0 {
      TimesAtMost(x, y, z - 1);
    }
  }

  /** Random stays between 0 and 9999 for ever, and its square never overflows. */
  lemma RandomInRange(n: nat)
    ensures 0 <= RandomAt(n) <= 9999
    ensures 0 <= RandomAt(n) * RandomAt(n) <= INT_MAX
  {
    TimesAtMost(RandomAt(n), 9999, RandomAt(n));
  }
}
