/** How large a per-call budget the log supports, exactly.

    begin_op admits calls as if each could log MAXOPBLOCKS blocks, but log_write
    stops one block earlier than the admission rule allows when the log is the
    size mkfs makes it, and it reads lh.n before taking the lock. */
module LogBudget {
  import opened BlockDisk
  import opened LogRecovery
  import opened LogSystem

  /** An idle system just after recovery. */
  function Ready(d: Disk): Sys {
    Sys(Up, d, map[], [], [], false, [], 0)
  }

  lemma {:induction false} RunConcat(g: Geometry, budget: nat, s: Sys, a: seq<Event>, b: seq<Event>)
    requires g.Valid() && IsRun(g, budget, s, a) && IsRun(g, budget, After(g, budget, s, a), b)
    ensures IsRun(g, budget, s, a + b)
    ensures After(g, budget, s, a + b) == After(g, budget, After(g, budget, s, a), b)
    decreases |a|
  {
    if a == [] {
      assert a + b == b;
    } else {
      assert (a + b)[1..] == a[1..] + b;
      RunConcat(g, budget, Next(g, s, a[0]), a[1..], b);
    }
  }

  lemma RunOne(g: Geometry, budget: nat, s: Sys, e: Event)
    requires g.Valid() && Enabled(g, s, e) && WithinBudget(budget, s, e)
    ensures IsRun(g, budget, s, [e]) && After(g, budget, s, [e]) == Next(g, s, e)
  {
    assert [e][1..] == [];
  }

  lemma RunSnoc(g: Geometry, budget: nat, s: Sys, a: seq<Event>, e: Event)
    requires g.Valid() && IsRun(g, budget, s, a)
    requires Enabled(g, After(g, budget, s, a), e) && WithinBudget(budget, After(g, budget, s, a), e)
    ensures IsRun(g, budget, s, a + [e])
    ensures After(g, budget, s, a + [e]) == Next(g, After(g, budget, s, a), e)
  {
    RunOne(g, budget, After(g, budget, s, a), e);
    RunConcat(g, budget, s, a, [e]);
  }

  ghost predicate Shaped(s: Sys, open: seq<Op>, n: nat) {
    s.mode == Up && !s.committing && s.open == open && |s.blocks| == n
  }

  /** Blocks first .. first + n - 1 are logged and no others. */
  ghost predicate Logged(s: Sys, first: int) {
    forall k :: 0 <= k < |s.blocks| ==> s.blocks[k] == first + k
  }

  /** One more call of log_write by call i, on a block not yet logged. */
  lemma LogFresh(g: Geometry, budget: nat, s: Sys, a: seq<Event>, i: nat, open: seq<Op>, n: nat) returns (es: seq<Event>)
    requires g.Valid() && g.start + g.size + 30 <= g.total && IsRun(g, budget, s, a)
    requires Shaped(After(g, budget, s, a), open, n) && Logged(After(g, budget, s, a), g.start + g.size)
    requires i < |open| && open[i].used < budget && n < Capacity(g)
    ensures IsRun(g, budget, s, es)
    ensures Shaped(After(g, budget, s, es), open[i := Op(open[i].used + 1, false)], n + 1)
    ensures Logged(After(g, budget, s, es), g.start + g.size)
  {
    RunSnoc(g, budget, s, a, Check(i));
    var mid := a + [Check(i)];
    var w := LogWrite(i, g.start + g.size + n, []);
    RunSnoc(g, budget, s, mid, w);
    es := mid + [w];
  }

  /** The open calls when n blocks are logged: a long call that has logged nothing
      until the others are done, and from block 11 on a second one. */
  ghost function GrowthOps(c: nat, n: nat): seq<Op> {
    if n <= 10 then [Op(0, false)]
    else if n - 10 <= c then [Op(0, false), Op(n - 10, false)]
    else [Op(n - 10 - c, false), Op(c, false)]
  }

  lemma OneBegin(g: Geometry, budget: nat, d: Disk) returns (es: seq<Event>)
    requires g.Valid()
    ensures IsRun(g, budget, Ready(d), es)
    ensures Shaped(After(g, budget, Ready(d), es), [Op(0, false)], 0)
  {
    RunSnoc(g, budget, Ready(d), [], Begin);
    es := [] + [Begin];
  }

  /** Beside the long call, another one begins and logs one block; up to the
      tenth block it also ends. */
  lemma GrowShort(g: Geometry, budget: nat, s: Sys, a: seq<Event>, n: nat) returns (es: seq<Event>)
    requires g.Valid() && g.start + g.size + 30 <= g.total && IsRun(g, budget, s, a)
    requires Shaped(After(g, budget, s, a), [Op(0, false)], n) && Logged(After(g, budget, s, a), g.start + g.size)
    requires 1 <= budget && n <= 10 && n < Capacity(g)
    ensures IsRun(g, budget, s, es)
    ensures Shaped(After(g, budget, s, es), if n < 10 then [Op(0, false)] else [Op(0, false), Op(1, false)], n + 1)
    ensures Logged(After(g, budget, s, es), g.start + g.size)
  {
    hide IsRun, After;
    RunSnoc(g, budget, s, a, Begin);
    es := a + [Begin];
    es := LogFresh(g, budget, s, es, 1, [Op(0, false), Op(0, false)], n);
    if n < 10 {
      RunSnoc(g, budget, s, es, End(1));
      es := es + [End(1)];
    }
  }

  /** Any number of blocks up to 10 + 2c can be logged by calls that log at most
      c (or one, for the short ones) each. */
  lemma {:induction false} Grow(g: Geometry, budget: nat, c: nat, d: Disk, n: nat) returns (es: seq<Event>)
    requires g.Valid() && g.start + g.size + 30 <= g.total
    requires 1 <= budget <= MAXOPBLOCKS && c <= budget && n <= 10 + 2 * c && n <= Capacity(g)
    ensures IsRun(g, budget, Ready(d), es)
    ensures Shaped(After(g, budget, Ready(d), es), GrowthOps(c, n), n)
    ensures Logged(After(g, budget, Ready(d), es), g.start + g.size)
    decreases n
  {
    hide IsRun, After, Next;
    if n == 0 {
      es := OneBegin(g, budget, d);
    } else {
      es := Grow(g, budget, c, d, n - 1);
      if n <= 11 {
        es := GrowShort(g, budget, Ready(d), es, n - 1);
      } else if n - 10 <= c {
        es := LogFresh(g, budget, Ready(d), es, 1, GrowthOps(c, n - 1), n - 1);
      } else {
        es := LogFresh(g, budget, Ready(d), es, 0, GrowthOps(c, n - 1), n - 1);
      }
    }
  }

  /** No run within the budget reaches a panic. */
  ghost predicate NeverPanics(g: Geometry, budget: nat, d: Disk)
    requires g.Valid()
  {
    forall es, e :: IsRun(g, budget, Ready(d), es) && Enabled(g, After(g, budget, Ready(d), es), e) ==>
                      !Panics(g, After(g, budget, Ready(d), es), e)
  }

  /** No run within the budget logs more blocks than the log region holds. */
  ghost predicate NeverOverflows(g: Geometry, budget: nat, d: Disk)
    requires g.Valid()
  {
    forall es :: IsRun(g, budget, Ready(d), es) ==> |After(g, budget, Ready(d), es).blocks| <= Capacity(g)
  }

  /** log_write never stops the kernel exactly when 10 + 2 * budget is below the
      capacity. So the documented ten blocks per call are never safe, whatever
      the size of the log, and with mkfs's log of 30 blocks nine are. */
  lemma NeverPanicsIff(g: Geometry, budget: nat, d: Disk)
    requires g.Valid() && g.start + g.size + 30 <= g.total && 1 <= budget <= MAXOPBLOCKS
    ensures NeverPanics(g, budget, d) <==> 10 + 2 * budget < Capacity(g)
  {
    if 10 + 2 * budget < Capacity(g) {
      forall es, e | IsRun(g, budget, Ready(d), es) && Enabled(g, After(g, budget, Ready(d), es), e)
        ensures !Panics(g, After(g, budget, Ready(d), es), e)
      {
        ReservationHolds(g, budget, Ready(d), es);
      }
    } else {
      var es := Grow(g, budget, budget, d, Capacity(g));
      assert Enabled(g, After(g, budget, Ready(d), es), Check(0));
      assert Panics(g, After(g, budget, Ready(d), es), Check(0));
    }
  }

  /** The log region is never overrun exactly when 10 + 2 * budget fits in it. The
      failing family: two calls pass the unlocked check when one place is left,
      and both then take the lock and add their block. */
  lemma NeverOverflowsIff(g: Geometry, budget: nat, d: Disk)
    requires g.Valid() && 2 <= g.size && g.start + g.size + 31 <= g.total && 1 <= budget <= MAXOPBLOCKS
    ensures NeverOverflows(g, budget, d) <==> 10 + 2 * budget <= Capacity(g)
  {
    if 10 + 2 * budget <= Capacity(g) {
      forall es | IsRun(g, budget, Ready(d), es)
        ensures |After(g, budget, Ready(d), es).blocks| <= Capacity(g)
      {
        ReservationHolds(g, budget, Ready(d), es);
      }
    } else {
      var es := Overrun(g, budget, d);
    }
  }

  lemma Overrun(g: Geometry, budget: nat, d: Disk) returns (es: seq<Event>)
    requires g.Valid() && 2 <= g.size && g.start + g.size + 31 <= g.total && 1 <= budget <= MAXOPBLOCKS
    requires Capacity(g) < 10 + 2 * budget
    ensures IsRun(g, budget, Ready(d), es) && |After(g, budget, Ready(d), es).blocks| == Capacity(g) + 1
  {
    var n := Capacity(g) - 1;
    es := Grow(g, budget, budget - 1, d, n);
    if n <= 10 {
      RunSnoc(g, budget, Ready(d), es, Begin);
      es := es + [Begin];
    }
    es := BothPass(g, budget, Ready(d), es, n);
  }

  lemma BothPass(g: Geometry, budget: nat, s: Sys, a: seq<Event>, n: nat) returns (es: seq<Event>)
    requires g.Valid() && g.start + g.size + 31 <= g.total && IsRun(g, budget, s, a)
    requires var t := After(g, budget, s, a);
             && Shaped(t, t.open, n) && Logged(t, g.start + g.size)
             && |t.open| == 2 && t.open[0].used < budget && t.open[1].used < budget
    requires n + 1 == Capacity(g)
    ensures IsRun(g, budget, s, es) && |After(g, budget, s, es).blocks| == n + 2
  {
    RunSnoc(g, budget, s, a, Check(0));
    es := a + [Check(0)];
    RunSnoc(g, budget, s, es, Check(1));
    es := es + [Check(1)];
    var w := LogWrite(0, g.start + g.size + n, []);
    RunSnoc(g, budget, s, es, w);
    es := es + [w];
    w := LogWrite(1, g.start + g.size + n + 1, []);
    RunSnoc(g, budget, s, es, w);
    es := es + [w];
  }
}
