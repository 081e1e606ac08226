/** Crash safety of the logging system: in every run the disk means the durable
    state, and a running system shows its calls the volatile one. */
module LogSafety {
  import opened BlockDisk
  import opened LogRecovery
  import opened LogSystem

  /** What a read through the buffer cache returns. */
  ghost predicate Shows(g: Geometry, s: Sys, d: Disk) {
    && |s.disk| == |d| == g.total
    && forall b :: g.Home(b) ==> d[b] == if b in s.cache then s.cache[b] else s.disk[b]
  }

  /** Every pinned buffer is logged and every logged block is pinned. */
  ghost predicate Pinned(s: Sys) {
    && (forall i :: 0 <= i < |s.blocks| ==> s.blocks[i] in s.cache)
    && (forall b :: b in s.cache ==> b in s.blocks)
  }

  ghost predicate Idle(g: Geometry, s: Sys, sp: Spec)
    requires WfDisk(g, s.disk)
  {
    && s.disk[g.start][0] == 0 && s.plan == []
    && ValidEntries(g, s.blocks)
    && Pinned(s)
    && Shows(g, s, sp.volatile)
    && SameHome(g, s.disk, sp.durable)
  }

  ghost predicate Committing(g: Geometry, s: Sys, sp: Spec) {
    && WfDisk(g, sp.base) && sp.base[g.start][0] == 0
    && ValidEntries(g, s.blocks)
    && Pinned(s)
    && s.plan == CommitWrites(g, sp.base[g.start], s.blocks, CacheData(s.cache, s.blocks))
    && InRange(s.plan, g.total) && s.done <= |s.plan|
    && s.disk == Apply(sp.base, s.plan[..s.done])
    && SameHome(g, sp.volatile, InstallAll(sp.base, s.blocks, CacheData(s.cache, s.blocks)))
    && SameHome(g, sp.durable, if s.done <= |s.blocks| then sp.base else sp.volatile)
  }

  ghost predicate RecoveryUnderWay(g: Geometry, s: Sys, sp: Spec) {
    && WfDisk(g, sp.base)
    && s.plan == RecoverWrites(g, sp.base)
    && InRange(s.plan, g.total) && s.done <= |s.plan|
    && s.disk == Apply(sp.base, s.plan[..s.done])
    && SameHome(g, Logical(g, sp.base), sp.durable)
    && SameHome(g, sp.volatile, sp.durable)
    && s.open == [] && s.blocks == [] && s.cache == map[] && !s.committing
  }

  ghost predicate Inv(g: Geometry, s: Sys, sp: Spec) {
    && g.Valid()
    && WfDisk(g, s.disk)
    && SameHome(g, Logical(g, s.disk), sp.durable)
    && match s.mode
       case Down => SameHome(g, sp.volatile, sp.durable) && s.open == [] && s.blocks == [] && s.cache == map[] && !s.committing
       case Recovering => RecoveryUnderWay(g, s, sp)
       case Up => if s.committing then Committing(g, s, sp) else Idle(g, s, sp)
  }

  lemma InvLogWrite(g: Geometry, s: Sys, sp: Spec, e: Event)
    requires Inv(g, s, sp) && Enabled(g, s, e) && e.LogWrite?
    requires !s.committing && |Next(g, s, e).blocks| <= Capacity(g)
    ensures Inv(g, Next(g, s, e), SpecNext(g, s, sp, e))
  {
    var t := Next(g, s, e);
    if e.b !in s.blocks {
      assert forall i :: 0 <= i < |s.blocks| ==> t.blocks[i] == s.blocks[i] != e.b;
    }
  }

  /** The last end_op starts a commit of everything the overlapping calls wrote. */
  lemma InvCommitStarts(g: Geometry, s: Sys, sp: Spec, e: Event)
    requires Inv(g, s, sp) && Enabled(g, s, e) && e.End? && !s.committing && |s.open| == 1
    ensures Inv(g, Next(g, s, e), SpecNext(g, s, sp, e))
  {
    hide CommitWrites, Logical, HeaderBlock, WfHeader, InstallAll, RecoveryUnderWay, Distinct;
    var t := Next(g, s, e);
    var data := CacheData(s.cache, s.blocks);
    CommitWritesInRange(g, s.disk[g.start], s.blocks, data);
    assert s.disk == Apply(s.disk, t.plan[..0]) by { NoWrites(s.disk, t.plan); }
    CacheInstalled(g, s, sp.volatile, data);
  }

  /** The cache shows what the commit will install. */
  lemma CacheInstalled(g: Geometry, s: Sys, volatile: Disk, data: seq<Block>)
    requires g.Valid() && ValidEntries(g, s.blocks) && Pinned(s) && Shows(g, s, volatile)
    requires data == CacheData(s.cache, s.blocks)
    ensures SameHome(g, volatile, InstallAll(s.disk, s.blocks, data))
  {
    hide InstallAll;
    InstallAllAt(s.disk, s.blocks, data);
    forall b | g.Home(b) ensures volatile[b] == InstallAll(s.disk, s.blocks, data)[b] {
      if b in s.cache {
        var i :| 0 <= i < |s.blocks| && s.blocks[i] == b;
      } else {
        assert !Among(s.blocks, |s.blocks|, b);
      }
    }
  }

  lemma OneBlockMore(g: Geometry, base: Disk, blocks: seq<int>, data: seq<Block>, plan: seq<Write>, k: nat, d: Disk, d': Disk)
    requires WfDisk(g, base) && base[g.start][0] == 0 && ValidTx(g, blocks, data)
    requires plan == CommitWrites(g, base[g.start], blocks, data) && InRange(plan, g.total)
    requires k < |plan| && d == Apply(base, plan[..k]) && d' == d[plan[k].at := plan[k].data]
    ensures d' == Apply(base, plan[..k + 1])
    ensures WfDisk(g, d')
    ensures SameHome(g, Logical(g, d'), if k + 1 <= |blocks| then base else InstallAll(base, blocks, data))
  {
    ApplyOneMore(base, plan, k);
    CommitAtomic(g, base, blocks, data, k + 1);
  }

  /** Write number n is the commit point: durable becomes volatile there and
      nowhere else. */
  lemma DurableMoves(g: Geometry, n: nat, k: nat, base: Disk, volatile: Disk, target: Disk,
                     durable: Disk, durable': Disk, meaning: Disk)
    requires SameHome(g, volatile, target)
    requires SameHome(g, durable, if k <= n then base else volatile)
    requires durable' == if k == n then volatile else durable
    requires SameHome(g, meaning, if k + 1 <= n then base else target)
    ensures SameHome(g, durable', if k + 1 <= n then base else volatile)
    ensures SameHome(g, meaning, durable')
  {
  }

  lemma InvBlockWriteCommit(g: Geometry, s: Sys, sp: Spec)
    requires Inv(g, s, sp) && Enabled(g, s, BlockWrite) && s.mode == Up
    ensures Inv(g, Next(g, s, BlockWrite), SpecNext(g, s, sp, BlockWrite))
  {
    hide Apply, CommitWrites, InstallAll, Logical, CacheData;
    var t, tp := Next(g, s, BlockWrite), SpecNext(g, s, sp, BlockWrite);
    var data := CacheData(s.cache, s.blocks);
    OneBlockMore(g, sp.base, s.blocks, data, s.plan, s.done, s.disk, t.disk);
    DurableMoves(g, |s.blocks|, s.done, sp.base, sp.volatile, InstallAll(sp.base, s.blocks, data),
                 sp.durable, tp.durable, Logical(g, t.disk));
  }

  lemma InvBlockWriteRecovery(g: Geometry, s: Sys, sp: Spec)
    requires Inv(g, s, sp) && Enabled(g, s, BlockWrite) && s.mode == Recovering
    ensures Inv(g, Next(g, s, BlockWrite), SpecNext(g, s, sp, BlockWrite))
  {
    ApplyOneMore(sp.base, s.plan, s.done);
    RecoveryAtomic(g, sp.base, s.done + 1);
  }

  lemma InvCommitDone(g: Geometry, s: Sys, sp: Spec)
    requires Inv(g, s, sp) && Enabled(g, s, CommitDone)
    ensures Inv(g, Next(g, s, CommitDone), SpecNext(g, s, sp, CommitDone))
  {
    hide Apply, CommitWrites, Logical, InstallAll, HeaderBlock, WfHeader, RecoveryUnderWay;
    var data := CacheData(s.cache, s.blocks);
    assert s.plan[..s.done] == s.plan;
    CommitAtomic(g, sp.base, s.blocks, data, s.done);
    AfterInstalls(g, sp.base, s.blocks, data, s.disk);
    NoEntries(g);
  }

  lemma InvRecoverDone(g: Geometry, s: Sys, sp: Spec)
    requires Inv(g, s, sp) && Enabled(g, s, RecoverDone)
    ensures Inv(g, Next(g, s, RecoverDone), SpecNext(g, s, sp, RecoverDone))
  {
    assert s.plan[..s.done] == s.plan;
    RecoveryAtomic(g, sp.base, s.done);
  }

  lemma InvBoot(g: Geometry, s: Sys, sp: Spec)
    requires Inv(g, s, sp) && Enabled(g, s, Boot)
    ensures Inv(g, Next(g, s, Boot), SpecNext(g, s, sp, Boot))
  {
    RecoverWritesInRange(g, s.disk);
    assert RecoverWrites(g, s.disk)[..0] == [];
  }

  lemma InvCrashed(g: Geometry, s: Sys, sp: Spec)
    requires Inv(g, s, sp)
    ensures Inv(g, Crashed(s), sp.(volatile := sp.durable))
  {
  }

  lemma InvOpenOnly(g: Geometry, s: Sys, sp: Spec, open: seq<Op>)
    requires Inv(g, s, sp) && s.mode == Up && !s.committing
    ensures Inv(g, s.(open := open), sp)
  {
  }

  lemma InvStep(g: Geometry, budget: nat, s: Sys, sp: Spec, e: Event)
    requires Inv(g, s, sp) && Reserved(budget, s) && budget <= MAXOPBLOCKS && 10 + 2 * budget <= Capacity(g)
    requires g.Valid() && Enabled(g, s, e) && WithinBudget(budget, s, e)
    ensures Inv(g, Next(g, s, e), SpecNext(g, s, sp, e))
  {
    hide Inv, CommitPlan, Used;
    var t := Next(g, s, e);
    if Panics(g, s, e) || e.Crash? {
      InvCrashed(g, s, sp);
    } else {
      ReservedStep(g, budget, s, e);
      match e
      case Begin => InvOpenOnly(g, s, sp, t.open);
      case Check(i) => InvOpenOnly(g, s, sp, t.open);
      case LogWrite(i, b, data) => InvLogWrite(g, s, sp, e);
      case End(i) =>
        if |s.open| == 1 { InvCommitStarts(g, s, sp, e); } else { InvOpenOnly(g, s, sp, t.open); }
      case BlockWrite =>
        if s.mode == Recovering { InvBlockWriteRecovery(g, s, sp); } else { InvBlockWriteCommit(g, s, sp); }
      case CommitDone => InvCommitDone(g, s, sp);
      case Boot => InvBoot(g, s, sp);
      case RecoverDone => InvRecoverDone(g, s, sp);
    }
  }

  /** Crash safety. In every run whose calls each newly log at most `budget`
      blocks, where 10 + 2 * budget blocks fit in the log, from any well-formed
      disk: whatever has been written, recovery of the present disk would yield
      the durable state, that is, the calls of all commits whose header write
      reached the disk and of no other; and while the system is up its calls see
      the volatile state. */
  lemma {:induction false} CrashSafety(g: Geometry, budget: nat, s: Sys, sp: Spec, es: seq<Event>)
    requires Inv(g, s, sp) && Reserved(budget, s) && budget <= MAXOPBLOCKS && 10 + 2 * budget <= Capacity(g)
    requires IsRun(g, budget, s, es)
    ensures Inv(g, After(g, budget, s, es), SpecAfter(g, budget, s, sp, es))
    decreases |es|
  {
    if es != [] {
      InvStep(g, budget, s, sp, es[0]);
      ReservedStep(g, budget, s, es[0]);
      CrashSafety(g, budget, Next(g, s, es[0]), SpecNext(g, s, sp, es[0]), es[1..]);
    }
  }

  /** The same from power-on: an up system that is not committing has exactly the
      durable state in its home blocks. */
  lemma FromPowerOn(g: Geometry, budget: nat, d: Disk, es: seq<Event>)
    requires WfDisk(g, d) && budget <= MAXOPBLOCKS && 10 + 2 * budget <= Capacity(g)
    requires IsRun(g, budget, Initial(d), es)
    ensures var s := After(g, budget, Initial(d), es);
            var sp := SpecAfter(g, budget, Initial(d), Spec(Logical(g, d), Logical(g, d), d), es);
            && WfDisk(g, s.disk) && SameHome(g, Logical(g, s.disk), sp.durable)
            && (s.mode == Up && !s.committing ==> SameHome(g, s.disk, sp.durable) && Shows(g, s, sp.volatile))
  {
    CrashSafety(g, budget, Initial(d), Spec(Logical(g, d), Logical(g, d), d), es);
  }
}
