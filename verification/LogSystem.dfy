/** The logging system as a state machine: file system calls that overlap, group
    commit, one step per block write, and power failure at any step.

    The machine is compared with a two-level specification: `volatile` is the
    file system as the running calls see it, `durable` is what must survive a
    crash. A call's write changes `volatile`; only the committing header write
    copies `volatile` to `durable`; a crash falls back to `durable`. */
module LogSystem {
  import opened BlockDisk
  import opened LogRecovery

  datatype Mode = Down | Recovering | Up

  /** A file system call between begin_op and end_op: how many blocks it has
      newly put in the log, and whether it has passed log_write's space check. */
  datatype Op = Op(used: nat, checked: bool)

  /** `plan` is the sequence of block writes of the commit or recovery under way,
      of which `done` have reached the disk. */
  datatype Sys = Sys(mode: Mode, disk: Disk, cache: map<int, Block>, blocks: seq<int>,
                     open: seq<Op>, committing: bool, plan: seq<Write>, done: nat)

  datatype Event =
    | Begin                                   // begin_op gets past its waiting loop
    | Check(i: nat)                           // call i reads lh.n in log_write, before the lock
    | LogWrite(i: nat, b: int, data: Block)   // call i records block b, under the lock
    | End(i: nat)                             // call i runs end_op up to its release
    | BlockWrite                              // one block reaches the disk
    | CommitDone                              // end_op's second locked section
    | Crash
    | Boot                                    // read_head
    | RecoverDone

  predicate LogFull(g: Geometry, s: Sys)
    requires g.Valid()
  {
    |s.blocks| >= LOGSIZE || |s.blocks| >= g.size - 1
  }

  /** The kernel stops: "too big a transaction" or "log.committing". */
  predicate Panics(g: Geometry, s: Sys, e: Event)
    requires g.Valid()
  {
    || (e.Check? && LogFull(g, s))
    || (e.End? && s.committing)
  }

  predicate Enabled(g: Geometry, s: Sys, e: Event)
    requires g.Valid()
  {
    match e
    case Begin => s.mode == Up && !s.committing && |s.blocks| + (|s.open| + 1) * MAXOPBLOCKS <= LOGSIZE
    case Check(i) => s.mode == Up && i < |s.open|
    case LogWrite(i, b, data) => s.mode == Up && i < |s.open| && s.open[i].checked && g.Home(b)
    case End(i) => s.mode == Up && i < |s.open|
    case BlockWrite => s.mode != Down && s.done < |s.plan| && 0 <= s.plan[s.done].at < |s.disk|
    case CommitDone => s.mode == Up && s.committing && s.done == |s.plan|
    case Crash => true
    case Boot => s.mode == Down
    case RecoverDone => s.mode == Recovering && s.done == |s.plan|
  }

  function Crashed(s: Sys): Sys {
    Sys(Down, s.disk, map[], [], [], false, [], 0)
  }

  /** What write_log will copy: the cached contents of the logged blocks. */
  ghost function CacheData(cache: map<int, Block>, blocks: seq<int>): (data: seq<Block>)
    requires forall i :: 0 <= i < |blocks| ==> blocks[i] in cache
    ensures |data| == |blocks|
  {
    seq(|blocks|, i requires 0 <= i < |blocks| => cache[blocks[i]])
  }

  ghost function CommitPlan(g: Geometry, s: Sys): seq<Write> {
    if g.start < |s.disk| && |s.blocks| <= LOGSIZE < |s.disk[g.start]| && (forall i :: 0 <= i < |s.blocks| ==> s.blocks[i] in s.cache)
    then CommitWrites(g, s.disk[g.start], s.blocks, CacheData(s.cache, s.blocks))
    else []
  }

  ghost function Next(g: Geometry, s: Sys, e: Event): Sys
    requires g.Valid() && Enabled(g, s, e)
  {
    if Panics(g, s, e) then Crashed(s)
    else match e
      case Begin => s.(open := s.open + [Op(0, false)])
      case Check(i) => s.(open := s.open[i := s.open[i].(checked := true)])
      case LogWrite(i, b, data) =>
        var op := Op(if b in s.blocks then s.open[i].used else s.open[i].used + 1, false);
        s.(open := s.open[i := op], cache := s.cache[b := data],
           blocks := if b in s.blocks then s.blocks else s.blocks + [b])
      case End(i) =>
        var rest := s.open[..i] + s.open[i + 1..];
        if rest == [] then s.(open := rest, committing := true, plan := CommitPlan(g, s), done := 0)
        else s.(open := rest)
      case BlockWrite =>
        var w := s.plan[s.done];
        s.(disk := s.disk[w.at := w.data], done := s.done + 1)
      case CommitDone => s.(committing := false, blocks := [], cache := map[], plan := [], done := 0)
      case Crash => Crashed(s)
      case Boot => s.(mode := Recovering, plan := if WfDisk(g, s.disk) then RecoverWrites(g, s.disk) else [], done := 0)
      case RecoverDone => s.(mode := Up, plan := [], done := 0)
  }

  // ----- the specification -----

  datatype Spec = Spec(durable: Disk, volatile: Disk, base: Disk)

  /** The committing header write is about to reach the disk. */
  predicate AtCommitPoint(s: Sys) {
    s.mode == Up && s.committing && s.done == |s.blocks| > 0
  }

  ghost function SpecNext(g: Geometry, s: Sys, sp: Spec, e: Event): Spec
    requires g.Valid() && Enabled(g, s, e)
  {
    if Panics(g, s, e) || e.Crash? then sp.(volatile := sp.durable)
    else match e
      case LogWrite(i, b, data) =>
        if b < |sp.volatile| then sp.(volatile := sp.volatile[b := data]) else sp
      case BlockWrite => if AtCommitPoint(s) then sp.(durable := sp.volatile) else sp
      case End(i) => if |s.open| == 1 then sp.(base := s.disk) else sp
      case Boot => sp.(base := s.disk)
      case _ => sp
  }

  // ----- runs -----

  /** The call named by a LogWrite stays within a budget of `budget` newly logged
      blocks; writing an already logged block costs nothing. */
  predicate WithinBudget(budget: nat, s: Sys, e: Event) {
    e.LogWrite? && e.i < |s.open| && e.b !in s.blocks ==> s.open[e.i].used < budget
  }

  ghost predicate IsRun(g: Geometry, budget: nat, s: Sys, es: seq<Event>)
    requires g.Valid()
    decreases |es|
  {
    es == [] || (Enabled(g, s, es[0]) && WithinBudget(budget, s, es[0]) && IsRun(g, budget, Next(g, s, es[0]), es[1..]))
  }

  ghost function After(g: Geometry, budget: nat, s: Sys, es: seq<Event>): Sys
    requires g.Valid() && IsRun(g, budget, s, es)
    decreases |es|
  {
    if es == [] then s else After(g, budget, Next(g, s, es[0]), es[1..])
  }

  ghost function SpecAfter(g: Geometry, budget: nat, s: Sys, sp: Spec, es: seq<Event>): Spec
    requires g.Valid() && IsRun(g, budget, s, es)
    decreases |es|
  {
    if es == [] then sp else SpecAfter(g, budget, Next(g, s, es[0]), SpecNext(g, s, sp, es[0]), es[1..])
  }

  /** Powered off, with any disk whose log header is well formed. */
  function Initial(d: Disk): Sys {
    Sys(Down, d, map[], [], [], false, [], 0)
  }

  // ----- space reservation -----

  ghost function Used(open: seq<Op>): nat {
    if open == [] then 0 else Used(open[..|open| - 1]) + open[|open| - 1].used
  }

  /** Blocks in the log that no open call accounts for; at most three calls are
      ever open, and the fewer are open the more may have been left behind. */
  ghost predicate Reserved(budget: nat, s: Sys) {
    && |s.open| <= 3
    && (forall i :: 0 <= i < |s.open| ==> s.open[i].used <= budget)
    && (s.open == [] && !s.committing ==> s.blocks == [])
    && (|s.open| == 1 ==> |s.blocks| <= Used(s.open) + 10 + budget)
    && (|s.open| == 2 ==> |s.blocks| <= Used(s.open) + 10)
    && (|s.open| == 3 ==> |s.blocks| <= Used(s.open))
    && (s.committing ==> s.open == [])
    && |s.blocks| <= 10 + 2 * budget
  }

  lemma {:induction false} UsedUpdate(open: seq<Op>, i: nat, op: Op)
    requires i < |open|
    ensures Used(open[i := op]) == Used(open) - open[i].used + op.used
  {
    var m := |open| - 1;
    if i < m {
      assert open[i := op][..m] == open[..m][i := op];
      UsedUpdate(open[..m], i, op);
    } else {
      assert open[i := op][..m] == open[..m];
    }
  }

  lemma {:induction false} UsedRemove(open: seq<Op>, i: nat)
    requires i < |open|
    ensures Used(open[..i] + open[i + 1..]) == Used(open) - open[i].used
  {
    var m := |open| - 1;
    var rest := open[..i] + open[i + 1..];
    if i < m {
      assert rest[..m - 1] == open[..m][..i] + open[..m][i + 1..];
      UsedRemove(open[..m], i);
    } else {
      assert rest == open[..m];
    }
  }

  lemma {:induction false} UsedAtMost(open: seq<Op>, budget: nat)
    requires forall i :: 0 <= i < |open| ==> open[i].used <= budget
    ensures Used(open) <= |open| * budget
  {
    if open != [] {
      UsedAtMost(open[..|open| - 1], budget);
    }
  }

  lemma ReservedLogWrite(g: Geometry, budget: nat, s: Sys, e: Event)
    requires g.Valid() && budget <= MAXOPBLOCKS && Reserved(budget, s)
    requires e.LogWrite? && Enabled(g, s, e) && WithinBudget(budget, s, e)
    ensures Reserved(budget, Next(g, s, e))
  {
    var t := Next(g, s, e);
    UsedUpdate(s.open, e.i, t.open[e.i]);
    UsedAtMost(t.open, budget);
    if |s.open| == 1 {
      assert Used(t.open) <= budget;
    }
  }

  lemma ReservedEnd(g: Geometry, budget: nat, s: Sys, e: Event)
    requires g.Valid() && budget <= MAXOPBLOCKS && Reserved(budget, s)
    requires e.End? && Enabled(g, s, e)
    ensures Reserved(budget, Next(g, s, e))
  {
    hide Used, CommitPlan;
    var t := Next(g, s, e);
    UsedRemove(s.open, e.i);
    forall i | 0 <= i < |t.open| ensures t.open[i].used <= budget {
      assert t.open[i] == s.open[if i < e.i then i else i + 1];
    }
  }

  lemma ReservedBegin(g: Geometry, budget: nat, s: Sys)
    requires g.Valid() && budget <= MAXOPBLOCKS && Reserved(budget, s) && Enabled(g, s, Begin)
    ensures Reserved(budget, Next(g, s, Begin))
  {
    var t := Next(g, s, Begin);
    assert t.open[..|s.open|] == s.open;
  }

  lemma ReservedCheck(g: Geometry, budget: nat, s: Sys, i: nat)
    requires g.Valid() && Reserved(budget, s) && Enabled(g, s, Check(i))
    ensures Reserved(budget, Next(g, s, Check(i)))
  {
    UsedUpdate(s.open, i, s.open[i].(checked := true));
  }

  lemma ReservedStep(g: Geometry, budget: nat, s: Sys, e: Event)
    requires g.Valid() && budget <= MAXOPBLOCKS && Reserved(budget, s)
    requires Enabled(g, s, e) && WithinBudget(budget, s, e)
    ensures Reserved(budget, Next(g, s, e))
  {
    hide Used;
    match e
    case Begin => ReservedBegin(g, budget, s);
    case Check(i) => ReservedCheck(g, budget, s, i);
    case LogWrite(i, b, data) => ReservedLogWrite(g, budget, s, e);
    case End(i) => ReservedEnd(g, budget, s, e);
    case _ =>
  }

  /** The logged blocks together with what the open calls may still add. */
  lemma ReservedSum(budget: nat, s: Sys)
    requires budget <= MAXOPBLOCKS && Reserved(budget, s)
    ensures |s.blocks| + |s.open| * budget - Used(s.open) <= 10 + 2 * budget
  {
    assert |s.open| == 0 || |s.open| == 1 || |s.open| == 2 || |s.open| == 3;
  }

  /** In every interleaving whose calls newly log at most `budget` blocks each,
      the log never holds more than 10 + 2 * budget blocks, counting what the open calls
      may still add, and while a commit runs no call is open, so the logged set is
      frozen. */
  lemma {:induction false} ReservationHolds(g: Geometry, budget: nat, s: Sys, es: seq<Event>)
    requires g.Valid() && budget <= MAXOPBLOCKS && Reserved(budget, s)
    requires IsRun(g, budget, s, es)
    ensures Reserved(budget, After(g, budget, s, es))
    ensures var t := After(g, budget, s, es); |t.blocks| + |t.open| * budget - Used(t.open) <= 10 + 2 * budget
    decreases |es|
  {
    if es == [] {
      ReservedSum(budget, s);
    } else {
      ReservedStep(g, budget, s, es[0]);
      ReservationHolds(g, budget, Next(g, s, es[0]), es[1..]);
    }
  }
}
