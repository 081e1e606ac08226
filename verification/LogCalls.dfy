/** Calls known by the set of blocks they log: the bound on such a set is the budget of
    the call, so that filewrite's bound makes the log safe. */
module LogCalls {
  import opened BlockDisk
  import opened LogRecovery
  import opened LogSystem
  import opened LogBudget
  import FsFile
  import opened Sets

  ghost function SetOf(blocks: seq<int>): set<int> {
    set b | b in blocks
  }

  /** The sets of the open calls after an event; `t` is the set of a call that begins. */
  function SetsNext(g: Geometry, s: Sys, sets: seq<set<int>>, e: Event, t: set<int>): seq<set<int>>
    requires g.Valid() && |sets| == |s.open| && Enabled(g, s, e)
  {
    if Panics(g, s, e) || e.Crash? then []
    else match e
      case Begin => sets + [t]
      case End(i) => sets[..i] + sets[i + 1..]
      case _ => sets
  }

  /** A run in which each call has a set of at most `budget` blocks, ts[k] for the one
      that event k begins, and logs only those. */
  ghost predicate IsCallRun(g: Geometry, budget: nat, s: Sys, sets: seq<set<int>>, es: seq<Event>, ts: seq<set<int>>)
    requires g.Valid() && |sets| == |s.open|
    decreases |es|
  {
    |ts| == |es| && (es == [] ||
      (&& Enabled(g, s, es[0]) && |ts[0]| <= budget
       && (es[0].LogWrite? ==> es[0].b in sets[es[0].i])
       && |SetsNext(g, s, sets, es[0], ts[0])| == |Next(g, s, es[0]).open|
       && IsCallRun(g, budget, Next(g, s, es[0]), SetsNext(g, s, sets, es[0], ts[0]), es[1..], ts[1..])))
  }

  /** A call has newly logged no more blocks than of its set are in the log. */
  ghost predicate Accounted(budget: nat, s: Sys, sets: seq<set<int>>) {
    |sets| == |s.open| &&
    forall i :: 0 <= i < |sets| ==> |sets[i]| <= budget && s.open[i].used <= |sets[i] * SetOf(s.blocks)|
  }

  lemma AccountedLogWrite(g: Geometry, budget: nat, s: Sys, sets: seq<set<int>>, e: Event, t: set<int>)
    requires g.Valid() && Accounted(budget, s, sets) && e.LogWrite? && Enabled(g, s, e) && e.b in sets[e.i]
    ensures WithinBudget(budget, s, e) && Accounted(budget, Next(g, s, e), SetsNext(g, s, sets, e, t))
  {
    hide SetOf;
    forall i | 0 <= i < |sets|
      ensures s.open[i].used + (if i == e.i && e.b !in s.blocks then 1 else 0) <= |sets[i] * SetOf(s.blocks + [e.b])| <= |sets[i]|
    {
      OneMoreLogged(sets[i], s.blocks, e.b);
    }
    LoggedAlready(s.blocks, e.b);
  }

  lemma OneMoreLogged(t: set<int>, blocks: seq<int>, b: int)
    ensures var now, later := t * SetOf(blocks), t * SetOf(blocks + [b]);
            |now| + (if b in t && b !in blocks then 1 else 0) <= |later| <= |t|
  {
    var now, later := t * SetOf(blocks), t * SetOf(blocks + [b]);
    SubsetSize(later, t);
    if b in t && b !in blocks {
      SubsetSize(now + {b}, later);
    } else {
      SubsetSize(now, later);
    }
  }

  lemma LoggedAlready(blocks: seq<int>, b: int)
    ensures b in blocks ==> SetOf(blocks + [b]) == SetOf(blocks)
  {
  }

  lemma AccountedEnd(g: Geometry, budget: nat, s: Sys, sets: seq<set<int>>, e: Event, t: set<int>)
    requires g.Valid() && Accounted(budget, s, sets) && e.End? && Enabled(g, s, e)
    ensures Accounted(budget, Next(g, s, e), SetsNext(g, s, sets, e, t))
  {
    hide SetOf, CommitPlan;
    var r, u := Next(g, s, e), SetsNext(g, s, sets, e, t);
    forall i | 0 <= i < |u| && !Panics(g, s, e) ensures |u[i]| <= budget && r.open[i].used <= |u[i] * SetOf(r.blocks)| {
      var j := if i < e.i then i else i + 1;
      assert u[i] == sets[j] && r.open[i] == s.open[j];
    }
  }

  lemma AccountedOther(g: Geometry, budget: nat, s: Sys, sets: seq<set<int>>, e: Event, t: set<int>)
    requires g.Valid() && Reserved(budget, s) && Accounted(budget, s, sets) && Enabled(g, s, e) && |t| <= budget
    requires !e.LogWrite? && !e.End?
    ensures Accounted(budget, Next(g, s, e), SetsNext(g, s, sets, e, t))
  {
    hide SetOf, Used;
    assert |t * SetOf(s.blocks)| >= 0;
  }

  lemma AccountedStep(g: Geometry, budget: nat, s: Sys, sets: seq<set<int>>, e: Event, t: set<int>)
    requires g.Valid() && Reserved(budget, s) && Accounted(budget, s, sets) && Enabled(g, s, e) && |t| <= budget
    requires e.LogWrite? ==> e.b in sets[e.i]
    ensures WithinBudget(budget, s, e) && Accounted(budget, Next(g, s, e), SetsNext(g, s, sets, e, t))
  {
    hide Accounted, SetsNext, Next, Enabled, Reserved;
    if e.LogWrite? {
      AccountedLogWrite(g, budget, s, sets, e, t);
    } else if e.End? {
      AccountedEnd(g, budget, s, sets, e, t);
    } else {
      AccountedOther(g, budget, s, sets, e, t);
    }
  }

  /** A run whose calls log at most `budget` distinct blocks each is a run within the
      budget. */
  lemma {:induction false} CallsWithinBudget(g: Geometry, budget: nat, s: Sys, sets: seq<set<int>>, es: seq<Event>, ts: seq<set<int>>)
    requires g.Valid() && budget <= MAXOPBLOCKS && Reserved(budget, s) && Accounted(budget, s, sets)
    requires IsCallRun(g, budget, s, sets, es, ts)
    ensures IsRun(g, budget, s, es)
    decreases |es|
  {
    if es != [] {
      AccountedStep(g, budget, s, sets, es[0], ts[0]);
      ReservedStep(g, budget, s, es[0]);
      hide Accounted, Reserved, Next, Enabled, SetsNext;
      CallsWithinBudget(g, budget, Next(g, s, es[0]), SetsNext(g, s, sets, es[0], ts[0]), es[1..], ts[1..]);
    }
  }

  /** With a log of LOGSIZE blocks, as mkfs makes it, no run of calls that each log at
      most as many blocks as a chunk of filewrite comes to a panic or fills the log. */
  lemma ChunksNeverPanic(g: Geometry, d: Disk, es: seq<Event>, ts: seq<set<int>>, e: Event)
    requires g.Valid() && g.size == LOGSIZE && IsCallRun(g, FsFile.CHUNKBLOCKS, Ready(d), [], es, ts)
    ensures IsRun(g, FsFile.CHUNKBLOCKS, Ready(d), es)
    ensures var s := After(g, FsFile.CHUNKBLOCKS, Ready(d), es);
            |s.blocks| < Capacity(g) && (Enabled(g, s, e) ==> !Panics(g, s, e))
  {
    CallsWithinBudget(g, FsFile.CHUNKBLOCKS, Ready(d), [], es, ts);
    ReservationHolds(g, FsFile.CHUNKBLOCKS, Ready(d), es);
  }
}
