/** What one call of read or write does in the course of a run, whatever the other
    processes do meanwhile. */
module PipeCalls {
  import opened Pipe
  import opened PipeSafety
  import opened PipeRuns

  /** A read has got no more than it asked for, and nothing before it copies; a write
      that is done has nothing left. */
  predicate CallOk(pc: Pc) {
    && (!pc.Idle? && pc.op.R? ==> pc.op.got <= pc.op.n && (pc.Copy? || pc.WakeDone? || pc.Release? || pc.op.got == 0))
    && (pc.WakeDone? && pc.op.W? ==> pc.op.rest == [])
  }

  ghost predicate CallsOk(s: State) {
    forall j :: 0 <= j < |s.procs| ==> CallOk(s.procs[j].pc)
  }

  lemma CallsOkStep(s: State, e: Event)
    requires Core(s) && CallsOk(s) && Enabled(s, e)
    ensures CallsOk(Next(s, e))
  {
    hide RingOk, LocksOk, EndsOk;
    var t := Next(s, e);
    forall j | 0 <= j < |t.procs| ensures CallOk(t.procs[j].pc) {
      assert CallOk(s.procs[j].pc) && PcOk(s.h, s.procs[j].pc);
      if e.Step? && j != e.i {
        assert t.procs[j] == Nudge(s.procs[e.i].pc, s.procs[j]);
      }
    }
  }

  /** On every run no read gets more bytes than it asked for. */
  lemma {:induction false} NeverTooMany(s: State, es: seq<Event>, j: nat)
    requires Core(s) && CallsOk(s) && IsRun(s, es) && j < |After(s, es).procs|
    ensures CallsOk(After(s, es))
    ensures var pc := After(s, es).procs[j].pc; !pc.Idle? && pc.op.R? ==> pc.op.got <= pc.op.n
    decreases |es|
  {
    hide Core, Next, Enabled;
    if es == [] {
      assert CallOk(s.procs[j].pc);
    } else {
      CallsOkStep(s, es[0]);
      CoreStep(s, es[0]);
      NeverTooMany(Next(s, es[0]), es[1..], j);
    }
  }

  // ----- the bytes of one process -----

  /** The bytes a step appends to what has been written, or read. */
  ghost function PutIn(s: State, e: Event): seq<int>
    requires Enabled(s, e)
  {
    var t := Next(s, e);
    if |s.h.written| <= |t.h.written| then t.h.written[|s.h.written|..] else []
  }

  ghost function TakenOut(s: State, e: Event): seq<int>
    requires Enabled(s, e)
  {
    var t := Next(s, e);
    if |s.h.read| <= |t.h.read| then t.h.read[|s.h.read|..] else []
  }

  lemma MoveBytes(h: Shared, i: nat, pc: Pc, killed: bool)
    requires CanMove(h, pc) && |h.data| == PIPESIZE && RingOk(h) && RingOk(Move(h, i, pc, killed).0)
    ensures var h' := Move(h, i, pc, killed).0;
            && (h'.written != h.written ==> pc.Loop? && pc.op.W? && pc.op.rest != [] && h'.written == h.written + [pc.op.rest[0]])
            && (h'.read != h.read ==> pc.Copy? && |h.read| < |h.written| && h'.read == h.read + [h.written[|h.read|]])
  {
    hide RingOk, Full, Empty;
    var h' := Move(h, i, pc, killed).0;
    if h'.read != h.read {
      TestsExact(h);
      ReadPrefix(h');
    }
  }

  lemma ReadPrefix(h: Shared)
    requires RingOk(h)
    ensures |h.read| <= |h.written| && h.read == h.written[..|h.read|]
  {
  }

  /** Only a write puts bytes in, the first of those it has left, one at a time, and
      only a read takes bytes out, the oldest there is. */
  lemma StepBytes(s: State, e: Event)
    requires Core(s) && Enabled(s, e)
    ensures var t := Next(s, e);
            && t.h.written == s.h.written + PutIn(s, e) && t.h.read == s.h.read + TakenOut(s, e)
            && (PutIn(s, e) != [] ==>
                  && e.Step? && s.procs[e.i].pc.Loop? && s.procs[e.i].pc.op.W? && s.procs[e.i].pc.op.rest != []
                  && PutIn(s, e) == [s.procs[e.i].pc.op.rest[0]])
            && (TakenOut(s, e) != [] ==>
                  && e.Step? && s.procs[e.i].pc.Copy? && |s.h.read| < |s.h.written|
                  && TakenOut(s, e) == [s.h.written[|s.h.read|]])
  {
    hide LocksOk, EndsOk, Full, Empty, RingOk, Move;
    CoreStep(s, e);
    if e.Step? {
      MoveBytes(s.h, e.i, s.procs[e.i].pc, s.procs[e.i].killed);
    }
  }

  /** What a step does to the call of process i: a write loses from what it has left
      exactly the bytes it puts in, and a read counts exactly the bytes it takes out. */
  lemma StepCall(s: State, e: Event, i: nat)
    requires Core(s) && Enabled(s, e) && i < |s.procs| && !s.procs[i].pc.Idle? && !Next(s, e).procs[i].pc.Idle?
    ensures var op, op' := s.procs[i].pc.op, Next(s, e).procs[i].pc.op;
            var mine := e == Step(i);
            && (op.W? ==> op'.W? && op.rest == (if mine then PutIn(s, e) else []) + op'.rest)
            && (op.R? ==> op'.R? && op'.n == op.n && op'.got == op.got + (if mine then |TakenOut(s, e)| else 0))
  {
    hide RingOk, LocksOk, EndsOk, Full, Empty;
    var t := Next(s, e);
    if e == Step(i) {
      assert PcOk(s.h, s.procs[i].pc);
    } else {
      assert e.Step? ==> t.procs[i] == Nudge(s.procs[e.i].pc, s.procs[i]);
    }
  }

  ghost function PutBy(s: State, es: seq<Event>, i: nat): seq<int>
    requires IsRun(s, es)
    decreases |es|
  {
    if es == [] then [] else (if es[0] == Step(i) then PutIn(s, es[0]) else []) + PutBy(Next(s, es[0]), es[1..], i)
  }

  ghost function TakenBy(s: State, es: seq<Event>, i: nat): seq<int>
    requires IsRun(s, es)
    decreases |es|
  {
    if es == [] then [] else (if es[0] == Step(i) then TakenOut(s, es[0]) else []) + TakenBy(Next(s, es[0]), es[1..], i)
  }

  /** Process i is in a call all through the run. */
  ghost predicate InOneCall(s: State, es: seq<Event>, i: nat)
    requires IsRun(s, es)
    decreases |es|
  {
    i < |s.procs| && !s.procs[i].pc.Idle? && (es == [] || InOneCall(Next(s, es[0]), es[1..], i))
  }

  /** A write puts its bytes in, in order: at every point of it those it has put in and
      those it has left make up the call's buffer. A read has counted exactly the bytes
      it has taken. */
  lemma {:induction false} CallConserves(s: State, es: seq<Event>, i: nat)
    requires Core(s) && IsRun(s, es) && InOneCall(s, es, i)
    ensures i < |After(s, es).procs| && !After(s, es).procs[i].pc.Idle?
    ensures var op, op' := s.procs[i].pc.op, After(s, es).procs[i].pc.op;
            && (op.W? ==> op'.W? && PutBy(s, es, i) + op'.rest == op.rest)
            && (op.R? ==> op'.R? && op'.n == op.n && op'.got == op.got + |TakenBy(s, es, i)|)
    decreases |es|
  {
    hide Core, Next, Enabled;
    if es != [] {
      StepCall(s, es[0], i);
      CoreStep(s, es[0]);
      CallConserves(Next(s, es[0]), es[1..], i);
    }
  }

  /** A write that comes to its last wakeup has put in all its bytes. */
  lemma WriteComplete(s: State, es: seq<Event>, i: nat)
    requires Core(s) && CallsOk(s) && IsRun(s, es) && InOneCall(s, es, i)
    requires s.procs[i].pc.op.W? && i < |After(s, es).procs| && After(s, es).procs[i].pc.WakeDone?
    ensures PutBy(s, es, i) == s.procs[i].pc.op.rest
  {
    hide Core, CallOk;
    CallConserves(s, es, i);
    NeverTooMany(s, es, i);
    var pc := After(s, es).procs[i].pc;
    assert CallOk(pc);
    DoneHasNothingLeft(pc);
    assert PutBy(s, es, i) + [] == PutBy(s, es, i);
  }

  lemma DoneHasNothingLeft(pc: Pc)
    requires CallOk(pc) && pc.WakeDone? && pc.op.W?
    ensures pc.op.rest == []
  {
  }

  // ----- piperead's copy loop -----

  /** Process i copies all through the run and leaves the loop with its last step. */
  ghost predicate CopiesUntilDone(s: State, es: seq<Event>, i: nat)
    requires IsRun(s, es)
    decreases |es|
  {
    && i < |s.procs| && s.procs[i].pc.Copy? && es != []
    && var t := Next(s, es[0]);
    i < |t.procs| && if |es| == 1 then t.procs[i].pc.WakeDone? else CopiesUntilDone(t, es[1..], i)
  }

  function Min(a: int, b: int): int {
    if a <= b then a else b
  }

  /** Nobody else touches the pipe while a process copies. */
  lemma CopyAlone(s: State, e: Event, i: nat)
    requires Core(s) && Enabled(s, e) && i < |s.procs| && s.procs[i].pc.Copy? && e != Step(i)
    ensures var t := Next(s, e); i < |t.procs| && t.procs[i].pc == s.procs[i].pc && t.h.written == s.h.written && t.h.read == s.h.read
  {
    hide RingOk, EndsOk, Full, Empty;
    assert HasLk(s.procs[i].pc) <==> s.h.lk == i;
    if e.Step? {
      assert HasLk(s.procs[e.i].pc) <==> s.h.lk == e.i;
      assert Next(s, e).procs[i] == Nudge(s.procs[e.i].pc, s.procs[i]);
    }
  }

  /** One step of the copy loop. */
  lemma CopyOne(s: State, i: nat)
    requires Core(s) && i < |s.procs| && s.procs[i].pc.Copy? && Enabled(s, Step(i))
    ensures var t, op := Next(s, Step(i)), s.procs[i].pc.op;
            && op.R? && i < |t.procs| && t.h.written == s.h.written
            && if op.got >= op.n || |s.h.read| == |s.h.written| then t.procs[i].pc == WakeDone(op) && t.h.read == s.h.read
               else
                 && |s.h.read| < |s.h.written|
                 && t.procs[i].pc == Copy(R(op.n, op.got + 1)) && t.h.read == s.h.read + [s.h.written[|s.h.read|]]
  {
    hide LocksOk, EndsOk, Full;
    assert PcOk(s.h, s.procs[i].pc);
    TestsExact(s.h);
    CoreStep(s, Step(i));
    var t := Next(s, Step(i));
    assert t.h.read == t.h.written[..|t.h.read|];
  }

  /** From entering the copy loop to leaving it a read of n bytes takes exactly as many
      as there are, up to n, and these are the oldest. */
  lemma {:induction false} CopyTakes(s: State, es: seq<Event>, i: nat)
    requires Core(s) && IsRun(s, es) && CopiesUntilDone(s, es, i) && s.procs[i].pc.op.R? && s.procs[i].pc.op.got <= s.procs[i].pc.op.n
    ensures var op, t := s.procs[i].pc.op, After(s, es);
            var m := Min(op.n - op.got, |s.h.written| - |s.h.read|);
            && 0 <= m && |s.h.read| + m <= |s.h.written|
            && i < |t.procs| && t.procs[i].pc == WakeDone(R(op.n, op.got + m))
            && t.h.written == s.h.written && t.h.read == s.h.read + s.h.written[|s.h.read|..|s.h.read| + m]
    decreases |es|
  {
    hide Next, Enabled, LocksOk, EndsOk, PcsOk;
    var e := es[0];
    CoreStep(s, e);
    if e == Step(i) {
      CopyOne(s, i);
    } else {
      CopyAlone(s, e, i);
    }
    if |es| > 1 {
      CopyTakes(Next(s, e), es[1..], i);
    } else {
      assert es[1..] == [];
    }
  }

  // ----- how calls end -----

  /** A read that comes back with nothing although it asked for something found the pipe
      empty and the write end closed, or its process is killed; a write that comes back
      with bytes left found it full, and the read end closed or its process killed. */
  predicate EndOk(h: Shared, p: Proc) {
    match p.pc
    case Copy(op) => op.R? && op.got == 0 ==> !Empty(h) || !h.writeopen
    case WakeDone(op) => op.R? && op.got == 0 < op.n ==> Empty(h) && !h.writeopen
    case Release(op) =>
      && (op.R? && op.got == 0 < op.n ==> Empty(h) && (!h.writeopen || p.killed))
      && (op.W? && op.rest != [] ==> Full(h) && (!h.readopen || p.killed))
    case _ => true
  }

  ghost predicate CallsEndOk(s: State) {
    forall j :: 0 <= j < |s.procs| ==> EndOk(s.h, s.procs[j])
  }

  lemma EndOkStep(s: State, e: Event)
    requires Core(s) && CallsOk(s) && CallsEndOk(s) && Enabled(s, e)
    ensures CallsEndOk(Next(s, e))
  {
    hide EndsOk, RingOk, Full;
    var t := Next(s, e);
    forall j | 0 <= j < |t.procs| ensures EndOk(t.h, t.procs[j]) {
      assert EndOk(s.h, s.procs[j]) && PcOk(s.h, s.procs[j].pc) && CallOk(s.procs[j].pc);
      if e.Step? && j != e.i {
        assert t.procs[j] == Nudge(s.procs[e.i].pc, s.procs[j]);
        assert (HasLk(s.procs[j].pc) <==> s.h.lk == j) && (HasLk(s.procs[e.i].pc) <==> s.h.lk == e.i);
        hide EndOk;
        OthersEnd(s, e.i, j);
      } else if e.Step? {
        OwnEnd(s.h, e.i, s.procs[j]);
      }
    }
  }

  /** A step without the pipe lock leaves the pipe alone. */
  lemma OthersEnd(s: State, i: nat, j: nat)
    requires Core(s) && Enabled(s, Step(i)) && j < |s.procs| && j != i && EndOk(s.h, s.procs[j])
    requires HasLk(s.procs[j].pc) ==> !HasLk(s.procs[i].pc)
    ensures EndOk(Next(s, Step(i)).h, Nudge(s.procs[i].pc, s.procs[j]))
  {
    hide RingOk, LocksOk, EndsOk;
    assert PcOk(s.h, s.procs[i].pc);
    MovePc(s.h, i, s.procs[i].pc, s.procs[i].killed);
    hide Move;
  }

  lemma OwnEnd(h: Shared, i: nat, p: Proc)
    requires CanMove(h, p.pc) && |h.data| == PIPESIZE && EndOk(h, p) && PcOk(h, p.pc) && CallOk(p.pc)
    ensures EndOk(Move(h, i, p.pc, p.killed).0, p.(pc := Move(h, i, p.pc, p.killed).1))
  {
  }

  /** How every read and write ends, on every run. */
  lemma {:induction false} CallsEnd(s: State, es: seq<Event>, j: nat)
    requires Core(s) && CallsOk(s) && CallsEndOk(s) && IsRun(s, es) && j < |After(s, es).procs|
    ensures CallsEndOk(After(s, es))
    ensures var t := After(s, es);
            var p := t.procs[j];
            p.pc.Release? ==>
              && (p.pc.op.R? && p.pc.op.got == 0 < p.pc.op.n ==> t.h.read == t.h.written && (!t.h.writeopen || p.killed))
              && (p.pc.op.W? && p.pc.op.rest != [] ==> |t.h.written| == |t.h.read| + PIPESIZE && (!t.h.readopen || p.killed))
    decreases |es|
  {
    hide Next, Enabled, LocksOk, EndsOk, PcsOk;
    if es == [] {
      assert EndOk(s.h, s.procs[j]);
      TestsExact(s.h);
      assert s.h.written[..|s.h.written|] == s.h.written;
    } else {
      EndOkStep(s, es[0]);
      CallsOkStep(s, es[0]);
      CoreStep(s, es[0]);
      CallsEnd(Next(s, es[0]), es[1..], j);
    }
  }

  /** All of these hold for every run of a pipe from its allocation. */
  lemma FreshCalls(s: State)
    requires Fresh(s)
    ensures Core(s) && CallsOk(s) && CallsEndOk(s)
  {
    FreshCore(s);
  }
}
