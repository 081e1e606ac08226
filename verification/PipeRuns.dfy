/** Whole runs of the pipe. */
module PipeRuns {
  import opened Pipe
  import opened PipeSafety

  ghost predicate IsRun(s: State, es: seq<Event>)
    decreases |es|
  {
    es == [] || (Enabled(s, es[0]) && IsRun(Next(s, es[0]), es[1..]))
  }

  ghost function After(s: State, es: seq<Event>): State
    requires IsRun(s, es)
    decreases |es|
  {
    if es == [] then s else After(Next(s, es[0]), es[1..])
  }

  /** pipealloc: both ends open, nothing in the pipe, n processes. */
  ghost predicate Fresh(s: State) {
    && |s.h.data| == PIPESIZE && s.h.nread == 0 && s.h.nwrite == 0 && s.h.readopen && s.h.writeopen
    && s.h.written == [] && s.h.read == [] && s.h.lk == -1 && s.h.pt == -1
    && forall j :: 0 <= j < |s.procs| ==> s.procs[j] == Proc(Idle, false)
  }

  /** On every run: bytes come out in the order they went in, none lost or doubled,
      and at most PIPESIZE are in between, held in the ring. */
  lemma {:induction false} BytesInOrder(s: State, es: seq<Event>)
    requires Core(s) && IsRun(s, es)
    ensures Core(After(s, es))
    ensures var h := After(s, es).h;
            h.read <= h.written && |h.written| - |h.read| <= PIPESIZE
    ensures var h := After(s, es).h;
            forall j :: |h.read| <= j < |h.written| ==> h.data[j % PIPESIZE] == h.written[j]
    decreases |es|
  {
    if es == [] {
      assert s.h.read == s.h.written[..|s.h.read|];
    } else {
      CoreStep(s, es[0]);
      BytesInOrder(Next(s, es[0]), es[1..]);
    }
  }

  /** Whether some step of the run is a killed writer's that leaves a reader asleep. */
  ghost predicate SomeoneLeaves(s: State, es: seq<Event>)
    requires IsRun(s, es)
    decreases |es|
  {
    es != [] && (LeavesReaderAsleep(s, es[0]) || SomeoneLeaves(Next(s, es[0]), es[1..]))
  }

  ghost predicate NeverLost(s: State, es: seq<Event>, chan: Chan)
    requires IsRun(s, es)
    decreases |es|
  {
    NoLost(s, chan) && (es != [] ==> NeverLost(Next(s, es[0]), es[1..], chan))
  }

  /** A reader's wakeup is never lost exactly on the runs where no killed writer gives
      up on a full pipe beside a sleeping reader. */
  lemma {:induction false} NeverLostIff(s: State, es: seq<Event>)
    requires Core(s) && NoLost(s, NRead) && IsRun(s, es)
    ensures NeverLost(s, es, NRead) <==> !SomeoneLeaves(s, es)
    decreases |es|
  {
    hide Core, NoLost, LeavesReaderAsleep, Next, Enabled;
    if es != [] {
      LostIff(s, es[0]);
      CoreStep(s, es[0]);
      if !LeavesReaderAsleep(s, es[0]) {
        NeverLostIff(Next(s, es[0]), es[1..]);
      }
    }
  }

  /** A writer's wakeup is never lost, on any run. */
  lemma {:induction false} WritersNeverLost(s: State, es: seq<Event>)
    requires Core(s) && NoLost(s, NWrite) && IsRun(s, es)
    ensures NeverLost(s, es, NWrite)
    decreases |es|
  {
    hide Core, NoLost, Next, Enabled;
    if es != [] {
      if es[0].Step? {
        NoLostStep(s, es[0].i, NWrite);
      } else {
        NoLostOther(s, es[0], NWrite);
      }
      CoreStep(s, es[0]);
      WritersNeverLost(Next(s, es[0]), es[1..]);
    }
  }

  // ----- kill -----

  /** On the way to sleep, or asleep. */
  predicate Bound(pc: Pc) {
    pc.WakeFull? || pc.Sleep1? || pc.Sleep2? || pc.Sleep3? || pc.Asleep?
  }

  ghost predicate NoKilledBound(s: State) {
    forall j :: 0 <= j < |s.procs| && s.procs[j].killed ==> !Bound(s.procs[j].pc)
  }

  /** A kill after the process has looked at its killed flag and before sleep has the
      lock of the process table. */
  predicate MissesKill(s: State, e: Event) {
    e.Kill? && e.i < |s.procs| && (s.procs[e.i].pc.WakeFull? || s.procs[e.i].pc.Sleep1?)
  }

  lemma KilledBoundIff(s: State, e: Event)
    requires Core(s) && NoKilledBound(s) && Enabled(s, e)
    ensures NoKilledBound(Next(s, e)) <==> !MissesKill(s, e)
  {
    hide RingOk, EndsOk, PcsOk;
    var t := Next(s, e);
    assert HasPt(s.procs[e.i].pc) <==> s.h.pt == e.i;
    if MissesKill(s, e) {
      assert t.procs[e.i].killed && Bound(t.procs[e.i].pc);
    } else {
      forall j | 0 <= j < |t.procs| && t.procs[j].killed ensures !Bound(t.procs[j].pc) {
        assert j != e.i ==> t.procs[j] == s.procs[j] || e.Step?;
      }
    }
  }

  ghost predicate SomeKillMissed(s: State, es: seq<Event>)
    requires IsRun(s, es)
    decreases |es|
  {
    es != [] && (MissesKill(s, es[0]) || SomeKillMissed(Next(s, es[0]), es[1..]))
  }

  ghost predicate NeverKilledBound(s: State, es: seq<Event>)
    requires IsRun(s, es)
    decreases |es|
  {
    NoKilledBound(s) && (es != [] ==> NeverKilledBound(Next(s, es[0]), es[1..]))
  }

  /** No killed process is ever asleep or going to sleep exactly on the runs where no
      kill lands in that window. */
  lemma {:induction false} NeverKilledBoundIff(s: State, es: seq<Event>)
    requires Core(s) && NoKilledBound(s) && IsRun(s, es)
    ensures NeverKilledBound(s, es) <==> !SomeKillMissed(s, es)
    decreases |es|
  {
    hide Core, NoKilledBound, MissesKill, Next, Enabled;
    if es != [] {
      KilledBoundIff(s, es[0]);
      CoreStep(s, es[0]);
      if !MissesKill(s, es[0]) {
        NeverKilledBoundIff(Next(s, es[0]), es[1..]);
      }
    }
  }

  /** A kill that lands there does leave a killed process asleep, if it goes on. */
  lemma KilledSleeps(s: State, i: nat)
    requires Core(s) && i < |s.procs| && s.procs[i].pc.Sleep1? && s.h.pt == -1
    ensures var es := [Kill(i), Step(i), Step(i), Step(i)];
            IsRun(s, es) && i < |After(s, es).procs| && After(s, es).procs[i] == Proc(Asleep(s.procs[i].pc.op), true)
  {
    var es := [Kill(i), Step(i), Step(i), Step(i)];
    var s1 := Next(s, Kill(i));
    var s2 := Next(s1, Step(i));
    var s3 := Next(s2, Step(i));
    var s4 := Next(s3, Step(i));
    assert es[1..][1..][1..] == [Step(i)] && es[1..][1..] == [Step(i), Step(i)] && es[1..] == [Step(i), Step(i), Step(i)];
    assert IsRun(s3, [Step(i)]) && After(s3, [Step(i)]) == s4;
    assert IsRun(s2, [Step(i), Step(i)]) && After(s2, [Step(i), Step(i)]) == s4;
    assert IsRun(s1, es[1..]) && After(s1, es[1..]) == s4;
  }

  // ----- from pipealloc on -----

  lemma FreshCore(s: State)
    requires Fresh(s)
    ensures Core(s) && NoLost(s, NRead) && NoLost(s, NWrite) && NoKilledBound(s)
  {
  }

  /** Every run of a pipe from its allocation: bytes come out in order, a reader is lost
      exactly by a killed writer giving up on a full pipe, a writer never, and a killed
      process sleeps exactly by a kill that it has missed. */
  lemma FromAlloc(s: State, es: seq<Event>)
    requires Fresh(s) && IsRun(s, es)
    ensures var h := After(s, es).h; h.read <= h.written && |h.written| - |h.read| <= PIPESIZE
    ensures NeverLost(s, es, NRead) <==> !SomeoneLeaves(s, es)
    ensures NeverLost(s, es, NWrite)
    ensures NeverKilledBound(s, es) <==> !SomeKillMissed(s, es)
  {
    FreshCore(s);
    hide *;
    BytesInOrder(s, es);
    NeverLostIff(s, es);
    WritersNeverLost(s, es);
    NeverKilledBoundIff(s, es);
  }

  /** When nothing can move, everybody is outside or asleep for a reason, and not
      both a reader and a writer sleep. */
  lemma StuckOnlyForAReason(s: State)
    requires Core(s) && NoLost(s, NRead) && NoLost(s, NWrite)
    requires forall i: nat :: !Enabled(s, Step(i))
    ensures forall j :: 0 <= j < |s.procs| ==>
              s.procs[j].pc.Idle? || (s.procs[j].pc.Asleep? && Reason(s.h, SleepChan(s.procs[j].pc.op)))
    ensures NobodySleeps(s, NRead) || NobodySleeps(s, NWrite)
  {
    hide RingOk, EndsOk, Full, Empty;
    assert RingOk(s.h) && |s.h.data| == PIPESIZE by { assert RingOk(s.h); LengthOfRing(s.h); }
    forall j: nat | j < |s.procs| ensures !CanMove(s.h, s.procs[j].pc) && PcOk(s.h, s.procs[j].pc) {
      assert !Enabled(s, Step(j));
    }
    LocksFree(s);
    NotBoth(s.h);
    forall j | 0 <= j < |s.procs|
      ensures s.procs[j].pc.Idle? || (s.procs[j].pc.Asleep? && Reason(s.h, SleepChan(s.procs[j].pc.op)))
    {
      var pc := s.procs[j].pc;
      assert !CanMove(s.h, pc);
      if pc.Asleep? {
        assert Sleeper(pc, SleepChan(pc.op));
      }
    }
  }

  lemma LengthOfRing(h: Shared)
    requires RingOk(h)
    ensures |h.data| == PIPESIZE
  {
  }

  /** Who holds the process table lock can move; if nobody does, who holds the pipe
      lock can. */
  lemma HolderMoves(s: State)
    requires LocksOk(s) && PcsOk(s) && (s.h.pt != -1 || s.h.lk != -1)
    ensures CanMove(s.h, s.procs[if s.h.pt != -1 then s.h.pt else s.h.lk].pc)
  {
    var j := if s.h.pt != -1 then s.h.pt else s.h.lk;
    assert PcOk(s.h, s.procs[j].pc);
    assert (HasPt(s.procs[j].pc) <==> s.h.pt == j) && (HasLk(s.procs[j].pc) <==> s.h.lk == j);
  }

  lemma LocksFree(s: State)
    requires LocksOk(s) && PcsOk(s)
    requires forall j :: 0 <= j < |s.procs| ==> !CanMove(s.h, s.procs[j].pc)
    ensures s.h.lk == -1 && s.h.pt == -1
  {
    hide CanMove;
    if s.h.pt != -1 || s.h.lk != -1 {
      HolderMoves(s);
    }
  }

  // ----- the run that loses a reader -----

  function Steps(i: nat, k: nat): (es: seq<Event>)
    ensures |es| == k && forall j :: 0 <= j < k ==> es[j] == Step(i)
  {
    seq(k, _ => Step(i))
  }

  ghost predicate Reaches(s: State, es: seq<Event>, t: State) {
    IsRun(s, es) && After(s, es) == t
  }

  lemma {:induction false} Extend(s: State, es: seq<Event>, t: State, fs: seq<Event>, u: State)
    requires Reaches(s, es, t) && Reaches(t, fs, u)
    ensures Reaches(s, es + fs, u)
    decreases |es|
  {
    if es == [] {
      assert es + fs == fs;
    } else {
      Extend(Next(s, es[0]), es[1..], t, fs, u);
      assert (es + fs)[1..] == es[1..] + fs;
    }
  }

  lemma OneMore(s: State, es: seq<Event>, t: State, e: Event, u: State, fs: seq<Event>)
    requires Reaches(s, es, t) && Enabled(t, e) && u == Next(t, e) && fs == es + [e]
    ensures Reaches(s, fs, u)
  {
    hide Enabled, Next;
    assert [e][1..] == [];
    assert Reaches(u, [], u);
    assert Reaches(t, [e], u);
    Extend(s, es, t, [e], u);
  }

  /** From s, process i, at the head of its loop, has written k bytes more. */
  ghost predicate Wrote(s: State, t: State, i: nat, k: nat) {
    && i < |s.procs| && s.procs[i].pc.Loop? && s.procs[i].pc.op.W? && k <= |s.procs[i].pc.op.rest|
    && RingOk(t.h)
    && t.procs == s.procs[i := s.procs[i].(pc := Loop(W(s.procs[i].pc.op.rest[k..])))]
    && t.h.written == s.h.written + s.procs[i].pc.op.rest[..k]
    && t.h.read == s.h.read && t.h.readopen == s.h.readopen && t.h.writeopen == s.h.writeopen
    && t.h.lk == s.h.lk && t.h.pt == s.h.pt
  }

  lemma WroteThenMore(s: State, u: State, t: State, i: nat, k: nat)
    requires Wrote(s, u, i, 1) && Wrote(u, t, i, k) && k + 1 <= |s.procs[i].pc.op.rest|
    ensures Wrote(s, t, i, k + 1)
  {
    hide RingOk;
    var rest := s.procs[i].pc.op.rest;
    assert rest[1..][k..] == rest[k + 1..];
    assert rest[..1] + rest[1..][..k] == rest[..k + 1];
  }

  lemma WroteNone(s: State, i: nat)
    requires i < |s.procs| && s.procs[i].pc.Loop? && s.procs[i].pc.op.W? && RingOk(s.h)
    ensures Wrote(s, s, i, 0)
  {
    hide RingOk;
    assert s.procs[i].pc.op.rest[0..] == s.procs[i].pc.op.rest;
    assert s.procs[i := s.procs[i].(pc := Loop(W(s.procs[i].pc.op.rest)))] == s.procs;
  }

  lemma WroteOne(s: State, i: nat)
    requires RingOk(s.h) && i < |s.procs| && s.procs[i].pc.Loop? && s.procs[i].pc.op.W?
    requires s.procs[i].pc.op.rest != [] && |s.h.written| < |s.h.read| + PIPESIZE
    ensures Enabled(s, Step(i)) && Wrote(s, Next(s, Step(i)), i, 1)
  {
    TestsExact(s.h);
    RingMove(s.h, i, s.procs[i].pc, s.procs[i].killed);
    hide RingOk;
    assert s.procs[i].pc.op.rest[..1] == [s.procs[i].pc.op.rest[0]];
    assert NudgeAll(s.procs[i].pc, s.procs) == s.procs;
  }

  /** A writer with the lock and room in the pipe copies k bytes in k steps. */
  lemma {:induction false} WritesMany(s: State, i: nat, k: nat)
    requires RingOk(s.h) && i < |s.procs|
    requires s.procs[i].pc.Loop? && s.procs[i].pc.op.W? && k <= |s.procs[i].pc.op.rest|
    requires |s.h.written| + k <= |s.h.read| + PIPESIZE
    ensures IsRun(s, Steps(i, k)) && Wrote(s, After(s, Steps(i, k)), i, k)
    decreases k
  {
    hide RingOk, Next, Enabled;
    if k == 0 {
      WroteNone(s, i);
    } else {
      WroteOne(s, i);
      var u := Next(s, Step(i));
      WritesMany(u, i, k - 1);
      assert Steps(i, k)[0] == Step(i) && Steps(i, k)[1..] == Steps(i, k - 1);
      WroteThenMore(s, u, After(u, Steps(i, k - 1)), i, k - 1);
    }
  }

  /** A fresh pipe with one process to read and one to write. */
  function TwoProcs(): State {
    State([Proc(Idle, false), Proc(Idle, false)],
          Shared(-1, -1, seq(PIPESIZE, _ => 0), 0, 0, true, true, [], []))
  }

  /** The reader goes to sleep, a write of 513 bytes starts and its process is
      killed. */
  function ReaderSleeps(): seq<Event> {
    [Start(0, R(1, 0)), Step(0), Step(0), Step(0), Step(0), Step(0)]
  }

  function WriterComes(bytes: seq<int>): seq<Event> {
    [Start(1, W(bytes)), Step(1), Kill(1)]
  }

  /** One step of the reader, which wakes nobody. */
  lemma ReaderSteps(es: seq<Event>, h: Shared, pc: Pc, killed: bool, k: Shared, q: Pc)
    requires Reaches(TwoProcs(), es, State([Proc(pc, killed), Proc(Idle, false)], h))
    requires |h.data| == PIPESIZE && CanMove(h, pc) && Move(h, 0, pc, killed) == (k, q)
    ensures Reaches(TwoProcs(), es + [Step(0)], State([Proc(q, killed), Proc(Idle, false)], k))
  {
    hide Reaches, Move, CanMove;
    var s := State([Proc(pc, killed), Proc(Idle, false)], h);
    var t := State([Proc(q, killed), Proc(Idle, false)], k);
    assert NudgeAll(pc, s.procs)[0 := Proc(q, killed)] == t.procs;
    OneMore(TwoProcs(), es, s, Step(0), t, es + [Step(0)]);
  }

  /** The reader finds the pipe empty and is about to sleep. */
  lemma ReaderWaits()
    ensures Reaches(TwoProcs(), [Start(0, R(1, 0)), Step(0), Step(0)],
                    State([Proc(Sleep1(R(1, 0)), false), Proc(Idle, false)], TwoProcs().h.(lk := 0)))
  {
    var s := TwoProcs();
    var h, op := s.h, R(1, 0);
    var es := [Start(0, op)];
    assert Reaches(s, [], s);
    OneMore(s, [], s, Start(0, op), State([Proc(Lock(op), false), Proc(Idle, false)], h), es);
    hide Reaches, Enabled, Next, TwoProcs;
    ReaderSteps(es, h, Lock(op), false, h.(lk := 0), Loop(op));
    ReaderSteps(es + [Step(0)], h.(lk := 0), Loop(op), false, h.(lk := 0), Sleep1(op));
    assert es + [Step(0)] + [Step(0)] == [Start(0, op), Step(0), Step(0)];
  }

  /** And sleeps, killed or not. */
  lemma ReaderSleepsAfter(es: seq<Event>, killed: bool)
    requires Reaches(TwoProcs(), es, State([Proc(Sleep1(R(1, 0)), killed), Proc(Idle, false)], TwoProcs().h.(lk := 0)))
    ensures Reaches(TwoProcs(), es + [Step(0), Step(0), Step(0)],
                    State([Proc(Asleep(R(1, 0)), killed), Proc(Idle, false)], TwoProcs().h))
  {
    hide Reaches, Enabled, Next;
    var h, op := TwoProcs().h, R(1, 0);
    ReaderSteps(es, h.(lk := 0), Sleep1(op), killed, h.(lk := 0, pt := 0), Sleep2(op));
    ReaderSteps(es + [Step(0)], h.(lk := 0, pt := 0), Sleep2(op), killed, h.(pt := 0), Sleep3(op));
    ReaderSteps(es + [Step(0)] + [Step(0)], h.(pt := 0), Sleep3(op), killed, h, Asleep(op));
    assert es + [Step(0)] + [Step(0)] + [Step(0)] == es + [Step(0), Step(0), Step(0)];
  }

  lemma ReaderAsleep()
    ensures Reaches(TwoProcs(), ReaderSleeps(), State([Proc(Asleep(R(1, 0)), false), Proc(Idle, false)], TwoProcs().h))
  {
    hide Reaches;
    ReaderWaits();
    var es := [Start(0, R(1, 0)), Step(0), Step(0)];
    ReaderSleepsAfter(es, false);
    assert es + [Step(0), Step(0), Step(0)] == ReaderSleeps();
  }

  lemma WriterKilled(s: State, bytes: seq<int>)
    requires s == State([Proc(Asleep(R(1, 0)), false), Proc(Idle, false)], TwoProcs().h)
    ensures Reaches(s, WriterComes(bytes),
                    State([Proc(Asleep(R(1, 0)), false), Proc(Loop(W(bytes)), true)], s.h.(lk := 1)))
  {
    var r := Proc(Asleep(R(1, 0)), false);
    var s1 := State([r, Proc(Lock(W(bytes)), false)], s.h);
    var s2 := State([r, Proc(Loop(W(bytes)), false)], s.h.(lk := 1));
    assert Reaches(s, [], s);
    hide Reaches;
    OneMore(s, [], s, Start(1, W(bytes)), s1, [Start(1, W(bytes))]);
    OneMore(s, [Start(1, W(bytes))], s1, Step(1), s2, [Start(1, W(bytes)), Step(1)]);
    OneMore(s, [Start(1, W(bytes)), Step(1)], s2, Kill(1),
            State([r, Proc(Loop(W(bytes)), true)], s.h.(lk := 1)), WriterComes(bytes));
  }

  /** The writer finds the pipe full, gives up and lets the lock go. */
  lemma WriterLeaves(s: State, bytes: seq<int>)
    requires s.procs == [Proc(Asleep(R(1, 0)), false), Proc(Loop(W(bytes)), true)] && bytes != []
    requires RingOk(s.h) && Full(s.h) && s.h.readopen && s.h.lk == 1 && s.h.pt == -1
    ensures Reaches(s, [Step(1), Step(1)],
                    State([Proc(Asleep(R(1, 0)), false), Proc(Idle, true)], s.h.(lk := -1)))
  {
    var r := Proc(Asleep(R(1, 0)), false);
    assert Reaches(s, [], s);
    hide Reaches;
    OneMore(s, [], s, Step(1), State([r, Proc(Release(W(bytes)), true)], s.h), [Step(1)]);
    OneMore(s, [Step(1)], State([r, Proc(Release(W(bytes)), true)], s.h), Step(1),
            State([r, Proc(Idle, true)], s.h.(lk := -1)), [Step(1), Step(1)]);
  }

  function LosingRun(bytes: seq<int>): seq<Event> {
    ReaderSleeps() + WriterComes(bytes) + Steps(1, PIPESIZE) + [Step(1), Step(1)]
  }

  lemma PipeFilled(bytes: seq<int>) returns (h: Shared)
    requires |bytes| == PIPESIZE + 1
    ensures var r := Proc(Asleep(R(1, 0)), false);
            Reaches(State([r, Proc(Loop(W(bytes)), true)], TwoProcs().h.(lk := 1)), Steps(1, PIPESIZE),
                    State([r, Proc(Loop(W(bytes[PIPESIZE..])), true)], h))
    ensures RingOk(h) && Full(h) && h.readopen && h.lk == 1 && h.pt == -1
    ensures h.written == bytes[..PIPESIZE] && h.read == []
  {
    var s := State([Proc(Asleep(R(1, 0)), false), Proc(Loop(W(bytes)), true)], TwoProcs().h.(lk := 1));
    WritesMany(s, 1, PIPESIZE);
    h := After(s, Steps(1, PIPESIZE)).h;
    TestsExact(h);
  }

  lemma LosingReaches(bytes: seq<int>) returns (h: Shared)
    requires |bytes| == PIPESIZE + 1
    ensures Reaches(TwoProcs(), LosingRun(bytes), State([Proc(Asleep(R(1, 0)), false), Proc(Idle, true)], h))
    ensures RingOk(h) && Full(h) && h.lk == -1 && h.written == bytes[..PIPESIZE] && h.read == []
  {
    hide Reaches;
    var s, r := TwoProcs(), Proc(Asleep(R(1, 0)), false);
    var s1 := State([r, Proc(Idle, false)], s.h);
    var s2 := State([r, Proc(Loop(W(bytes)), true)], s.h.(lk := 1));
    ReaderAsleep();
    WriterKilled(s1, bytes);
    var k := PipeFilled(bytes);
    var s3 := State([r, Proc(Loop(W(bytes[PIPESIZE..])), true)], k);
    WriterLeaves(s3, bytes[PIPESIZE..]);
    h := k.(lk := -1);
    Extend(s, ReaderSleeps(), s1, WriterComes(bytes), s2);
    Extend(s, ReaderSleeps() + WriterComes(bytes), s2, Steps(1, PIPESIZE), s3);
    Extend(s, ReaderSleeps() + WriterComes(bytes) + Steps(1, PIPESIZE), s3, [Step(1), Step(1)],
           State([r, Proc(Idle, true)], h));
  }

  /** Any 513 bytes do it: the reader is left asleep beside a full pipe and nothing can
      move. */
  lemma ReaderLost(bytes: seq<int>)
    requires |bytes| == PIPESIZE + 1
    ensures Fresh(TwoProcs()) && IsRun(TwoProcs(), LosingRun(bytes))
    ensures var t := After(TwoProcs(), LosingRun(bytes));
            && t.procs == [Proc(Asleep(R(1, 0)), false), Proc(Idle, true)]
            && t.h.written == bytes[..PIPESIZE] && t.h.read == []
            && !NoLost(t, NRead)
            && forall i: nat :: !Enabled(t, Step(i))
  {
    var h := LosingReaches(bytes);
    StuckThere(State([Proc(Asleep(R(1, 0)), false), Proc(Idle, true)], h));
    hide LosingRun, Next, NoLost, Enabled, RingOk;
  }

  lemma StuckThere(t: State)
    requires t.procs == [Proc(Asleep(R(1, 0)), false), Proc(Idle, true)] && t.h.lk == -1
    requires Full(t.h) && RingOk(t.h)
    ensures !NoLost(t, NRead)
    ensures forall i: nat :: !Enabled(t, Step(i))
  {
    NotBoth(t.h);
    assert Sleeper(t.procs[0].pc, NRead);
  }

  // ----- the run that misses a kill -----

  function MissingRun(): seq<Event> {
    [Start(0, R(1, 0)), Step(0), Step(0), Kill(0), Step(0), Step(0), Step(0)]
  }

  /** A process that reads an empty pipe and is killed on its way to sleep: it sleeps
      all the same, and nothing can move. */
  lemma KillMissed()
    ensures Fresh(TwoProcs()) && IsRun(TwoProcs(), MissingRun()) && SomeKillMissed(TwoProcs(), MissingRun())
    ensures var t := After(TwoProcs(), MissingRun());
            t.procs == [Proc(Asleep(R(1, 0)), true), Proc(Idle, false)] && forall i: nat :: !Enabled(t, Step(i))
  {
    hide Reaches, Next, Enabled, MissingRun, Core, NeverKilledBound, SomeKillMissed;
    KillReaches();
    var t := State([Proc(Asleep(R(1, 0)), true), Proc(Idle, false)], TwoProcs().h);
    assert IsRun(TwoProcs(), MissingRun()) && After(TwoProcs(), MissingRun()) == t by { Unfolded(TwoProcs(), MissingRun(), t); }
    FreshCore(TwoProcs());
    NeverKilledBoundIff(TwoProcs(), MissingRun());
    LastIsNotBound(TwoProcs(), MissingRun());
    assert t.procs[0].killed && Bound(t.procs[0].pc);
    NobodyMoves(t);
  }

  lemma Unfolded(s: State, es: seq<Event>, t: State)
    requires Reaches(s, es, t)
    ensures IsRun(s, es) && After(s, es) == t
  {
  }

  lemma NobodyMoves(t: State)
    requires t.procs == [Proc(Asleep(R(1, 0)), true), Proc(Idle, false)]
    ensures forall i: nat :: !Enabled(t, Step(i))
  {
  }

  lemma KillReaches()
    ensures Reaches(TwoProcs(), MissingRun(), State([Proc(Asleep(R(1, 0)), true), Proc(Idle, false)], TwoProcs().h))
  {
    hide Reaches;
    var s, h := TwoProcs(), TwoProcs().h;
    var es := [Start(0, R(1, 0)), Step(0), Step(0)];
    var s3 := State([Proc(Sleep1(R(1, 0)), false), Proc(Idle, false)], h.(lk := 0));
    var s4 := State([Proc(Sleep1(R(1, 0)), true), Proc(Idle, false)], h.(lk := 0));
    ReaderWaits();
    assert Enabled(s3, Kill(0)) && Next(s3, Kill(0)) == s4;
    OneMore(s, es, s3, Kill(0), s4, es + [Kill(0)]);
    ReaderSleepsAfter(es + [Kill(0)], true);
    assert es + [Kill(0)] + [Step(0), Step(0), Step(0)] == MissingRun();
  }

  lemma {:induction false} LastIsNotBound(s: State, es: seq<Event>)
    requires IsRun(s, es)
    ensures NeverKilledBound(s, es) ==> NoKilledBound(After(s, es))
    decreases |es|
  {
    if es != [] {
      LastIsNotBound(Next(s, es[0]), es[1..]);
    }
  }
}
