/** The pipe as a protocol: any number of processes read, write, close and are
    killed; the pipe lock and the process table lock are taken and released in
    separate steps, as sleep and wakeup do. */
module Pipe {

  const PIPESIZE: nat := 512
  const UINT: int := 0x1_0000_0000

  datatype Chan = NRead | NWrite

  /** A call in progress: bytes still to write; bytes wanted and bytes already got;
      the last close of either end. */
  datatype Op = W(rest: seq<int>) | R(n: nat, got: nat) | CloseW | CloseR

  /** The channel a call sleeps on, and the channel it wakes when it is done. */
  function SleepChan(op: Op): Chan {
    if op.R? then NRead else NWrite
  }

  function WakeChan(op: Op): Chan {
    if op.W? || op.CloseW? then NRead else NWrite
  }

  datatype Pc =
    | Idle
    | Lock(op: Op)       // acquire(&p->lock)
    | Loop(op: Op)       // has the lock: the loop test, or setting the flag in pipeclose
    | Copy(op: Op)       // piperead's copy loop
    | WakeFull(op: Op)   // pipewrite found the pipe full: wakeup, then sleep
    | WakeDone(op: Op)   // the wakeup before the last release
    | Sleep1(op: Op)     // sleep: acquire(&ptable.lock)
    | Sleep2(op: Op)     // sleep: release(lk)
    | Sleep3(op: Op)     // sleep: SLEEPING, give up the processor and ptable.lock
    | Asleep(op: Op)
    | Woken(op: Op)      // sleep: acquire(lk) again
    | Release(op: Op)

  datatype Proc = Proc(pc: Pc, killed: bool)

  /** What the processes share. lk and pt name the holders of the two locks, -1 for
      none. `written` and `read` are the whole histories of bytes put in and taken
      out. */
  datatype Shared = Shared(lk: int, pt: int, data: seq<int>, nread: int, nwrite: int,
                           readopen: bool, writeopen: bool, written: seq<int>, read: seq<int>)

  datatype State = State(procs: seq<Proc>, h: Shared)

  datatype Event =
    | Start(i: nat, op: Op)
    | Step(i: nat)
    | Kill(i: nat)

  predicate Full(h: Shared) {
    h.nwrite == (h.nread + PIPESIZE) % UINT
  }

  predicate Empty(h: Shared) {
    h.nread == h.nwrite
  }

  predicate HasLk(pc: Pc) {
    pc.Loop? || pc.Copy? || pc.WakeFull? || pc.WakeDone? || pc.Sleep1? || pc.Sleep2? || pc.Release?
  }

  predicate HasPt(pc: Pc) {
    pc.Sleep2? || pc.Sleep3?
  }

  predicate Using(pc: Pc, read: bool) {
    !pc.Idle? && if read then pc.op.R? || pc.op.CloseR? else pc.op.W? || pc.op.CloseW?
  }

  predicate NobodyUses(s: State, read: bool) {
    forall j :: 0 <= j < |s.procs| ==> !Using(s.procs[j].pc, read)
  }

  predicate NobodyCloses(s: State, read: bool) {
    forall j :: 0 <= j < |s.procs| && !s.procs[j].pc.Idle? ==>
      if read then !s.procs[j].pc.op.CloseR? else !s.procs[j].pc.op.CloseW?
  }

  /** A call needs an open end, and the last close comes when no call on that end is
      in progress, because each holds a reference to the file. */
  predicate MayStart(s: State, op: Op) {
    match op
    case W(_) => s.h.writeopen && NobodyCloses(s, false)
    case R(_, got) => s.h.readopen && NobodyCloses(s, true) && got == 0
    case CloseW => s.h.writeopen && NobodyUses(s, false)
    case CloseR => s.h.readopen && NobodyUses(s, true)
  }

  /** Whether a process at pc can take its next step. Only a read copies out. */
  predicate CanMove(h: Shared, pc: Pc) {
    match pc
    case Idle => false
    case Lock(_) => h.lk == -1
    case Woken(_) => h.lk == -1
    case WakeFull(_) => h.pt == -1
    case WakeDone(_) => h.pt == -1
    case Sleep1(_) => h.pt == -1
    case Asleep(_) => false
    case Copy(op) => op.R?
    case _ => true
  }

  predicate Enabled(s: State, e: Event) {
    && e.i < |s.procs| && |s.h.data| == PIPESIZE
    && match e
       case Start(i, op) => s.procs[i].pc.Idle? && MayStart(s, op)
       case Kill(i) => s.h.pt == -1
       case Step(i) => CanMove(s.h, s.procs[i].pc)
  }

  /** pipewrite, holding the lock, at the head of its loops. */
  function WriteStep(h: Shared, op: Op, killed: bool): (Shared, Pc)
    requires op.W? && |h.data| == PIPESIZE
  {
    if op.rest == [] then (h, WakeDone(op))
    else if Full(h) then
      (h, if !h.readopen || killed then Release(op) else WakeFull(op))
    else
      (h.(data := h.data[h.nwrite % PIPESIZE := op.rest[0]], nwrite := (h.nwrite + 1) % UINT,
          written := h.written + [op.rest[0]]),
       Loop(W(op.rest[1..])))
  }

  /** piperead, holding the lock, at its waiting loop. */
  function ReadTest(h: Shared, op: Op, killed: bool): Pc {
    if Empty(h) && h.writeopen then
      if killed then Release(op) else Sleep1(op)
    else Copy(op)
  }

  function ReadStep(h: Shared, op: Op): (Shared, Pc)
    requires op.R? && |h.data| == PIPESIZE
  {
    if op.got >= op.n || Empty(h) then (h, WakeDone(op))
    else
      (h.(nread := (h.nread + 1) % UINT, read := h.read + [h.data[h.nread % PIPESIZE]]),
       Copy(R(op.n, op.got + 1)))
  }

  /** A step of process i at pc: the new shared state and where the process goes. */
  function Move(h: Shared, i: nat, pc: Pc, killed: bool): (Shared, Pc)
    requires CanMove(h, pc) && |h.data| == PIPESIZE
  {
    match pc
    case Idle => (h, pc)
    case Asleep(_) => (h, pc)
    case Lock(op) => (h.(lk := i), Loop(op))
    case Woken(op) => (h.(lk := i), Loop(op))
    case Loop(op) =>
      (match op
       case W(_) => WriteStep(h, op, killed)
       case R(_, _) => (h, ReadTest(h, op, killed))
       case CloseW => (h.(writeopen := false), WakeDone(op))
       case CloseR => (h.(readopen := false), WakeDone(op)))
    case Copy(op) => ReadStep(h, op)
    case WakeFull(op) => (h, Sleep1(op))
    case WakeDone(op) => (h, Release(op))
    case Sleep1(op) => (h.(pt := i), Sleep2(op))
    case Sleep2(op) => (h.(lk := -1), Sleep3(op))
    case Sleep3(op) => (h.(pt := -1), Asleep(op))
    case Release(op) => (h.(lk := -1), Idle)
  }

  /** Whether the step of a process at pc is wakeup(chan). */
  predicate Rouses(pc: Pc, chan: Chan) {
    (pc.WakeFull? && chan == NRead) || (pc.WakeDone? && chan == WakeChan(pc.op))
  }

  /** wakeup1 on one process, when the step taken is that of a process at pc. */
  function Nudge(pc: Pc, p: Proc): Proc {
    if p.pc.Asleep? && Rouses(pc, SleepChan(p.pc.op)) then p.(pc := Woken(p.pc.op)) else p
  }

  function NudgeAll(pc: Pc, procs: seq<Proc>): (r: seq<Proc>)
    ensures |r| == |procs|
    ensures forall j :: 0 <= j < |r| ==> r[j] == Nudge(pc, procs[j])
  {
    seq(|procs|, j requires 0 <= j < |procs| => Nudge(pc, procs[j]))
  }

  function Killed(p: Proc): Proc {
    Proc(if p.pc.Asleep? then Woken(p.pc.op) else p.pc, true)
  }

  function Next(s: State, e: Event): State
    requires Enabled(s, e)
  {
    match e
    case Start(i, op) => s.(procs := s.procs[i := s.procs[i].(pc := Lock(op))])
    case Kill(i) => s.(procs := s.procs[i := Killed(s.procs[i])])
    case Step(i) =>
      var p := s.procs[i];
      var m := Move(s.h, i, p.pc, p.killed);
      State(NudgeAll(p.pc, s.procs)[i := p.(pc := m.1)], m.0)
  }

  // ----- the ring -----

  /** What has been read is a prefix of what has been written; the rest is in the
      ring, at the counters taken modulo its size; the counters are the lengths of
      the histories, wrapped at 32 bits. */
  ghost predicate RingOk(h: Shared) {
    && |h.data| == PIPESIZE
    && |h.read| <= |h.written| <= |h.read| + PIPESIZE
    && h.read == h.written[..|h.read|]
    && h.nread == |h.read| % UINT && h.nwrite == |h.written| % UINT
    && forall j :: |h.read| <= j < |h.written| ==> h.data[j % PIPESIZE] == h.written[j]
  }

  lemma WrapThenSlot(n: nat)
    ensures n % UINT % PIPESIZE == n % PIPESIZE
    ensures (n % UINT + 1) % UINT == (n + 1) % UINT
    ensures (n % UINT + PIPESIZE) % UINT == (n + PIPESIZE) % UINT
  {
    assert UINT == PIPESIZE * 0x80_0000;
    assert n == UINT * (n / UINT) + n % UINT;
    assert n == PIPESIZE * (0x80_0000 * (n / UINT)) + n % UINT;
  }

  /** The wrapped tests for full and empty are exact. */
  lemma TestsExact(h: Shared)
    requires RingOk(h)
    ensures Full(h) <==> |h.written| == |h.read| + PIPESIZE
    ensures Empty(h) <==> |h.written| == |h.read|
  {
    WrapThenSlot(|h.read|);
    NearWrap(|h.read|, |h.written|);
    NearWrap(|h.written|, |h.read| + PIPESIZE);
  }

  lemma NearWrap(a: nat, b: nat)
    requires a <= b <= a + PIPESIZE
    ensures a % UINT == b % UINT <==> a == b
  {
    if a % UINT == b % UINT {
      assert b - a == UINT * (b / UINT - a / UINT);
    }
  }

  lemma OtherSlot(j: nat, k: nat)
    requires j < k < j + PIPESIZE
    ensures j % PIPESIZE != k % PIPESIZE
  {
  }

  lemma RingWrite(h: Shared, op: Op, killed: bool)
    requires RingOk(h) && op.W?
    ensures RingOk(WriteStep(h, op, killed).0)
  {
    TestsExact(h);
    if op.rest != [] && !Full(h) {
      var t := WriteStep(h, op, killed).0;
      var n := |h.written|;
      WrapThenSlot(n);
      forall j | |t.read| <= j < |t.written| ensures t.data[j % PIPESIZE] == t.written[j] {
        if j < n {
          OtherSlot(j, n);
        }
      }
    }
  }

  lemma RingRead(h: Shared, op: Op)
    requires RingOk(h) && op.R?
    ensures RingOk(ReadStep(h, op).0)
  {
    TestsExact(h);
    WrapThenSlot(|h.read|);
  }

  lemma RingMove(h: Shared, i: nat, pc: Pc, killed: bool)
    requires RingOk(h) && CanMove(h, pc)
    ensures RingOk(Move(h, i, pc, killed).0)
  {
    if pc.Loop? && pc.op.W? {
      RingWrite(h, pc.op, killed);
    } else if pc.Copy? {
      RingRead(h, pc.op);
    }
  }
}
