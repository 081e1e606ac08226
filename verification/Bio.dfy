/** The buffer cache: at most NBUF blocks in memory, recycled least recently used
    first, never while in use or holding data the log has not yet installed. */
module Bio {
  import opened BlockDisk
  import opened BufRing
  import opened Sets

  /** locked is the buffer's sleep lock; valid and dirty are B_VALID and B_DIRTY. */
  datatype Buf = Buf(dev: int, blockno: int, valid: bool, dirty: bool, refcnt: nat, locked: bool, data: Block)

  predicate Holds(b: Buf, dev: int, blockno: int) {
    b.dev == dev && b.blockno == blockno
  }

  predicate Free(b: Buf) {
    b.refcnt == 0 && !b.dirty
  }

  predicate Cached(bufs: seq<Buf>, dev: int, blockno: int) {
    exists i :: 0 <= i < |bufs| && Holds(bufs[i], dev, blockno)
  }

  /** No two buffers hold one block, except that at boot all are at (0, 0). */
  predicate UniqueKeys(bufs: seq<Buf>) {
    forall i, j :: 0 <= i < j < |bufs| && Holds(bufs[j], bufs[i].dev, bufs[i].blockno) ==> Holds(bufs[i], 0, 0)
  }

  /** What each buffer may say. `contents` is the last data written to each block;
      `touched` are the buffers whose holder has changed the data and not yet called
      bwrite or log_write. */
  ghost predicate BufOk(b: Buf, i: int, contents: Disk, touched: set<int>) {
    && (b.valid ==> b.dev == 1 && 0 <= b.blockno < |contents| && (i !in touched ==> b.data == contents[b.blockno]))
    && (b.dirty ==> b.valid) && (i in touched ==> b.valid && b.locked) && (b.locked ==> b.refcnt > 0)
  }

  predicate DirtyOn(bufs: seq<Buf>, n: int) {
    exists i :: 0 <= i < |bufs| && bufs[i].dirty && Holds(bufs[i], 1, n)
  }

  ghost predicate Coherent(bufs: seq<Buf>, disk: Disk, contents: Disk, touched: set<int>) {
    && |disk| == |contents|
    && (forall i :: 0 <= i < |bufs| ==> BufOk(bufs[i], i, contents, touched))
    && (forall n :: 0 <= n < |disk| ==> disk[n] == contents[n] || DirtyOn(bufs, n))
  }

  /** Most recently released first. */
  ghost predicate ByAge(ring: seq<int>, stamp: seq<int>, now: int) {
    && |stamp| == NBUF && Buffers(ring)
    && (forall j, k :: 0 <= j < k < |ring| ==> stamp[ring[j]] > stamp[ring[k]])
    && (forall i :: 0 <= i < NBUF ==> stamp[i] < now)
  }

  /** A change of one buffer that keeps its block and whether it is dirty. */
  lemma BlockKept(bufs: seq<Buf>, i: nat, b: Buf, disk: Disk, contents: Disk, touched: set<int>, touched': set<int>)
    requires UniqueKeys(bufs) && Coherent(bufs, disk, contents, touched) && i < |bufs|
    requires Holds(b, bufs[i].dev, bufs[i].blockno) && b.dirty == bufs[i].dirty && BufOk(b, i, contents, touched')
    requires forall j :: j != i ==> (j in touched' <==> j in touched)
    ensures UniqueKeys(bufs[i := b]) && Coherent(bufs[i := b], disk, contents, touched')
  {
    var bufs' := bufs[i := b];
    forall j | 0 <= j < |bufs| ensures BufOk(bufs'[j], j, contents, touched') {
      assert BufOk(bufs[j], j, contents, touched);
    }
    forall n | 0 <= n < |disk| && DirtyOn(bufs, n) ensures DirtyOn(bufs', n) {
      var j :| 0 <= j < |bufs| && bufs[j].dirty && Holds(bufs[j], 1, n);
      assert bufs'[j].dirty && Holds(bufs'[j], 1, n);
    }
  }

  lemma Referenced(bufs: seq<Buf>, i: nat, disk: Disk, contents: Disk, touched: set<int>)
    requires UniqueKeys(bufs) && Coherent(bufs, disk, contents, touched) && i < |bufs|
    ensures var bufs' := bufs[i := bufs[i].(refcnt := bufs[i].refcnt + 1)];
            UniqueKeys(bufs') && Coherent(bufs', disk, contents, touched)
  {
    assert BufOk(bufs[i], i, contents, touched);
    BlockKept(bufs, i, bufs[i].(refcnt := bufs[i].refcnt + 1), disk, contents, touched, touched);
  }

  /** A free buffer is given to a block no buffer holds. */
  lemma Recycled(bufs: seq<Buf>, i: nat, dev: int, blockno: int, disk: Disk, contents: Disk, touched: set<int>)
    requires UniqueKeys(bufs) && Coherent(bufs, disk, contents, touched) && i < |bufs|
    requires Free(bufs[i]) && !Cached(bufs, dev, blockno)
    ensures var bufs' := bufs[i := Buf(dev, blockno, false, false, 1, false, bufs[i].data)];
            !bufs[i].locked && UniqueKeys(bufs') && Coherent(bufs', disk, contents, touched)
  {
    var bufs' := bufs[i := Buf(dev, blockno, false, false, 1, false, bufs[i].data)];
    assert BufOk(bufs[i], i, contents, touched);
    forall j | 0 <= j < |bufs| && j != i ensures BufOk(bufs'[j], j, contents, touched) && !Holds(bufs'[j], dev, blockno) {
      assert BufOk(bufs[j], j, contents, touched);
    }
    forall n | 0 <= n < |disk| && DirtyOn(bufs, n) ensures DirtyOn(bufs', n) {
      var j :| 0 <= j < |bufs| && bufs[j].dirty && Holds(bufs[j], 1, n);
      assert bufs'[j].dirty && Holds(bufs'[j], 1, n);
    }
  }

  /** The holder's data becomes the contents of the block: written through to the disk
      (bwrite) or kept dirty (log_write). */
  lemma Written(bufs: seq<Buf>, i: nat, b: Buf, disk: Disk, disk': Disk, contents: Disk, touched: set<int>)
    requires UniqueKeys(bufs) && Coherent(bufs, disk, contents, touched) && i < |bufs|
    requires bufs[i].valid && bufs[i].locked
    requires b == bufs[i].(dirty := b.dirty)
    requires disk' == if b.dirty then disk else disk[b.blockno := b.data]
    ensures UniqueKeys(bufs[i := b])
    ensures 0 <= b.blockno < |contents|
    ensures Coherent(bufs[i := b], disk', contents[b.blockno := b.data], touched - {i})
  {
    var bufs', n := bufs[i := b], b.blockno;
    assert BufOk(bufs[i], i, contents, touched);
    forall j | 0 <= j < |bufs| ensures BufOk(bufs'[j], j, contents[n := b.data], touched - {i}) {
      assert BufOk(bufs[j], j, contents, touched);
      assert j != i ==> !Holds(bufs[j], 1, n) by {
        assert j < i ==> (Holds(bufs[i], bufs[j].dev, bufs[j].blockno) ==> Holds(bufs[j], 0, 0));
        assert i < j ==> (Holds(bufs[j], bufs[i].dev, bufs[i].blockno) ==> Holds(bufs[i], 0, 0));
      }
    }
    forall m | 0 <= m < |disk| ensures disk'[m] == contents[n := b.data][m] || DirtyOn(bufs', m) {
      if m == n {
        assert b.dirty ==> bufs'[i].dirty && Holds(bufs'[i], 1, m);
      } else if DirtyOn(bufs, m) {
        var j :| 0 <= j < |bufs| && bufs[j].dirty && Holds(bufs[j], 1, m);
        assert bufs'[j].dirty && Holds(bufs'[j], 1, m);
      }
    }
  }

  class Cache {
    var bufs: seq<Buf>
    var next: seq<int>
    var prev: seq<int>
    var disk: Disk
    ghost var ring: seq<int>
    ghost var contents: Disk
    ghost var touched: set<int>
    ghost var stamp: seq<int>   // when each buffer was last released by its last user
    ghost var now: int

    ghost predicate Valid()
      reads this
    {
      && |bufs| == NBUF && |ring| == NBUF && Linked(next, prev, ring) && ByAge(ring, stamp, now)
      && UniqueKeys(bufs) && Coherent(bufs, disk, contents, touched)
    }

    /** binit, on a disk. */
    constructor (d: Disk)
      ensures Valid() && disk == d && contents == d && touched == {}
      ensures forall i :: 0 <= i < NBUF ==> bufs[i].refcnt == 0 && !bufs[i].dirty && !bufs[i].valid
    {
      var n, p := seq(NBUF + 1, _ => NBUF), seq(NBUF + 1, _ => NBUF);
      ghost var r: seq<int> := [];
      EmptyRing(n, p);
      for b := 0 to NBUF
        invariant |n| == |p| == NBUF + 1 && |r| == b && Linked(n, p, r)
        invariant forall k :: 0 <= k < b ==> r[k] == b - 1 - k
      {
        Pushed(n, p, r, b);
        n := n[b := n[NBUF]];
        p := p[b := NBUF];
        p := p[n[NBUF] := b];
        n := n[NBUF := b];
        r := [b] + r;
      }
      bufs := seq(NBUF, _ => Buf(0, 0, false, false, 0, false, []));
      next, prev, ring := n, p, r;
      disk, contents, touched := d, d, {};
      stamp, now := seq(NBUF, i => i), NBUF;
    }

    /** The locked part of bget: a reference to the buffer of the block, or to the least
        recently used free buffer, or no buffers. */
    method Find(dev: int, blockno: int) returns (ok: bool, b: int)
      requires Valid()
      modifies `bufs
      ensures Valid()
      ensures ok <==> Cached(old(bufs), dev, blockno) || exists i :: 0 <= i < NBUF && Free(old(bufs[i]))
      ensures !ok ==> bufs == old(bufs)
      ensures ok ==> 0 <= b < NBUF && Holds(bufs[b], dev, blockno)
      ensures ok && Cached(old(bufs), dev, blockno) ==>
                Holds(old(bufs[b]), dev, blockno) && bufs == old(bufs)[b := old(bufs[b]).(refcnt := old(bufs[b]).refcnt + 1)]
      ensures ok && !Cached(old(bufs), dev, blockno) ==>
                && Free(old(bufs[b])) && (forall i :: 0 <= i < NBUF && Free(old(bufs[i])) ==> stamp[b] <= stamp[i])
                && bufs == old(bufs)[b := Buf(dev, blockno, false, false, 1, false, old(bufs[b]).data)]
    {
      b := Scan(dev, blockno);
      if b != NBUF {
        Referenced(bufs, b, disk, contents, touched);
        hide Coherent, BufOk, Linked, UniqueKeys;
        bufs := bufs[b := bufs[b].(refcnt := bufs[b].refcnt + 1)];
        return true, b;
      }
      b := Oldest();
      if b != NBUF {
        Recycled(bufs, b, dev, blockno, disk, contents, touched);
        hide Coherent, BufOk, Linked, UniqueKeys;
        bufs := bufs[b := Buf(dev, blockno, false, false, 1, bufs[b].locked, bufs[b].data)];
        return true, b;
      }
      ok := false;
    }

    /** From the front: the buffer of the block, or the head. */
    method Scan(dev: int, blockno: int) returns (b: int)
      requires Valid()
      ensures 0 <= b <= NBUF
      ensures b < NBUF ==> Holds(bufs[b], dev, blockno)
      ensures b == NBUF ==> !Cached(bufs, dev, blockno)
    {
      Follow(next, prev, ring, 0);
      b := next[NBUF];
      ghost var k := 0;
      while b != NBUF
        invariant 0 <= k <= NBUF && b == if k == NBUF then NBUF else ring[k]
        invariant forall j :: 0 <= j < k ==> !Holds(bufs[ring[j]], dev, blockno)
        decreases NBUF - k
      {
        if bufs[b].dev == dev && bufs[b].blockno == blockno {
          return;
        }
        Follow(next, prev, ring, k + 1);
        b, k := next[b], k + 1;
      }
      hide Coherent, Linked, UniqueKeys, ByAge;
      forall i | 0 <= i < NBUF ensures !Holds(bufs[i], dev, blockno) {
        var j := Position(ring, i);
        assert !Holds(bufs[ring[j]], dev, blockno);
      }
    }

    /** From the back: the least recently used free buffer, or the head. */
    method Oldest() returns (b: int)
      requires Valid()
      ensures 0 <= b <= NBUF
      ensures b < NBUF ==> Free(bufs[b]) && forall i :: 0 <= i < NBUF && Free(bufs[i]) ==> stamp[b] <= stamp[i]
      ensures b == NBUF ==> forall i :: 0 <= i < NBUF ==> !Free(bufs[i])
    {
      ghost var k := NBUF;
      Follow(next, prev, ring, k);
      b := prev[NBUF];
      while b != NBUF
        invariant 0 <= k <= NBUF && b == Cycle(ring)[k]
        invariant forall j :: k <= j < NBUF ==> !Free(bufs[ring[j]])
        decreases k
      {
        if bufs[b].refcnt == 0 && !bufs[b].dirty {
          break;
        }
        k := k - 1;
        Follow(next, prev, ring, k);
        b := prev[b];
      }
      hide Coherent, Linked, UniqueKeys;
      forall i | 0 <= i < NBUF && Free(bufs[i]) ensures b != NBUF && stamp[b] <= stamp[i] {
        var j := Position(ring, i);
        assert j < k;
      }
    }

    /** acquiresleep, when the lock is free. */
    method AcquireSleep(b: int)
      requires Valid() && 0 <= b < NBUF && bufs[b].refcnt > 0 && !bufs[b].locked
      modifies `bufs
      ensures Valid() && bufs == old(bufs)[b := old(bufs[b]).(locked := true)]
    {
      assert BufOk(bufs[b], b, contents, touched);
      BlockKept(bufs, b, bufs[b].(locked := true), disk, contents, touched, touched);
      bufs := bufs[b := bufs[b].(locked := true)];
    }

    /** The rest of bread, with the lock: the block is read unless the buffer is valid.
        Whatever other buffers did meanwhile, the data is the last written. */
    method Fill(b: int)
      requires Valid() && 0 <= b < NBUF && bufs[b].locked && b !in touched
      requires bufs[b].dev == 1 && 0 <= bufs[b].blockno < |disk|
      modifies `bufs
      ensures Valid() && |contents| == |disk|
      ensures bufs[b].data == contents[old(bufs[b]).blockno]
      ensures bufs == old(bufs)[b := old(bufs[b]).(valid := true, data := bufs[b].data)]
    {
      assert BufOk(bufs[b], b, contents, touched);
      if !bufs[b].valid {
        ghost var n := bufs[b].blockno;
        NotDirtyTwice(bufs, b);
        BlockKept(bufs, b, bufs[b].(valid := true, data := disk[n]), disk, contents, touched, touched);
        bufs := bufs[b := bufs[b].(valid := true, data := disk[bufs[b].blockno])];
      }
    }

    /** bread, when nobody else holds the block's buffer. */
    method Bread(blockno: int) returns (ok: bool, b: int)
      requires Valid() && 0 <= blockno < |disk|
      requires forall i :: 0 <= i < NBUF && Holds(bufs[i], 1, blockno) ==> !bufs[i].locked
      modifies `bufs
      ensures Valid()
      ensures ok <==> Cached(old(bufs), 1, blockno) || exists i :: 0 <= i < NBUF && Free(old(bufs[i]))
      ensures ok ==> 0 <= b < NBUF && Holds(bufs[b], 1, blockno) && bufs[b].locked && bufs[b].valid
      ensures ok ==> bufs[b].data == contents[blockno]
      ensures forall i :: 0 <= i < NBUF && !(ok && i == b) ==> bufs[i] == old(bufs[i])
    {
      hide Coherent, Linked, UniqueKeys, ByAge;
      ok, b := Find(1, blockno);
      if ok {
        Untouched(bufs, b, disk, contents, touched);
        AcquireSleep(b);
        Fill(b);
      }
    }

    /** The holder changes the data. */
    method Modify(b: int, data: Block)
      requires Valid() && 0 <= b < NBUF && bufs[b].locked && bufs[b].valid
      modifies `bufs, `touched
      ensures Valid() && bufs == old(bufs)[b := old(bufs[b]).(data := data)] && touched == old(touched) + {b}
    {
      assert BufOk(bufs[b], b, contents, touched);
      BlockKept(bufs, b, bufs[b].(data := data), disk, contents, touched, touched + {b});
      bufs := bufs[b := bufs[b].(data := data)];
      touched := touched + {b};
    }

    /** bwrite: to the disk at once. */
    method Bwrite(b: int)
      requires Valid() && 0 <= b < NBUF && bufs[b].locked && bufs[b].valid
      modifies `bufs, `disk, `contents, `touched
      ensures Valid() && bufs == old(bufs)[b := old(bufs[b]).(dirty := false)] && touched == old(touched) - {b}
      ensures 0 <= bufs[b].blockno < |old(disk)|
      ensures disk == old(disk)[bufs[b].blockno := bufs[b].data]
      ensures contents == old(contents)[bufs[b].blockno := bufs[b].data]
    {
      assert BufOk(bufs[b], b, contents, touched);
      ghost var n := bufs[b].blockno;
      Written(bufs, b, bufs[b].(dirty := false), disk, disk[n := bufs[b].data], contents, touched);
      disk := disk[bufs[b].blockno := bufs[b].data];
      contents := contents[n := bufs[b].data];
      bufs := bufs[b := bufs[b].(dirty := false)];
      touched := touched - {b};
    }

    /** log_write's part in the cache: the buffer is kept until it is written. */
    method LogWrite(b: int)
      requires Valid() && 0 <= b < NBUF && bufs[b].locked && bufs[b].valid
      modifies `bufs, `contents, `touched
      ensures Valid() && bufs == old(bufs)[b := old(bufs[b]).(dirty := true)] && touched == old(touched) - {b}
      ensures 0 <= bufs[b].blockno < |contents| == |old(contents)|
      ensures contents == old(contents)[bufs[b].blockno := bufs[b].data]
    {
      assert BufOk(bufs[b], b, contents, touched);
      ghost var n := bufs[b].blockno;
      Written(bufs, b, bufs[b].(dirty := true), disk, disk, contents, touched);
      contents := contents[n := bufs[b].data];
      bufs := bufs[b := bufs[b].(dirty := true)];
      touched := touched - {b};
    }

    /** brelse's first step. A process that waits for the lock may take it before the
        second. */
    method ReleaseSleep(b: int)
      requires Valid() && 0 <= b < NBUF && bufs[b].locked && b !in touched
      modifies `bufs
      ensures Valid() && bufs == old(bufs)[b := old(bufs[b]).(locked := false)]
    {
      assert BufOk(bufs[b], b, contents, touched);
      BlockKept(bufs, b, bufs[b].(locked := false), disk, contents, touched, touched);
      bufs := bufs[b := bufs[b].(locked := false)];
    }

    /** brelse's second step, whoever holds the lock by then, with a reference of its
        own: with the last reference the buffer moves to the front of the ring. */
    method Put(b: int)
      requires Valid() && 0 <= b < NBUF && bufs[b].refcnt > if bufs[b].locked then 1 else 0
      modifies `bufs, `next, `prev, `ring, `stamp, `now
      ensures Valid()
      ensures bufs == old(bufs)[b := old(bufs[b]).(refcnt := old(bufs[b]).refcnt - 1)]
      ensures bufs[b].refcnt > 0 ==> ring == old(ring) && stamp == old(stamp)
      ensures bufs[b].refcnt == 0 ==> ring[0] == b && stamp == old(stamp)[b := old(now)]
      ensures bufs[b].refcnt == 0 ==> exists k :: 0 <= k < NBUF && old(ring[k]) == b && ring == [b] + Without(old(ring), k)
    {
      assert BufOk(bufs[b], b, contents, touched);
      BlockKept(bufs, b, bufs[b].(refcnt := bufs[b].refcnt - 1), disk, contents, touched, touched);
      bufs := bufs[b := bufs[b].(refcnt := bufs[b].refcnt - 1)];
      if bufs[b].refcnt == 0 {
        ToFront(b);
      }
    }

    /** brelse, when nobody comes between its steps. */
    method Brelse(b: int)
      requires Valid() && 0 <= b < NBUF && bufs[b].locked && b !in touched
      modifies `bufs, `next, `prev, `ring, `stamp, `now
      ensures Valid()
      ensures bufs == old(bufs)[b := old(bufs[b]).(locked := false, refcnt := old(bufs[b]).refcnt - 1)]
      ensures bufs[b].refcnt > 0 ==> ring == old(ring) && stamp == old(stamp)
      ensures bufs[b].refcnt == 0 ==> ring[0] == b && stamp == old(stamp)[b := old(now)]
      ensures bufs[b].refcnt == 0 ==> exists k :: 0 <= k < NBUF && old(ring[k]) == b && ring == [b] + Without(old(ring), k)
    {
      assert BufOk(bufs[b], b, contents, touched);
      hide Coherent, UniqueKeys, Linked, ByAge, BufOk;
      ReleaseSleep(b);
      Put(b);
    }

    method ToFront(b: int)
      requires Valid() && 0 <= b < NBUF
      modifies `next, `prev, `ring, `stamp, `now
      ensures Valid() && ring[0] == b && stamp == old(stamp)[b := old(now)]
      ensures exists k :: 0 <= k < NBUF && old(ring[k]) == b && ring == [b] + Without(old(ring), k)
    {
      hide Coherent, UniqueKeys;
      ghost var k := Position(ring, b);
      Unlinked(next, prev, ring, k);
      prev := prev[next[b] := prev[b]];
      next := next[prev[b] := next[b]];
      Pushed(next, prev, Without(ring, k), b);
      next := next[b := next[NBUF]];
      prev := prev[b := NBUF];
      prev := prev[next[NBUF] := b];
      next := next[NBUF := b];
      ring := [b] + Without(ring, k);
      stamp := stamp[b := now];
      now := now + 1;
    }
  }

  lemma Untouched(bufs: seq<Buf>, b: int, disk: Disk, contents: Disk, touched: set<int>)
    requires Coherent(bufs, disk, contents, touched) && 0 <= b < |bufs| && !bufs[b].locked
    ensures b !in touched && |disk| == |contents|
  {
    assert BufOk(bufs[b], b, contents, touched);
  }

  /** A buffer that is not dirty and holds a block of the disk is the only one that
      could be. */
  lemma NotDirtyTwice(bufs: seq<Buf>, b: int)
    requires UniqueKeys(bufs) && 0 <= b < |bufs| && bufs[b].dev == 1 && !bufs[b].dirty
    ensures !DirtyOn(bufs, bufs[b].blockno)
  {
  }

  /** A ring of NBUF distinct buffers holds every buffer. */
  ghost function Position(ring: seq<int>, b: int): (k: int)
    requires Buffers(ring) && |ring| == NBUF && 0 <= b < NBUF
    ensures 0 <= k < NBUF && ring[k] == b
  {
    if k :| 0 <= k < |ring| && ring[k] == b then k else (NoMoreThan([b] + ring); assert false; 0)
  }

  lemma NoMoreThan(ring: seq<int>)
    requires Buffers(ring)
    ensures |ring| <= NBUF
  {
    SetOfRing(ring);
    SubsetSize((set x | x in ring), Upto(NBUF));
  }

  ghost function Upto(n: nat): (r: set<int>)
    ensures |r| == n && forall i :: i in r <==> 0 <= i < n
  {
    if n == 0 then {} else Upto(n - 1) + {n - 1}
  }

  lemma {:induction false} SetOfRing(ring: seq<int>)
    requires BufRing.Distinct(ring)
    ensures |set x | x in ring| == |ring|
    decreases |ring|
  {
    if ring != [] {
      SetOfRing(ring[1..]);
      assert (set x | x in ring) == (set x | x in ring[1..]) + {ring[0]};
    }
  }
}
