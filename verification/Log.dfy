/** The log structure in memory and the routines that copy blocks between the
    buffer cache, the log and the home locations. Each is proved to write exactly
    the blocks, in exactly the order, that the crash analysis is about. */
module Log {
  import opened BlockDisk
  import opened LogRecovery

  /** What bread returns for block b. */
  ghost function View(d: Disk, cache: map<int, Block>, b: int): Block
    requires 0 <= b < |d|
  {
    if b in cache then cache[b] else d[b]
  }

  ghost function Views(d: Disk, cache: map<int, Block>, blocks: seq<int>): (data: seq<Block>)
    requires forall i :: 0 <= i < |blocks| ==> 0 <= blocks[i] < |d|
    ensures |data| == |blocks|
    ensures forall i :: 0 <= i < |data| ==> data[i] == View(d, cache, blocks[i])
  {
    seq(|blocks|, i requires 0 <= i < |blocks| => View(d, cache, blocks[i]))
  }

  /** The writes of write_log and the committing write_head. */
  ghost function Logging(g: Geometry, h: Block, blocks: seq<int>, data: seq<Block>): seq<Write>
    requires |blocks| <= LOGSIZE < |h|
  {
    LogCopies(g, data) + [Write(g.start, HeaderBlock(h, blocks))]
  }

  /** The writes of install_trans and the write_head that empties the log. */
  ghost function Clearing(g: Geometry, h: Block, blocks: seq<int>, data: seq<Block>): seq<Write>
    requires |blocks| == |data| && LOGSIZE < |h|
  {
    Installs(blocks, data) + [Write(g.start, HeaderBlock(h, []))]
  }

  /** No buffer is held back from eviction. */
  ghost predicate Unpinned(cache: map<int, Block>) {
    forall b :: b !in cache
  }

  /** How end_op leaves: it found a commit under way, it left other calls open, or
      it was the last call and committed. */
  datatype EndResult = Panicked | Released | Committed

  class LogState {
    const g: Geometry
    const block: array<int>        // lh.block
    var n: int                     // lh.n
    var outstanding: int
    var committing: bool
    var disk: Disk
    var cache: map<int, Block>     // contents of the buffers marked B_DIRTY
    ghost var writes: seq<Write>   // every block write, in order

    ghost predicate Valid()
      reads this, block
    {
      && g.Valid() && |disk| == g.total
      && |disk[g.start]| == WORDS
      && block.Length == LOGSIZE
      && 0 <= n <= Capacity(g)
      && (forall b :: b in cache ==> g.Home(b))
    }

    /** The logged block numbers. */
    ghost function Blocks(): (blocks: seq<int>)
      requires Valid()
      reads this, block
    {
      block[..n]
    }

    constructor (g: Geometry, d: Disk)
      requires g.Valid() && |d| == g.total && |d[g.start]| == WORDS
      ensures Valid() && fresh(block) && this.g == g && disk == d && cache == map[]
      ensures n == 0 && outstanding == 0 && !committing && writes == []
    {
      this.g := g;
      block := new int[LOGSIZE];
      n, outstanding, committing := 0, 0, false;
      disk, cache, writes := d, map[], [];
    }

    method Bread(b: int) returns (data: Block)
      requires 0 <= b < |disk|
      ensures data == View(disk, cache, b)
    {
      if b in cache {
        data := cache[b];
      } else {
        data := disk[b];
      }
    }

    /** Writes one block through to the disk and unpins its buffer. */
    method Bwrite(b: int, data: Block)
      requires 0 <= b < |disk|
      modifies this`disk, this`cache, this`writes
      ensures disk == old(disk)[b := data]
      ensures cache == old(cache) - {b}
      ensures writes == old(writes) + [Write(b, data)]
    {
      disk := disk[b := data];
      cache := cache - {b};
      writes := writes + [Write(b, data)];
    }

    method WriteLog()
      requires Valid() && ValidEntries(g, Blocks())
      modifies this`disk, this`cache, this`writes
      ensures Valid() && cache == old(cache)
      ensures var ws := LogCopies(g, old(Views(disk, cache, Blocks())));
              && InRange(ws, g.total)
              && writes == old(writes) + ws
              && disk == Apply(old(disk), ws)
    {
      hide Apply, LogCopies, Views, ValidEntries, View;
      EntriesHome(g, Blocks());
      ghost var ws := LogCopies(g, Views(disk, cache, Blocks()));
      ghost var blocks := Blocks();
      var tail := 0;
      assert ws[..0] == [];
      ApplyNone(disk);
      while tail < n
        invariant 0 <= tail <= n
        invariant InRange(ws, g.total)
        invariant Valid() && cache == old(cache) && Blocks() == blocks
        invariant disk == Apply(old(disk), ws[..tail])
        invariant forall b :: g.Home(b) ==> disk[b] == old(disk)[b]
        invariant writes == old(writes) + ws[..tail]
      {
        assert blocks[tail] == block[tail] && g.Home(blocks[tail]);
        var from := Bread(block[tail]);
        assert from == old(View(disk, cache, blocks[tail])) by { SameView(old(disk), disk, cache, blocks[tail]); }
        ApplyOneMore(old(disk), ws, tail);
        Bwrite(g.start + tail + 1, from);
        assert cache == old(cache);
        tail := tail + 1;
      }
      assert ws[..n] == ws;
    }

    method WriteHead()
      requires Valid() && g.start !in cache
      modifies this`disk, this`cache, this`writes
      ensures Valid() && cache == old(cache)
      ensures disk == old(disk)[g.start := HeaderBlock(old(disk)[g.start], Blocks())]
      ensures writes == old(writes) + [Write(g.start, HeaderBlock(old(disk)[g.start], Blocks()))]
    {
      var buf := Bread(g.start);
      var hb := buf[0 := n];
      var i := 0;
      while i < n
        invariant 0 <= i <= n && |hb| == WORDS && hb[0] == n
        invariant forall j :: 1 <= j <= i ==> hb[j] == block[j - 1]
        invariant forall j :: i < j < WORDS && j != 0 ==> hb[j] == buf[j]
      {
        hb := hb[1 + i := block[i]];
        i := i + 1;
      }
      assert hb == HeaderBlock(buf, block[..n]);
      Bwrite(g.start, hb);
      assert cache == old(cache);
    }

    method InstallTrans()
      requires Valid() && ValidEntries(g, Blocks())
      modifies this`disk, this`cache, this`writes
      ensures Valid()
      ensures forall b :: b in cache <==> b in old(cache) && b !in Blocks()
      ensures var ws := Installs(Blocks(), LogData(g, old(disk), n));
              && InRange(ws, g.total)
              && writes == old(writes) + ws
              && disk == Apply(old(disk), ws)
    {
      hide Apply, Installs, LogData, ValidEntries;
      EntriesHome(g, Blocks());
      ghost var blocks := Blocks();
      ghost var ws := Installs(blocks, LogData(g, disk, n));
      var tail := 0;
      assert ws[..0] == [];
      ApplyNone(disk);
      while tail < n
        invariant 0 <= tail <= n
        invariant InRange(ws, g.total)
        invariant Valid() && Blocks() == blocks
        invariant disk == Apply(old(disk), ws[..tail])
        invariant forall b :: g.start <= b < g.start + g.size ==> disk[b] == old(disk)[b]
        invariant forall b :: b in cache <==> b in old(cache) && b !in blocks[..tail]
        invariant writes == old(writes) + ws[..tail]
      {
        assert blocks[tail] == block[tail] && g.Home(blocks[tail]);
        var lbuf := Bread(g.start + tail + 1);
        assert ws[tail] == Write(blocks[tail], lbuf);
        ApplyOneMore(old(disk), ws, tail);
        Bwrite(block[tail], lbuf);
        assert blocks[..tail + 1] == blocks[..tail] + [blocks[tail]];
        tail := tail + 1;
      }
      assert ws[..n] == ws && blocks[..n] == blocks;
    }

    /** write_log, then the committing write_head. */
    method WriteTransaction()
      requires Valid() && WfDisk(g, disk) && ValidEntries(g, Blocks()) && g.start !in cache
      modifies this`disk, this`cache, this`writes
      ensures Valid() && cache == old(cache)
      ensures var h, data := old(disk)[g.start], old(Views(disk, cache, Blocks()));
              var ws := Logging(g, h, Blocks(), data);
              && InRange(ws, g.total)
              && writes == old(writes) + ws
              && disk == Apply(old(disk), ws)
              && disk[g.start] == HeaderBlock(h, Blocks())
              && LogData(g, disk, n) == data
    {
      hide Apply, LogCopies, LogData, Views;
      ghost var d0, blocks, data := disk, Blocks(), Views(disk, cache, Blocks());
      WriteLog();
      ghost var d1 := disk;
      CopiesKeepHeader(g, d0, blocks, data);
      WriteHead();
      ghost var head := [Write(g.start, HeaderBlock(d0[g.start], blocks))];
      ApplySingle(d1, head[0]);
      ApplyConcat(d0, LogCopies(g, data), head);
      CopiesFillLog(g, d0, blocks, data, HeaderBlock(d0[g.start], blocks));
    }

    /** install_trans, then the write_head that empties the log. */
    method InstallAndClear()
      requires Valid() && ValidEntries(g, Blocks()) && g.start !in cache
      modifies this`disk, this`cache, this`writes, this`n
      ensures Valid() && n == 0
      ensures forall b :: b in cache <==> b in old(cache) && b !in old(Blocks())
      ensures var ws := Clearing(g, old(disk)[g.start], old(Blocks()), LogData(g, old(disk), old(n)));
              && InRange(ws, g.total)
              && writes == old(writes) + ws
              && disk == Apply(old(disk), ws)
    {
      hide Apply, LogData, Installs;
      ghost var d0, blocks, data := disk, Blocks(), LogData(g, disk, n);
      InstallTrans();
      ghost var d1 := disk;
      n := 0;
      InstallsKeepHeader(g, d0, blocks, data);
      WriteHead();
      ghost var clear := [Write(g.start, HeaderBlock(d0[g.start], []))];
      ApplySingle(d1, clear[0]);
      ApplyConcat(d0, Installs(blocks, data), clear);
    }

    /** Everything a commit does to the disk, write for write. */
    method Commit()
      requires Valid() && WfDisk(g, disk) && ValidEntries(g, Blocks())
      requires forall b :: b in cache <==> b in Blocks()
      modifies this`disk, this`cache, this`writes, this`n
      ensures Valid() && n == 0 && Unpinned(cache)
      ensures var ws := CommitWrites(g, old(disk)[g.start], old(Blocks()), old(Views(disk, cache, Blocks())));
              && InRange(ws, g.total)
              && writes == old(writes) + ws
              && disk == Apply(old(disk), ws)
    {
      hide Apply, Logging, Clearing, LogData, Views, HeaderBlock, ValidEntries, WfHeader, CommitWrites;
      EntriesHome(g, Blocks());
      ghost var d0, h, blocks, data := disk, disk[g.start], Blocks(), Views(disk, cache, Blocks());
      if n > 0 {
        WriteTransaction();
        InstallAndClear();
        ApplyConcat(d0, Logging(g, h, blocks, data), Clearing(g, HeaderBlock(h, blocks), blocks, data));
        CommitSplits(g, h, blocks, data);
      } else {
        assert CommitWrites(g, h, blocks, data) == [];
        ApplyNone(d0);
      }
    }

    method ReadHead()
      requires Valid() && WfDisk(g, disk) && g.start !in cache
      modifies this`n, block
      ensures Valid() && Blocks() == Entries(disk[g.start])
    {
      var buf := Bread(g.start);
      n := buf[0];
      var i := 0;
      while i < n
        invariant 0 <= i <= n == buf[0] <= Capacity(g)
        invariant forall j :: 0 <= j < i ==> block[j] == buf[1 + j]
      {
        block[i] := buf[1 + i];
        i := i + 1;
      }
    }

    /** Everything recovery does to the disk, write for write. */
    method RecoverFromLog()
      requires Valid() && WfDisk(g, disk) && Unpinned(cache)
      modifies this`disk, this`cache, this`writes, this`n, block
      ensures Valid() && n == 0 && Unpinned(cache)
      ensures var ws := RecoverWrites(g, old(disk));
              && InRange(ws, g.total)
              && writes == old(writes) + ws
              && disk == Apply(old(disk), ws)
    {
      ReadHead();
      InstallAndClear();
    }

    /** One pass of begin_op's loop: whether the call is admitted or must sleep. */
    method BeginOp() returns (admitted: bool)
      requires Valid()
      modifies this`outstanding
      ensures admitted <==> !committing && n + (old(outstanding) + 1) * MAXOPBLOCKS <= LOGSIZE
      ensures outstanding == if admitted then old(outstanding) + 1 else old(outstanding)
    {
      if committing {
        admitted := false;
      } else if n + (outstanding + 1) * MAXOPBLOCKS > LOGSIZE {
        admitted := false;
      } else {
        outstanding := outstanding + 1;
        admitted := true;
      }
    }

    /** log_write: absorption, or one more entry; not ok is one of its two panics. */
    method LogWrite(b: int, data: Block) returns (ok: bool)
      requires Valid() && g.Home(b)
      modifies this`n, this`cache, block
      ensures Valid()
      ensures ok <==> old(n) < Capacity(g) && outstanding >= 1
      ensures !ok ==> n == old(n) && Blocks() == old(Blocks()) && cache == old(cache)
      ensures ok ==> Blocks() == if b in old(Blocks()) then old(Blocks()) else old(Blocks()) + [b]
      ensures ok ==> cache == old(cache)[b := data]
      ensures old(ValidEntries(g, Blocks())) ==> ValidEntries(g, Blocks())
    {
      if n >= LOGSIZE || n >= g.size - 1 {
        return false;
      }
      if outstanding < 1 {
        return false;
      }
      var i := 0;
      while i < n && block[i] != b
        invariant 0 <= i <= n
        invariant forall j :: 0 <= j < i ==> block[j] != b
      {
        i := i + 1;
      }
      block[i] := b;
      if i == n {
        n := n + 1;
      }
      cache := cache[b := data];
      ok := true;
    }

    /** end_op. The last call to end makes the disk's home blocks what the cache
        showed, by exactly the writes of one commit. */
    method EndOp() returns (r: EndResult)
      requires Valid() && WfDisk(g, disk) && disk[g.start][0] == 0 && ValidEntries(g, Blocks())
      requires forall b :: b in cache <==> b in Blocks()
      modifies this`disk, this`cache, this`writes, this`n, this`outstanding, this`committing
      ensures Valid() && outstanding == old(outstanding) - 1 && committing == old(committing)
      ensures r == if committing then Panicked else if outstanding == 0 then Committed else Released
      ensures r != Committed ==> writes == old(writes) && disk == old(disk) && cache == old(cache) && n == old(n)
      ensures r == Committed ==> writes == old(writes) + CommitWrites(g, old(disk)[g.start], old(Blocks()), old(Views(disk, cache, Blocks())))
      ensures r == Committed ==> n == 0 && Unpinned(cache) && WfDisk(g, disk) && disk[g.start][0] == 0
      ensures r == Committed ==> forall b :: g.Home(b) ==> disk[b] == old(View(disk, cache, b))
    {
      hide Apply, CommitWrites, Views;
      outstanding := outstanding - 1;
      if committing {
        return Panicked;
      }
      if outstanding == 0 {
        committing := true;
        ghost var d0, c0, blocks := disk, cache, Blocks();
        Commit();
        committing := false;
        CommitShows(g, d0, c0, blocks, disk);
        r := Committed;
      } else {
        r := Released;
      }
    }
  }

  lemma EntriesHome(g: Geometry, blocks: seq<int>)
    requires g.Valid() && ValidEntries(g, blocks)
    ensures forall i :: 0 <= i < |blocks| ==> g.Home(blocks[i])
  {
  }

  lemma SameView(d: Disk, d': Disk, cache: map<int, Block>, b: int)
    requires 0 <= b < |d| == |d'| && d[b] == d'[b]
    ensures View(d, cache, b) == View(d', cache, b)
  {
  }

  lemma CommitSplits(g: Geometry, h: Block, blocks: seq<int>, data: seq<Block>)
    requires |blocks| == |data| <= LOGSIZE < |h| && blocks != []
    ensures CommitWrites(g, h, blocks, data) == Logging(g, h, blocks, data) + Clearing(g, HeaderBlock(h, blocks), blocks, data)
  {
    hide HeaderBlock, LogCopies, Installs;
  }

  lemma CommitStartsWithCopies(g: Geometry, h: Block, blocks: seq<int>, data: seq<Block>)
    requires |blocks| == |data| <= LOGSIZE < |h| && data != []
    ensures CommitWrites(g, h, blocks, data)[..|data|] == LogCopies(g, data)
  {
    hide HeaderBlock, LogCopies, Installs;
  }

  lemma CopiesFillLog(g: Geometry, d: Disk, blocks: seq<int>, data: seq<Block>, h: Block)
    requires WfDisk(g, d) && ValidTx(g, blocks, data)
    ensures InRange(LogCopies(g, data), |d|)
    ensures LogData(g, Apply(d, LogCopies(g, data))[g.start := h], |data|) == data
  {
    hide Apply, LogCopies, CommitWrites, CommitPoint, WfHeader, ValidEntries, HeaderBlock;
    var r := Apply(d, LogCopies(g, data));
    CopiesPoint(g, d, blocks, data);
    AmongWhole(g, d, blocks, data, 0, d[g.start], r);
  }

  /** The disk when write_log is done. */
  lemma CopiesPoint(g: Geometry, d: Disk, blocks: seq<int>, data: seq<Block>)
    requires WfDisk(g, d) && ValidTx(g, blocks, data)
    ensures InRange(LogCopies(g, data), |d|)
    ensures CommitPoint(g, d, blocks, data, |blocks|, 0, d[g.start], Apply(d, LogCopies(g, data)))
  {
    hide Apply, LogCopies, CommitWrites, CommitPoint, WfHeader, ValidEntries, HeaderBlock;
    var ws := CommitWrites(g, d[g.start], blocks, data);
    CommitWritesInRange(g, d[g.start], blocks, data);
    if data != [] {
      CommitStartsWithCopies(g, d[g.start], blocks, data);
      assert forall i :: 0 <= i < |data| ==> LogCopies(g, data)[i] == ws[i];
      CommitPoints(g, d, blocks, data, ws, |data|, Apply(d, LogCopies(g, data)));
    } else {
      assert LogCopies(g, data) == [];
      ApplyNone(d);
      AfterNoWrites(g, d, blocks, data);
    }
  }

  lemma CopiesKeepHeader(g: Geometry, d: Disk, blocks: seq<int>, data: seq<Block>)
    requires WfDisk(g, d) && ValidTx(g, blocks, data)
    ensures InRange(LogCopies(g, data), |d|)
    ensures Apply(d, LogCopies(g, data))[g.start] == d[g.start]
  {
    hide Apply, LogCopies, WfHeader, ValidEntries;
    CopiesPoint(g, d, blocks, data);
  }

  lemma InstallsKeepHeader(g: Geometry, d: Disk, blocks: seq<int>, data: seq<Block>)
    requires g.Valid() && |d| == g.total && ValidTx(g, blocks, data)
    ensures InRange(Installs(blocks, data), |d|)
    ensures Apply(d, Installs(blocks, data))[g.start] == d[g.start]
  {
    assert forall i :: 0 <= i < |blocks| ==> g.Home(blocks[i]);
    InstallAllAt(d, blocks, data);
  }

  /** After a whole commit each home block holds what the cache showed. */
  lemma CommitShows(g: Geometry, d0: Disk, cache: map<int, Block>, blocks: seq<int>, d: Disk)
    requires WfDisk(g, d0) && d0[g.start][0] == 0 && ValidEntries(g, blocks)
    requires forall b :: b in cache <==> b in blocks
    requires InRange(CommitWrites(g, d0[g.start], blocks, Views(d0, cache, blocks)), |d0|)
    requires d == Apply(d0, CommitWrites(g, d0[g.start], blocks, Views(d0, cache, blocks)))
    ensures WfDisk(g, d) && d[g.start][0] == 0
    ensures forall b :: g.Home(b) ==> d[b] == View(d0, cache, b)
  {
    hide Apply, CommitWrites, Views, InstallAll, Logical;
    var data := Views(d0, cache, blocks);
    var ws := CommitWrites(g, d0[g.start], blocks, data);
    assert ws[..|ws|] == ws;
    CommitAtomic(g, d0, blocks, data, |ws|);
    InstallAllAt(d0, blocks, data);
    assert forall b :: Among(blocks, |blocks|, b) ==> b in blocks;
    forall b | g.Home(b) ensures d[b] == View(d0, cache, b) {
      if b in blocks {
        var i :| 0 <= i < |blocks| && blocks[i] == b;
      }
    }
  }
}
