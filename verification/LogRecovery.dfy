/** The on-disk redo log: what a commit writes, what recovery writes, and what
    the disk means when power fails after any single one of those block writes. */
module LogRecovery {
  import opened BlockDisk

  const MAXOPBLOCKS: nat := 10
  const LOGSIZE: nat := 30

  /** Where the log lies: a header block at `start`, then size - 1 log blocks. */
  datatype Geometry = Geometry(start: nat, size: nat, total: nat) {
    ghost predicate Valid() {
      1 <= size && start + size <= total
    }

    /** Block b belongs to the file system proper, not to the log. */
    predicate Home(b: int) {
      0 <= b < total && (b < start || start + size <= b)
    }
  }

  /** How many blocks one transaction can hold. */
  function Capacity(g: Geometry): nat
    requires 1 <= g.size
  {
    if LOGSIZE <= g.size - 1 then LOGSIZE else g.size - 1
  }

  ghost predicate ValidEntries(g: Geometry, blocks: seq<int>)
    requires g.Valid()
    ensures ValidEntries(g, blocks) ==> |blocks| <= Capacity(g)
  {
    && |blocks| <= Capacity(g)
    && Distinct(blocks)
    && forall i :: 0 <= i < |blocks| ==> g.Home(blocks[i])
  }

  /** The header block a header write produces: word 0 is the count, the words
      after it are the block numbers, the rest is what the buffer held before. */
  function HeaderBlock(before: Block, blocks: seq<int>): (h: Block)
    requires |blocks| <= LOGSIZE < |before|
    ensures |h| == |before|
  {
    [|blocks|] + blocks + before[1 + |blocks|..]
  }

  ghost predicate WfHeader(g: Geometry, h: Block)
    requires g.Valid()
    ensures WfHeader(g, h) ==> |h| == WORDS && 0 <= h[0] <= LOGSIZE && |Entries(h)| <= Capacity(g)
  {
    |h| == WORDS && 0 <= h[0] <= LOGSIZE && ValidEntries(g, Entries(h))
  }

  /** Reading a header back. */
  function Entries(h: Block): (blocks: seq<int>)
    requires |h| == WORDS && 0 <= h[0] <= LOGSIZE
    ensures |blocks| == h[0]
  {
    h[1..1 + h[0]]
  }

  lemma HeaderRoundTrip(g: Geometry, before: Block, blocks: seq<int>)
    requires g.Valid() && ValidEntries(g, blocks) && |before| == WORDS
    ensures WfHeader(g, HeaderBlock(before, blocks))
    ensures Entries(HeaderBlock(before, blocks)) == blocks
  {
    assert Entries(HeaderBlock(before, blocks)) == blocks;
  }

  ghost predicate WfDisk(g: Geometry, d: Disk) {
    g.Valid() && |d| == g.total && WfHeader(g, d[g.start])
  }

  /** The first n log blocks. */
  ghost function LogData(g: Geometry, d: Disk, n: nat): (data: seq<Block>)
    requires g.Valid() && |d| == g.total && n <= g.size - 1
    ensures |data| == n
    ensures forall i :: 0 <= i < n ==> data[i] == d[g.start + 1 + i]
  {
    seq(n, i requires 0 <= i < n => d[g.start + 1 + i])
  }

  /** What a disk image means: the home blocks with the logged transaction, if
      the header names one, taken as done. */
  ghost function Logical(g: Geometry, d: Disk): (r: Disk)
    requires WfDisk(g, d)
  {
    InstallAll(d, Entries(d[g.start]), LogData(g, d, |Entries(d[g.start])|))
  }

  ghost predicate SameHome(g: Geometry, a: Disk, b: Disk) {
    |a| == |b| == g.total && forall i :: g.Home(i) ==> a[i] == b[i]
  }

  // ----- the two write sequences -----

  ghost function LogCopies(g: Geometry, data: seq<Block>): (ws: seq<Write>)
    ensures |ws| == |data|
    ensures forall i :: 0 <= i < |ws| ==> ws[i] == Write(g.start + 1 + i, data[i])
  {
    seq(|data|, i requires 0 <= i < |data| => Write(g.start + 1 + i, data[i]))
  }

  /** write_log, write_head, install_trans, write_head with an empty header;
      nothing at all for an empty transaction. */
  ghost function CommitWrites(g: Geometry, before: Block, blocks: seq<int>, data: seq<Block>): (ws: seq<Write>)
    requires |blocks| == |data| <= LOGSIZE < |before|
    ensures |ws| == if blocks == [] then 0 else 2 * |blocks| + 2
  {
    if blocks == [] then []
    else
      var committed := HeaderBlock(before, blocks);
      LogCopies(g, data) + [Write(g.start, committed)]
      + Installs(blocks, data) + [Write(g.start, HeaderBlock(committed, []))]
  }

  /** read_head, install_trans, write_head with an empty header. */
  ghost function RecoverWrites(g: Geometry, d: Disk): (ws: seq<Write>)
    requires WfDisk(g, d)
    ensures |ws| == |Entries(d[g.start])| + 1
  {
    var blocks := Entries(d[g.start]);
    Installs(blocks, LogData(g, d, |blocks|)) + [Write(g.start, HeaderBlock(d[g.start], []))]
  }

  lemma LogicalAt(g: Geometry, d: Disk)
    requires WfDisk(g, d)
    ensures forall i :: 0 <= i < |Entries(d[g.start])|
              ==> Logical(g, d)[Entries(d[g.start])[i]] == d[g.start + 1 + i]
    ensures forall b :: 0 <= b < |d| && !Among(Entries(d[g.start]), |Entries(d[g.start])|, b)
              ==> Logical(g, d)[b] == d[b]
  {
    hide InstallAll, Distinct, Among, Entries;
    var blocks := Entries(d[g.start]);
    InstallAllAt(d, blocks, LogData(g, d, |blocks|));
  }

  /** An empty header: the disk means what its home blocks say. */
  lemma LogicalOfClean(g: Geometry, d: Disk)
    requires WfDisk(g, d) && d[g.start][0] == 0
    ensures Logical(g, d) == d
  {
    assert Entries(d[g.start]) == [];
    LogicalAt(g, d);
  }

  /** With the header on disk and the log holding the data, the home blocks the
      header names count as written, whatever they hold. */
  lemma LogicalOfCommitted(g: Geometry, d: Disk, base: Disk, blocks: seq<int>, data: seq<Block>)
    requires WfDisk(g, d) && WfDisk(g, base) && ValidTx(g, blocks, data)
    requires Entries(d[g.start]) == blocks && LogHolds(g, d, data)
    requires forall b :: g.Home(b) && !Among(blocks, |blocks|, b) ==> d[b] == base[b]
    ensures SameHome(g, Logical(g, d), InstallAll(base, blocks, data))
  {
    LogicalAt(g, d);
    InstallAllAt(base, blocks, data);
    forall b | g.Home(b) ensures Logical(g, d)[b] == InstallAll(base, blocks, data)[b] {
      if Among(blocks, |blocks|, b) {
        var j :| 0 <= j < |blocks| && blocks[j] == b;
        assert d[g.start + 1 + j] == data[j];
      }
    }
  }

  // ----- a crash inside commit -----

  ghost predicate ValidTx(g: Geometry, blocks: seq<int>, data: seq<Block>)
    requires g.Valid()
  {
    |blocks| == |data| && ValidEntries(g, blocks)
  }

  /** The first |data| log blocks hold data. */
  ghost predicate LogHolds(g: Geometry, d: Disk, data: seq<Block>)
    requires g.Valid() && |d| == g.total && |data| <= g.size - 1
  {
    forall b :: g.start < b <= g.start + |data| ==> d[b] == data[b - g.start - 1]
  }

  /** A disk reached during a commit from `base`: `logged` blocks are copied to
      the log, `installed` home blocks are written, and the header is `h`. */
  ghost predicate CommitPoint(g: Geometry, base: Disk, blocks: seq<int>, data: seq<Block>,
                              logged: nat, installed: nat, h: Block, d: Disk)
    requires WfDisk(g, base) && ValidTx(g, blocks, data)
    requires logged <= |blocks| && installed <= |blocks|
    ensures CommitPoint(g, base, blocks, data, logged, installed, h, d) ==> |d| == g.total
  {
    && |d| == g.total
    && LogHolds(g, d, data[..logged])
    && (forall j :: 0 <= j < installed ==> d[blocks[j]] == data[j])
    && (forall b :: g.Home(b) && !Among(blocks, installed, b) ==> d[b] == base[b])
    && d[g.start] == h
  }

  lemma CopyStep(g: Geometry, base: Disk, blocks: seq<int>, data: seq<Block>, k: nat, h: Block, d: Disk)
    requires WfDisk(g, base) && ValidTx(g, blocks, data) && k < |blocks|
    requires CommitPoint(g, base, blocks, data, k, 0, h, d)
    ensures CommitPoint(g, base, blocks, data, k + 1, 0, h, d[g.start + 1 + k := data[k]])
  {
  }

  lemma HeaderStep(g: Geometry, base: Disk, blocks: seq<int>, data: seq<Block>, k: nat, h: Block, h': Block, d: Disk)
    requires WfDisk(g, base) && ValidTx(g, blocks, data) && k <= |blocks|
    requires CommitPoint(g, base, blocks, data, |blocks|, k, h, d)
    ensures CommitPoint(g, base, blocks, data, |blocks|, k, h', d[g.start := h'])
  {
    assert forall j :: 0 <= j < k ==> g.Home(blocks[j]);
  }

  lemma InstallStep(g: Geometry, base: Disk, blocks: seq<int>, data: seq<Block>, k: nat, h: Block, d: Disk)
    requires WfDisk(g, base) && ValidTx(g, blocks, data) && k < |blocks|
    requires CommitPoint(g, base, blocks, data, |blocks|, k, h, d)
    ensures g.Home(blocks[k])
    ensures CommitPoint(g, base, blocks, data, |blocks|, k + 1, h, d[blocks[k] := data[k]])
  {
    assert Among(blocks, k + 1, blocks[k]);
    assert forall b :: Among(blocks, k, b) ==> Among(blocks, k + 1, b);
  }

  /** The four stretches of a commit's writes. */
  lemma CommitWriteAt(g: Geometry, before: Block, blocks: seq<int>, data: seq<Block>, i: nat)
    requires g.Valid() && ValidTx(g, blocks, data) && |before| == WORDS
    requires i < |CommitWrites(g, before, blocks, data)|
    ensures var n := |blocks|;
            CommitWrites(g, before, blocks, data)[i] ==
            if i < n then Write(g.start + 1 + i, data[i])
            else if i == n then Write(g.start, HeaderBlock(before, blocks))
            else if i < 2 * n + 1 then Write(blocks[i - n - 1], data[i - n - 1])
            else Write(g.start, HeaderBlock(HeaderBlock(before, blocks), []))
    ensures 0 <= CommitWrites(g, before, blocks, data)[i].at < g.total
  {
    var n := |blocks|;
    if n < i < 2 * n + 1 {
      assert g.Home(blocks[i - n - 1]);
    }
  }

  ghost predicate AfterWrites(g: Geometry, base: Disk, blocks: seq<int>, data: seq<Block>, i: nat, d: Disk)
    requires WfDisk(g, base) && ValidTx(g, blocks, data)
  {
    var n := |blocks|;
    var committed := HeaderBlock(base[g.start], blocks);
    if i <= n then CommitPoint(g, base, blocks, data, i, 0, base[g.start], d)
    else if i <= 2 * n + 1 then CommitPoint(g, base, blocks, data, n, i - n - 1, committed, d)
    else CommitPoint(g, base, blocks, data, n, n, HeaderBlock(committed, []), d)
  }

  lemma AfterNoWrites(g: Geometry, base: Disk, blocks: seq<int>, data: seq<Block>)
    requires WfDisk(g, base) && ValidTx(g, blocks, data)
    ensures AfterWrites(g, base, blocks, data, 0, base)
  {
  }

  lemma AfterWritesStep(g: Geometry, base: Disk, blocks: seq<int>, data: seq<Block>, i: nat, d: Disk, w: Write)
    requires WfDisk(g, base) && ValidTx(g, blocks, data)
    requires i < |CommitWrites(g, base[g.start], blocks, data)|
    requires w == CommitWrites(g, base[g.start], blocks, data)[i]
    requires AfterWrites(g, base, blocks, data, i, d)
    ensures 0 <= w.at < |d| && AfterWrites(g, base, blocks, data, i + 1, d[w.at := w.data])
  {
    hide CommitPoint, CommitWrites, HeaderBlock, WfHeader, ValidEntries;
    var h := base[g.start];
    var n := |blocks|;
    var committed := HeaderBlock(h, blocks);
    CommitWriteAt(g, h, blocks, data, i);
    if i < n {
      CopyStep(g, base, blocks, data, i, h, d);
    } else if i == n {
      HeaderStep(g, base, blocks, data, 0, h, committed, d);
    } else if i < 2 * n + 1 {
      InstallStep(g, base, blocks, data, i - n - 1, committed, d);
    } else {
      HeaderStep(g, base, blocks, data, n, committed, HeaderBlock(committed, []), d);
    }
  }

  lemma CommitWritesInRange(g: Geometry, before: Block, blocks: seq<int>, data: seq<Block>)
    requires g.Valid() && ValidTx(g, blocks, data) && |before| == WORDS
    ensures InRange(CommitWrites(g, before, blocks, data), g.total)
  {
    var ws := CommitWrites(g, before, blocks, data);
    forall j | 0 <= j < |ws| ensures 0 <= ws[j].at < g.total {
      CommitWriteAt(g, before, blocks, data, j);
    }
  }

  lemma NoWrites(d: Disk, ws: seq<Write>)
    ensures Apply(d, ws[..0]) == d
  {
    assert ws[..0] == [];
  }

  /** The disk after each single write of a commit. */
  lemma {:induction false} CommitPoints(g: Geometry, base: Disk, blocks: seq<int>, data: seq<Block>,
                                        ws: seq<Write>, i: nat, d: Disk)
    requires WfDisk(g, base) && ValidTx(g, blocks, data)
    requires ws == CommitWrites(g, base[g.start], blocks, data)
    requires i <= |ws| && InRange(ws, |base|) && d == Apply(base, ws[..i])
    ensures AfterWrites(g, base, blocks, data, i, d)
  {
    hide CommitPoint, AfterWrites, CommitWrites, HeaderBlock, WfHeader, ValidEntries, Apply;
    if i == 0 {
      assert d == base by { NoWrites(base, ws); }
      AfterNoWrites(g, base, blocks, data);
    } else {
      var before := Apply(base, ws[..i - 1]);
      CommitPoints(g, base, blocks, data, ws, i - 1, before);
      ApplyOneMore(base, ws, i - 1);
      AfterWritesStep(g, base, blocks, data, i - 1, before, ws[i - 1]);
    }
  }

  /** Atomicity of a commit: if power fails after i block writes, the disk means
      the old contents when the committing header write (number |blocks|) has
      not happened, and the whole new transaction when it has. */
  lemma CommitAtomic(g: Geometry, base: Disk, blocks: seq<int>, data: seq<Block>, i: nat)
    requires WfDisk(g, base) && base[g.start][0] == 0 && ValidTx(g, blocks, data)
    requires i <= |CommitWrites(g, base[g.start], blocks, data)|
    ensures InRange(CommitWrites(g, base[g.start], blocks, data), |base|)
    ensures var d := Apply(base, CommitWrites(g, base[g.start], blocks, data)[..i]);
            && WfDisk(g, d)
            && SameHome(g, Logical(g, d), if i <= |blocks| then base else InstallAll(base, blocks, data))
            && (i == |CommitWrites(g, base[g.start], blocks, data)| ==>
                  d[g.start][0] == 0 && SameHome(g, d, InstallAll(base, blocks, data)))
  {
    var ws := CommitWrites(g, base[g.start], blocks, data);
    CommitWritesInRange(g, base[g.start], blocks, data);
    var d := Apply(base, ws[..i]);
    CommitPoints(g, base, blocks, data, ws, i, d);
    var n := |blocks|;
    var committed := HeaderBlock(base[g.start], blocks);
    HeaderRoundTrip(g, base[g.start], blocks);
    HeaderRoundTrip(g, committed, []);
    if n < i <= 2 * n + 1 {
      AmongWhole(g, base, blocks, data, i - n - 1, committed, d);
      LogicalOfCommitted(g, d, base, blocks, data);
    } else {
      LogicalOfClean(g, d);
      AfterInstalls(g, base, blocks, data, d);
    }
  }

  lemma AmongWhole(g: Geometry, base: Disk, blocks: seq<int>, data: seq<Block>, k: nat, h: Block, d: Disk)
    requires WfDisk(g, base) && ValidTx(g, blocks, data) && k <= |blocks|
    requires CommitPoint(g, base, blocks, data, |blocks|, k, h, d)
    ensures LogHolds(g, d, data)
    ensures forall b :: g.Home(b) && !Among(blocks, |blocks|, b) ==> d[b] == base[b]
  {
    assert data[..|blocks|] == data;
    assert forall b :: Among(blocks, k, b) ==> Among(blocks, |blocks|, b);
  }

  /** All blocks installed: the home blocks are the new ones. */
  lemma InstalledHome(g: Geometry, base: Disk, blocks: seq<int>, data: seq<Block>, h: Block, d: Disk)
    requires WfDisk(g, base) && ValidTx(g, blocks, data)
    requires CommitPoint(g, base, blocks, data, |blocks|, |blocks|, h, d)
    ensures SameHome(g, d, InstallAll(base, blocks, data)) && d[g.start] == h
  {
    hide InstallAll;
    InstallAllAt(base, blocks, data);
  }

  /** All blocks installed, or none wanted. */
  lemma AfterInstalls(g: Geometry, base: Disk, blocks: seq<int>, data: seq<Block>, d: Disk)
    requires WfDisk(g, base) && ValidTx(g, blocks, data)
    ensures AfterWrites(g, base, blocks, data, 2 * |blocks| + 2, d) ==>
              SameHome(g, d, InstallAll(base, blocks, data))
    ensures blocks == [] ==> InstallAll(base, blocks, data) == base
  {
    if AfterWrites(g, base, blocks, data, 2 * |blocks| + 2, d) {
      InstalledHome(g, base, blocks, data, HeaderBlock(HeaderBlock(base[g.start], blocks), []), d);
    }
  }

  // ----- a crash inside recovery -----

  lemma RecoverWritesInRange(g: Geometry, d0: Disk)
    requires WfDisk(g, d0)
    ensures InRange(RecoverWrites(g, d0), |d0|)
  {
    var blocks := Entries(d0[g.start]);
    assert forall j :: 0 <= j < |blocks| ==> g.Home(blocks[j]);
  }

  lemma NoneInstalled(g: Geometry, d0: Disk, blocks: seq<int>, data: seq<Block>)
    requires WfDisk(g, d0) && blocks == Entries(d0[g.start]) && data == LogData(g, d0, |blocks|)
    ensures ValidTx(g, blocks, data) && CommitPoint(g, d0, blocks, data, |blocks|, 0, d0[g.start], d0)
  {
    assert data[..|blocks|] == data;
  }

  /** The i-th disk of a recovery: nothing in the log changes until the last
      write, and the first i home blocks are installed. */
  lemma {:induction false} RecoverPoints(g: Geometry, d0: Disk, blocks: seq<int>, data: seq<Block>, i: nat, d: Disk)
    requires WfDisk(g, d0)
    requires blocks == Entries(d0[g.start]) && data == LogData(g, d0, |blocks|)
    requires i <= |blocks| && InRange(Installs(blocks, data), |d0|)
    requires d == Apply(d0, Installs(blocks, data)[..i])
    ensures CommitPoint(g, d0, blocks, data, |blocks|, i, d0[g.start], d)
  {
    hide CommitPoint, Apply, Entries, WfHeader, ValidEntries;
    NoneInstalled(g, d0, blocks, data);
    if i == 0 {
      NoWrites(d0, Installs(blocks, data));
    } else {
      var ws := Installs(blocks, data);
      var before := Apply(d0, ws[..i - 1]);
      RecoverPoints(g, d0, blocks, data, i - 1, before);
      ApplyOneMore(d0, ws, i - 1);
      InstallStep(g, d0, blocks, data, i - 1, d0[g.start], before);
    }
  }

  /** The disk after i installs of a recovery. */
  lemma RecoveryAt(g: Geometry, d0: Disk, i: nat)
    requires WfDisk(g, d0) && i <= |Entries(d0[g.start])|
    ensures InRange(RecoverWrites(g, d0), |d0|)
    ensures var blocks := Entries(d0[g.start]);
            var data := LogData(g, d0, |blocks|);
            ValidTx(g, blocks, data) && CommitPoint(g, d0, blocks, data, |blocks|, i, d0[g.start], Apply(d0, RecoverWrites(g, d0)[..i]))
  {
    hide CommitPoint, Apply, Entries;
    var blocks := Entries(d0[g.start]);
    var data := LogData(g, d0, |blocks|);
    RecoverWritesInRange(g, d0);
    NoneInstalled(g, d0, blocks, data);
    assert RecoverWrites(g, d0)[..i] == Installs(blocks, data)[..i];
    assert InRange(Installs(blocks, data), |d0|) by {
      assert forall j :: 0 <= j < |blocks| ==> Installs(blocks, data)[j] == RecoverWrites(g, d0)[j];
    }
    RecoverPoints(g, d0, blocks, data, i, Apply(d0, RecoverWrites(g, d0)[..i]));
  }

  lemma RecoveryPart(g: Geometry, d0: Disk, i: nat)
    requires WfDisk(g, d0) && i <= |Entries(d0[g.start])| && InRange(RecoverWrites(g, d0), |d0|)
    ensures var d := Apply(d0, RecoverWrites(g, d0)[..i]);
            WfDisk(g, d) && SameHome(g, Logical(g, d), Logical(g, d0))
  {
    hide Apply, Entries, WfHeader, ValidEntries, RecoverWrites, LogHolds, Among;
    var blocks := Entries(d0[g.start]);
    var data := LogData(g, d0, |blocks|);
    var d := Apply(d0, RecoverWrites(g, d0)[..i]);
    RecoveryAt(g, d0, i);
    AmongWhole(g, d0, blocks, data, i, d0[g.start], d);
    LogicalOfCommitted(g, d, d0, blocks, data);
  }

  lemma RecoveryWhole(g: Geometry, d0: Disk)
    requires WfDisk(g, d0) && InRange(RecoverWrites(g, d0), |d0|)
    ensures var d := Apply(d0, RecoverWrites(g, d0));
            WfDisk(g, d) && d[g.start][0] == 0 && SameHome(g, d, Logical(g, d0)) && Logical(g, d) == d
  {
    hide Apply, Entries, WfHeader, ValidEntries, CommitPoint, HeaderBlock, InstallAll, SameHome, Installs;
    var blocks := Entries(d0[g.start]);
    var data := LogData(g, d0, |blocks|);
    var ws, n, h := RecoverWrites(g, d0), |blocks|, HeaderBlock(d0[g.start], []);
    RecoveryAt(g, d0, n);
    assert ws[..n + 1] == ws;
    ApplyOneMore(d0, ws, n);
    HeaderStep(g, d0, blocks, data, n, d0[g.start], h, Apply(d0, ws[..n]));
    InstalledHome(g, d0, blocks, data, h, Apply(d0, ws));
    assert ValidEntries(g, []) by { NoEntries(g); }
    HeaderRoundTrip(g, d0[g.start], []);
    LogicalOfClean(g, Apply(d0, ws));
  }

  lemma NoEntries(g: Geometry)
    requires g.Valid()
    ensures ValidEntries(g, [])
  {
  }

  /** Recovery may be interrupted after any of its block writes: what the disk
      means does not change, so running it again is enough. */
  lemma RecoveryAtomic(g: Geometry, d0: Disk, i: nat)
    requires WfDisk(g, d0) && i <= |RecoverWrites(g, d0)|
    ensures InRange(RecoverWrites(g, d0), |d0|)
    ensures var d := Apply(d0, RecoverWrites(g, d0)[..i]);
            && WfDisk(g, d)
            && SameHome(g, Logical(g, d), Logical(g, d0))
            && (i == |RecoverWrites(g, d0)| ==> d[g.start][0] == 0 && SameHome(g, d, Logical(g, d0)))
  {
    hide Apply, Logical, WfHeader, SameHome;
    RecoverWritesInRange(g, d0);
    if i <= |Entries(d0[g.start])| {
      RecoveryPart(g, d0, i);
    } else {
      assert RecoverWrites(g, d0)[..i] == RecoverWrites(g, d0);
      RecoveryWhole(g, d0);
    }
  }
}
