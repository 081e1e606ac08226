/** filewrite, chunk by chunk. */
module FsFile {
  import opened FsLayout
  import opened FsState
  import opened FsUpdate
  import opened FsInode
  import LogRecovery

  /** ((MAXOPBLOCKS-1-1-2) / 2) * 512. */
  const MAXCHUNK: nat := ((LogRecovery.MAXOPBLOCKS - 1 - 1 - 2) / 2) * 512

  /** The most blocks a transaction of filewrite logs. */
  const CHUNKBLOCKS: nat := 7

  /** An open file: its inode and its offset. */
  class File {
    const fs: FileSystem
    const ip: int
    var off: nat

    constructor (fs: FileSystem, ip: int)
      requires 0 <= ip
      ensures this.fs == fs && this.ip == ip && off == 0
    {
      this.fs, this.ip, off := fs, ip, 0;
    }

    /** filewrite on an inode, one transaction per chunk: all of src, or an error when
        it does not fit, after the chunks that did. Each transaction logs at most seven
        blocks, every block it changes among them. */
    method Write(src: seq<int>) returns (r: Outcome)
      requires fs.Valid() && 0 <= ip < |fs.inodes| && fs.sb.size <= BPB
      requires off + |src| < WORD && forall k :: 0 <= k < |src| ==> 0 <= src[k] < 256
      modifies this, fs
      ensures fs.Valid() && (r.Panic? ==> DiskFull(fs.State()))
      ensures r.Done? ==> r.n == |src| && off == old(off) + |src|
      ensures r.Error? ==> old(off) > old(fs.inodes[ip].size) || old(off) + |src| > MAXFILE * BSIZE
      ensures r.Done? && src != [] ==> old(off) <= old(fs.inodes[ip].size) && old(off) + |src| <= MAXFILE * BSIZE
      ensures !r.Panic? ==>
                && old(off) <= off <= old(off) + |src|
                && WrittenUpTo(old(fs.State()), fs.State(), ip, old(off), src[..off - old(off)])
                && LoggedBy(old(fs.blocks), old(fs.calls), fs.blocks, fs.calls,
                            Chunks(off - old(off)) + (if r.Error? then 1 else 0))
    {
      hide Content, Owned, WrittenUpTo, LoggedBy;
      var i := 0;
      ghost var fs0, start, calls0 := fs.State(), off, fs.calls;
      NoneWritten(fs0, ip, start, src);
      NoneLogged(fs.blocks, calls0);
      while i < |src|
        invariant 0 <= i <= |src| && fs.Valid() && |fs.inodes| == |fs0.inodes| && off == start + i
        invariant i == |src| || i % MAXCHUNK == 0
        invariant LoggedBy(fs0.blocks, calls0, fs.blocks, fs.calls, Chunks(i))
        invariant WrittenUpTo(fs0, fs.State(), ip, start, src[..i])
        invariant if i == 0 then fs.inodes[ip].size == fs0.inodes[ip].size
                  else start <= fs0.inodes[ip].size && off <= fs.inodes[ip].size && off <= MAXFILE * BSIZE
      {
        var n1 := if |src| - i > MAXCHUNK then MAXCHUNK else |src| - i;
        ghost var fs1, calls1 := fs.State(), fs.calls;
        r := WriteChunk(src[i..i + n1]);
        if r.Panic? {
          return;
        }
        OneChunkMore(i, n1, |src|);
        LoggedTrans(fs0.blocks, calls0, fs1.blocks, calls1, fs.blocks, fs.calls, Chunks(i));
        if r.Error? {
          return;
        }
        MoreWritten(fs0, fs1, fs.State(), ip, start, src, i, i + n1);
        off := off + n1;
        i := i + n1;
      }
      assert src[..|src|] == src;
      r := Done(|src|);
    }

    /** The body of filewrite's loop: one transaction. */
    method WriteChunk(chunk: seq<int>) returns (r: Outcome)
      requires fs.Valid() && 0 <= ip < |fs.inodes| && fs.sb.size <= BPB
      requires 0 < |chunk| <= MAXCHUNK && off + |chunk| < WORD && forall k :: 0 <= k < |chunk| ==> 0 <= chunk[k] < 256
      modifies fs
      ensures fs.Valid() && (r.Panic? ==> DiskFull(fs.State()))
      ensures r.Error? <==> off > old(fs.inodes[ip].size) || off + |chunk| > MAXFILE * BSIZE
      ensures r.Error? ==> fs.State() == old(fs.State())
      ensures r.Done? ==> |fs.inodes| == |old(fs.inodes)| && off + |chunk| <= fs.inodes[ip].size
      ensures r.Done? ==> WrittenUpTo(old(fs.State()), fs.State(), ip, off, chunk)
      ensures !r.Panic? ==> LoggedBy(old(fs.blocks), old(fs.calls), fs.blocks, fs.calls, 1)
    {
      hide Content, Splice, MayLog, Owned, InodeHole, LoggedBy, Noted;
      NoneLogged(fs.blocks, fs.calls);
      fs.BeginOp();
      r := fs.Writei(ip, off, chunk);
      fs.EndOp();
      if r.Done? {
        ChunkLogsSeven(fs.State(), ip, off, |chunk|, fs.logged);
      }
      if !r.Panic? {
        LoggedMore(old(fs.blocks), old(fs.calls), old(fs.blocks), old(fs.calls), fs.blocks, 0, fs.logged);
      }
    }
  }

  /** From fs to fs', src has been written to inode i from off on, and no other file
      has changed. */
  ghost predicate WrittenUpTo(fs: Fs, fs': Fs, i: int, off: nat, src: seq<int>) {
    && Wf(fs) && Wf(fs') && 0 <= i < |fs.inodes| == |fs'.inodes| && SizesOk(fs) && SizesOk(fs')
    && (src != [] ==> off <= fs.inodes[i].size)
    && Content(fs', i) == (if src == [] then Content(fs, i) else Splice(Content(fs, i), off, src))
    && forall j :: 0 <= j < |fs.inodes| && j != i ==> Content(fs', j) == Content(fs, j)
  }

  ghost predicate SizesOk(fs: Fs) {
    forall j :: 0 <= j < |fs.inodes| ==> fs.inodes[j].size <= MAXFILE * BSIZE
  }

  lemma NoneWritten(fs: Fs, i: int, off: nat, src: seq<int>)
    requires Wf(fs) && 0 <= i < |fs.inodes| && SizesOk(fs)
    ensures WrittenUpTo(fs, fs, i, off, src[..0])
  {
  }

  lemma MoreWritten(a: Fs, b: Fs, c: Fs, ip: int, start: nat, src: seq<int>, i: nat, j: nat)
    requires i < j <= |src| && WrittenUpTo(a, b, ip, start, src[..i]) && WrittenUpTo(b, c, ip, start + i, src[i..j])
    requires i == 0 ==> start <= a.inodes[ip].size
    ensures WrittenUpTo(a, c, ip, start, src[..j])
  {
    hide Splice, Content;
    if i == 0 {
      assert src[..j] == src[0..j];
    } else {
      SpliceTwice(Content(a, ip), start, src, i, j);
    }
  }

  /** From calls to calls', n more calls have ended; each logged at most seven blocks,
      and every block that has changed was logged by one of them. */
  ghost predicate LoggedBy(before: seq<Block>, calls: seq<set<int>>, after: seq<Block>, calls': seq<set<int>>, n: int) {
    && |calls'| == |calls| + n && n >= 0 && calls'[..|calls|] == calls && |after| == |before|
    && (forall t :: |calls| <= t < |calls'| ==> |calls'[t]| <= CHUNKBLOCKS)
    && (forall b :: 0 <= b < |before| && after[b] != before[b] ==>
          exists t :: |calls| <= t < |calls'| && b in calls'[t])
  }

  lemma NoneLogged(a: seq<Block>, calls: seq<set<int>>)
    ensures LoggedBy(a, calls, a, calls, 0)
  {
  }

  lemma LoggedMore(a: seq<Block>, calls: seq<set<int>>, b: seq<Block>, calls1: seq<set<int>>, c: seq<Block>, n: int, logged: set<int>)
    requires LoggedBy(a, calls, b, calls1, n) && Noted(b, c, logged) && |logged| <= CHUNKBLOCKS
    ensures LoggedBy(a, calls, c, calls1 + [logged], n + 1)
  {
    var all := calls1 + [logged];
    forall x | 0 <= x < |a| && c[x] != a[x] ensures exists t :: |calls| <= t < |all| && x in all[t] {
      if c[x] != b[x] {
        assert x in all[|calls1|];
      } else {
        var t :| |calls| <= t < |calls1| && x in calls1[t];
        assert x in all[t];
      }
    }
  }

  lemma LoggedTrans(a: seq<Block>, calls: seq<set<int>>, b: seq<Block>, calls1: seq<set<int>>, c: seq<Block>, calls2: seq<set<int>>, n: int)
    requires LoggedBy(a, calls, b, calls1, n) && LoggedBy(b, calls1, c, calls2, 1)
    ensures LoggedBy(a, calls, c, calls2, n + 1)
  {
    assert calls2[..|calls|] == calls2[..|calls1|][..|calls|];
    forall t | |calls| <= t < |calls2| ensures |calls2[t]| <= CHUNKBLOCKS {
      assert t < |calls1| ==> calls2[t] == calls1[t];
    }
    forall x | 0 <= x < |a| && c[x] != a[x] ensures exists t :: |calls| <= t < |calls2| && x in calls2[t] {
      if c[x] == b[x] {
        var t :| |calls| <= t < |calls1| && x in calls1[t];
        assert x in calls2[t];
      }
    }
  }

  /** How many chunks n bytes take. */
  function Chunks(n: int): int {
    (n + MAXCHUNK - 1) / MAXCHUNK
  }

  lemma OneChunkMore(i: nat, n1: nat, n: nat)
    requires i % MAXCHUNK == 0 && i < n && n1 == (if n - i > MAXCHUNK then MAXCHUNK else n - i)
    ensures Chunks(i + n1) == Chunks(i) + 1 && (i + n1 == n || (i + n1) % MAXCHUNK == 0)
  {
    assert MAXCHUNK == 1536;
  }

  /** Two writes one behind the other are one write. */
  lemma SpliceTwice(file: seq<int>, off: nat, src: seq<int>, i: nat, j: nat)
    requires off <= |file| && i <= j <= |src|
    ensures off + i <= |Splice(file, off, src[..i])|
    ensures Splice(Splice(file, off, src[..i]), off + i, src[i..j]) == Splice(file, off, src[..j])
  {
    var a, b := Splice(file, off, src[..i]), Splice(file, off, src[..j]);
    SpliceAt(file, off, src[..i]);
    SpliceAt(file, off, src[..j]);
    SpliceAt(a, off + i, src[i..j]);
    hide Splice;
    var c := Splice(a, off + i, src[i..j]);
    assert |c| == |b|;
    assert forall k :: 0 <= k < |b| ==> c[k] == b[k];
  }

  lemma SpliceAt(file: seq<int>, off: nat, src: seq<int>)
    requires off <= |file|
    ensures var r := Splice(file, off, src);
            && |r| == (if off + |src| < |file| then |file| else off + |src|)
            && forall k :: 0 <= k < |r| ==> r[k] == if off <= k < off + |src| then src[k - off] else file[k]
  {
  }
}
