/** The block allocator and the inode routines, changing blocks and inodes in
    place. A panic of the kernel is an outcome, so nothing is assumed about there
    being enough blocks. */
module FsInode {
  import opened FsLayout
  import opened FsState
  import opened FsUpdate
  import opened Sets

  datatype Outcome = Done(n: int) | Error | Panic

  class FileSystem {
    const sb: Super
    var blocks: seq<Block>
    var inodes: seq<Inode>
    ghost var owner: map<int, Place>
    ghost var logged: set<int>         // the block numbers passed to log_write since begin_op
    ghost var calls: seq<set<int>>     // what each call up to its end_op logged
    ghost var updated: set<int>        // the inodes given to iupdate since begin_op

    ghost function State(): Fs
      reads this
    {
      Fs(sb, blocks, inodes)
    }

    ghost predicate Valid()
      reads this
    {
      Owned(State(), owner) && forall i :: 0 <= i < |inodes| ==> inodes[i].size <= MAXFILE * BSIZE
    }

    constructor (fs: Fs, ghost o: map<int, Place>)
      requires Owned(fs, o) && forall i :: 0 <= i < |fs.inodes| ==> fs.inodes[i].size <= MAXFILE * BSIZE
      ensures Valid() && State() == fs && owner == o
    {
      sb, blocks, inodes := fs.sb, fs.blocks, fs.inodes;
      owner, logged, calls, updated := o, {}, [], {};
    }

    /** begin_op, as far as the file system can see it. */
    ghost method BeginOp()
      modifies this`logged, this`updated
      ensures logged == {} && updated == {}
    {
      logged, updated := {}, {};
    }

    ghost method EndOp()
      modifies this`calls
      ensures calls == old(calls) + [logged]
    {
      calls := calls + [logged];
    }

    /** The first block whose bit is clear, or -1: balloc's two loops. */
    method FindFree() returns (b: int)
      requires Wf(State())
      ensures b == -1 ==> forall c :: 0 <= c < sb.size ==> Bit(State(), c)
      ensures b != -1 ==> 0 <= b < sb.size && !Bit(State(), b) && forall c :: 0 <= c < b ==> Bit(State(), c)
    {
      var start := 0;
      while start < sb.size
        invariant 0 <= start && start % BPB == 0
        invariant forall c :: 0 <= c < start && c < sb.size ==> Bit(State(), c)
      {
        var bp := blocks[sb.bmapstart + start / BPB];
        var bi := 0;
        while bi < BPB && start + bi < sb.size
          invariant 0 <= bi <= BPB
          invariant forall c :: 0 <= c < start + bi && c < sb.size ==> Bit(State(), c)
        {
          SameBitmapBlock(start, bi);
          if !TestBit(bp[bi / 8], bi % 8) {
            return start + bi;
          }
          bi := bi + 1;
        }
        start := start + BPB;
      }
      b := -1;
    }

    /** log_write: the buffer's new contents, and its number noted. */
    method LogWrite(b: int, data: Block)
      requires 0 <= b < |blocks|
      modifies `blocks, `logged
      ensures blocks == old(blocks)[b := data] && logged == old(logged) + {b}
    {
      blocks := blocks[b := data];
      logged := logged + {b};
    }

    /** balloc; -1 is its panic. */
    method Balloc() returns (b: int)
      requires Valid()
      modifies `blocks, `logged
      ensures b == -1 ==> blocks == old(blocks) && logged == old(logged) && DiskFull(State())
      ensures b != -1 ==> sb.datastart <= b < sb.size && b !in owner && !old(Bit(State(), b))
      ensures b != -1 ==> State() == Allocated(old(State()), b) && logged == old(logged) + {sb.bmapstart + b / BPB, b}
      ensures Noted(old(blocks), blocks, logged)
    {
      b := FindFree();
      if b != -1 {
        var m := sb.bmapstart + b / BPB;
        LogWrite(m, BlockWithBit(blocks[m], b % BPB, true));
        LogWrite(b, Zeroed());
      }
    }

    /** bfree; false is its panic "freeing free block". */
    method Bfree(b: int) returns (ok: bool)
      requires Wf(State()) && 0 <= b < sb.size
      modifies `blocks, `logged
      ensures ok == old(Bit(State(), b))
      ensures State() == if ok then WithBit(old(State()), b, false) else old(State())
    {
      var m := sb.bmapstart + b / BPB;
      ok := BlockBit(blocks[m], b % BPB);
      if ok {
        LogWrite(m, BlockWithBit(blocks[m], b % BPB, false));
      }
    }

    /** Fill the empty slot s <= NDIRECT of inode i with a fresh block. */
    method AllocAddr(i: int, s: int) returns (b: int)
      requires Valid() && 0 <= i < |inodes| && 0 <= s <= NDIRECT && inodes[i].addrs[s] == 0
      modifies `blocks, `inodes, `owner, `logged
      ensures Valid() && Mapped(old(State()), State(), i)
      ensures if b == -1 then DiskFull(State()) else b != 0 && inodes[i].addrs[s] == b
      ensures LogsOnly(State(), i, {s}, old(logged), logged) && old(logged) <= logged && Noted(old(blocks), blocks, logged)
      ensures b != -1 ==> inodes == old(inodes)[i := old(inodes[i]).(addrs := old(inodes[i]).addrs[s := b])]
    {
      hide Word, BlockBit, RefsOwned, BitsOwned, Allocated;
      ghost var fs0, o0 := State(), owner;
      b := Balloc();
      if b != -1 {
        AllocateToAddr(fs0, o0, i, s, b);
        inodes := inodes[i := inodes[i].(addrs := inodes[i].addrs[s := b])];
        owner := owner[b := Place(i, s)];
        OneMoreLogged(State(), i, s, b, old(logged));
      } else {
        MappedRefl(fs0, o0, i);
      }
    }

    /** Fill the empty entry s of inode i's indirect block with a fresh block. */
    method AllocEntry(i: int, s: int) returns (b: int)
      requires Valid() && 0 <= i < |inodes| && NDIRECT < s < NSLOTS
      requires inodes[i].addrs[NDIRECT] != 0 && Ref(State(), i, s) == 0
      modifies `blocks, `inodes, `owner, `logged
      ensures Valid() && Mapped(old(State()), State(), i)
      ensures if b == -1 then DiskFull(State()) else b != 0 && Ref(State(), i, s) == b
      ensures LogsOnly(State(), i, {NDIRECT, s}, old(logged), logged) && old(logged) <= logged && Noted(old(blocks), blocks, logged)
      ensures inodes == old(inodes)
    {
      hide Word, BlockBit, RefsOwned, BitsOwned;
      ghost var fs0, o0 := State(), owner;
      b := Balloc();
      if b != -1 {
        AllocateToEntry(fs0, o0, i, s, b);
        IndirectOwned(fs0, o0, i);
        var r := inodes[i].addrs[NDIRECT];
        LogWrite(r, WithWord(blocks[r], s - NDIRECT - 1, b));
        owner := owner[b := Place(i, s)];
        OneMoreLogged(State(), i, s, b, old(logged));
        assert Ref(State(), i, NDIRECT) == r;
      } else {
        MappedRefl(fs0, o0, i);
      }
    }

    /** bmap: the block number of the bn-th block of inode i, allocating it and the
        indirect block when they are not there; -1 is a panic. */
    method Bmap(i: int, bn: nat) returns (addr: int)
      requires Valid() && 0 <= i < |inodes|
      modifies `blocks, `inodes, `owner, `logged
      ensures Valid() && Mapped(old(State()), State(), i)
      ensures addr != -1 ==> bn < MAXFILE && addr != 0 && Ref(State(), i, SlotOf(bn)) == addr
      ensures bn < MAXFILE ==> LogsOnly(State(), i, {NDIRECT, SlotOf(bn)}, old(logged), logged)
      ensures old(logged) <= logged && Noted(old(blocks), blocks, logged)
      ensures addr != -1 ==> inodes[i].addrs[InodeSlot(bn)] != 0 && (inodes == old(inodes) <==> old(inodes[i]).addrs[InodeSlot(bn)] != 0)
      ensures bn >= MAXFILE ==> addr == -1
      ensures addr == -1 ==> bn >= MAXFILE || DiskFull(State())
    {
      hide Word, BlockBit, RefsOwned, BitsOwned;
      if bn < NDIRECT {
        addr := inodes[i].addrs[bn];
        RefsPositive(State(), owner, i, bn);
        if addr == 0 {
          addr := AllocAddr(i, bn);
        } else {
          MappedRefl(State(), owner, i);
        }
        return;
      }
      if bn >= MAXFILE {
        MappedRefl(State(), owner, i);
        return -1;
      }
      ghost var fs0, l0 := State(), logged;
      MappedRefl(fs0, owner, i);
      if inodes[i].addrs[NDIRECT] == 0 {
        addr := AllocAddr(i, NDIRECT);
        if addr == -1 {
          return;
        }
      }
      ghost var fs1, l1 := State(), logged;
      assert LogsOnly(fs1, i, {NDIRECT}, l0, l1);
      IndirectOwned(fs1, owner, i);
      var s := bn + 1;
      addr := ReadEntry(i, s);
      if addr == 0 {
        addr := AllocEntry(i, s);
        MappedTrans(fs0, fs1, State(), i);
        LogsOnlyTrans(fs1, State(), i, {NDIRECT}, {NDIRECT, s}, l0, l1, logged);
      }
    }

    method ReadEntry(i: int, s: int) returns (addr: int)
      requires Valid() && 0 <= i < |inodes| && NDIRECT < s < NSLOTS && inodes[i].addrs[NDIRECT] != 0
      ensures addr == Ref(State(), i, s) && addr != -1
    {
      var a := blocks[inodes[i].addrs[NDIRECT]];
      addr := Word(a, s - NDIRECT - 1);
    }

    /** One pass of writei's loop; false is the panic of balloc on a full disk. */
    method WriteChunk(i: int, off: nat, src: seq<int>) returns (ok: bool)
      requires Valid() && 0 <= i < |inodes| && off + |src| <= MAXFILE * BSIZE
      requires 0 < |src| && off % BSIZE + |src| <= BSIZE && forall k :: 0 <= k < |src| ==> 0 <= src[k] < 256
      modifies `blocks, `inodes, `owner, `logged
      ensures Valid() && (!ok ==> DiskFull(State()))
      ensures ok ==> Wrote(old(State()), State(), i, off, src)
      ensures ok ==> LogsOnly(State(), i, {NDIRECT, SlotOf(off / BSIZE)}, old(logged), logged)
      ensures old(logged) <= logged && Noted(old(blocks), blocks, logged)
      ensures |inodes| == |old(inodes)| && (ok ==> inodes[i].addrs[InodeSlot(off / BSIZE)] != 0)
      ensures ok ==> (inodes == old(inodes) <==> old(inodes[i]).addrs[InodeSlot(off / BSIZE)] != 0)
    {
      hide RefsOwned, BitsOwned, Byte;
      var addr := Bmap(i, off / BSIZE);
      if addr == -1 {
        return false;
      }
      ghost var fs1 := State();
      WroteChunk(old(State()), fs1, owner, i, off, src);
      LogWrite(addr, Spliced(blocks[addr], off % BSIZE, src));
      ok := true;
      assert Ref(fs1, i, SlotOf(off / BSIZE)) == addr;
      LogsOnlySelf(fs1, State(), i, {NDIRECT, SlotOf(off / BSIZE)}, SlotOf(off / BSIZE), old(logged), logged - {addr}, addr);
    }

    /** writei, without device inodes. */
    method Writei(i: int, off: nat, src: seq<int>) returns (r: Outcome)
      requires Valid() && 0 <= i < |inodes|
      requires off < WORD && |src| < WORD && forall k :: 0 <= k < |src| ==> 0 <= src[k] < 256
      modifies `blocks, `inodes, `owner, `logged, `updated
      ensures Valid() && (r.Panic? ==> DiskFull(State()))
      ensures r.Error? <==> off > old(inodes[i].size) || off + |src| > MAXFILE * BSIZE
      ensures r.Error? ==> State() == old(State()) && logged == old(logged) && updated == old(updated)
      ensures old(logged) <= logged && Noted(old(blocks), blocks, logged)
      ensures r.Done? ==> updated == old(updated) + if |src| > 0 && off + |src| > old(inodes[i].size) then {i} else {}
      ensures r.Done? ==> |inodes| == |old(inodes)| && (inodes[i].addrs != old(inodes[i].addrs) <==> InodeHole(old(inodes[i]), off, |src|))
      ensures r.Done? ==> r.n == |src| && |inodes| == |old(inodes)| && inodes[i].size == Max(old(inodes[i].size), off + |src|)
      ensures r.Done? ==> Content(State(), i) == Splice(old(Content(State(), i)), off, src)
      ensures r.Done? ==> forall j :: 0 <= j < |inodes| && j != i ==>
                            inodes[j] == old(inodes[j]) && Content(State(), j) == old(Content(State(), j))
      ensures r.Done? ==> forall x :: x in logged && x != InodeBlock(sb, i) ==>
                            MayLog(State(), i, off, |src|, old(logged), x)
    {
      hide RefsOwned, BitsOwned, Byte, MayLog, Splice;
      WrapTest(off, |src|);
      if off > inodes[i].size || (off + |src|) % WORD < off {
        return Error;
      }
      if (off + |src|) % WORD > MAXFILE * BSIZE {
        return Error;
      }
      ghost var fs0 := State();
      var ok := WriteAll(i, off, src);
      if !ok {
        return Panic;
      }
      ghost var fs1, l1 := State(), logged;
      if |src| > 0 && off + |src| > inodes[i].size {
        inodes := inodes[i := inodes[i].(size := off + |src|)];
        logged, updated := logged + {InodeBlock(sb, i)}, updated + {i};
        Resized(fs1, State(), owner, i);
      } else {
        Resized(fs1, State(), owner, i);
      }
      r := Done(|src|);
      ContentAfterWrite(fs0, fs1, State(), i, off, src);
      MayLogSame(fs1, State(), i, off, |src|, old(logged), l1);
      NotedTrans(fs0.blocks, blocks, blocks, l1, logged);
    }

    /** writei's loop over the chunks that each lie in one block. */
    method WriteAll(i: int, off: nat, src: seq<int>) returns (ok: bool)
      requires Valid() && 0 <= i < |inodes| && off + |src| <= MAXFILE * BSIZE
      requires forall k :: 0 <= k < |src| ==> 0 <= src[k] < 256
      modifies `blocks, `inodes, `owner, `logged
      ensures Valid() && (!ok ==> DiskFull(State()))
      ensures old(logged) <= logged && Noted(old(blocks), blocks, logged)
      ensures ok ==> WriteSoFar(old(State()), old(logged), State(), logged, i, off, src)
    {
      hide RefsOwned, BitsOwned, Chunk, Wrote, WriteSoFar, Noted;
      ghost var fs0 := State();
      var tot := 0;
      NothingWritten(fs0, owner, logged, i, off);
      NotedNone(blocks, logged);
      assert src[..0] == [];
      while tot < |src|
        invariant 0 <= tot <= |src| && Valid() && |inodes| == |fs0.inodes|
        invariant old(logged) <= logged && Noted(fs0.blocks, blocks, logged)
        invariant WriteSoFar(fs0, old(logged), State(), logged, i, off, src[..tot])
      {
        var m := Chunk(off + tot, |src| - tot);
        ghost var fs1, l1 := State(), logged;
        ok := WriteChunk(i, off + tot, src[tot..tot + m]);
        NotedTrans(fs0.blocks, fs1.blocks, blocks, l1, logged);
        if !ok {
          return;
        }
        WroteMoreSoFar(fs0, old(logged), fs1, l1, State(), logged, i, off, src[..tot], src[tot..tot + m]);
        assert src[..tot] + src[tot..tot + m] == src[..tot + m];
        tot := tot + m;
      }
      assert src[..|src|] == src;
      ok := true;
    }

    /** One pass of readi's loop: the bytes of one block; false is a panic. */
    method ReadChunk(i: int, off: nat, m: nat, ghost fs0: Fs) returns (ok: bool, bytes: seq<int>)
      requires Valid() && 0 <= i < |inodes| && Mapped(fs0, State(), i)
      requires 0 < m && off + m <= fs0.inodes[i].size <= MAXFILE * BSIZE && off % BSIZE + m <= BSIZE
      modifies `blocks, `inodes, `owner, `logged
      ensures Valid() && 0 <= i < |inodes| && Mapped(fs0, State(), i) && (!ok ==> DiskFull(State()))
      ensures ok ==> bytes == Content(fs0, i)[off..off + m]
    {
      hide BitsOwned, SameBytes, Byte;
      var addr := Bmap(i, off / BSIZE);
      MappedTrans(fs0, old(State()), State(), i);
      if addr == -1 {
        return false, [];
      }
      assert addr in owner;
      BlockShows(fs0, State(), i, off, m, addr);
      ok, bytes := true, blocks[addr][off % BSIZE..off % BSIZE + m];
    }

    /** readi, without device inodes: the outcome and the bytes read. A hole in the
        file is filled on the way, which changes no byte. */
    method Readi(i: int, off: nat, n: nat) returns (r: Outcome, dst: seq<int>)
      requires Valid() && 0 <= i < |inodes| && off < WORD && n < WORD
      modifies `blocks, `inodes, `owner, `logged
      ensures Valid() && (r.Panic? ==> DiskFull(State()))
      ensures r.Error? <==> off > old(inodes[i].size) || off + n >= WORD
      ensures r.Error? ==> State() == old(State())
      ensures r.Done? ==> Mapped(old(State()), State(), i) && r.n == |dst|
      ensures r.Done? ==> dst == old(Content(State(), i))[off..Min(off + n, old(inodes[i].size))]
    {
      hide RefsOwned, BitsOwned, SameBytes, Byte, Mapped;
      WrapTest(off, n);
      dst := [];
      if off > inodes[i].size || (off + n) % WORD < off {
        return Error, [];
      }
      var len := n;
      if off + n > inodes[i].size {
        len := inodes[i].size - off;
      }
      var ok;
      ok, dst := ReadAll(i, off, len);
      r := if ok then Done(len) else Panic;
    }

    /** readi's loop over the chunks that each lie in one block. */
    method ReadAll(i: int, off: nat, len: nat) returns (ok: bool, dst: seq<int>)
      requires Valid() && 0 <= i < |inodes| && off + len <= inodes[i].size
      modifies `blocks, `inodes, `owner, `logged
      ensures Valid() && (!ok ==> DiskFull(State()))
      ensures ok ==> Mapped(old(State()), State(), i) && |dst| == len && dst == old(Content(State(), i))[off..off + len]
    {
      hide RefsOwned, BitsOwned, SameBytes, Byte, Chunk, Mapped, Content;
      ghost var fs0, file := State(), Content(State(), i);
      MappedRefl(fs0, owner, i);
      dst := [];
      var tot := 0;
      while tot < len
        invariant 0 <= tot <= len && Valid() && 0 <= i < |inodes| && Mapped(fs0, State(), i)
        invariant dst == file[off..off + tot]
      {
        var m := Chunk(off + tot, len - tot);
        var bytes;
        ok, bytes := ReadChunk(i, off + tot, m, fs0);
        if !ok {
          return;
        }
        assert file[off..off + tot + m] == file[off..off + tot] + file[off + tot..off + tot + m];
        dst := dst + bytes;
        tot := tot + m;
      }
      ok := true;
    }

    /** Free the block in direct slot s, if there is one. */
    method FreeDirect(i: int, s: int)
      requires Valid() && 0 <= i < |inodes| && 0 <= s < NDIRECT
      modifies `blocks, `inodes, `owner, `logged
      ensures Valid() && owner == Without(old(owner), i, s, s + 1) && Others(old(State()), State(), i)
      ensures inodes[i] == old(inodes[i]).(addrs := old(inodes[i]).addrs[s := 0])
    {
      hide RefsOwned, BitsOwned, SameBytes, Byte, Without, Bit;
      DropDirect(State(), owner, i, s);
      if inodes[i].addrs[s] != 0 {
        var ok := Bfree(inodes[i].addrs[s]);
        assert ok;
      }
      inodes := inodes[i := inodes[i].(addrs := inodes[i].addrs[s := 0])];
      owner := Without(owner, i, s, s + 1);
    }

    /** Free every block the indirect block of inode i names, then that block. */
    method FreeIndirect(i: int)
      requires Valid() && 0 <= i < |inodes|
      modifies `blocks, `inodes, `owner, `logged
      ensures Valid() && owner == Without(old(owner), i, NDIRECT, NSLOTS) && Others(old(State()), State(), i)
      ensures inodes[i] == old(inodes[i]).(addrs := old(inodes[i]).addrs[NDIRECT := 0])
    {
      hide RefsOwned, BitsOwned, SameBytes, Byte, Without, Bit;
      var r := inodes[i].addrs[NDIRECT];
      if r != 0 {
        FreeEntries(i);
        DropIndirect(old(State()), State(), owner, i);
        var ok := Bfree(r);
        assert ok;
      } else {
        NoEntries(State(), owner, i);
      }
      inodes := inodes[i := inodes[i].(addrs := inodes[i].addrs[NDIRECT := 0])];
      owner := Without(owner, i, NDIRECT, NSLOTS);
    }

    /** itrunc's loop over the entries: their bits are cleared, nothing else changes. */
    method FreeEntries(i: int)
      requires Valid() && 0 <= i < |inodes| && inodes[i].addrs[NDIRECT] != 0
      modifies `blocks, `logged
      ensures Wf(State()) && RefsOwned(State(), owner) && BitsOwned(State(), Without(owner, i, NDIRECT + 1, NSLOTS))
      ensures forall j :: 0 <= j < |inodes| ==> SameBytes(old(State()), State(), j)
    {
      hide RefsOwned, BitsOwned, SameBytes, Byte, Without, Ref, WithBit;
      ghost var fs0 := State();
      WithoutEmpty(owner, i, NDIRECT + 1);
      SameBytesRefl(fs0);
      var a := blocks[inodes[i].addrs[NDIRECT]];
      var j := 0;
      while j < NINDIRECT
        invariant 0 <= j <= NINDIRECT
        invariant Wf(State()) && RefsOwned(State(), owner)
        invariant BitsOwned(State(), Without(owner, i, NDIRECT + 1, NDIRECT + 1 + j))
        invariant forall k, t :: InRange(fs0, k, t) ==> Ref(State(), k, t) == Ref(fs0, k, t)
        invariant forall k :: 0 <= k < |inodes| ==> SameBytes(fs0, State(), k)
      {
        ghost var fs1 := State();
        var s := NDIRECT + 1 + j;
        FreeSlot(fs1, owner, i, s, NDIRECT + 1, s);
        EntryIs(fs0, i, j);
        if Word(a, j) != 0 {
          FreedKeeps(fs1, owner, Word(a, j));
          var ok := Bfree(Word(a, j));
          assert ok;
          SameBytesTrans(fs0, fs1, State());
        }
        j := j + 1;
      }
    }

    /** itrunc. It frees exactly the blocks of inode i; bfree's panic is never
        reached, and no other file changes. */
    method Itrunc(i: int)
      requires Valid() && 0 <= i < |inodes|
      modifies `blocks, `inodes, `owner, `logged, `updated
      ensures Valid() && |inodes| == |old(inodes)|
      ensures inodes[i].size == 0 && inodes[i].addrs == seq(NDIRECT + 1, _ => 0)
      ensures owner == Without(old(owner), i, 0, NSLOTS)
      ensures Others(old(State()), State(), i)
    {
      hide RefsOwned, BitsOwned, Byte, SameBytes, Without;
      ghost var fs0, o0 := State(), owner;
      OthersRefl(fs0, i);
      WithoutEmpty(o0, i, 0);
      var s := 0;
      while s < NDIRECT
        invariant 0 <= s <= NDIRECT && Valid() && owner == Without(o0, i, 0, s)
        invariant Others(fs0, State(), i)
        invariant forall t :: 0 <= t < s ==> inodes[i].addrs[t] == 0
      {
        ghost var fs1 := State();
        FreeDirect(i, s);
        WithoutMore(o0, i, 0, s, s + 1);
        OthersTrans(fs0, fs1, State(), i);
        s := s + 1;
      }
      ghost var fs2 := State();
      FreeIndirect(i);
      WithoutMore(o0, i, 0, NDIRECT, NSLOTS);
      OthersTrans(fs0, fs2, State(), i);
      ghost var fs3 := State();
      inodes := inodes[i := inodes[i].(size := 0)];
      Resized(fs3, State(), owner, i);
      OthersSize(fs3, State(), i);
      OthersTrans(fs0, fs3, State(), i);
      logged, updated := logged + {InodeBlock(sb, i)}, updated + {i};
    }

    lemma SameBitmapBlock(start: nat, bi: nat)
      requires Wf(State()) && start % BPB == 0 && bi < BPB && start + bi < sb.size
      ensures (start + bi) / BPB == start / BPB && (start + bi) % BPB == bi
      ensures 0 <= blocks[sb.bmapstart + start / BPB][bi / 8]
      ensures Bit(State(), start + bi) == TestBit(blocks[sb.bmapstart + start / BPB][bi / 8], bi % 8)
    {
      assert sb.bmapstart + (start + bi) / BPB < sb.datastart;
    }
  }

  ghost predicate IsBitmapBlock(sb: Super, x: int) {
    exists b :: 0 <= b < sb.size && x == sb.bmapstart + b / BPB
  }

  /** Beyond what was logged before, only bitmap blocks and the blocks in the given
      slots of inode i are logged. */
  ghost predicate LogsOnly(fs: Fs, i: int, slots: set<int>, before: set<int>, after: set<int>)
    requires Wf(fs) && 0 <= i < |fs.inodes| && forall s :: s in slots ==> 0 <= s < NSLOTS
  {
    forall x :: x in after ==>
      || x in before
      || IsBitmapBlock(fs.sb, x)
      || (exists s :: s in slots && x == Ref(fs, i, s) != 0)
  }

  lemma OneMoreLogged(fs: Fs, i: int, s: int, b: int, before: set<int>)
    requires Wf(fs) && InRange(fs, i, s) && Ref(fs, i, s) == b != 0 && 0 <= b < fs.sb.size
    ensures LogsOnly(fs, i, {s}, before, before + {fs.sb.bmapstart + b / BPB, b})
  {
    assert IsBitmapBlock(fs.sb, fs.sb.bmapstart + b / BPB);
    assert s in {s};
  }

  lemma LogsOnlyTrans(b: Fs, c: Fs, i: int, s1: set<int>, s2: set<int>, l0: set<int>, l1: set<int>, l2: set<int>)
    requires Mapped(b, c, i) && s1 <= s2 && forall s :: s in s2 ==> 0 <= s < NSLOTS
    requires LogsOnly(b, i, s1, l0, l1) && LogsOnly(c, i, s2, l1, l2)
    ensures LogsOnly(c, i, s2, l0, l2)
  {
    forall x | x in l2 && x !in l0 && !IsBitmapBlock(c.sb, x)
      ensures exists s :: s in s2 && x == Ref(c, i, s) != 0
    {
      if x in l1 {
        var s :| s in s1 && x == Ref(b, i, s) != 0;
        assert Ref(c, i, s) == x;
      }
    }
  }

  /** The test "off + n < off" on 32-bit numbers. */
  lemma WrapTest(off: nat, n: nat)
    requires off < WORD && n < WORD
    ensures (off + n) % WORD < off <==> off + n >= WORD
    ensures off + n < WORD ==> (off + n) % WORD == off + n
  {
  }

  /** min(left, BSIZE - off % BSIZE). */
  function Chunk(off: nat, left: nat): (m: nat)
    ensures m <= left && (left > 0 ==> m > 0) && off % BSIZE + m <= BSIZE
  {
    if left < BSIZE - off % BSIZE then left else BSIZE - off % BSIZE
  }

  function Max(a: int, b: int): int {
    if a < b then b else a
  }

  function Min(a: int, b: int): int {
    if a < b then a else b
  }

  /** A file with src written at offset off: longer if need be. */
  function Splice(old': seq<int>, off: nat, src: seq<int>): seq<int>
    requires off <= |old'|
  {
    if off + |src| < |old'| then old'[..off] + src + old'[off + |src|..] else old'[..off] + src
  }

  lemma ContentAfterWrite(fs0: Fs, fs1: Fs, fs2: Fs, i: int, off: nat, src: seq<int>)
    requires Wrote(fs0, fs1, i, off, src) && off <= fs0.inodes[i].size <= MAXFILE * BSIZE
    requires forall j :: 0 <= j < |fs0.inodes| ==> fs0.inodes[j].size <= MAXFILE * BSIZE
    requires Wf(fs2) && |fs2.inodes| == |fs0.inodes| && fs2.blocks == fs1.blocks && fs2.sb == fs1.sb
    requires fs2.inodes == fs1.inodes[i := fs1.inodes[i].(size := Max(fs0.inodes[i].size, off + |src|))]
    ensures Content(fs2, i) == Splice(Content(fs0, i), off, src)
    ensures forall j :: 0 <= j < |fs0.inodes| && j != i ==> Content(fs2, j) == Content(fs0, j)
  {
    hide Byte, Splice, Content;
    BytesOfSameBlocks(fs1, fs2, i);
    SplicedContent(fs0, fs2, i, off, src);
    forall j | 0 <= j < |fs0.inodes| && j != i ensures Content(fs2, j) == Content(fs0, j) {
      assert SameBytes(fs0, fs1, j);
      assert forall x :: 0 <= x < |Content(fs0, j)| ==> Content(fs2, j)[x] == Byte(fs1, j, x);
    }
  }

  lemma SplicedContent(fs0: Fs, fs2: Fs, i: int, off: nat, src: seq<int>)
    requires Wf(fs0) && Wf(fs2) && 0 <= i < |fs0.inodes| == |fs2.inodes|
    requires off <= fs0.inodes[i].size <= MAXFILE * BSIZE && off + |src| <= MAXFILE * BSIZE
    requires fs2.inodes[i].size == Max(fs0.inodes[i].size, off + |src|)
    requires forall x :: 0 <= x < MAXFILE * BSIZE ==>
               Byte(fs2, i, x) == if off <= x < off + |src| then src[x - off] else Byte(fs0, i, x)
    ensures Content(fs2, i) == Splice(Content(fs0, i), off, src)
  {
    hide Byte, Content;
    var c0, c2 := Content(fs0, i), Content(fs2, i);
    var want := Splice(c0, off, src);
    assert |c2| == |want|;
    forall x | 0 <= x < |c2| ensures c2[x] == want[x] {
      assert c2[x] == Byte(fs2, i, x);
    }
  }

  lemma BytesOfSameBlocks(fs1: Fs, fs2: Fs, i: int)
    requires Wf(fs1) && Wf(fs2) && 0 <= i < |fs1.inodes| == |fs2.inodes|
    requires fs2.blocks == fs1.blocks && fs2.sb == fs1.sb
    requires fs2.inodes == fs1.inodes[i := fs1.inodes[i].(size := fs2.inodes[i].size)]
    ensures forall j, x :: 0 <= j < |fs1.inodes| && 0 <= x < MAXFILE * BSIZE ==> Byte(fs2, j, x) == Byte(fs1, j, x)
  {
    forall j, x | 0 <= j < |fs1.inodes| && 0 <= x < MAXFILE * BSIZE ensures Byte(fs2, j, x) == Byte(fs1, j, x) {
      assert Ref(fs2, j, SlotOf(x / BSIZE)) == Ref(fs1, j, SlotOf(x / BSIZE));
    }
  }

  /** Changing the size of an inode changes no reference. */
  lemma Resized(fs: Fs, fs': Fs, o: map<int, Place>, i: int)
    requires Owned(fs, o) && 0 <= i < |fs.inodes| && fs'.sb == fs.sb && fs'.blocks == fs.blocks
    requires |fs'.inodes| == |fs.inodes| && fs'.inodes == fs.inodes[i := fs.inodes[i].(size := fs'.inodes[i].size)]
    ensures Owned(fs', o)
    ensures forall j, s :: InRange(fs, j, s) ==> Ref(fs', j, s) == Ref(fs, j, s)
  {
    forall j, s | InRange(fs, j, s) ensures Ref(fs', j, s) == Ref(fs, j, s) {
    }
    forall b | 0 <= b < fs.sb.size ensures Bit(fs', b) == Bit(fs, b) {
    }
  }

  lemma ByteShows(fs0: Fs, fs: Fs, i: int, off: nat, m: nat, k: nat)
    requires Mapped(fs0, fs, i) && fs0.inodes[i].size <= MAXFILE * BSIZE
    requires off + m <= fs0.inodes[i].size && k < m && off % BSIZE + m <= BSIZE
    requires 0 < Ref(fs, i, SlotOf(off / BSIZE)) < fs.sb.size
    ensures fs.blocks[Ref(fs, i, SlotOf(off / BSIZE))][off % BSIZE + k] == Content(fs0, i)[off + k]
  {
    assert SameBytes(fs0, fs, i);
    assert Byte(fs, i, off + k) == Byte(fs0, i, off + k);
    InOneBlock(off, m, off + k);
  }

  /** After bmap, the block holds the file's bytes. */
  lemma BlockShows(fs0: Fs, fs: Fs, i: int, off: nat, m: nat, r: int)
    requires Mapped(fs0, fs, i) && fs0.inodes[i].size <= MAXFILE * BSIZE
    requires off + m <= fs0.inodes[i].size && 0 < m && off % BSIZE + m <= BSIZE
    requires r == Ref(fs, i, SlotOf(off / BSIZE)) && 0 < r < fs.sb.size
    ensures fs.blocks[r][off % BSIZE..off % BSIZE + m] == Content(fs0, i)[off..off + m]
  {
    hide Byte, SameBytes, Ref;
    var got, want := fs.blocks[r][off % BSIZE..off % BSIZE + m], Content(fs0, i)[off..off + m];
    forall k | 0 <= k < m ensures got[k] == want[k] {
      ByteShows(fs0, fs, i, off, m, k);
    }
  }

  // ----- what truncation leaves alone -----

  /** Every inode but i, and every byte of its file, is as before. */
  ghost predicate Others(fs: Fs, fs': Fs, i: int) {
    && Wf(fs) && Wf(fs') && |fs.inodes| == |fs'.inodes|
    && forall j :: 0 <= j < |fs.inodes| && j != i ==> fs'.inodes[j] == fs.inodes[j] && SameBytes(fs, fs', j)
  }

  lemma SameBytesRefl(fs: Fs)
    requires Wf(fs)
    ensures forall j :: 0 <= j < |fs.inodes| ==> SameBytes(fs, fs, j)
  {
  }

  lemma OthersRefl(fs: Fs, i: int)
    requires Wf(fs)
    ensures Others(fs, fs, i)
  {
  }

  lemma OthersTrans(a: Fs, b: Fs, c: Fs, i: int)
    requires Others(a, b, i) && Others(b, c, i)
    ensures Others(a, c, i)
  {
    SameBytesTrans(a, b, c);
  }

  lemma OthersSize(fs: Fs, fs': Fs, i: int)
    requires Wf(fs) && Wf(fs') && 0 <= i < |fs.inodes| == |fs'.inodes| && fs'.blocks == fs.blocks && fs'.sb == fs.sb
    requires fs'.inodes == fs.inodes[i := fs.inodes[i].(size := fs'.inodes[i].size)]
    ensures Others(fs, fs', i)
  {
    BytesOfSameBlocks(fs, fs', i);
  }

  lemma BitsOfInodes(fs: Fs, fs': Fs, o: map<int, Place>)
    requires Wf(fs) && Wf(fs') && fs'.blocks == fs.blocks && fs'.sb == fs.sb && BitsOwned(fs, o)
    ensures BitsOwned(fs', o)
  {
    forall b | 0 <= b < fs.sb.size ensures Bit(fs', b) == Bit(fs, b) {
    }
  }

  lemma WithoutEmpty(o: map<int, Place>, i: int, s: int)
    ensures Without(o, i, s, s) == o
  {
  }

  lemma WithoutMore(o: map<int, Place>, i: int, a: int, b: int, c: int)
    requires a <= b <= c
    ensures Without(Without(o, i, a, b), i, b, c) == Without(o, i, a, c)
  {
  }

  /** The inode's slot s gives its block back. */
  lemma DropDirect(fs: Fs, o: map<int, Place>, i: int, s: int)
    requires Owned(fs, o) && 0 <= i < |fs.inodes| && 0 <= s < NDIRECT
    ensures var b := fs.inodes[i].addrs[s];
            && (b != 0 ==> 0 <= b < fs.sb.size && Bit(fs, b))
            && var fs' := WithAddr(if b == 0 then fs else WithBit(fs, b, false), i, s, 0);
            Owned(fs', Without(o, i, s, s + 1)) && Others(fs, fs', i)
  {
    hide SameBytes, Byte, Without;
    WithoutEmpty(o, i, s);
    FreeSlot(fs, o, i, s, s, s);
    var b := Ref(fs, i, s);
    var fs1 := if b == 0 then fs else WithBit(fs, b, false);
    SameBytesRefl(fs);
    if b != 0 {
      FreedKeeps(fs, o, b);
    }
    DropAddr(fs, fs1, o, i, s);
  }

  /** The last step of giving back: the address is zeroed. */
  lemma DropAddr(fs: Fs, fs1: Fs, o: map<int, Place>, i: int, s: int)
    requires Wf(fs) && Wf(fs1) && fs1.inodes == fs.inodes && fs1.sb == fs.sb
    requires 0 <= i < |fs.inodes| && 0 <= s <= NDIRECT && RefsOwned(fs1, o)
    requires BitsOwned(fs1, Without(o, i, s, if s == NDIRECT then NSLOTS else s + 1))
    requires forall j :: 0 <= j < |fs.inodes| ==> SameBytes(fs, fs1, j)
    ensures var fs' := WithAddr(fs1, i, s, 0);
            Owned(fs', Without(o, i, s, if s == NDIRECT then NSLOTS else s + 1)) && Others(fs, fs', i)
  {
    hide SameBytes, Byte, Without, BitsOwned;
    DetachAddr(fs1, o, i, s);
    var fs' := WithAddr(fs1, i, s, 0);
    BitsOfInodes(fs1, fs', Without(o, i, s, if s == NDIRECT then NSLOTS else s + 1));
    SameBytesTrans(fs, fs1, fs');
  }

  /** With its entries freed, the indirect block itself is given back. */
  lemma DropIndirect(fs: Fs, fs1: Fs, o: map<int, Place>, i: int)
    requires Wf(fs) && Wf(fs1) && fs1.inodes == fs.inodes && fs1.sb == fs.sb
    requires 0 <= i < |fs.inodes| && fs.inodes[i].addrs[NDIRECT] != 0 && RefsOwned(fs1, o)
    requires BitsOwned(fs1, Without(o, i, NDIRECT + 1, NSLOTS))
    requires forall j :: 0 <= j < |fs.inodes| ==> SameBytes(fs, fs1, j)
    ensures var b := fs.inodes[i].addrs[NDIRECT];
            && Bit(fs1, b)
            && var fs' := WithAddr(WithBit(fs1, b, false), i, NDIRECT, 0);
            Owned(fs', Without(o, i, NDIRECT, NSLOTS)) && Others(fs, fs', i)
  {
    hide SameBytes, Byte, Without;
    var b := fs.inodes[i].addrs[NDIRECT];
    assert Ref(fs1, i, NDIRECT) == b;
    FreeSlot(fs1, o, i, NDIRECT, NDIRECT + 1, NSLOTS);
    FreedKeeps(fs1, o, b);
    var fs2 := WithBit(fs1, b, false);
    SameBytesTrans(fs, fs1, fs2);
    DropAddr(fs, fs2, o, i, NDIRECT);
  }

  /** Without an indirect block, no block is owned through it. */
  lemma NoEntries(fs: Fs, o: map<int, Place>, i: int)
    requires Owned(fs, o) && 0 <= i < |fs.inodes| && fs.inodes[i].addrs[NDIRECT] == 0
    ensures var fs' := WithAddr(fs, i, NDIRECT, 0);
            Owned(fs', Without(o, i, NDIRECT, NSLOTS)) && Others(fs, fs', i)
  {
    hide SameBytes, Byte;
    forall b | b in o ensures !(o[b].i == i && NDIRECT <= o[b].s) {
      assert Ref(fs, o[b].i, o[b].s) == b;
    }
    SameBytesRefl(fs);
    DropAddr(fs, fs, o, i, NDIRECT);
  }

  // ----- what a write logs -----

  /** Every block that has changed is among those logged. */
  ghost predicate Noted(before: seq<Block>, after: seq<Block>, logged: set<int>) {
    |after| == |before| && forall b :: 0 <= b < |before| && after[b] != before[b] ==> b in logged
  }

  lemma NotedTrans(a: seq<Block>, b: seq<Block>, c: seq<Block>, l1: set<int>, l2: set<int>)
    requires Noted(a, b, l1) && Noted(b, c, l2) && l1 <= l2
    ensures Noted(a, c, l2)
  {
  }

  lemma NotedNone(a: seq<Block>, l: set<int>)
    ensures Noted(a, a, l)
  {
  }

  /** The inode's own address that block bn of a file is reached by. */
  function InodeSlot(bn: int): int {
    if bn < NDIRECT then bn else NDIRECT
  }

  ghost predicate Touches(off: nat, n: nat, bn: int) {
    0 < n && 0 <= bn < MAXFILE && off / BSIZE <= bn && bn * BSIZE < off + n
  }

  /** Some byte from off to off + n - 1 is reached by an address that is not there. */
  ghost predicate InodeHole(ino: Inode, off: nat, n: nat)
    requires |ino.addrs| == NDIRECT + 1
  {
    exists bn :: Touches(off, n, bn) && ino.addrs[InodeSlot(bn)] == 0
  }

  ghost predicate Filled(ino: Inode, ino': Inode, off: nat, n: nat)
    requires |ino.addrs| == |ino'.addrs| == NDIRECT + 1
  {
    && (forall s :: 0 <= s <= NDIRECT && ino.addrs[s] != 0 ==> ino'.addrs[s] == ino.addrs[s])
    && (forall bn :: Touches(off, n, bn) ==> ino'.addrs[InodeSlot(bn)] != 0)
  }

  lemma FilledNone(ino: Inode, off: nat)
    requires |ino.addrs| == NDIRECT + 1
    ensures Filled(ino, ino, off, 0) && !InodeHole(ino, off, 0)
  {
  }

  /** A file without holes has an address for every block below its size. */
  ghost predicate NoHoles(ino: Inode)
    requires |ino.addrs| == NDIRECT + 1
  {
    forall bn :: 0 <= bn < MAXFILE && bn * BSIZE < ino.size ==> ino.addrs[InodeSlot(bn)] != 0
  }

  /** So a write that does not make such a file longer, and so does not call iupdate,
      leaves the addresses alone. */
  lemma NoHoleBelowSize(ino: Inode, off: nat, n: nat)
    requires |ino.addrs| == NDIRECT + 1 && NoHoles(ino) && off + n <= ino.size
    ensures !InodeHole(ino, off, n)
  {
  }

  lemma FilledMore(fs0: Fs, fs1: Fs, fs2: Fs, i: int, off: nat, tot: nat, m: nat)
    requires Wf(fs0) && Wf(fs1) && Wf(fs2) && 0 <= i < |fs0.inodes| == |fs1.inodes| == |fs2.inodes| && 0 < m
    requires off + tot + m <= MAXFILE * BSIZE && (off + tot) % BSIZE + m <= BSIZE
    requires Filled(fs0.inodes[i], fs1.inodes[i], off, tot)
    requires fs1.inodes != fs0.inodes <==> InodeHole(fs0.inodes[i], off, tot)
    requires forall s :: InRange(fs1, i, s) && Ref(fs1, i, s) != 0 ==> Ref(fs2, i, s) == Ref(fs1, i, s)
    requires var s := InodeSlot((off + tot) / BSIZE);
             fs2.inodes[i].addrs[s] != 0 && (fs2.inodes == fs1.inodes <==> fs1.inodes[i].addrs[s] != 0)
    ensures Filled(fs0.inodes[i], fs2.inodes[i], off, tot + m)
    ensures fs2.inodes != fs0.inodes <==> InodeHole(fs0.inodes[i], off, tot + m)
  {
    var b0 := (off + tot) / BSIZE;
    var ino, ino1, ino2 := fs0.inodes[i], fs1.inodes[i], fs2.inodes[i];
    forall s | 0 <= s <= NDIRECT && ino1.addrs[s] != 0 ensures ino2.addrs[s] == ino1.addrs[s] {
      assert Ref(fs1, i, s) == ino1.addrs[s] && Ref(fs2, i, s) == ino2.addrs[s];
    }
    forall bn ensures Touches(off, tot + m, bn) <==> Touches(off, tot, bn) || bn == b0 {
      TouchesMore(off, tot, m, bn);
    }
    hide Touches;
    if InodeHole(ino, off, tot + m) {
      var bn :| Touches(off, tot + m, bn) && ino.addrs[InodeSlot(bn)] == 0;
      assert ino2.addrs[InodeSlot(bn)] != 0;
    } else {
      assert ino.addrs[InodeSlot(b0)] != 0;
    }
  }

  /** What writei's loop has done when it has written src from off on: to the files, to
      the log, and to the inode's addresses. */
  ghost predicate WriteSoFar(fs: Fs, l: set<int>, fs': Fs, l': set<int>, i: int, off: nat, src: seq<int>) {
    && Wrote(fs, fs', i, off, src)
    && (forall x :: x in l' ==> MayLog(fs', i, off, |src|, l, x))
    && Filled(fs.inodes[i], fs'.inodes[i], off, |src|)
    && (fs'.inodes != fs.inodes <==> InodeHole(fs.inodes[i], off, |src|))
  }

  lemma NothingWritten(fs: Fs, o: map<int, Place>, l: set<int>, i: int, off: nat)
    requires Owned(fs, o) && 0 <= i < |fs.inodes| && off <= MAXFILE * BSIZE
    ensures WriteSoFar(fs, l, fs, l, i, off, [])
  {
    hide RefsOwned, BitsOwned, Byte;
    WroteNothing(fs, o, i, off);
    NothingLogged(fs, i, off, 0, l);
    FilledNone(fs.inodes[i], off);
  }

  lemma WroteMoreSoFar(a: Fs, la: set<int>, b: Fs, lb: set<int>, c: Fs, lc: set<int>,
                       i: int, off: nat, src: seq<int>, more: seq<int>)
    requires WriteSoFar(a, la, b, lb, i, off, src) && Wrote(b, c, i, off + |src|, more)
    requires more != [] && (off + |src|) % BSIZE + |more| <= BSIZE
    requires LogsOnly(c, i, {NDIRECT, SlotOf((off + |src|) / BSIZE)}, lb, lc)
    requires var s := InodeSlot((off + |src|) / BSIZE);
             c.inodes[i].addrs[s] != 0 && (c.inodes == b.inodes <==> b.inodes[i].addrs[s] != 0)
    ensures WriteSoFar(a, la, c, lc, i, off, src + more)
  {
    WroteMore(a, b, c, i, off, src, more);
    hide Byte, MayLog, Filled, InodeHole, LogsOnly, SameBytes, Ref;
    MayLogMore(b, c, i, off, |src|, |more|, la, lb, lc);
    FilledMore(a, b, c, i, off, |src|, |more|);
  }

  lemma TouchesMore(off: nat, tot: nat, m: nat, bn: int)
    requires 0 < m && off + tot + m <= MAXFILE * BSIZE && (off + tot) % BSIZE + m <= BSIZE
    ensures Touches(off, tot + m, bn) <==> Touches(off, tot, bn) || bn == (off + tot) / BSIZE
  {
    var b0 := (off + tot) / BSIZE;
    assert off + tot == BSIZE * b0 + (off + tot) % BSIZE;
    assert off == BSIZE * (off / BSIZE) + off % BSIZE;
  }

  function InodeBlock(sb: Super, i: int): int {
    sb.inodestart + i / 8
  }

  /** x was logged before, or is a bitmap block, the indirect block of inode i, or
      one of the blocks that bytes off to off + n - 1 of it lie in. */
  ghost predicate MayLog(fs: Fs, i: int, off: nat, n: nat, before: set<int>, x: int)
    requires Wf(fs) && 0 <= i < |fs.inodes| && off + n <= MAXFILE * BSIZE
  {
    || x in before
    || IsBitmapBlock(fs.sb, x)
    || x == Ref(fs, i, NDIRECT) != 0
    || exists bn :: 0 <= bn < MAXFILE && off / BSIZE <= bn && bn * BSIZE < off + n && x == Ref(fs, i, SlotOf(bn)) != 0
  }

  lemma NothingLogged(fs: Fs, i: int, off: nat, n: nat, logged: set<int>)
    requires Wf(fs) && 0 <= i < |fs.inodes| && off + n <= MAXFILE * BSIZE
    ensures forall x :: x in logged ==> MayLog(fs, i, off, n, logged, x)
  {
  }

  lemma MayLogMore(fs1: Fs, fs2: Fs, i: int, off: nat, tot: nat, m: nat, l0: set<int>, l1: set<int>, l2: set<int>)
    requires Wf(fs1) && Wf(fs2) && 0 <= i < |fs1.inodes| == |fs2.inodes| && fs1.sb == fs2.sb
    requires 0 < m && off + tot + m <= MAXFILE * BSIZE
    requires forall s :: InRange(fs1, i, s) && Ref(fs1, i, s) != 0 ==> Ref(fs2, i, s) == Ref(fs1, i, s)
    requires forall x :: x in l1 ==> MayLog(fs1, i, off, tot, l0, x)
    requires LogsOnly(fs2, i, {NDIRECT, SlotOf((off + tot) / BSIZE)}, l1, l2)
    ensures forall x :: x in l2 ==> MayLog(fs2, i, off, tot + m, l0, x)
  {
    forall x | x in l2 ensures MayLog(fs2, i, off, tot + m, l0, x) {
      if x in l1 {
        assert MayLog(fs1, i, off, tot, l0, x);
        if x !in l0 && !IsBitmapBlock(fs1.sb, x) {
          if x == Ref(fs1, i, NDIRECT) != 0 {
            assert Ref(fs2, i, NDIRECT) == x;
          } else {
            var bn :| 0 <= bn < MAXFILE && off / BSIZE <= bn && bn * BSIZE < off + tot && x == Ref(fs1, i, SlotOf(bn)) != 0;
            assert Ref(fs2, i, SlotOf(bn)) == x;
          }
        }
      } else if !IsBitmapBlock(fs2.sb, x) {
        var bn := (off + tot) / BSIZE;
        assert off / BSIZE <= bn && bn * BSIZE < off + tot + m;
      }
    }
  }

  lemma MayLogSame(fs1: Fs, fs2: Fs, i: int, off: nat, n: nat, before: set<int>, logged: set<int>)
    requires Wf(fs1) && Wf(fs2) && 0 <= i < |fs1.inodes| == |fs2.inodes| && fs1.sb == fs2.sb
    requires off + n <= MAXFILE * BSIZE
    requires forall s :: InRange(fs1, i, s) ==> Ref(fs2, i, s) == Ref(fs1, i, s)
    requires forall x :: x in logged ==> MayLog(fs1, i, off, n, before, x)
    ensures forall x :: x in logged ==> MayLog(fs2, i, off, n, before, x)
  {
    forall x | x in logged ensures MayLog(fs2, i, off, n, before, x) {
      assert MayLog(fs1, i, off, n, before, x);
      if x !in before && !IsBitmapBlock(fs1.sb, x) && x != Ref(fs1, i, NDIRECT) {
        var bn :| 0 <= bn < MAXFILE && off / BSIZE <= bn && bn * BSIZE < off + n && x == Ref(fs1, i, SlotOf(bn)) != 0;
        assert Ref(fs2, i, SlotOf(bn)) == x;
      }
    }
  }

  lemma LogsOnlySelf(fs: Fs, fs': Fs, i: int, slots: set<int>, s: int, before: set<int>, after: set<int>, addr: int)
    requires Wf(fs) && Wf(fs') && 0 <= i < |fs.inodes| == |fs'.inodes| && fs'.sb == fs.sb
    requires (forall t :: t in slots ==> 0 <= t < NSLOTS) && s in slots
    requires forall t :: InRange(fs, i, t) && Ref(fs, i, t) != 0 ==> Ref(fs', i, t) == Ref(fs, i, t)
    requires Ref(fs, i, s) == addr != 0 && LogsOnly(fs, i, slots, before, after)
    ensures LogsOnly(fs', i, slots, before, after + {addr})
  {
    assert Ref(fs', i, s) == addr;
  }

  lemma EntryIs(fs: Fs, i: int, j: nat)
    requires Wf(fs) && 0 <= i < |fs.inodes| && j < NINDIRECT && fs.inodes[i].addrs[NDIRECT] != 0
    ensures Ref(fs, i, NDIRECT + 1 + j) == Word(fs.blocks[fs.inodes[i].addrs[NDIRECT]], j)
  {
  }

  ghost function RefOrNone(fs: Fs, i: int, bn: int): int
    requires Wf(fs) && 0 <= i < |fs.inodes|
  {
    if 0 <= bn < MAXFILE then Ref(fs, i, SlotOf(bn)) else 0
  }

  ghost function Few(fs: Fs, i: int, b0: int): set<int>
    requires Wf(fs) && 0 <= i < |fs.inodes|
  {
    {fs.sb.bmapstart, InodeBlock(fs.sb, i), Ref(fs, i, NDIRECT)}
    + {RefOrNone(fs, i, b0), RefOrNone(fs, i, b0 + 1), RefOrNone(fs, i, b0 + 2), RefOrNone(fs, i, b0 + 3)}
  }

  lemma FourBlocks(off: nat, n: nat, bn: nat)
    requires n <= 1536 && off / BSIZE <= bn && bn * BSIZE < off + n
    ensures bn <= off / BSIZE + 3
  {
  }

  lemma MayLogIsFew(fs: Fs, i: int, off: nat, n: nat, before: set<int>, x: int)
    requires Wf(fs) && fs.sb.size <= BPB && 0 <= i < |fs.inodes| && off + n <= MAXFILE * BSIZE && n <= 1536
    requires MayLog(fs, i, off, n, before, x) && x !in before
    ensures x in Few(fs, i, off / BSIZE)
  {
    hide Ref;
    if IsBitmapBlock(fs.sb, x) {
      var b :| 0 <= b < fs.sb.size && x == fs.sb.bmapstart + b / BPB;
      assert b / BPB == 0;
    } else if x != Ref(fs, i, NDIRECT) {
      var bn :| 0 <= bn < MAXFILE && off / BSIZE <= bn && bn * BSIZE < off + n && x == Ref(fs, i, SlotOf(bn)) != 0;
      FourBlocks(off, n, bn);
      assert x == RefOrNone(fs, i, bn);
    }
  }

  /** One chunk of filewrite, at most 1536 bytes and so at most four data blocks,
      logs at most seven distinct blocks when the bitmap is one block. */
  lemma ChunkLogsSeven(fs: Fs, i: int, off: nat, n: nat, logged: set<int>)
    requires Wf(fs) && fs.sb.size <= BPB && 0 <= i < |fs.inodes| && off + n <= MAXFILE * BSIZE && n <= 1536
    requires forall x :: x in logged && x != InodeBlock(fs.sb, i) ==> MayLog(fs, i, off, n, {}, x)
    ensures |logged| <= 7
  {
    hide MayLog, Ref;
    forall x | x in logged ensures x in Few(fs, i, off / BSIZE) {
      if x != InodeBlock(fs.sb, i) {
        MayLogIsFew(fs, i, off, n, {}, x);
      }
    }
    SubsetSize(logged, Few(fs, i, off / BSIZE));
  }
}
