/** Taking, giving back and overwriting blocks: what each does to the ownership of
    blocks, to the bitmap and to the bytes of files. */
module FsUpdate {
  import opened FsLayout
  import opened FsState

  // ----- allocation -----

  /** balloc's effect once it has found block b: its bit is set and it is zeroed. */
  function Allocated(fs: Fs, b: int): (r: Fs)
    requires 0 <= b < |fs.blocks|
    requires fs.sb.bmapstart + b / BPB < |fs.blocks| && IsBlock(fs.blocks[fs.sb.bmapstart + b / BPB])
    ensures r.sb == fs.sb && r.inodes == fs.inodes && |r.blocks| == |fs.blocks|
  {
    WithBlock(WithBit(fs, b, true), b, Zeroed())
  }

  lemma AllocatedKeeps(fs: Fs, o: map<int, Place>, b: int)
    requires Owned(fs, o) && fs.sb.datastart <= b < fs.sb.size && b !in o
    ensures var fs' := Allocated(fs, b);
            && RefsOwned(fs', o)
            && (forall c :: 0 <= c < fs.sb.size ==> (Bit(fs', c) <==> c < fs.sb.datastart || c in o || c == b))
            && (forall i, s :: InRange(fs, i, s) ==> Ref(fs', i, s) == Ref(fs, i, s))
            && (forall i :: 0 <= i < |fs.inodes| ==> SameBytes(fs, fs', i))
            && fs'.blocks[b] == Zeroed()
  {
    hide Ref, Byte, SameBytes, Bit, Allocated;
    AllocatedBits(fs, b);
    DataUntouched(fs, Allocated(fs, b), o);
  }

  lemma AllocatedBits(fs: Fs, b: int)
    requires Wf(fs) && fs.sb.datastart <= b < fs.sb.size
    ensures var fs' := Allocated(fs, b);
            && Wf(fs') && fs'.blocks[b] == Zeroed()
            && (forall c :: 0 <= c < fs.sb.size ==> Bit(fs', c) == (c == b || Bit(fs, c)))
            && (forall d :: fs.sb.datastart <= d < fs.sb.size && d != b ==> fs'.blocks[d] == fs.blocks[d])
  {
    hide WithBit, BlockBit;
    WithBitAt(fs, b, true);
    forall c | 0 <= c < fs.sb.size ensures Bit(Allocated(fs, b), c) == Bit(WithBit(fs, b, true), c) {
      assert fs.sb.bmapstart + c / BPB < fs.sb.datastart;
    }
  }

  /** A zeroed, unowned block b is put in the empty slot s of inode i, and no other
      slot changes: the ownership grows by b and no file's bytes change. */
  lemma Attached(fs: Fs, fs': Fs, o: map<int, Place>, i: int, s: int, b: int)
    requires RefsOwned(fs, o) && Wf(fs') && fs'.sb == fs.sb && |fs'.inodes| == |fs.inodes|
    requires InRange(fs, i, s) && Ref(fs, i, s) == 0
    requires fs.sb.datastart <= b < fs.sb.size && b !in o && fs'.blocks[b] == Zeroed()
    requires forall j, t :: InRange(fs, j, t) ==> Ref(fs', j, t) == if j == i && t == s then b else Ref(fs, j, t)
    requires forall d :: d in o && o[d].s != NDIRECT ==> fs'.blocks[d] == fs.blocks[d]
    ensures RefsOwned(fs', o[b := Place(i, s)])
    ensures forall j :: 0 <= j < |fs.inodes| ==> SameBytes(fs, fs', j)
  {
    forall j, off | 0 <= j < |fs.inodes| && 0 <= off < MAXFILE * BSIZE
      ensures Byte(fs', j, off) == Byte(fs, j, off)
    {
      var t := SlotOf(off / BSIZE);
      assert InRange(fs, j, t);
      if !(j == i && t == s) && Ref(fs, j, t) != 0 {
        assert o[Ref(fs, j, t)] == Place(j, t);
      }
    }
  }

  /** Putting block b in slot s <= NDIRECT of inode i. */
  lemma AttachAddr(fs: Fs, o: map<int, Place>, i: int, s: int, b: int)
    requires RefsOwned(fs, o) && InRange(fs, i, s) && s <= NDIRECT && Ref(fs, i, s) == 0
    requires fs.sb.datastart <= b < fs.sb.size && b !in o && fs.blocks[b] == Zeroed()
    ensures var fs' := WithAddr(fs, i, s, b);
            && RefsOwned(fs', o[b := Place(i, s)])
            && Ref(fs', i, s) == b
            && (forall j, t :: InRange(fs, j, t) && !(j == i && t == s) ==> Ref(fs', j, t) == Ref(fs, j, t))
            && (forall j :: 0 <= j < |fs.inodes| ==> SameBytes(fs, fs', j))
  {
    var fs' := WithAddr(fs, i, s, b);
    forall j, t | InRange(fs, j, t)
      ensures Ref(fs', j, t) == if j == i && t == s then b else Ref(fs, j, t)
    {
      if j == i && t > NDIRECT && s == NDIRECT {
        assert Word(Zeroed(), t - NDIRECT - 1) == 0;
      }
    }
    Attached(fs, fs', o, i, s, b);
  }

  /** The indirect block of inode i with entry s set. */
  function WithEntry(fs: Fs, i: int, s: int, b: int): Fs
    requires 0 <= i < |fs.inodes| && NDIRECT < |fs.inodes[i].addrs|
    requires 0 <= fs.inodes[i].addrs[NDIRECT] < |fs.blocks| && |fs.blocks[fs.inodes[i].addrs[NDIRECT]]| == BSIZE
    requires NDIRECT < s < NSLOTS
  {
    var r := fs.inodes[i].addrs[NDIRECT];
    WithBlock(fs, r, WithWord(fs.blocks[r], s - NDIRECT - 1, b))
  }

  lemma EntryWf(fs: Fs, i: int, s: int, b: int)
    requires Wf(fs) && InRange(fs, i, s) && s > NDIRECT && 0 <= b < fs.sb.size
    ensures Wf(WithEntry(fs, i, s, b))
  {
    hide Word, WithWord;
    WordAt(fs.blocks[fs.inodes[i].addrs[NDIRECT]], s - NDIRECT - 1, b, 0);
  }

  lemma EntryRefs(fs: Fs, o: map<int, Place>, i: int, s: int, b: int, j: int, t: int)
    requires RefsOwned(fs, o) && InRange(fs, i, s) && s > NDIRECT && InRange(fs, j, t)
    requires fs.inodes[i].addrs[NDIRECT] != 0 && 0 <= b < fs.sb.size
    ensures Wf(WithEntry(fs, i, s, b))
    ensures Ref(WithEntry(fs, i, s, b), j, t) == if j == i && t == s then b else Ref(fs, j, t)
  {
    hide Word, WithWord;
    EntryWf(fs, i, s, b);
    if t > NDIRECT {
      if j == i {
        WordAt(fs.blocks[fs.inodes[i].addrs[NDIRECT]], s - NDIRECT - 1, b, t - NDIRECT - 1);
      } else {
        OtherIndirect(fs, o, i, j);
      }
    }
  }

  lemma OtherIndirect(fs: Fs, o: map<int, Place>, i: int, j: int)
    requires RefsOwned(fs, o) && 0 <= i < |fs.inodes| && 0 <= j < |fs.inodes| && i != j
    requires fs.inodes[i].addrs[NDIRECT] != 0
    ensures fs.inodes[j].addrs[NDIRECT] != fs.inodes[i].addrs[NDIRECT]
  {
    assert Ref(fs, i, NDIRECT) == fs.inodes[i].addrs[NDIRECT] && InRange(fs, i, NDIRECT);
    assert Ref(fs, j, NDIRECT) == fs.inodes[j].addrs[NDIRECT] && InRange(fs, j, NDIRECT);
  }

  /** Putting block b in an entry of the indirect block of inode i. */
  lemma AttachEntry(fs: Fs, o: map<int, Place>, i: int, s: int, b: int)
    requires RefsOwned(fs, o) && InRange(fs, i, s) && s > NDIRECT && Ref(fs, i, s) == 0
    requires fs.inodes[i].addrs[NDIRECT] != 0
    requires fs.sb.datastart <= b < fs.sb.size && b !in o && fs.blocks[b] == Zeroed()
    ensures var fs' := WithEntry(fs, i, s, b);
            && RefsOwned(fs', o[b := Place(i, s)])
            && Ref(fs', i, s) == b
            && (forall j, t :: InRange(fs, j, t) && !(j == i && t == s) ==> Ref(fs', j, t) == Ref(fs, j, t))
            && (forall j :: 0 <= j < |fs.inodes| ==> SameBytes(fs, fs', j))
  {
    var fs' := WithEntry(fs, i, s, b);
    forall j, t | InRange(fs, j, t)
      ensures Wf(fs') && Ref(fs', j, t) == if j == i && t == s then b else Ref(fs, j, t)
    {
      EntryRefs(fs, o, i, s, b, j, t);
    }
    EntryRefs(fs, o, i, s, b, i, s);
    IndirectOwned(fs, o, i);
    Attached(fs, fs', o, i, s, b);
  }

  /** The bitmap follows when an allocated block is attached. */
  lemma BitsAfterAttach(fs: Fs, fs': Fs, o: map<int, Place>, p: Place, b: int)
    requires Wf(fs) && Wf(fs') && fs'.sb == fs.sb
    requires forall c :: 0 <= c < fs.sb.datastart ==> fs'.blocks[c] == fs.blocks[c]
    requires forall c :: 0 <= c < fs.sb.size ==> (Bit(fs, c) <==> c < fs.sb.datastart || c in o || c == b)
    ensures BitsOwned(fs', o[b := p])
  {
    forall c | 0 <= c < fs.sb.size ensures Bit(fs', c) == Bit(fs, c) {
      assert fs.sb.bmapstart + c / BPB < fs.sb.datastart;
    }
  }

  /** What bmap may change: empty slots of inode i become filled, and no file's
      bytes change. */
  ghost predicate Mapped(fs: Fs, fs': Fs, i: int) {
    && Wf(fs) && Wf(fs') && fs'.sb == fs.sb && 0 <= i < |fs.inodes| == |fs'.inodes|
    && fs'.inodes == fs.inodes[i := fs.inodes[i].(addrs := fs'.inodes[i].addrs)]
    && (forall j, s :: InRange(fs, j, s) && Ref(fs, j, s) != 0 ==> Ref(fs', j, s) == Ref(fs, j, s))
    && (forall j :: 0 <= j < |fs.inodes| ==> SameBytes(fs, fs', j))
  }

  lemma MappedRefl(fs: Fs, o: map<int, Place>, i: int)
    requires Owned(fs, o) && 0 <= i < |fs.inodes|
    ensures Mapped(fs, fs, i)
  {
  }

  lemma MappedTrans(a: Fs, b: Fs, c: Fs, i: int)
    requires Mapped(a, b, i) && Mapped(b, c, i)
    ensures Mapped(a, c, i)
  {
    SameBytesTrans(a, b, c);
  }

  /** balloc, then the assignment of the new block to an empty address. */
  lemma AllocateToAddr(fs: Fs, o: map<int, Place>, i: int, s: int, b: int)
    requires Owned(fs, o) && InRange(fs, i, s) && s <= NDIRECT && Ref(fs, i, s) == 0
    requires fs.sb.datastart <= b < fs.sb.size && b !in o
    ensures var fs' := WithAddr(Allocated(fs, b), i, s, b);
            Owned(fs', o[b := Place(i, s)]) && Mapped(fs, fs', i) && Ref(fs', i, s) == b
  {
    var m := Allocated(fs, b);
    AllocatedKeeps(fs, o, b);
    AttachAddr(m, o, i, s, b);
    BitsAfterAttach(m, WithAddr(m, i, s, b), o, Place(i, s), b);
    SameBytesTrans(fs, m, WithAddr(m, i, s, b));
  }

  /** balloc, then the assignment of the new block to an empty indirect entry. */
  lemma AllocateToEntry(fs: Fs, o: map<int, Place>, i: int, s: int, b: int)
    requires Owned(fs, o) && InRange(fs, i, s) && s > NDIRECT && Ref(fs, i, s) == 0
    requires fs.inodes[i].addrs[NDIRECT] != 0
    requires fs.sb.datastart <= b < fs.sb.size && b !in o
    ensures var fs' := WithEntry(Allocated(fs, b), i, s, b);
            Owned(fs', o[b := Place(i, s)]) && Mapped(fs, fs', i) && Ref(fs', i, s) == b
  {
    hide Ref, Bit, Byte, SameBytes, Allocated;
    var m := Allocated(fs, b);
    AllocatedKeeps(fs, o, b);
    IndirectOwned(fs, o, i);
    AttachEntry(m, o, i, s, b);
    BitsAfterAttach(m, WithEntry(m, i, s, b), o, Place(i, s), b);
    SameBytesTrans(fs, m, WithEntry(m, i, s, b));
  }

  lemma SameBytesTrans(a: Fs, b: Fs, c: Fs)
    requires Wf(a) && Wf(b) && Wf(c) && |a.inodes| == |b.inodes| == |c.inodes|
    ensures forall j :: 0 <= j < |a.inodes| && SameBytes(a, b, j) && SameBytes(b, c, j) ==> SameBytes(a, c, j)
  {
    forall j, off | 0 <= j < |a.inodes| && SameBytes(a, b, j) && SameBytes(b, c, j) && 0 <= off < MAXFILE * BSIZE
      ensures Byte(c, j, off) == Byte(a, j, off)
    {
      assert Byte(b, j, off) == Byte(a, j, off);
    }
  }

  // ----- freeing -----

  /** Clearing the bit of a block changes no reference and no byte. */
  lemma FreedKeeps(fs: Fs, o: map<int, Place>, b: int)
    requires RefsOwned(fs, o) && 0 <= b < fs.sb.size
    ensures var fs' := WithBit(fs, b, false);
            && RefsOwned(fs', o)
            && (forall c :: 0 <= c < fs.sb.size ==> Bit(fs', c) == (c != b && Bit(fs, c)))
            && (forall i, s :: InRange(fs, i, s) ==> Ref(fs', i, s) == Ref(fs, i, s))
            && (forall i :: 0 <= i < |fs.inodes| ==> SameBytes(fs, fs', i))
  {
    WithBitAt(fs, b, false);
    DataUntouched(fs, WithBit(fs, b, false), o);
  }

  /** Ownership without the blocks of inode i whose slot is from `from` on. */
  ghost function Without(o: map<int, Place>, i: int, from: int, to: int): map<int, Place> {
    map b | b in o && !(o[b].i == i && from <= o[b].s < to) :: o[b]
  }

  /** Zeroing a direct address drops that slot; zeroing the indirect address drops
      the indirect block and all its entries. */
  lemma DetachAddr(fs: Fs, o: map<int, Place>, i: int, s: int)
    requires RefsOwned(fs, o) && 0 <= i < |fs.inodes| && 0 <= s <= NDIRECT
    ensures var fs' := WithAddr(fs, i, s, 0);
            var to := if s == NDIRECT then NSLOTS else s + 1;
            && RefsOwned(fs', Without(o, i, s, to))
            && (forall j, t :: InRange(fs, j, t) ==>
                  Ref(fs', j, t) == if j == i && s <= t < to then 0 else Ref(fs, j, t))
            && (forall j :: 0 <= j < |fs.inodes| && j != i ==> SameBytes(fs, fs', j))
  {
    var fs' := WithAddr(fs, i, s, 0);
    var to := if s == NDIRECT then NSLOTS else s + 1;
    forall j, t | InRange(fs, j, t)
      ensures Ref(fs', j, t) == if j == i && s <= t < to then 0 else Ref(fs, j, t)
    {
    }
    forall j, off | 0 <= j < |fs.inodes| && j != i && 0 <= off < MAXFILE * BSIZE
      ensures Byte(fs', j, off) == Byte(fs, j, off)
    {
      assert InRange(fs, j, SlotOf(off / BSIZE));
    }
  }

  // ----- overwriting bytes -----

  function Spliced(b: Block, pos: nat, src: seq<int>): (r: Block)
    requires pos + |src| <= |b|
    ensures |r| == |b|
    ensures forall k :: 0 <= k < |b| ==> r[k] == if pos <= k < pos + |src| then src[k - pos] else b[k]
  {
    b[..pos] + src + b[pos + |src|..]
  }

  /** Copying src to position pos of the n-th block of inode i changes exactly those
      bytes of that file, and no byte of any other. */
  lemma OverwriteBlock(fs: Fs, o: map<int, Place>, i: int, bn: int, pos: nat, src: seq<int>)
    requires RefsOwned(fs, o) && 0 <= i < |fs.inodes| && 0 <= bn < MAXFILE
    requires Ref(fs, i, SlotOf(bn)) != 0 && pos + |src| <= BSIZE
    requires forall k :: 0 <= k < |src| ==> 0 <= src[k] < 256
    ensures var r := Ref(fs, i, SlotOf(bn));
            && fs.sb.datastart <= r < fs.sb.size
            && var fs' := WithBlock(fs, r, Spliced(fs.blocks[r], pos, src));
            && RefsOwned(fs', o)
            && (forall j, t :: InRange(fs, j, t) ==> Ref(fs', j, t) == Ref(fs, j, t))
            && (forall j :: 0 <= j < |fs.inodes| && j != i ==> SameBytes(fs, fs', j))
            && (forall off :: 0 <= off < MAXFILE * BSIZE ==>
                  Byte(fs', i, off) == if off / BSIZE == bn && pos <= off % BSIZE < pos + |src|
                                       then src[off % BSIZE - pos] else Byte(fs, i, off))
  {
    var r := Ref(fs, i, SlotOf(bn));
    assert o[r] == Place(i, SlotOf(bn));
    var fs' := WithBlock(fs, r, Spliced(fs.blocks[r], pos, src));
    assert Wf(fs');
    forall j, t | InRange(fs, j, t) ensures Ref(fs', j, t) == Ref(fs, j, t) {
      IndirectOwned(fs, o, j);
      RefSame(fs, fs', j, t);
    }
    forall j, off | 0 <= j < |fs.inodes| && 0 <= off < MAXFILE * BSIZE
      ensures Byte(fs', j, off) ==
              if j == i && off / BSIZE == bn && pos <= off % BSIZE < pos + |src|
              then src[off % BSIZE - pos] else Byte(fs, j, off)
    {
      var t := SlotOf(off / BSIZE);
      assert InRange(fs, j, t);
      if Ref(fs, j, t) == r {
        assert o[r] == Place(j, t);
      }
    }
  }

  /** A stretch of writing: src from offset off on, the rest of the file and every
      other file as before. */
  ghost predicate Wrote(fs: Fs, fs': Fs, i: int, off: nat, src: seq<int>) {
    && Wf(fs) && Wf(fs') && fs'.sb == fs.sb && 0 <= i < |fs.inodes| == |fs'.inodes|
    && off + |src| <= MAXFILE * BSIZE
    && fs'.inodes == fs.inodes[i := fs.inodes[i].(addrs := fs'.inodes[i].addrs)]
    && (forall j, s :: InRange(fs, j, s) && Ref(fs, j, s) != 0 ==> Ref(fs', j, s) == Ref(fs, j, s))
    && (forall j :: 0 <= j < |fs.inodes| && j != i ==> SameBytes(fs, fs', j))
    && (forall x :: 0 <= x < MAXFILE * BSIZE ==>
          Byte(fs', i, x) == if off <= x < off + |src| then src[x - off] else Byte(fs, i, x))
  }

  lemma WroteNothing(fs: Fs, o: map<int, Place>, i: int, off: nat)
    requires Owned(fs, o) && 0 <= i < |fs.inodes| && off <= MAXFILE * BSIZE
    ensures Wrote(fs, fs, i, off, [])
  {
  }

  lemma WroteMore(a: Fs, b: Fs, c: Fs, i: int, off: nat, src: seq<int>, more: seq<int>)
    requires Wrote(a, b, i, off, src) && Wrote(b, c, i, off + |src|, more)
    ensures Wrote(a, c, i, off, src + more)
  {
    SameBytesTrans(a, b, c);
    forall x | 0 <= x < MAXFILE * BSIZE
      ensures Byte(c, i, x) == if off <= x < off + |src + more| then (src + more)[x - off] else Byte(a, i, x)
    {
      assert Byte(c, i, x) == if off + |src| <= x < off + |src| + |more| then more[x - off - |src|] else Byte(b, i, x);
    }
  }

  /** A missing block put in place, then the copy into it. */
  lemma WroteBlock(a: Fs, b: Fs, o: map<int, Place>, i: int, off: nat, src: seq<int>)
    requires Mapped(a, b, i) && RefsOwned(b, o)
    requires off + |src| <= MAXFILE * BSIZE && 0 < |src| && off % BSIZE + |src| <= BSIZE
    requires Ref(b, i, SlotOf(off / BSIZE)) != 0 && forall k :: 0 <= k < |src| ==> 0 <= src[k] < 256
    ensures var r := Ref(b, i, SlotOf(off / BSIZE));
            && b.sb.datastart <= r < b.sb.size
            && var c := WithBlock(b, r, Spliced(b.blocks[r], off % BSIZE, src));
            && RefsOwned(c, o) && Wrote(a, c, i, off, src)
            && forall j, t :: InRange(b, j, t) ==> Ref(c, j, t) == Ref(b, j, t)
  {
    var bn := off / BSIZE;
    OverwriteBlock(b, o, i, bn, off % BSIZE, src);
    var r := Ref(b, i, SlotOf(bn));
    var c := WithBlock(b, r, Spliced(b.blocks[r], off % BSIZE, src));
    hide Ref, Byte, Spliced;
    SameBytesTrans(a, b, c);
    forall x | 0 <= x < MAXFILE * BSIZE
      ensures Byte(c, i, x) == if off <= x < off + |src| then src[x - off] else Byte(a, i, x)
    {
      assert SameBytes(a, b, i);
      assert Byte(b, i, x) == Byte(a, i, x);
      InOneBlock(off, |src|, x);
    }
  }

  /** One pass of writei's loop: bmap, then the copy into the block. */
  lemma WroteChunk(a: Fs, b: Fs, o: map<int, Place>, i: int, off: nat, src: seq<int>)
    requires Mapped(a, b, i) && Owned(b, o)
    requires off + |src| <= MAXFILE * BSIZE && 0 < |src| && off % BSIZE + |src| <= BSIZE
    requires Ref(b, i, SlotOf(off / BSIZE)) != 0 && forall k :: 0 <= k < |src| ==> 0 <= src[k] < 256
    ensures var r := Ref(b, i, SlotOf(off / BSIZE));
            && b.sb.datastart <= r < b.sb.size
            && var c := WithBlock(b, r, Spliced(b.blocks[r], off % BSIZE, src));
            && Owned(c, o) && Wrote(a, c, i, off, src)
            && forall j, t :: InRange(b, j, t) ==> Ref(c, j, t) == Ref(b, j, t)
  {
    hide Ref, Byte, RefsOwned, BitsOwned, Wrote, Spliced;
    WroteBlock(a, b, o, i, off, src);
    var r := Ref(b, i, SlotOf(off / BSIZE));
    BitsOfData(b, WithBlock(b, r, Spliced(b.blocks[r], off % BSIZE, src)), o, r);
  }

  lemma InOneBlock(off: nat, n: nat, x: nat)
    requires off % BSIZE + n <= BSIZE && 0 < n
    ensures off <= x < off + n <==> x / BSIZE == off / BSIZE && off % BSIZE <= x % BSIZE < off % BSIZE + n
    ensures x / BSIZE == off / BSIZE ==> x % BSIZE - off % BSIZE == x - off
  {
    assert x == BSIZE * (x / BSIZE) + x % BSIZE;
    assert off == BSIZE * (off / BSIZE) + off % BSIZE;
  }

  lemma BitsOfData(b: Fs, c: Fs, o: map<int, Place>, r: int)
    requires Wf(b) && Wf(c) && c.sb == b.sb && BitsOwned(b, o) && b.sb.datastart <= r < b.sb.size
    requires forall d :: 0 <= d < b.sb.size && d != r ==> c.blocks[d] == b.blocks[d]
    ensures BitsOwned(c, o)
  {
    forall d | 0 <= d < b.sb.size ensures Bit(c, d) == Bit(b, d) {
      assert b.sb.bmapstart + d / BPB < b.sb.datastart;
    }
  }

  // ----- truncation -----

  /** Freeing the block in slot s, when the bits of the neighbouring slots from..to
      of the same inode are already clear. */
  lemma FreeSlot(fs: Fs, o: map<int, Place>, i: int, s: int, from: int, to: int)
    requires Wf(fs) && RefsOwned(fs, o) && BitsOwned(fs, Without(o, i, from, to)) && InRange(fs, i, s)
    requires from <= to && (s == to || s + 1 == from)
    ensures var b := Ref(fs, i, s);
            var o' := if s == to then Without(o, i, from, to + 1) else Without(o, i, from - 1, to);
            && (b == 0 ==> BitsOwned(fs, o'))
            && (b != 0 ==> 0 <= b < fs.sb.size && Bit(fs, b) && Wf(WithBit(fs, b, false))
                           && RefsOwned(WithBit(fs, b, false), o) && BitsOwned(WithBit(fs, b, false), o'))
  {
    hide Ref, Bit, Byte, SameBytes, WithBit;
    var b := Ref(fs, i, s);
    if b == 0 {
      assert forall c :: c in o ==> o[c] != Place(i, s);
    } else {
      FreedKeeps(fs, o, b);
      assert o[b] == Place(i, s);
      assert forall c :: c in o && o[c] == Place(i, s) ==> c == b;
    }
  }
}
