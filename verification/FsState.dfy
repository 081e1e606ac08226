/** Inodes, the blocks they refer to, the free bitmap, and what a file's bytes are. */
module FsState {
  import opened FsLayout

  /** The superblock: `size` blocks in all, the inodes from `inodestart` on, the
      bitmap from `bmapstart` on, and data blocks from `datastart` on. */
  datatype Super = Super(size: nat, inodestart: nat, bmapstart: nat, datastart: nat) {
    ghost predicate Valid() {
      && 0 < datastart <= size < WORD
      && forall b :: 0 <= b < size ==> bmapstart + b / BPB < datastart
    }
  }

  /** An inode; addrs holds NDIRECT direct addresses and the indirect block's. */
  datatype Inode = Inode(kind: int, nlink: int, size: nat, addrs: seq<int>)

  datatype Fs = Fs(sb: Super, blocks: seq<Block>, inodes: seq<Inode>)

  /** Where a block is referred to: slot s of inode i. Slots 0 to 11 are the direct
      addresses, 12 the indirect block, 13 and up the entries of that block. */
  datatype Place = Place(i: int, s: int)

  const NSLOTS: nat := NDIRECT + 1 + NINDIRECT

  ghost predicate Wf(fs: Fs) {
    && fs.sb.Valid()
    && |fs.blocks| == fs.sb.size
    && (forall b :: 0 <= b < fs.sb.size ==> IsBlock(fs.blocks[b]))
    && (forall i :: 0 <= i < |fs.inodes| ==>
          |fs.inodes[i].addrs| == NDIRECT + 1 && 0 <= fs.inodes[i].addrs[NDIRECT] < fs.sb.size)
  }

  ghost predicate InRange(fs: Fs, i: int, s: int) {
    0 <= i < |fs.inodes| && 0 <= s < NSLOTS
  }

  /** The block number in slot s of inode i, 0 for none. */
  ghost function Ref(fs: Fs, i: int, s: int): int
    requires Wf(fs) && InRange(fs, i, s)
  {
    var addrs := fs.inodes[i].addrs;
    if s <= NDIRECT then addrs[s]
    else if addrs[NDIRECT] == 0 then 0
    else Word(fs.blocks[addrs[NDIRECT]], s - NDIRECT - 1)
  }

  /** The bitmap's bit for block b. */
  ghost function Bit(fs: Fs, b: int): bool
    requires Wf(fs) && 0 <= b < fs.sb.size
  {
    BlockBit(fs.blocks[fs.sb.bmapstart + b / BPB], b % BPB)
  }

  /** o says where each referred block is referred to: every nonzero slot refers to
      a data block that o assigns to that very slot, and o has no other blocks. */
  ghost predicate RefsOwned(fs: Fs, o: map<int, Place>) {
    && Wf(fs)
    && (forall i, s :: InRange(fs, i, s) && Ref(fs, i, s) != 0 ==>
          Ref(fs, i, s) in o && o[Ref(fs, i, s)] == Place(i, s))
    && (forall b :: b in o ==>
          && fs.sb.datastart <= b < fs.sb.size && InRange(fs, o[b].i, o[b].s)
          && Ref(fs, o[b].i, o[b].s) == b)
  }

  /** A bit is set exactly for the metadata blocks and the blocks o knows. */
  ghost predicate BitsOwned(fs: Fs, o: map<int, Place>)
    requires Wf(fs)
  {
    forall b :: 0 <= b < fs.sb.size ==> (Bit(fs, b) <==> b < fs.sb.datastart || b in o)
  }

  ghost predicate Owned(fs: Fs, o: map<int, Place>)
    ensures Owned(fs, o) ==> Wf(fs)
  {
    Wf(fs) && RefsOwned(fs, o) && BitsOwned(fs, o)
  }

  /** No block is free. */
  ghost predicate DiskFull(fs: Fs)
    requires Wf(fs)
  {
    forall c :: 0 <= c < fs.sb.size ==> Bit(fs, c)
  }

  /** The invariant without the ghost map: a bit is set iff its block is metadata or
      some slot refers to it, and then exactly one slot of one inode does. */
  lemma BitmapExact(fs: Fs, o: map<int, Place>)
    requires Owned(fs, o)
    ensures forall b :: 0 <= b < fs.sb.size ==>
              (Bit(fs, b) <==> b < fs.sb.datastart || exists i, s :: InRange(fs, i, s) && Ref(fs, i, s) == b)
    ensures forall i, s, j, t :: InRange(fs, i, s) && InRange(fs, j, t) && Ref(fs, i, s) == Ref(fs, j, t) != 0 ==>
              i == j && s == t
    ensures forall i, s :: InRange(fs, i, s) && Ref(fs, i, s) != 0 ==> fs.sb.datastart <= Ref(fs, i, s) < fs.sb.size
  {
    forall b | 0 <= b < fs.sb.size && b in o
      ensures exists i, s :: InRange(fs, i, s) && Ref(fs, i, s) == b
    {
      assert Ref(fs, o[b].i, o[b].s) == b;
    }
    forall i, s, j, t | InRange(fs, i, s) && InRange(fs, j, t) && Ref(fs, i, s) == Ref(fs, j, t) != 0
      ensures i == j && s == t
    {
      assert o[Ref(fs, i, s)] == Place(i, s) && o[Ref(fs, j, t)] == Place(j, t);
    }
  }

  // ----- file contents -----

  /** The slot of the n-th block of a file. */
  function SlotOf(bn: int): int {
    if bn < NDIRECT then bn else bn + 1
  }

  /** Byte off of inode i; a block that is not there reads as zeros. */
  ghost function Byte(fs: Fs, i: int, off: int): int
    requires Wf(fs) && 0 <= i < |fs.inodes| && 0 <= off < MAXFILE * BSIZE
  {
    var r := Ref(fs, i, SlotOf(off / BSIZE));
    if 0 < r < fs.sb.size then fs.blocks[r][off % BSIZE] else 0
  }

  /** The file of inode i as a sequence of bytes. */
  ghost function Content(fs: Fs, i: int): (c: seq<int>)
    requires Wf(fs) && 0 <= i < |fs.inodes| && fs.inodes[i].size <= MAXFILE * BSIZE
    ensures |c| == fs.inodes[i].size
    ensures forall off :: 0 <= off < |c| ==> c[off] == Byte(fs, i, off)
  {
    seq(fs.inodes[i].size, off requires 0 <= off < fs.inodes[i].size => Byte(fs, i, off))
  }

  ghost predicate SameBytes(fs: Fs, fs': Fs, i: int)
    requires Wf(fs) && Wf(fs') && 0 <= i < |fs.inodes| == |fs'.inodes|
  {
    forall off :: 0 <= off < MAXFILE * BSIZE ==> Byte(fs', i, off) == Byte(fs, i, off)
  }

  // ----- the changes the kernel makes -----

  function WithBlock(fs: Fs, b: int, data: Block): Fs
    requires 0 <= b < |fs.blocks|
  {
    fs.(blocks := fs.blocks[b := data])
  }

  function WithBit(fs: Fs, b: int, on: bool): (r: Fs)
    requires 0 <= b && fs.sb.bmapstart + b / BPB < |fs.blocks| && IsBlock(fs.blocks[fs.sb.bmapstart + b / BPB])
    ensures r.sb == fs.sb && r.inodes == fs.inodes && |r.blocks| == |fs.blocks|
  {
    var m := fs.sb.bmapstart + b / BPB;
    WithBlock(fs, m, BlockWithBit(fs.blocks[m], b % BPB, on))
  }

  function WithAddr(fs: Fs, i: int, s: int, b: int): Fs
    requires 0 <= i < |fs.inodes| && 0 <= s < |fs.inodes[i].addrs|
  {
    fs.(inodes := fs.inodes[i := fs.inodes[i].(addrs := fs.inodes[i].addrs[s := b])])
  }

  lemma WithBitAt(fs: Fs, b: int, on: bool)
    requires Wf(fs) && 0 <= b < fs.sb.size
    ensures Wf(WithBit(fs, b, on))
    ensures forall c :: 0 <= c < fs.sb.size ==> Bit(WithBit(fs, b, on), c) == if c == b then on else Bit(fs, c)
    ensures forall d :: fs.sb.datastart <= d < fs.sb.size ==> WithBit(fs, b, on).blocks[d] == fs.blocks[d]
  {
    var m := fs.sb.bmapstart + b / BPB;
    var old' := fs.blocks[m];
    BlockBitAt(old', b % BPB, on, 0);
    forall c | 0 <= c < fs.sb.size ensures Bit(WithBit(fs, b, on), c) == if c == b then on else Bit(fs, c) {
      BlockBitAt(old', b % BPB, on, c % BPB);
      if c / BPB == b / BPB && c % BPB == b % BPB {
        assert c == BPB * (c / BPB) + c % BPB;
        assert b == BPB * (b / BPB) + b % BPB;
      }
    }
  }

  /** What fs and fs' must share for a slot to read the same. */
  lemma RefSame(fs: Fs, fs': Fs, i: int, s: int)
    requires Wf(fs) && Wf(fs') && fs.sb == fs'.sb && InRange(fs, i, s) && |fs.inodes| == |fs'.inodes|
    requires fs'.inodes[i].addrs == fs.inodes[i].addrs
    requires s > NDIRECT && fs.inodes[i].addrs[NDIRECT] != 0 ==>
               fs'.blocks[fs.inodes[i].addrs[NDIRECT]] == fs.blocks[fs.inodes[i].addrs[NDIRECT]]
    ensures Ref(fs', i, s) == Ref(fs, i, s)
  {
  }

  /** A change outside the owned data blocks and the inodes changes no reference
      and no byte. */
  lemma DataUntouched(fs: Fs, fs': Fs, o: map<int, Place>)
    requires RefsOwned(fs, o) && Wf(fs') && fs.sb == fs'.sb && fs.inodes == fs'.inodes
    requires forall b :: b in o ==> fs'.blocks[b] == fs.blocks[b]
    ensures RefsOwned(fs', o)
    ensures forall i, s :: InRange(fs, i, s) ==> Ref(fs', i, s) == Ref(fs, i, s)
    ensures forall i :: 0 <= i < |fs.inodes| ==> SameBytes(fs, fs', i)
  {
    forall i, s | InRange(fs, i, s) ensures Ref(fs', i, s) == Ref(fs, i, s) {
      IndirectOwned(fs, o, i);
      RefSame(fs, fs', i, s);
    }
    forall i, off | 0 <= i < |fs.inodes| && 0 <= off < MAXFILE * BSIZE
      ensures Byte(fs', i, off) == Byte(fs, i, off)
    {
      assert InRange(fs, i, SlotOf(off / BSIZE));
    }
  }

  lemma RefsPositive(fs: Fs, o: map<int, Place>, i: int, s: int)
    requires RefsOwned(fs, o) && InRange(fs, i, s)
    ensures Ref(fs, i, s) >= 0
  {
  }

  lemma IndirectOwned(fs: Fs, o: map<int, Place>, i: int)
    requires RefsOwned(fs, o) && 0 <= i < |fs.inodes|
    ensures var r := fs.inodes[i].addrs[NDIRECT]; r != 0 ==> r in o && o[r] == Place(i, NDIRECT)
  {
    assert Ref(fs, i, NDIRECT) == fs.inodes[i].addrs[NDIRECT];
  }
}
