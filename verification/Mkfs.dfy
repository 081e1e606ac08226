/** mkfs: the image is built by appending to inodes, with blocks handed out in order,
    and the bitmap is written last. */
module Mkfs {
  import opened FsLayout
  import opened FsState
  import opened FsUpdate
  import opened FsInode

  const NINODES: nat := 200
  const ROOTINO: int := 1

  /** The superblock of files/mkfs.c: 1000 blocks, of which 2 + 30 come before the
      inodes, then 26 blocks of inodes and one of the bitmap. */
  const SUPER: Super := Super(1000, 32, 58, 59)

  /** Exactly datastart .. free - 1 are owned. */
  ghost predicate HandedOut(fs: Fs, o: map<int, Place>, free: int) {
    RefsOwned(fs, o) && forall b :: b in o <==> fs.sb.datastart <= b < free
  }

  ghost predicate ZeroFrom(blocks: seq<Block>, free: int) {
    forall b :: 0 <= b && free <= b < |blocks| ==> blocks[b] == Zeroed()
  }

  /** An image under construction: the blocks below free are in use, the rest zero. */
  ghost predicate Building(fs: Fs, o: map<int, Place>, free: int)
    ensures Building(fs, o, free) ==> Wf(fs)
  {
    HandedOut(fs, o, free) && fs.sb.datastart <= free <= fs.sb.size && ZeroFrom(fs.blocks, free)
  }

  /** Nothing is stored behind the end of a file. */
  ghost predicate ZeroTails(fs: Fs)
    requires Wf(fs)
  {
    forall i, x :: 0 <= i < |fs.inodes| && fs.inodes[i].size <= x < MAXFILE * BSIZE ==> Byte(fs, i, x) == 0
  }

  ghost predicate SizesOk(fs: Fs) {
    forall j :: 0 <= j < |fs.inodes| ==> fs.inodes[j].size <= MAXFILE * BSIZE
  }

  function Unused(): Inode {
    Inode(0, 0, 0, seq(NDIRECT + 1, _ => 0))
  }

  /** The next block goes to an empty slot. */
  lemma HandOutNext(fs: Fs, o: map<int, Place>, free: int, i: int, s: int)
    requires Building(fs, o, free) && free < fs.sb.size
    requires InRange(fs, i, s) && Ref(fs, i, s) == 0 && (s > NDIRECT ==> fs.inodes[i].addrs[NDIRECT] != 0)
    ensures var fs' := if s <= NDIRECT then WithAddr(fs, i, s, free) else WithEntry(fs, i, s, free);
            Building(fs', o[free := Place(i, s)], free + 1) && Mapped(fs, fs', i) && Ref(fs', i, s) == free
  {
    hide Byte, Ref;
    if s <= NDIRECT {
      AttachAddr(fs, o, i, s, free);
    } else {
      IndirectOwned(fs, o, i);
      AttachEntry(fs, o, i, s, free);
    }
  }

  class Image {
    const sb: Super
    var blocks: seq<Block>
    var inodes: seq<Inode>
    var freeblock: nat
    var freeinode: nat
    ghost var owner: map<int, Place>

    ghost function State(): Fs
      reads this
    {
      Fs(sb, blocks, inodes)
    }

    ghost predicate Valid()
      reads this
    {
      && Building(State(), owner, freeblock) && SizesOk(State()) && ZeroTails(State())
      && 0 < freeinode <= |inodes| && forall i :: freeinode <= i < |inodes| ==> inodes[i] == Unused()
    }

    /** A file of zeroed blocks and no inodes in use. */
    constructor (sb: Super)
      requires sb.Valid()
      ensures Valid() && this.sb == sb && freeinode == 1 && freeblock == sb.datastart && |inodes| == NINODES
    {
      this.sb := sb;
      blocks := seq(sb.size, _ => Zeroed());
      inodes := seq(NINODES, _ => Unused());
      freeblock, freeinode, owner := sb.datastart, 1, map[];
    }

    /** The part of iappend's loop that finds block fbn of the file, handing out what is
        missing; false is the exit when a block past the end is read. */
    method Locate(inum: int, fbn: nat) returns (ok: bool, x: int)
      requires Building(State(), owner, freeblock) && 0 <= inum < |inodes| && fbn < MAXFILE
      modifies `blocks, `inodes, `freeblock, `owner
      ensures !ok ==> freeblock >= sb.size
      ensures ok ==> Building(State(), owner, freeblock) && Mapped(old(State()), State(), inum)
      ensures ok ==> x != 0 && x == Ref(State(), inum, SlotOf(fbn))
    {
      hide RefsOwned, SameBytes, Word;
      BuildingMapped(State(), owner, freeblock, inum);
      if fbn < NDIRECT {
        x := inodes[inum].addrs[fbn];
        if x == 0 {
          ok := HandOut(inum, fbn);
          if !ok {
            return;
          }
          x := inodes[inum].addrs[fbn];
        }
        return true, x;
      }
      ghost var fs0 := State();
      if inodes[inum].addrs[NDIRECT] == 0 {
        ok := HandOut(inum, NDIRECT);
        if !ok {
          return false, 0;
        }
      }
      ghost var fs1 := State();
      IndirectOwned(fs1, owner, inum);
      var indirect := blocks[inodes[inum].addrs[NDIRECT]];
      x := Word(indirect, fbn - NDIRECT);
      if x == 0 {
        ok := HandOut(inum, fbn + 1);
        if !ok {
          return;
        }
        x := Word(blocks[inodes[inum].addrs[NDIRECT]], fbn - NDIRECT);
        MappedTrans(fs0, fs1, State(), inum);
      }
      ok := true;
    }

    /** freeblock++ into the empty slot s. */
    method HandOut(inum: int, s: int) returns (ok: bool)
      requires Building(State(), owner, freeblock) && InRange(State(), inum, s) && Ref(State(), inum, s) == 0
      requires s > NDIRECT ==> inodes[inum].addrs[NDIRECT] != 0
      modifies `blocks, `inodes, `freeblock, `owner
      ensures !ok ==> freeblock >= sb.size
      ensures ok ==> Building(State(), owner, freeblock) && Mapped(old(State()), State(), inum) && Ref(State(), inum, s) != 0
    {
      if freeblock >= sb.size {
        return false;
      }
      HandOutNext(State(), owner, freeblock, inum, s);
      hide Building, Mapped, Ref;
      if s <= NDIRECT {
        inodes := inodes[inum := inodes[inum].(addrs := inodes[inum].addrs[s := freeblock])];
      } else {
        var r := inodes[inum].addrs[NDIRECT];
        blocks := blocks[r := WithWord(blocks[r], s - NDIRECT - 1, freeblock)];
      }
      owner := owner[freeblock := Place(inum, s)];
      freeblock := freeblock + 1;
      ok := true;
    }

    /** ialloc: the next inode number, with one link and no contents. Past the inode
        blocks the model stops. */
    method Ialloc(kind: int) returns (ok: bool, inum: int)
      requires Valid()
      modifies `inodes, `freeinode
      ensures ok <==> old(freeinode) < |old(inodes)|
      ensures !ok ==> inodes == old(inodes) && freeinode == old(freeinode)
      ensures ok ==> Valid() && inum == old(freeinode) && freeinode == inum + 1
      ensures ok ==> inodes == old(inodes)[inum := Inode(kind, 1, 0, Unused().addrs)]
      ensures ok ==> Content(State(), inum) == [] && SameContents(old(State()), State(), inum)
    {
      hide Byte, Content;
      if freeinode >= |inodes| {
        return false, 0;
      }
      inum := freeinode;
      ghost var fs0 := State();
      inodes := inodes[inum := Inode(kind, 1, 0, Unused().addrs)];
      SameAddrs(fs0, State(), owner, freeblock);
      OtherContents(fs0, State(), inum);
      assert ZeroTails(State()) by {
        forall i, x | 0 <= i < |inodes| && inodes[i].size <= x < MAXFILE * BSIZE ensures Byte(State(), i, x) == 0 {
          assert SameBytes(fs0, State(), i) && Byte(fs0, i, x) == 0;
        }
      }
      freeinode := freeinode + 1;
      ok := true;
    }

    /** iappend's loop. */
    method AppendAll(inum: int, off: nat, p: seq<int>) returns (ok: bool)
      requires Building(State(), owner, freeblock) && 0 <= inum < |inodes| && off <= MAXFILE * BSIZE
      requires forall k :: 0 <= k < |p| ==> 0 <= p[k] < 256
      modifies `blocks, `inodes, `freeblock, `owner
      ensures !ok ==> freeblock >= sb.size || off + |p| > MAXFILE * BSIZE
      ensures ok ==> Building(State(), owner, freeblock) && Wrote(old(State()), State(), inum, off, p)
    {
      hide Building, Wrote, Mapped, Ref, Chunk;
      ghost var fs0 := State();
      NoneAppended(fs0, owner, freeblock, inum, off);
      assert p[..0] == [];
      var tot := 0;
      while tot < |p|
        invariant 0 <= tot <= |p| && Building(State(), owner, freeblock) && |inodes| == |fs0.inodes|
        invariant off + tot <= MAXFILE * BSIZE && Wrote(fs0, State(), inum, off, p[..tot])
      {
        if (off + tot) / BSIZE >= MAXFILE {
          return false;
        }
        var n1 := Chunk(off + tot, |p| - tot);
        ghost var fs1 := State();
        var x;
        ok, x := Locate(inum, (off + tot) / BSIZE);
        if !ok {
          return;
        }
        Copied(fs1, State(), owner, freeblock, inum, off + tot, p[tot..tot + n1], x);
        blocks := blocks[x := Spliced(blocks[x], (off + tot) % BSIZE, p[tot..tot + n1])];
        WroteMore(fs0, fs1, State(), inum, off, p[..tot], p[tot..tot + n1]);
        assert p[..tot] + p[tot..tot + n1] == p[..tot + n1];
        tot := tot + n1;
      }
      assert p[..|p|] == p;
      ok := true;
    }

    /** iappend: p behind the end of the file, and nothing else; fails only when the file
        or the image is too small. */
    method Iappend(inum: int, p: seq<int>) returns (ok: bool)
      requires Valid() && 0 <= inum < freeinode && forall k :: 0 <= k < |p| ==> 0 <= p[k] < 256
      modifies `blocks, `inodes, `freeblock, `owner
      ensures !ok ==> freeblock >= sb.size || old(inodes[inum].size) + |p| > MAXFILE * BSIZE
      ensures ok ==> Valid() && |inodes| == |old(inodes)| && inodes[inum].size == old(inodes[inum].size) + |p|
      ensures ok ==> Content(State(), inum) == old(Content(State(), inum)) + p && SameContents(old(State()), State(), inum)
    {
      hide Byte, Content, Building;
      ghost var fs0 := State();
      var off := inodes[inum].size;
      ok := AppendAll(inum, off, p);
      if !ok {
        return;
      }
      ghost var fs1 := State();
      inodes := inodes[inum := inodes[inum].(size := off + |p|)];
      Appended(fs0, fs1, State(), owner, freeblock, inum, p);
    }

    /** Reading a file and appending it, a buffer at a time. */
    method AppendFile(inum: int, data: seq<int>) returns (ok: bool)
      requires Valid() && 0 <= inum < freeinode && inodes[inum].size == 0 && forall k :: 0 <= k < |data| ==> 0 <= data[k] < 256
      modifies `blocks, `inodes, `freeblock, `owner
      ensures !ok ==> freeblock >= sb.size || |data| > MAXFILE * BSIZE
      ensures ok ==> Valid() && Content(State(), inum) == data && SameContents(old(State()), State(), inum)
    {
      hide Content, Building, ZeroTails, Byte;
      ghost var fs0 := State();
      SameContentsRefl(fs0, inum);
      var j := 0;
      while j < |data|
        invariant 0 <= j <= |data| && Valid() && |inodes| == |fs0.inodes| && inodes[inum].size == j
        invariant Content(State(), inum) == data[..j] && SameContents(fs0, State(), inum)
      {
        var cc := if |data| - j < BSIZE then |data| - j else BSIZE;
        ghost var fs1 := State();
        ok := Iappend(inum, data[j..j + cc]);
        if !ok {
          return;
        }
        assert data[..j] + data[j..j + cc] == data[..j + cc];
        SameContentsTrans(fs0, fs1, State(), inum);
        j := j + cc;
      }
      assert data[..|data|] == data;
      ok := true;
    }

    /** One file of the command line: an inode, an entry in the root, the contents. */
    method AddFile(f: Source) returns (ok: bool)
      requires Valid() && SourceOk(f) && 1 < freeinode <= NINODES == |inodes|
      modifies `blocks, `inodes, `freeblock, `owner, `freeinode
      ensures !ok ==> || freeblock >= sb.size || old(freeinode) >= NINODES || |f.data| > MAXFILE * BSIZE
                      || old(inodes[ROOTINO].size) + ENTRYSIZE > MAXFILE * BSIZE
      ensures ok ==> Valid() && freeinode == old(freeinode) + 1 && |inodes| == NINODES
      ensures ok ==> Content(State(), old(freeinode)) == f.data
      ensures ok ==> Content(State(), ROOTINO) == old(Content(State(), ROOTINO)) + EntryBytes(old(freeinode), f.name)
      ensures ok ==> forall j :: 0 <= j < NINODES && j != ROOTINO && j != old(freeinode) ==> Content(State(), j) == old(Content(State(), j))
    {
      hide Content, Building, ZeroTails, Byte;
      var inum;
      ok, inum := Ialloc(T_FILE);
      if !ok {
        return;
      }
      ok := Iappend(ROOTINO, EntryBytes(inum, f.name));
      if !ok {
        return;
      }
      ok := AppendFile(inum, f.data);
    }

    /** The root's size is rounded up past its last block. */
    method RoundRoot()
      requires Valid() && ROOTINO < freeinode && inodes[ROOTINO].size < MAXFILE * BSIZE
      modifies `inodes
      ensures Valid() && |inodes| == |old(inodes)| && inodes[ROOTINO].size == Rounded(old(inodes[ROOTINO].size))
      ensures Content(State(), ROOTINO) == old(Content(State(), ROOTINO)) + Padding(old(inodes[ROOTINO].size))
      ensures SameContents(old(State()), State(), ROOTINO)
    {
      ghost var fs0 := State();
      var off := inodes[ROOTINO].size;
      inodes := inodes[ROOTINO := inodes[ROOTINO].(size := (off / BSIZE + 1) * BSIZE)];
      Lengthened(fs0, State(), owner, freeblock, ROOTINO);
    }

    /** balloc: the bitmap; false is its assertion. */
    method Balloc() returns (ok: bool)
      requires Valid() && sb.size <= BPB
      modifies `blocks
      ensures ok <==> freeblock < BPB
      ensures ok ==> Owned(State(), owner) && SizesOk(State()) && SameContents(old(State()), State(), -1)
    {
      if freeblock >= BPB {
        return false;
      }
      var buf := Bitmap(freeblock);
      ghost var fs0 := State();
      BitmapOwned(fs0, owner, freeblock, buf);
      blocks := blocks[sb.bmapstart := buf];
      OtherContents(fs0, State(), -1);
      ok := true;
    }

    /** The root directory and its dots. */
    method AddRoot() returns (ok: bool)
      requires Valid() && freeinode == 1 && |inodes| == NINODES
      modifies `blocks, `inodes, `freeblock, `owner, `freeinode
      ensures !ok ==> freeblock >= sb.size
      ensures ok ==> Valid() && freeinode == 2 && |inodes| == NINODES
      ensures ok ==> Content(State(), ROOTINO) == EntryBytes(ROOTINO, DOT) + EntryBytes(ROOTINO, DOTDOT)
    {
      hide Content, Building, ZeroTails, Byte;
      var root;
      ok, root := Ialloc(T_DIR);
      ok := Iappend(root, EntryBytes(root, DOT));
      if ok {
        ok := Iappend(root, EntryBytes(root, DOTDOT));
      }
    }

    method AddFiles(files: seq<Source>) returns (ok: bool)
      requires Valid() && freeinode == 2 && |inodes| == NINODES && forall k :: 0 <= k < |files| ==> SourceOk(files[k])
      requires Content(State(), ROOTINO) == RootBytes(files, 0)
      modifies `blocks, `inodes, `freeblock, `owner, `freeinode
      ensures !ok ==> freeblock >= sb.size || |files| + 2 > NINODES || TooLong(files)
      ensures ok ==> Valid() && freeinode == |files| + 2 <= NINODES == |inodes| && Holds(State(), files, |files|)
    {
      hide Content, Building, ZeroTails, Byte, Holds, RootBytes, SourceOk;
      HoldsNone(State(), files);
      var k := 0;
      while k < |files|
        invariant 0 <= k <= |files| && k + 2 == freeinode <= NINODES == |inodes| && Valid() && Holds(State(), files, k)
      {
        ghost var fs0 := State();
        HoldsRoot(fs0, files, k);
        ok := AddFile(files[k]);
        if !ok {
          return;
        }
        HoldsMore(fs0, State(), files, k);
        k := k + 1;
      }
      ok := true;
    }

    /** The whole program: the root with its dots, the files, the rounding, the bitmap.
        What it leaves is an image in which the bitmap is exact and the files are the
        ones given; it gives up only for want of blocks or inodes or at a file that is
        too long. */
    method Build(files: seq<Source>) returns (ok: bool)
      requires Valid() && freeinode == 1 && |inodes| == NINODES && sb.size <= BPB
      requires forall k :: 0 <= k < |files| ==> SourceOk(files[k])
      modifies this
      ensures !ok ==> freeblock >= sb.size || |files| + 2 > NINODES || TooLong(files)
      ensures ok ==> Owned(State(), owner) && SizesOk(State()) && |inodes| == NINODES && |files| + 2 <= NINODES
      ensures ok ==> forall k :: 0 <= k < |files| ==> Content(State(), k + 2) == files[k].data
      ensures ok ==> Content(State(), ROOTINO) == RootBytes(files, |files|) + Padding(|RootBytes(files, |files|)|)
    {
      hide Content, Building, ZeroTails, Byte, Rounded, RootBytes, SourceOk, Padding, Owned;
      ok := AddRoot();
      if !ok {
        return;
      }
      NoFiles(files);
      ok := AddFiles(files);
      if !ok {
        return;
      }
      HoldsRoot(State(), files, |files|);
      RoundRoot();
      ok := Balloc();
    }
  }

  ghost predicate TooLong(files: seq<Source>) {
    exists k :: 0 <= k < |files| && |files[k].data| > MAXFILE * BSIZE
  }

  /** The image holds the first k files. */
  ghost predicate Holds(fs: Fs, files: seq<Source>, k: nat) {
    && Wf(fs) && SizesOk(fs) && |fs.inodes| == NINODES && k <= |files| && k + 2 <= NINODES
    && Content(fs, ROOTINO) == RootBytes(files, k)
    && forall j :: 0 <= j < k ==> Content(fs, j + 2) == files[j].data
  }

  lemma NoFiles(files: seq<Source>)
    ensures RootBytes(files, 0) == EntryBytes(ROOTINO, DOT) + EntryBytes(ROOTINO, DOTDOT)
  {
  }

  lemma HoldsNone(fs: Fs, files: seq<Source>)
    requires Wf(fs) && SizesOk(fs) && |fs.inodes| == NINODES && Content(fs, ROOTINO) == RootBytes(files, 0)
    ensures Holds(fs, files, 0)
  {
  }

  lemma HoldsRoot(fs: Fs, files: seq<Source>, k: nat)
    requires Holds(fs, files, k) && forall j :: 0 <= j < |files| ==> SourceOk(files[j])
    ensures fs.inodes[ROOTINO].size == |RootBytes(files, k)| <= ENTRYSIZE * NINODES
  {
    RootLength(files, k);
  }

  lemma HoldsMore(fs: Fs, fs': Fs, files: seq<Source>, k: nat)
    requires Holds(fs, files, k) && k < |files| && k + 3 <= NINODES && Wf(fs') && SizesOk(fs') && |fs'.inodes| == NINODES
    requires Content(fs', k + 2) == files[k].data
    requires Content(fs', ROOTINO) == Content(fs, ROOTINO) + EntryBytes(k + 2, files[k].name)
    requires forall j :: 0 <= j < NINODES && j != ROOTINO && j != k + 2 ==> Content(fs', j) == Content(fs, j)
    ensures Holds(fs', files, k + 1)
  {
    hide Content;
    assert RootBytes(files, k + 1) == RootBytes(files, k) + EntryBytes(k + 2, files[k].name);
  }

  const T_DIR: int := 1
  const T_FILE: int := 2
  const ENTRYSIZE: nat := 16

  /** A file on mkfs's command line; the name is the 14 bytes of the entry. */
  datatype Source = Source(name: seq<int>, data: seq<int>)

  ghost predicate SourceOk(f: Source) {
    && |f.name| == ENTRYSIZE - 2 && (forall k :: 0 <= k < |f.name| ==> 0 <= f.name[k] < 256)
    && (forall k :: 0 <= k < |f.data| ==> 0 <= f.data[k] < 256)
  }

  const DOT: seq<int> := [46, 0, 0, 0, 0, 0, 0, 0, 0, 0, 0, 0, 0, 0]
  const DOTDOT: seq<int> := [46, 46, 0, 0, 0, 0, 0, 0, 0, 0, 0, 0, 0, 0]

  /** A directory entry: two bytes of inode number, low byte first, and the name. */
  function EntryBytes(inum: int, name: seq<int>): seq<int> {
    [inum % 256, inum / 256] + name
  }

  /** The root's contents with the first k files. */
  function RootBytes(files: seq<Source>, k: nat): seq<int>
    requires k <= |files|
  {
    if k == 0 then EntryBytes(ROOTINO, DOT) + EntryBytes(ROOTINO, DOTDOT)
    else RootBytes(files, k - 1) + EntryBytes(k + 1, files[k - 1].name)
  }

  lemma {:induction false} RootLength(files: seq<Source>, k: nat)
    requires k <= |files| && forall j :: 0 <= j < |files| ==> SourceOk(files[j])
    ensures |RootBytes(files, k)| == ENTRYSIZE * (k + 2)
  {
    if k > 0 {
      RootLength(files, k - 1);
    }
  }

  function Rounded(size: nat): nat {
    (size / BSIZE + 1) * BSIZE
  }

  function Padding(size: nat): (z: seq<int>)
    ensures |z| == Rounded(size) - size && forall k :: 0 <= k < |z| ==> z[k] == 0
  {
    seq(Rounded(size) - size, _ => 0)
  }

  lemma RoundedUp(size: nat)
    ensures size < Rounded(size) <= size + BSIZE && Rounded(size) % BSIZE == 0
    ensures size < MAXFILE * BSIZE ==> Rounded(size) <= MAXFILE * BSIZE
  {
  }

  /** A file made longer without writing shows zeros. */
  lemma Lengthened(fs: Fs, fs': Fs, o: map<int, Place>, free: int, i: int)
    requires Building(fs, o, free) && SizesOk(fs) && ZeroTails(fs) && 0 <= i < |fs.inodes| && fs.inodes[i].size < MAXFILE * BSIZE
    requires fs' == fs.(inodes := fs.inodes[i := fs.inodes[i].(size := Rounded(fs.inodes[i].size))])
    ensures Building(fs', o, free) && SizesOk(fs') && ZeroTails(fs') && SameContents(fs, fs', i)
    ensures Content(fs', i) == Content(fs, i) + Padding(fs.inodes[i].size)
  {
    hide Byte, Building;
    RoundedUp(fs.inodes[i].size);
    hide Rounded;
    SameAddrs(fs, fs', o, free);
    OtherContents(fs, fs', i);
    assert SameBytes(fs, fs', i);
    assert forall x :: 0 <= x < MAXFILE * BSIZE ==> Byte(fs', i, x) == Byte(fs, i, x);
    assert ZeroTails(fs') by {
      forall j, x | 0 <= j < |fs'.inodes| && fs'.inodes[j].size <= x < MAXFILE * BSIZE ensures Byte(fs', j, x) == 0 {
        assert SameBytes(fs, fs', j) && Byte(fs, j, x) == 0;
      }
    }
  }

  lemma SameContentsRefl(fs: Fs, i: int)
    requires Wf(fs) && SizesOk(fs)
    ensures SameContents(fs, fs, i)
  {
  }

  lemma SameContentsTrans(a: Fs, b: Fs, c: Fs, i: int)
    requires Wf(a) && Wf(b) && Wf(c) && SameContents(a, b, i) && SameContents(b, c, i)
    ensures SameContents(a, c, i)
  {
  }

  /** A bitmap block with the first `used` bits set. */
  method Bitmap(used: nat) returns (buf: Block)
    requires used < BPB
    ensures IsBlock(buf)
    ensures forall b :: 0 <= b < BPB ==> (BlockBit(buf, b) <==> b < used)
  {
    buf := Zeroed();
    forall b | 0 <= b < BPB ensures !BlockBit(buf, b) {
      ZeroHasNoBits(b % 8);
    }
    var i := 0;
    while i < used
      invariant 0 <= i <= used && IsBlock(buf)
      invariant forall b :: 0 <= b < BPB ==> (BlockBit(buf, b) <==> b < i)
    {
      var next := BlockWithBit(buf, i, true);
      BlockBitAt(buf, i, true, 0);
      forall b | 0 <= b < BPB ensures BlockBit(next, b) <==> b < i + 1 {
        BlockBitAt(buf, i, true, b);
      }
      buf := next;
      i := i + 1;
    }
  }

  lemma {:induction false} ZeroHasNoBits(k: nat)
    ensures !TestBit(0, k)
  {
    if k > 0 {
      ZeroHasNoBits(k - 1);
    }
  }

  /** With its bitmap the image is exact, and no file has changed. */
  lemma BitmapOwned(fs: Fs, o: map<int, Place>, free: int, buf: Block)
    requires Building(fs, o, free) && fs.sb.size <= BPB && IsBlock(buf)
    requires forall b :: 0 <= b < BPB ==> (BlockBit(buf, b) <==> b < free)
    ensures fs.sb.bmapstart < |fs.blocks| && Owned(WithBlock(fs, fs.sb.bmapstart, buf), o)
    ensures forall i :: 0 <= i < |fs.inodes| ==> SameBytes(fs, WithBlock(fs, fs.sb.bmapstart, buf), i)
  {
    hide Ref, Byte;
    assert fs.sb.bmapstart + 0 / BPB < fs.sb.datastart;
    var fs' := WithBlock(fs, fs.sb.bmapstart, buf);
    DataUntouched(fs, fs', o);
    forall b | 0 <= b < fs.sb.size ensures Bit(fs', b) <==> b < fs.sb.datastart || b in o {
      assert b / BPB == 0 && b % BPB == b;
    }
  }

  lemma SuperValid()
    ensures SUPER.Valid() && SUPER.size <= BPB
  {
  }

  /** mkfs and then the kernel: the file system starts valid, with the files given. */
  method FirstBoot(files: seq<Source>) returns (fs: FileSystem?)
    requires forall k :: 0 <= k < |files| ==> SourceOk(files[k])
    ensures fs != null ==>
              && fresh(fs) && fs.Valid() && fs.sb == SUPER && |fs.inodes| == NINODES && |files| + 2 <= NINODES
              && (forall k :: 0 <= k < |files| ==> Content(fs.State(), k + 2) == files[k].data)
              && Content(fs.State(), ROOTINO) == RootBytes(files, |files|) + Padding(|RootBytes(files, |files|)|)
  {
    SuperValid();
    hide Building, ZeroTails, Padding, RootBytes;
    var image := new Image(SUPER);
    var ok := image.Build(files);
    if !ok {
      return null;
    }
    fs := new FileSystem(Fs(SUPER, image.blocks, image.inodes), image.owner);
  }

  lemma {:induction false} SomeBitmap(used: nat) returns (buf: Block)
    requires used <= BPB
    ensures IsBlock(buf) && forall b :: 0 <= b < BPB ==> (BlockBit(buf, b) <==> b < used)
  {
    if used == 0 {
      buf := Zeroed();
      forall b | 0 <= b < BPB ensures !BlockBit(buf, b) {
        ZeroHasNoBits(b % 8);
      }
    } else {
      var less := SomeBitmap(used - 1);
      buf := BlockWithBit(less, used - 1, true);
      BlockBitAt(less, used - 1, true, 0);
      forall b | 0 <= b < BPB ensures BlockBit(buf, b) <==> b < used {
        BlockBitAt(less, used - 1, true, b);
      }
    }
  }

  /** The base case: zeroed blocks, no inode in use, and the bitmap of the metadata. */
  lemma EmptyImageOwned(sb: Super) returns (fs: Fs)
    requires sb.Valid() && sb.size <= BPB
    ensures Owned(fs, map[]) && fs.sb == sb && |fs.inodes| == NINODES
  {
    var fs0 := Fs(sb, seq(sb.size, _ => Zeroed()), seq(NINODES, _ => Unused()));
    assert Building(fs0, map[], sb.datastart);
    hide Building, Owned;
    var buf := SomeBitmap(sb.datastart);
    BitmapOwned(fs0, map[], sb.datastart, buf);
    fs := WithBlock(fs0, sb.bmapstart, buf);
  }

  /** Every other file as before. */
  ghost predicate SameContents(fs: Fs, fs': Fs, i: int)
    requires Wf(fs) && Wf(fs')
  {
    && |fs'.inodes| == |fs.inodes| && SizesOk(fs) && SizesOk(fs')
    && forall j :: 0 <= j < |fs.inodes| && j != i ==> fs'.inodes[j] == fs.inodes[j] && Content(fs', j) == Content(fs, j)
  }

  /** Changes of inodes that leave their addresses alone. */
  lemma SameAddrs(fs: Fs, fs': Fs, o: map<int, Place>, free: int)
    requires Building(fs, o, free) && fs'.sb == fs.sb && fs'.blocks == fs.blocks && |fs'.inodes| == |fs.inodes|
    requires forall i :: 0 <= i < |fs.inodes| ==> fs'.inodes[i].addrs == fs.inodes[i].addrs
    ensures Building(fs', o, free)
    ensures forall i :: 0 <= i < |fs.inodes| ==> SameBytes(fs, fs', i)
  {
    forall i, s | InRange(fs, i, s) ensures Ref(fs', i, s) == Ref(fs, i, s) {
    }
    hide Ref;
    forall i, x | 0 <= i < |fs.inodes| && 0 <= x < MAXFILE * BSIZE ensures Byte(fs', i, x) == Byte(fs, i, x) {
      assert InRange(fs, i, SlotOf(x / BSIZE));
    }
  }

  lemma OtherContents(fs: Fs, fs': Fs, i: int)
    requires Wf(fs) && Wf(fs') && |fs'.inodes| == |fs.inodes| && SizesOk(fs) && SizesOk(fs')
    requires forall j :: 0 <= j < |fs.inodes| ==> j != i ==> fs'.inodes[j] == fs.inodes[j] && SameBytes(fs, fs', j)
    ensures SameContents(fs, fs', i)
  {
    forall j | 0 <= j < |fs.inodes| && j != i ensures Content(fs', j) == Content(fs, j) {
      assert SameBytes(fs, fs', j);
      hide Byte;
      assert forall x :: 0 <= x < |Content(fs, j)| ==> Content(fs', j)[x] == Byte(fs', j, x) == Byte(fs, j, x);
    }
  }

  lemma NoneAppended(fs: Fs, o: map<int, Place>, free: int, i: int, off: nat)
    requires Building(fs, o, free) && 0 <= i < |fs.inodes| && off <= MAXFILE * BSIZE
    ensures Wrote(fs, fs, i, off, [])
  {
    hide Ref, Byte;
  }

  /** The copy into block x of the file, below free. */
  lemma Copied(a: Fs, b: Fs, o: map<int, Place>, free: int, i: int, off: nat, src: seq<int>, x: int)
    requires Mapped(a, b, i) && Building(b, o, free)
    requires off + |src| <= MAXFILE * BSIZE && 0 < |src| && off % BSIZE + |src| <= BSIZE
    requires x == Ref(b, i, SlotOf(off / BSIZE)) != 0
    requires forall k :: 0 <= k < |src| ==> 0 <= src[k] < 256
    ensures 0 <= x < |b.blocks| && |b.blocks[x]| == BSIZE && |b.inodes| == |a.inodes|
    ensures var c := WithBlock(b, x, Spliced(b.blocks[x], off % BSIZE, src));
            Building(c, o, free) && Wrote(a, c, i, off, src)
  {
    hide Ref, Byte, Wrote, Spliced, SameBytes;
    WroteBlock(a, b, o, i, off, src);
    assert InRange(b, i, SlotOf(off / BSIZE)) && x in o;
  }

  lemma Appended(fs0: Fs, fs1: Fs, fs2: Fs, o: map<int, Place>, free: int, i: int, p: seq<int>)
    requires 0 <= i < |fs0.inodes| && Wrote(fs0, fs1, i, fs0.inodes[i].size, p) && Building(fs1, o, free) && SizesOk(fs0) && ZeroTails(fs0)
    requires fs2 == fs1.(inodes := fs1.inodes[i := fs1.inodes[i].(size := fs0.inodes[i].size + |p|)])
    ensures Building(fs2, o, free) && SizesOk(fs2) && ZeroTails(fs2) && SameContents(fs0, fs2, i)
    ensures Content(fs2, i) == Content(fs0, i) + p
  {
    hide Byte, Content, Splice, Building;
    var off := fs0.inodes[i].size;
    SameAddrs(fs1, fs2, o, free);
    ContentAfterWrite(fs0, fs1, fs2, i, off, p);
    SpliceAtEnd(Content(fs0, i), p);
    forall j, x | 0 <= j < |fs2.inodes| && fs2.inodes[j].size <= x < MAXFILE * BSIZE ensures Byte(fs2, j, x) == 0 {
      assert SameBytes(fs1, fs2, j) && (j != i ==> SameBytes(fs0, fs1, j));
      assert Byte(fs0, j, x) == 0;
    }
  }

  lemma SpliceAtEnd(file: seq<int>, p: seq<int>)
    ensures Splice(file, |file|, p) == file + p
  {
  }

  lemma BuildingMapped(fs: Fs, o: map<int, Place>, free: int, i: int)
    requires Building(fs, o, free) && 0 <= i < |fs.inodes|
    ensures Mapped(fs, fs, i)
  {
    hide Ref, Byte;
  }
}
