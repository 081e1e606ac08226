/** The root directory that mkfs writes, read back as the kernel reads directories. */
module MkfsRoot {
  import opened FsLayout
  import opened FsState
  import opened Dirs
  import opened Mkfs

  /** The string in a field: up to the first NUL. */
  function Text(field: seq<int>): string {
    if field == [] || !(0 < field[0] < 256) then "" else [field[0] as char] + Text(field[1..])
  }

  /** A 16-byte record: the inode number, low byte first, and the name. */
  function Decode(b: seq<int>): Dirent
    requires |b| == ENTRYSIZE
  {
    Dirent(b[0] + 256 * b[1], Text(b[2..]))
  }

  /** Record k of a directory's bytes. */
  function Record(bytes: seq<int>, k: nat): (r: seq<int>)
    requires ENTRYSIZE * (k + 1) <= |bytes|
    ensures |r| == ENTRYSIZE
  {
    bytes[ENTRYSIZE * k..ENTRYSIZE * k + ENTRYSIZE]
  }

  /** The entries of a directory's bytes. */
  function Slots(bytes: seq<int>): (slots: seq<Dirent>)
    ensures |slots| == |bytes| / ENTRYSIZE
    ensures forall k :: 0 <= k < |slots| ==> slots[k] == Decode(Record(bytes, k))
  {
    seq(|bytes| / ENTRYSIZE, k requires 0 <= k < |bytes| / ENTRYSIZE => Decode(Record(bytes, k)))
  }

  lemma DecodeEntry(inum: int, name: seq<int>)
    requires |name| == ENTRYSIZE - 2 && 0 <= inum < 65536
    ensures |EntryBytes(inum, name)| == ENTRYSIZE && Decode(EntryBytes(inum, name)) == Dirent(inum, Text(name))
  {
    assert EntryBytes(inum, name)[2..] == name;
  }

  lemma DotTexts()
    ensures Text(DOT) == "." && Text(DOTDOT) == ".."
  {
    assert DOT[1..][0] == 0 && Text(DOT[1..]) == "";
    assert DOTDOT[1..][0] == 46 && DOTDOT[1..][1..][0] == 0 && Text(DOTDOT[1..][1..]) == "";
    assert Text(DOTDOT[1..]) == ".";
  }

  /** The name and the inode number of entry k of the root. */
  function EntryName(files: seq<Source>, k: nat): string
    requires k < |files| + 2
  {
    if k == 0 then "." else if k == 1 then ".." else Text(files[k - 2].name)
  }

  function EntryInum(k: nat): int {
    if k <= 1 then ROOTINO else k
  }

  /** Records of an appended list: those before, then the new one. */
  lemma RecordOf(bytes: seq<int>, entry: seq<int>, k: nat)
    requires |entry| == ENTRYSIZE && |bytes| % ENTRYSIZE == 0 && ENTRYSIZE * k <= |bytes|
    ensures Record(bytes + entry, k) == if ENTRYSIZE * k == |bytes| then entry else Record(bytes, k)
  {
  }

  lemma {:induction false} RootEntry(files: seq<Source>, n: nat, k: nat)
    requires k < n + 2 && n <= |files| < 65534 && forall j :: 0 <= j < |files| ==> SourceOk(files[j])
    ensures |RootBytes(files, n)| == ENTRYSIZE * (n + 2)
    ensures Decode(Record(RootBytes(files, n), k)) == Dirent(EntryInum(k), EntryName(files, k))
    decreases n
  {
    hide EntryBytes, Decode, Record, Text;
    RootLength(files, n);
    if n == 0 {
      DotTexts();
      DecodeEntry(ROOTINO, DOT);
      DecodeEntry(ROOTINO, DOTDOT);
      RecordOf([], EntryBytes(ROOTINO, DOT), 0);
      assert [] + EntryBytes(ROOTINO, DOT) == EntryBytes(ROOTINO, DOT);
      RecordOf(EntryBytes(ROOTINO, DOT), EntryBytes(ROOTINO, DOTDOT), k);
    } else {
      RootLength(files, n - 1);
      DecodeEntry(n + 1, files[n - 1].name);
      RecordOf(RootBytes(files, n - 1), EntryBytes(n + 1, files[n - 1].name), k);
      if k < n + 1 {
        RootEntry(files, n - 1, k);
      }
    }
  }

  /** The root as mkfs leaves it, entry by entry: the dots, each file with its inode, and
      free entries up to the end of the block. */
  lemma RootSlots(files: seq<Source>, k: nat)
    requires |files| < 65534 && forall j :: 0 <= j < |files| ==> SourceOk(files[j])
    requires k < |Slots(RootBytes(files, |files|) + Padding(|RootBytes(files, |files|)|))|
    ensures Slots(RootBytes(files, |files|) + Padding(|RootBytes(files, |files|)|))[k] ==
            if k < |files| + 2 then Dirent(EntryInum(k), EntryName(files, k)) else Dirent(0, "")
  {
    hide RootBytes;
    var root := RootBytes(files, |files|);
    var all := root + Padding(|root|);
    RootLength(files, |files|);
    if k < |files| + 2 {
      RootEntry(files, |files|, k);
      assert Record(all, k) == Record(root, k);
    } else {
      var b := Record(all, k);
      assert forall j :: 0 <= j < ENTRYSIZE ==> b[j] == 0;
    }
  }

  /** Names on the command line that differ from each other and from the dots. */
  ghost predicate NamesDiffer(files: seq<Source>) {
    forall j, k :: 0 <= j < k < |files| + 2 ==> EntryName(files, j) != EntryName(files, k)
  }

  /** So as a map the root gives the dots and, for each file's name, the inode that holds
      its bytes, and nothing else. */
  lemma RootView(files: seq<Source>, name: string)
    requires |files| < 65534 && (forall j :: 0 <= j < |files| ==> SourceOk(files[j])) && NamesDiffer(files)
    ensures var slots := Slots(RootBytes(files, |files|) + Padding(|RootBytes(files, |files|)|));
            && UniqueNames(slots)
            && (name in View(slots) <==> exists k :: 0 <= k < |files| + 2 && name == EntryName(files, k))
            && forall k :: 0 <= k < |files| + 2 ==> EntryName(files, k) in View(slots) && View(slots)[EntryName(files, k)] == EntryInum(k)
  {
    hide RootBytes, Padding, View, EntryName, EntryInum;
    var slots := Slots(RootBytes(files, |files|) + Padding(|RootBytes(files, |files|)|));
    assert |slots| >= |files| + 2 by { RootLength(files, |files|); }
    forall k | 0 <= k < |slots| ensures slots[k] == if k < |files| + 2 then Dirent(EntryInum(k), EntryName(files, k)) else Dirent(0, "") {
      RootSlots(files, k);
    }
    forall k | 0 <= k < |files| + 2 ensures EntryInum(k) != 0 {
      InumPositive(k);
    }
    forall k | 0 <= k < |files| + 2 ensures EntryName(files, k) in View(slots) && View(slots)[EntryName(files, k)] == EntryInum(k) {
      ViewAt(slots, EntryName(files, k), k);
    }
    if name in View(slots) {
      var k := ViewHas(slots, name);
    }
  }

  lemma InumPositive(k: nat)
    ensures EntryInum(k) > 0
  {
  }
}
