/** Making and removing directories: two entries and two counts at once. */
module NameTreeDirs {
  import opened Paths
  import opened Dirs
  import opened NameTree
  import opened Sets

  predicate Has(s: seq<Dirent>, y: int) {
    0 <= y < |s| && Live(s[y])
  }

  predicate SameSlot(s: seq<Dirent>, s': seq<Dirent>, y: int) {
    (Has(s, y) <==> Has(s', y)) && (Has(s, y) ==> s[y] == s'[y])
  }

  /** Only the dots. */
  predicate OnlyDots(s: seq<Dirent>) {
    forall y :: 2 <= y < |s| ==> !Live(s[y])
  }

  /** t' is t with the empty directory c attached to d, in slot k. */
  ghost predicate Attached(t: Tree, t': Tree, d: int, k: int, c: int) {
    && |t'| == |t| && 0 < c < |t| && c != d && LinkedDir(t, d) && LinkedDir(t', d)
    && t[c].nlink == 0 && t'[c].nlink == 1 && t'[c].kind.Dir?
    && |t'[c].slots| >= 2 && t'[c].slots[0] == Dirent(c, ".") && t'[c].slots[1] == Dirent(d, "..") && OnlyDots(t'[c].slots)
    && t'[d].nlink == t[d].nlink + 1
    && k >= 2 && Has(t'[d].slots, k) && t'[d].slots[k].inum == c && t'[d].slots[k].name != "." && !Has(t[d].slots, k)
    && (forall y :: y != k ==> SameSlot(t[d].slots, t'[d].slots, y))
    && (forall x :: 0 <= x < |t| && x != c && x != d ==> t'[x] == t[x])
  }

  lemma AttachedLinked(t: Tree, t': Tree, d: int, k: int, c: int)
    requires Attached(t, t', d, k, c) && d != 0
    ensures forall x :: LinkedDir(t', x) <==> LinkedDir(t, x) || x == c
    ensures forall x, y, z :: Entry(t', x, y, z) <==> Entry(t, x, y, z) || (x == d && y == k && z == c)
    ensures forall x, y, j :: Names(t', x, y, j) <==> Names(t, x, y, j) || (x == d && y == k && j == c) || (x == c && y == 1 && j == d)
  {
    forall x, y, z ensures Entry(t', x, y, z) <==> Entry(t, x, y, z) || (x == d && y == k && z == c) {
      assert y != k ==> SameSlot(t[d].slots, t'[d].slots, y);
      assert Entry(t, x, y, z) <==> LinkedDir(t, x) && y >= 2 && Has(t[x].slots, y) && t[x].slots[y].inum == z;
      assert Entry(t', x, y, z) <==> LinkedDir(t', x) && y >= 2 && Has(t'[x].slots, y) && t'[x].slots[y].inum == z;
    }
    forall x, y, j ensures Names(t', x, y, j) <==> Names(t, x, y, j) || (x == d && y == k && j == c) || (x == c && y == 1 && j == d) {
      assert y != k ==> SameSlot(t[d].slots, t'[d].slots, y);
      assert Names(t, x, y, j) <==> LinkedDir(t, x) && Has(t[x].slots, y) && t[x].slots[y].inum == j && t[x].slots[y].name != ".";
      assert Names(t', x, y, j) <==> LinkedDir(t', x) && Has(t'[x].slots, y) && t'[x].slots[y].inum == j && t'[x].slots[y].name != ".";
    }
  }

  lemma AttachedCounted(t: Tree, t': Tree, d: int, k: int, c: int)
    requires Attached(t, t', d, k, c) && d != 0
    ensures LinksCounted(t) <==> LinksCounted(t')
  {
    AttachedLinked(t, t', d, k, c);
    assert !Names(t, d, k, c) && !Names(t, c, 1, d);
    hide Names, Entry, LinkedDir;
    MoreCounted(t, t', c, d, k, d, c, 1);
  }

  /** Attaching a directory that was an entry nowhere. */
  lemma AttachTree(t: Tree, t': Tree, d: int, k: int, c: int)
    requires Attached(t, t', d, k, c) && d != 0 && TreeOk(t) && (forall x, y :: !Entry(t, x, y, c))
    requires forall x :: LinkedDir(t, x) ==> Parent(t', x) == Parent(t, x)
    ensures TreeOk(t')
  {
    AttachedLinked(t, t', d, k, c);
    assert Parent(t', c) == d && c != ROOT;
    assert forall z :: z != c ==> (IsDir(t', z) <==> IsDir(t, z));
    assert IsDir(t', c) && Entry(t', d, k, c);
    hide Attached, Names, Entry, IsDir;
    forall z | LinkedDir(t', z) && z != ROOT ensures HasEntry(t', z) {
      if z == c {
        assert Entry(t', Parent(t', c), k, c);
      } else {
        assert HasEntry(t, z);
        var y :| Entry(t, Parent(t, z), y, z);
        assert Entry(t', Parent(t', z), y, z);
      }
    }
  }

  /** Detaching an empty directory. */
  lemma DetachTree(t: Tree, t': Tree, d: int, k: int, c: int)
    requires Attached(t, t', d, k, c) && d != 0 && TreeOk(t')
    requires forall x :: LinkedDir(t, x) ==> Parent(t', x) == Parent(t, x)
    ensures TreeOk(t)
  {
    AttachedLinked(t, t', d, k, c);
    assert forall z :: z != c ==> (IsDir(t', z) <==> IsDir(t, z));
    assert IsDir(t', c) && Entry(t', d, k, c) && t[c].nlink == 0;
    assert c != ROOT && LinkedDir(t', ROOT);
    assert forall x, y :: !Entry(t, x, y, c) by {
      forall x, y ensures !Entry(t, x, y, c) {
      }
    }
    hide Attached, Names, Entry, IsDir;
    forall z | LinkedDir(t, z) && z != ROOT ensures HasEntry(t, z) {
      assert LinkedDir(t', z) && HasEntry(t', z);
      var y :| Entry(t', Parent(t', z), y, z);
      assert Entry(t, Parent(t, z), y, z);
    }
  }

  // ----- making a directory -----

  /** create with T_DIR, after ialloc: c gets its dots and one link, d a link for "..",
      and an entry for c. */
  function Made(t: Tree, d: int, name: string, c: int): Tree
    requires 0 <= d < |t| && 0 <= c < |t|
  {
    var t1 := t[c := Inode(Dir, 1, [Dirent(c, "."), Dirent(d, "..")])];
    var s := t1[d].slots;
    t1[d := Inode(t1[d].kind, t1[d].nlink + 1, Put(s, FirstFree(s, 0), Dirent(c, name)))]
  }

  lemma MadeAttached(t: Tree, d: int, name: string, c: int)
    requires DirsOk(t) && LinkedDir(t, d) && 0 < c < |t| && c != d && t[c].nlink == 0
    requires UniqueNames(t[d].slots) && name !in View(t[d].slots)
    ensures Attached(t, Made(t, d, name, c), d, FirstFree(t[d].slots, 0), c)
  {
    var k, t' := FirstFree(t[d].slots, 0), Made(t, d, name, c);
    DotsInUse(t, d);
    hide View, UniqueNames, FirstFree;
    assert k >= 2;
    forall y | y != k ensures SameSlot(t[d].slots, t'[d].slots, y) {
      PutSlots(t[d].slots, k, Dirent(c, name), y);
    }
    PutSlots(t[d].slots, k, Dirent(c, name), k);
  }

  lemma MadeSlots(t: Tree, d: int, name: string, c: int)
    requires DirsOk(t) && LinkedDir(t, d) && 0 < c < |t| && c != d
    requires UniqueNames(t[d].slots) && name !in View(t[d].slots)
    ensures var t' := Made(t, d, name, c); SlotsOk(t', d) && Parent(t', d) == Parent(t, d)
  {
    var k, t' := FirstFree(t[d].slots, 0), Made(t, d, name, c);
    DotsInUse(t, d);
    LinkView(t[d].slots, name, c);
    assert DirOk(t, d);
    hide View, FirstFree, UniqueNames, DirsOk;
    forall y | 0 <= y < |t'[d].slots| && Live(t'[d].slots[y]) ensures 0 < t'[d].slots[y].inum < |t| {
      PutSlots(t[d].slots, k, Dirent(c, name), y);
    }
    PutSlots(t[d].slots, k, Dirent(c, name), 0);
    PutSlots(t[d].slots, k, Dirent(c, name), 1);
  }

  lemma MadeDirs(t: Tree, d: int, name: string, c: int)
    requires DirsOk(t) && LinkedDir(t, d) && 0 < c < |t| && c != d && d != 0 && t[c].nlink == 0
    requires UniqueNames(t[d].slots) && name !in View(t[d].slots)
    ensures DirsOk(Made(t, d, name, c))
    ensures forall x :: LinkedDir(t, x) ==> Parent(Made(t, d, name, c), x) == Parent(t, x)
  {
    var k, t' := FirstFree(t[d].slots, 0), Made(t, d, name, c);
    MadeAttached(t, d, name, c);
    AttachedLinked(t, t', d, k, c);
    MadeSlots(t, d, name, c);
    hide View, FirstFree, Attached, Names, Entry;
    forall x | LinkedDir(t', x) ensures DirOk(t', x) && (x != c ==> Parent(t', x) == Parent(t, x)) {
      assert x != c ==> DirOk(t, x);
      assert x != c && x != d ==> t'[x] == t[x];
    }
  }

  /** A new directory keeps the invariant. */
  lemma MadeInv(t: Tree, d: int, name: string, c: int)
    requires Inv(t) && LinkedDir(t, d) && 0 < c < |t| && d != 0 && t[c].nlink == 0
    requires UniqueNames(t[d].slots) && name !in View(t[d].slots)
    ensures Inv(Made(t, d, name, c))
  {
    hide View, UniqueNames, FirstFree, Attached, DirsOk, TreeOk, LinksCounted, Entry, Names;
    var k, t' := FirstFree(t[d].slots, 0), Made(t, d, name, c);
    assert FreeOk(t');
    hide Made, FreeOk;
    NotNamed(t, c);
    MadeAttached(t, d, name, c);
    MadeDirs(t, d, name, c);
    AttachedCounted(t, t', d, k, c);
    AttachTree(t, t', d, k, c);
  }

  // ----- removing a directory -----

  function Removed(t: Tree, d: int, k: int, c: int): Tree
    requires 0 <= d < |t| && 0 <= c < |t| && 0 <= k < |t[d].slots|
  {
    var t1 := t[d := Inode(t[d].kind, t[d].nlink - 1, t[d].slots[k := Dirent(0, "")])];
    t1[c := t1[c].(nlink := t1[c].nlink - 1)]
  }

  /** Nothing but its entry in d names the empty directory c. */
  lemma EmptyHasOneLink(t: Tree, d: int, k: int, c: int)
    requires Inv(t) && Entry(t, d, k, c) && IsDir(t, c) && OnlyDots(t[c].slots)
    ensures t[c].nlink == 1 && c != ROOT && c != d && LinkedDir(t, c) && Parent(t, c) == d
  {
    assert c != ROOT && LinkedDir(t, c) && Parent(t, c) == d;
    assert DirOk(t, c);
    forall x, y ensures Names(t, x, y, c) <==> x == d && y == k {
      EntryNames(t, d, k, c);
      if Names(t, x, y, c) {
        OnlyName(t, d, k, c, x, y);
      }
    }
    assert Refs(t, c) == {(d, k)} by {
      hide Names;
      forall p | p in Refs(t, c) ensures p == (d, k) {
      }
      assert (d, k) in Refs(t, c) by { InRefs(t, c, d, k); }
    }
  }

  lemma InRefs(t: Tree, c: int, d: int, k: int)
    requires Names(t, d, k, c)
    ensures (d, k) in Refs(t, c)
  {
  }

  lemma OnlyName(t: Tree, d: int, k: int, c: int, x: int, y: int)
    requires DirsOk(t) && TreeOk(t) && Entry(t, d, k, c) && IsDir(t, c) && OnlyDots(t[c].slots) && Names(t, x, y, c)
    ensures x == d && y == k
  {
    assert DirOk(t, x);
    NoChild(t, c, x);
    assert y >= 2 ==> Entry(t, x, y, c);
  }

  /** No directory has an empty directory, other than the root, for its "..". */
  lemma NoChild(t: Tree, c: int, x: int)
    requires TreeOk(t) && IsDir(t, c) && OnlyDots(t[c].slots) && LinkedDir(t, x) && c != ROOT
    ensures Parent(t, x) != c
  {
    if x != ROOT {
      assert HasEntry(t, x);
      var z :| Entry(t, Parent(t, x), z, x);
    }
  }

  /** d has at least the link it is reached by and the one from c's "..". */
  lemma ParentHasTwoLinks(t: Tree, d: int, k: int, c: int)
    requires Inv(t) && Entry(t, d, k, c) && LinkedDir(t, c) && c != ROOT && c != d && Parent(t, c) == d
    ensures t[d].nlink >= 2
  {
    assert DirOk(t, c) && DirOk(t, d);
    assert Names(t, c, 1, d);
    InRefs(t, d, c, 1);
    var other: (int, int);
    if d == ROOT {
      assert Names(t, d, 1, d);
      other := (d, 1);
    } else {
      assert HasEntry(t, d);
      var y :| Entry(t, Parent(t, d), y, d);
      EntryNames(t, Parent(t, d), y, d);
      other := (Parent(t, d), y);
    }
    InRefs(t, d, other.0, other.1);
    assert {(c, 1), other} <= Refs(t, d);
    SubsetSize({(c, 1), other}, Refs(t, d));
  }

  lemma RemovedAttached(t: Tree, d: int, k: int, c: int)
    requires Inv(t) && Entry(t, d, k, c) && IsDir(t, c) && OnlyDots(t[c].slots)
    ensures 0 < c < |t| && d != 0 && Attached(Removed(t, d, k, c), t, d, k, c)
  {
    hide LinksCounted, TreeOk, FreeOk, Removed, OnlyDots, Attached, UniqueNames;
    EmptyHasOneLink(t, d, k, c);
    ParentHasTwoLinks(t, d, k, c);
    EntryNames(t, d, k, c);
    assert DirOk(t, c) && DirOk(t, d);
    Detached(t, d, k, c);
  }

  lemma Detached(t: Tree, d: int, k: int, c: int)
    requires LinkedDir(t, d) && LinkedDir(t, c) && 0 < c && c != d && t[c].nlink == 1 && t[d].nlink >= 2 && OnlyDots(t[c].slots)
    requires |t[c].slots| >= 2 && t[c].slots[0] == Dirent(c, ".") && t[c].slots[1] == Dirent(d, "..")
    requires 2 <= k < |t[d].slots| && Live(t[d].slots[k]) && t[d].slots[k].inum == c && t[d].slots[k].name != "."
    ensures Attached(Removed(t, d, k, c), t, d, k, c)
  {
    hide OnlyDots;
    var r := Removed(t, d, k, c);
    forall y | y != k ensures SameSlot(r[d].slots, t[d].slots, y) {
    }
  }

  lemma RemovedDir(t: Tree, d: int, k: int, c: int, r: Tree, x: int)
    requires 0 <= d < |t| && 0 <= c < |t| && 2 <= k < |t[d].slots| && DirOk(t, x) && r == Removed(t, d, k, c)
    requires LinkedDir(r, x) && LinkedDir(r, Parent(t, x))
    ensures DirOk(r, x) && Parent(r, x) == Parent(t, x)
  {
  }

  lemma RemovedDirs(t: Tree, d: int, k: int, c: int)
    requires DirsOk(t) && TreeOk(t) && Entry(t, d, k, c) && IsDir(t, c) && OnlyDots(t[c].slots) && c != ROOT && 0 < c < |t|
    requires Attached(Removed(t, d, k, c), t, d, k, c) && d != 0
    ensures DirsOk(Removed(t, d, k, c))
    ensures forall x :: LinkedDir(Removed(t, d, k, c), x) ==> Parent(t, x) == Parent(Removed(t, d, k, c), x)
  {
    var r := Removed(t, d, k, c);
    AttachedLinked(r, t, d, k, c);
    assert !LinkedDir(r, c);
    forall x | LinkedDir(r, x) ensures DirOk(r, x) && Parent(r, x) == Parent(t, x) {
      hide Attached, TreeOk, Names, Removed, SlotsOk;
      assert DirOk(t, x);
      NoChild(t, c, x);
      hide IsDir, Entry;
      RemovedDir(t, d, k, c, r, x);
    }
    hide *;
    DirsFrom(r);
  }

  lemma DirsFrom(t: Tree)
    requires forall x :: LinkedDir(t, x) ==> DirOk(t, x)
    ensures DirsOk(t)
  {
  }

  /** Removing an empty directory keeps the invariant. */
  lemma RemovedInv(t: Tree, d: int, k: int, c: int)
    requires Inv(t) && Entry(t, d, k, c) && IsDir(t, c) && OnlyDots(t[c].slots)
    ensures 0 < c < |t| && Inv(Removed(t, d, k, c)) && Removed(t, d, k, c)[c].nlink == 0
  {
    EmptyHasOneLink(t, d, k, c);
    RemovedAttached(t, d, k, c);
    RemovedDirs(t, d, k, c);
    var r := Removed(t, d, k, c);
    assert FreeOk(r);
    assert r[c].nlink == 0;
    hide Removed, Attached, DirsOk, TreeOk, LinksCounted, FreeOk, LinkedDir, Entry, Names;
    AttachedCounted(r, t, d, k, c);
    DetachTree(r, t, d, k, c);
  }

  /** A file system that holds only the root, as mkfs starts it. */
  function FirstTree(n: nat): Tree
    requires n >= 2
  {
    seq(n, i => if i == ROOT then Inode(Dir, 1, [Dirent(ROOT, "."), Dirent(ROOT, "..")]) else Inode(Free, 0, []))
  }

  lemma FirstTreeInv(n: nat)
    requires n >= 2
    ensures Inv(FirstTree(n))
  {
    var t := FirstTree(n);
    forall d, k, i ensures Names(t, d, k, i) <==> d == ROOT && k == 1 && i == ROOT {
    }
    forall d ensures LinkedDir(t, d) <==> d == ROOT {
    }
    assert DirOk(t, ROOT);
    forall i | 0 <= i < n ensures t[i].nlink == |Refs(t, i)| {
      if i == ROOT {
        InRefs(t, ROOT, ROOT, 1);
        assert Refs(t, ROOT) == {(ROOT, 1)};
      } else {
        assert Refs(t, i) == {};
      }
    }
  }
}
