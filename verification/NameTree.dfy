/** The tree of directories: link counts and paths. */
module NameTree {
  import opened Paths
  import opened Dirs

  datatype Kind = Free | Dir | File | Dev

  /** slots are the entries of a directory. */
  datatype Inode = Inode(kind: Kind, nlink: int, slots: seq<Dirent>)

  const ROOT: int := 1

  type Tree = seq<Inode>

  predicate IsDir(t: Tree, d: int) {
    0 <= d < |t| && t[d].kind.Dir?
  }

  predicate LinkedDir(t: Tree, d: int) {
    IsDir(t, d) && t[d].nlink > 0
  }

  /** Slot k of a linked directory d names i, and is not its ".". */
  predicate Names(t: Tree, d: int, k: int, i: int) {
    LinkedDir(t, d) && 0 <= k < |t[d].slots| && Live(t[d].slots[k]) && t[d].slots[k].inum == i && t[d].slots[k].name != "."
  }

  function Refs(t: Tree, i: int): set<(int, int)> {
    set d, k | 0 <= d < |t| && 0 <= k < |t[d].slots| && Names(t, d, k, i) :: (d, k)
  }

  /** Every inode's link count is the number of entries that name it. */
  predicate LinksCounted(t: Tree) {
    forall i :: 0 <= i < |t| ==> t[i].nlink == |Refs(t, i)|
  }

  predicate SlotsOk(t: Tree, d: int)
    requires 0 <= d < |t|
  {
    var s := t[d].slots;
    && |s| >= 2 && s[0] == Dirent(d, ".") && s[1].name == ".." && Live(s[0]) && Live(s[1]) && UniqueNames(s)
    && (forall k :: 0 <= k < |s| && Live(s[k]) ==> 0 < s[k].inum < |t|)
  }

  /** The directory that ".." names. */
  function Parent(t: Tree, d: int): int {
    if 0 <= d < |t| && |t[d].slots| >= 2 then t[d].slots[1].inum else 0
  }

  /** Slot k is not a dot and names c. */
  predicate Entry(t: Tree, d: int, k: int, c: int) {
    LinkedDir(t, d) && 2 <= k < |t[d].slots| && Live(t[d].slots[k]) && t[d].slots[k].inum == c
  }

  predicate DirOk(t: Tree, d: int) {
    LinkedDir(t, d) && SlotsOk(t, d) && LinkedDir(t, Parent(t, d))
  }

  ghost predicate DirsOk(t: Tree) {
    forall d {:trigger DirOk(t, d)} :: LinkedDir(t, d) ==> DirOk(t, d)
  }

  /** A directory is an entry of its parent, once, and of no other directory; the root
      of none. */
  ghost predicate TreeOk(t: Tree) {
    && LinkedDir(t, ROOT) && Parent(t, ROOT) == ROOT
    && (forall d, k, c :: Entry(t, d, k, c) && IsDir(t, c) ==> c != ROOT && LinkedDir(t, c) && Parent(t, c) == d)
    && (forall d, j, k, c :: Entry(t, d, j, c) && Entry(t, d, k, c) && IsDir(t, c) ==> j == k)
    && (forall c {:trigger HasEntry(t, c)} :: LinkedDir(t, c) && c != ROOT ==> HasEntry(t, c))
  }

  ghost predicate HasEntry(t: Tree, c: int) {
    exists k :: Entry(t, Parent(t, c), k, c)
  }

  /** Inode 0 is never used. */
  predicate FreeOk(t: Tree) {
    && |t| > 0 && t[0].kind.Free?
    && forall i :: 0 <= i < |t| && t[i].kind.Free? ==> t[i].nlink == 0
  }

  ghost predicate Inv(t: Tree) {
    DirsOk(t) && TreeOk(t) && FreeOk(t) && LinksCounted(t)
  }

  // ----- counting -----

  lemma RefsSame(t: Tree, t': Tree, i: int)
    requires forall d, k :: Names(t', d, k, i) <==> Names(t, d, k, i)
    ensures Refs(t', i) == Refs(t, i)
  {
    forall p | p in Refs(t, i) ensures p in Refs(t', i) {
      assert Names(t, p.0, p.1, i);
    }
    forall p | p in Refs(t', i) ensures p in Refs(t, i) {
      assert Names(t', p.0, p.1, i);
    }
  }

  lemma RefsPlus(t: Tree, t': Tree, i: int, d: int, k: int)
    requires !Names(t, d, k, i)
    requires forall x, y :: Names(t', x, y, i) <==> Names(t, x, y, i) || (x == d && y == k)
    ensures |Refs(t', i)| == |Refs(t, i)| + 1
  {
    assert Names(t', d, k, i);
    assert Refs(t', i) == Refs(t, i) + {(d, k)} by {
      forall p | p in Refs(t, i) ensures p in Refs(t', i) {
        assert Names(t, p.0, p.1, i) && Names(t', p.0, p.1, i);
      }
      forall p | p in Refs(t', i) ensures p in Refs(t, i) + {(d, k)} {
        assert Names(t', p.0, p.1, i);
      }
    }
  }

  /** t' has one naming more than t, (d, k) of i, or a second one, (e, m) of f, and
      counts them. For one only, f is no inode. */
  ghost predicate More(t: Tree, t': Tree, i: int, d: int, k: int, f: int, e: int, m: int) {
    && |t'| == |t| && i != f && !Names(t, d, k, i) && (0 <= f < |t| ==> !Names(t, e, m, f))
    && (forall j, x, y :: 0 <= j < |t| ==>
          (Names(t', x, y, j) <==> Names(t, x, y, j) || (j == i && x == d && y == k) || (j == f && x == e && y == m)))
    && (forall j :: 0 <= j < |t| ==> t'[j].nlink == t[j].nlink + (if j == i || j == f then 1 else 0))
  }

  lemma MoreCounted(t: Tree, t': Tree, i: int, d: int, k: int, f: int, e: int, m: int)
    requires More(t, t', i, d, k, f, e, m)
    ensures LinksCounted(t) <==> LinksCounted(t')
  {
    hide Names, Refs;
    forall j | 0 <= j < |t| ensures |Refs(t', j)| == |Refs(t, j)| + (if j == i || j == f then 1 else 0) {
      if j == i {
        RefsPlus(t, t', i, d, k);
      } else if j == f {
        RefsPlus(t, t', f, e, m);
      } else {
        RefsSame(t, t', j);
      }
    }
    assert forall j :: 0 <= j < |t| ==> |Refs(t', j)| == |Refs(t, j)| + (if j == i || j == f then 1 else 0);
    if LinksCounted(t) {
      forall j | 0 <= j < |t'| ensures t'[j].nlink == |Refs(t', j)| {
        assert t[j].nlink == |Refs(t, j)|;
      }
    }
    if LinksCounted(t') {
      forall j | 0 <= j < |t| ensures t[j].nlink == |Refs(t, j)| {
        assert t'[j].nlink == |Refs(t', j)|;
      }
    }
  }

  lemma NamedIsLinked(t: Tree, d: int, k: int, i: int)
    requires LinksCounted(t) && Names(t, d, k, i) && 0 <= i < |t|
    ensures t[i].nlink > 0
  {
    assert (d, k) in Refs(t, i);
  }

  // ----- one entry more, one entry less -----

  function WithSlots(t: Tree, d: int, slots: seq<Dirent>): Tree
    requires 0 <= d < |t|
  {
    t[d := t[d].(slots := slots)]
  }

  function AddLinks(t: Tree, i: int, n: int): Tree
    requires 0 <= i < |t|
  {
    t[i := t[i].(nlink := t[i].nlink + n)]
  }

  /** A new name for i in directory d. */
  function Linked(t: Tree, d: int, name: string, i: int): Tree
    requires 0 <= d < |t| && 0 <= i < |t|
  {
    AddLinks(WithSlots(t, d, Put(t[d].slots, FirstFree(t[d].slots, 0), Dirent(i, name))), i, 1)
  }

  lemma DotsInUse(t: Tree, d: int)
    requires DirsOk(t) && LinkedDir(t, d)
    ensures FirstFree(t[d].slots, 0) >= 2
    ensures UniqueNames(t[d].slots) && "." in View(t[d].slots) && ".." in View(t[d].slots)
  {
    var s := t[d].slots;
    assert DirOk(t, d);
    assert FirstFree(s, 0) == FirstFree(s, 1) == FirstFree(s, 2);
    ViewAt(s, ".", 0);
    ViewAt(s, "..", 1);
  }

  /** What putting an entry into slot k does, seen from any slot. */
  lemma PutSlots(s: seq<Dirent>, k: nat, e: Dirent, y: int)
    requires k <= |s|
    ensures |Put(s, k, e)| == if k == |s| then |s| + 1 else |s|
    ensures 0 <= y < |Put(s, k, e)| ==> Put(s, k, e)[y] == if y == k then e else s[y]
  {
  }

  lemma LinkedMore(t: Tree, d: int, name: string, i: int)
    requires DirsOk(t) && LinkedDir(t, d) && 0 < i < |t| && !t[i].kind.Dir? && name != "."
    ensures More(t, Linked(t, d, name, i), i, d, FirstFree(t[d].slots, 0), -1, 0, 0)
  {
    var k, t' := FirstFree(t[d].slots, 0), Linked(t, d, name, i);
    forall x ensures LinkedDir(t', x) <==> LinkedDir(t, x) {
    }
    forall j, x, y | 0 <= j < |t| ensures Names(t', x, y, j) <==> Names(t, x, y, j) || (j == i && x == d && y == k) {
      PutSlots(t[d].slots, k, Dirent(i, name), y);
    }
  }

  /** The same directories with the same entries for directories. */
  ghost predicate SameTree(t: Tree, t': Tree) {
    && |t'| == |t|
    && (forall x :: LinkedDir(t', x) <==> LinkedDir(t, x))
    && (forall x, y, c :: DirEntry(t', x, y, c) <==> DirEntry(t, x, y, c))
  }

  predicate DirEntry(t: Tree, x: int, y: int, c: int) {
    Entry(t, x, y, c) && IsDir(t, c)
  }

  lemma TreeKept(t: Tree, t': Tree)
    requires SameTree(t, t') && TreeOk(t)
    requires forall x :: LinkedDir(t, x) ==> Parent(t', x) == Parent(t, x)
    ensures TreeOk(t')
  {
    hide IsDir, Entry;
    forall x, y, c ensures Entry(t', x, y, c) && IsDir(t', c) <==> Entry(t, x, y, c) && IsDir(t, c) {
      assert DirEntry(t', x, y, c) <==> DirEntry(t, x, y, c);
    }
    forall c | LinkedDir(t', c) && c != ROOT ensures HasEntry(t', c) {
      assert HasEntry(t, c);
      var y :| Entry(t, Parent(t, c), y, c);
      assert Entry(t', Parent(t', c), y, c);
    }
  }

  /** One directory's slots change after the dots; the rest of the tree does not. */
  lemma DirsKept(t: Tree, t': Tree, d: int)
    requires DirsOk(t) && LinkedDir(t, d) && |t'| == |t| && (forall x :: LinkedDir(t', x) <==> LinkedDir(t, x))
    requires forall x :: 0 <= x < |t| && x != d ==> t'[x].slots == t[x].slots
    requires SlotsOk(t', d) && Parent(t', d) == Parent(t, d)
    ensures DirsOk(t')
    ensures forall x :: LinkedDir(t, x) ==> Parent(t', x) == Parent(t, x)
  {
    forall x | LinkedDir(t', x) ensures DirOk(t', x) {
      assert DirOk(t, x);
      assert Parent(t', x) == Parent(t, x);
    }
  }

  lemma LinkedSlots(t: Tree, d: int, name: string, i: int)
    requires DirsOk(t) && LinkedDir(t, d) && 0 < i < |t|
    requires UniqueNames(t[d].slots) && name !in View(t[d].slots)
    ensures var t' := Linked(t, d, name, i); SlotsOk(t', d) && Parent(t', d) == Parent(t, d)
  {
    var k, t' := FirstFree(t[d].slots, 0), Linked(t, d, name, i);
    DotsInUse(t, d);
    LinkView(t[d].slots, name, i);
    assert DirOk(t, d);
    hide View, UniqueNames, FirstFree;
    forall y | 0 <= y < |t'[d].slots| && Live(t'[d].slots[y]) ensures 0 < t'[d].slots[y].inum < |t| {
      PutSlots(t[d].slots, k, Dirent(i, name), y);
    }
  }

  lemma LinkedSame(t: Tree, d: int, name: string, i: int)
    requires DirsOk(t) && LinkedDir(t, d) && 0 < i < |t| && t[i].kind != Dir
    ensures var t' := Linked(t, d, name, i);
            SameTree(t, t') && (forall x :: 0 <= x < |t| && x != d ==> t'[x].slots == t[x].slots)
  {
    var k, t' := FirstFree(t[d].slots, 0), Linked(t, d, name, i);
    DotsInUse(t, d);
    hide View, UniqueNames, FirstFree, SlotsOk, DirsOk;
    forall x, y, c ensures DirEntry(t', x, y, c) <==> DirEntry(t, x, y, c) {
      PutSlots(t[d].slots, k, Dirent(i, name), y);
    }
  }

  /** A new name for a file keeps the invariant. */
  lemma LinkedInv(t: Tree, d: int, name: string, i: int)
    requires Inv(t) && LinkedDir(t, d) && 0 < i < |t| && t[i].kind != Dir && t[i].kind != Free
    requires UniqueNames(t[d].slots) && name !in View(t[d].slots)
    ensures Inv(Linked(t, d, name, i))
  {
    hide View, UniqueNames, FirstFree, LinksCounted, SlotsOk, TreeOk, Linked, Names, Entry, More, DirsOk, FreeOk;
    var k, t' := FirstFree(t[d].slots, 0), Linked(t, d, name, i);
    assert name != "." by { DotsInUse(t, d); }
    LinkedSlots(t, d, name, i);
    LinkedSame(t, d, name, i);
    LinkedMore(t, d, name, i);
    FreeKept(t, d, name, i);
    MoreCounted(t, t', i, d, k, -1, 0, 0);
    DirsKept(t, t', d);
    TreeKept(t, t');
  }

  lemma FreeKept(t: Tree, d: int, name: string, i: int)
    requires FreeOk(t) && 0 <= d < |t| && 0 <= i < |t| && t[i].kind != Free
    ensures FreeOk(Linked(t, d, name, i))
  {
  }

  /** The entry in slot k of d, which names i, is cleared. */
  function Unlinked(t: Tree, d: int, k: int, i: int): Tree
    requires 0 <= d < |t| && 0 <= k < |t[d].slots| && 0 <= i < |t|
  {
    AddLinks(WithSlots(t, d, t[d].slots[k := Dirent(0, "")]), i, -1)
  }

  lemma EntryNames(t: Tree, d: int, k: int, i: int)
    requires DirsOk(t) && Entry(t, d, k, i)
    ensures Names(t, d, k, i) && 0 < i < |t| && UniqueNames(t[d].slots)
  {
    assert DirOk(t, d);
  }

  lemma UnlinkedMore(t: Tree, d: int, k: int, i: int)
    requires DirsOk(t) && Entry(t, d, k, i) && 0 < i < |t| && t[i].kind != Dir
    ensures More(Unlinked(t, d, k, i), t, i, d, k, -1, 0, 0)
  {
    EntryNames(t, d, k, i);
    var t' := Unlinked(t, d, k, i);
    forall x ensures LinkedDir(t', x) <==> LinkedDir(t, x) {
    }
  }

  lemma UnlinkedSlots(t: Tree, d: int, k: int, i: int)
    requires DirsOk(t) && Entry(t, d, k, i) && 0 < i < |t|
    ensures var t' := Unlinked(t, d, k, i); SlotsOk(t', d) && Parent(t', d) == Parent(t, d)
  {
    assert DirOk(t, d);
  }

  lemma UnlinkedSame(t: Tree, d: int, k: int, i: int)
    requires DirsOk(t) && Entry(t, d, k, i) && 0 < i < |t| && t[i].kind != Dir
    ensures var t' := Unlinked(t, d, k, i);
            SameTree(t, t') && (forall x :: 0 <= x < |t| && x != d ==> t'[x].slots == t[x].slots)
  {
  }

  lemma UnlinkedFree(t: Tree, d: int, k: int, i: int)
    requires FreeOk(t) && 0 <= d < |t| && 0 <= k < |t[d].slots| && 0 <= i < |t| && t[i].nlink > 0
    ensures FreeOk(Unlinked(t, d, k, i))
  {
  }

  /** A name less for a file keeps the invariant. */
  lemma UnlinkedInv(t: Tree, d: int, k: int, i: int)
    requires Inv(t) && Entry(t, d, k, i) && 0 < i < |t| && t[i].kind != Dir
    ensures Inv(Unlinked(t, d, k, i))
  {
    hide UniqueNames, LinksCounted, SlotsOk, TreeOk, Names, More, DirsOk, FreeOk;
    var t' := Unlinked(t, d, k, i);
    EntryNames(t, d, k, i);
    NamedIsLinked(t, d, k, i);
    UnlinkedSlots(t, d, k, i);
    UnlinkedMore(t, d, k, i);
    UnlinkedSame(t, d, k, i);
    UnlinkedFree(t, d, k, i);
    hide Entry, Unlinked;
    MoreCounted(t', t, i, d, k, -1, 0, 0);
    DirsKept(t, t', d);
    TreeKept(t, t');
  }

  /** ialloc: a free inode gets a kind, and no links yet. */
  function Alloced(t: Tree, i: int, kind: Kind): Tree
    requires 0 <= i < |t|
  {
    t[i := Inode(kind, 0, [])]
  }

  lemma AllocedInv(t: Tree, i: int, kind: Kind)
    requires Inv(t) && 0 < i < |t| && t[i].kind.Free? && kind != Free
    ensures Inv(Alloced(t, i, kind)) && forall x :: LinkedDir(Alloced(t, i, kind), x) <==> LinkedDir(t, x)
  {
    hide LinksCounted, DirsOk, TreeOk;
    Unnoticed(t, i, Inode(kind, 0, []));
  }

  lemma UnnoticedDirs(t: Tree, i: int, n: Inode)
    requires DirsOk(t) && 0 < i < |t| && t[i].nlink == 0 && n.nlink == 0
    ensures DirsOk(t[i := n]) && forall x :: LinkedDir(t, x) ==> Parent(t[i := n], x) == Parent(t, x)
  {
    var t' := t[i := n];
    forall x | LinkedDir(t', x) ensures DirOk(t', x) {
      assert DirOk(t, x);
    }
  }

  lemma UnnoticedNames(t: Tree, i: int, n: Inode)
    requires 0 < i < |t| && t[i].nlink == 0 && n.nlink == 0
    ensures var t' := t[i := n];
            && (forall x :: LinkedDir(t', x) <==> LinkedDir(t, x))
            && (forall x, y, c :: Entry(t', x, y, c) <==> Entry(t, x, y, c))
            && (forall x, y, j :: Names(t', x, y, j) <==> Names(t, x, y, j))
  {
  }

  lemma UnnoticedCounted(t: Tree, i: int, n: Inode)
    requires LinksCounted(t) && 0 < i < |t| && t[i].nlink == 0 && n.nlink == 0
    ensures LinksCounted(t[i := n])
  {
    var t' := t[i := n];
    UnnoticedNames(t, i, n);
    hide Refs, Names;
    forall j | 0 <= j < |t| ensures t'[j].nlink == |Refs(t', j)| {
      RefsSame(t, t', j);
    }
  }

  lemma UnnoticedSame(t: Tree, i: int, n: Inode)
    requires 0 < i < |t| && t[i].nlink == 0 && n.nlink == 0 && forall x, y :: !Entry(t, x, y, i)
    ensures SameTree(t, t[i := n])
  {
    var t' := t[i := n];
    UnnoticedNames(t, i, n);
    hide Names, Entry, LinkedDir;
    forall x, y, c ensures DirEntry(t', x, y, c) <==> DirEntry(t, x, y, c) {
      assert Entry(t', x, y, c) <==> Entry(t, x, y, c);
      assert !Entry(t, x, y, i);
    }
  }

  /** Changing an inode that has no links and keeps none changes nothing else. */
  lemma Unnoticed(t: Tree, i: int, n: Inode)
    requires Inv(t) && 0 < i < |t| && t[i].nlink == 0 && n.nlink == 0
    ensures Inv(t[i := n]) && forall x :: LinkedDir(t[i := n], x) <==> LinkedDir(t, x)
  {
    hide LinksCounted, Names, Entry, DirsOk, LinkedDir, TreeOk;
    NotNamed(t, i);
    UnnoticedDirs(t, i, n);
    UnnoticedSame(t, i, n);
    UnnoticedCounted(t, i, n);
    TreeKept(t, t[i := n]);
  }

  /** An inode without links is an entry nowhere. */
  lemma NotNamed(t: Tree, i: int)
    requires DirsOk(t) && LinksCounted(t) && 0 <= i < |t| && t[i].nlink == 0
    ensures forall x, y :: !Entry(t, x, y, i) && !Names(t, x, y, i)
  {
    forall x, y ensures !Names(t, x, y, i) {
      if Names(t, x, y, i) {
        NamedIsLinked(t, x, y, i);
      }
    }
    forall x, y ensures !Entry(t, x, y, i) {
      if Entry(t, x, y, i) {
        EntryNames(t, x, y, i);
      }
    }
  }
}
