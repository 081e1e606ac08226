/** Directories: a file of entries that behaves as a finite map from names to inode
    numbers. */
module Dirs {
  import opened Paths

  /** inum 0 marks a free entry. */
  datatype Dirent = Dirent(inum: int, name: string)

  predicate Live(e: Dirent) {
    e.inum != 0
  }

  predicate UniqueNames(slots: seq<Dirent>) {
    forall j, k :: 0 <= j < k < |slots| && Live(slots[j]) && Live(slots[k]) ==> slots[j].name != slots[k].name
  }

  /** The directory as a map. */
  function View(slots: seq<Dirent>): map<string, int>
    requires UniqueNames(slots)
  {
    map k | 0 <= k < |slots| && Live(slots[k]) :: slots[k].name := slots[k].inum
  }

  predicate At(slots: seq<Dirent>, name: string, k: int) {
    0 <= k < |slots| && Live(slots[k]) && slots[k].name == name
  }

  lemma ViewAt(slots: seq<Dirent>, name: string, k: int)
    requires UniqueNames(slots) && At(slots, name, k)
    ensures name in View(slots) && View(slots)[name] == slots[k].inum
    ensures forall j :: At(slots, name, j) ==> j == k
  {
  }

  lemma ViewHas(slots: seq<Dirent>, name: string) returns (k: int)
    requires UniqueNames(slots) && name in View(slots)
    ensures At(slots, name, k) && View(slots)[name] == slots[k].inum
  {
    k :| 0 <= k < |slots| && Live(slots[k]) && slots[k].name == name;
    ViewAt(slots, name, k);
  }

  /** dirlookup's loop: the entry of the name, or the end. */
  method Scan(slots: seq<Dirent>, name: string) returns (k: nat)
    requires UniqueNames(slots)
    ensures k <= |slots|
    ensures k < |slots| <==> name in View(slots)
    ensures k < |slots| ==> At(slots, name, k) && slots[k].inum == View(slots)[name]
  {
    k := 0;
    while k < |slots|
      invariant k <= |slots| && forall j :: 0 <= j < k ==> !At(slots, name, j)
    {
      if slots[k].inum != 0 {
        if slots[k].name == name {
          ViewAt(slots, name, k);
          return;
        }
      }
      k := k + 1;
    }
    if name in View(slots) {
      ghost var j := ViewHas(slots, name);
    }
  }

  /** The first free entry, or the end. */
  function FirstFree(slots: seq<Dirent>, k: nat): (r: nat)
    requires k <= |slots|
    ensures k <= r <= |slots| && (r < |slots| ==> !Live(slots[r]))
    ensures forall j :: k <= j < r ==> Live(slots[j])
    decreases |slots| - k
  {
    if k < |slots| && Live(slots[k]) then FirstFree(slots, k + 1) else k
  }

  method ScanFree(slots: seq<Dirent>) returns (k: nat)
    ensures k == FirstFree(slots, 0)
  {
    k := 0;
    while k < |slots|
      invariant k <= |slots| && FirstFree(slots, 0) == FirstFree(slots, k)
    {
      if slots[k].inum == 0 {
        break;
      }
      k := k + 1;
    }
  }

  /** dirlink's write: over the free entry, or one entry past the end. */
  function Put(slots: seq<Dirent>, k: nat, e: Dirent): seq<Dirent>
    requires k <= |slots|
  {
    if k == |slots| then slots + [e] else slots[k := e]
  }

  /** Linking a new name adds it to the map and touches no other entry. */
  lemma LinkView(slots: seq<Dirent>, name: string, inum: int)
    requires UniqueNames(slots) && name !in View(slots) && inum != 0
    ensures var k := FirstFree(slots, 0);
            var slots' := Put(slots, k, Dirent(inum, name));
            && UniqueNames(slots') && View(slots') == View(slots)[name := inum]
  {
    hide View;
    var k := FirstFree(slots, 0);
    var slots', m := Put(slots, k, Dirent(inum, name)), View(slots)[name := inum];
    forall j | 0 <= j < |slots| && Live(slots[j])
      ensures slots[j].name != name && slots'[j] == slots[j] && slots[j].name in m && m[slots[j].name] == slots[j].inum
    {
      ViewAt(slots, slots[j].name, j);
    }
    forall s | s in m ensures exists j :: At(slots', s, j) {
      if s == name {
        assert At(slots', s, k);
      } else {
        var j := ViewHas(slots, s);
        assert At(slots', s, j);
      }
    }
    SameView(slots', m);
  }

  /** Clearing the entry of a name takes it out of the map. */
  lemma UnlinkView(slots: seq<Dirent>, k: nat)
    requires UniqueNames(slots) && k < |slots| && Live(slots[k])
    ensures var slots' := slots[k := Dirent(0, "")];
            UniqueNames(slots') && View(slots') == View(slots) - {slots[k].name}
  {
    hide View;
    var slots', m := slots[k := Dirent(0, "")], View(slots) - {slots[k].name};
    forall j | 0 <= j < |slots| && Live(slots[j]) ensures slots[j].name in View(slots) && View(slots)[slots[j].name] == slots[j].inum {
      ViewAt(slots, slots[j].name, j);
    }
    forall s | s in m ensures exists j :: At(slots', s, j) {
      var j := ViewHas(slots, s);
      assert At(slots', s, j);
    }
    SameView(slots', m);
  }

  lemma SameView(slots: seq<Dirent>, m: map<string, int>)
    requires UniqueNames(slots)
    requires forall j :: 0 <= j < |slots| && Live(slots[j]) ==> slots[j].name in m && m[slots[j].name] == slots[j].inum
    requires forall s :: s in m ==> exists j :: At(slots, s, j)
    ensures View(slots) == m
  {
    forall s | s in m ensures s in View(slots) && View(slots)[s] == m[s] {
      var j :| At(slots, s, j);
      ViewAt(slots, s, j);
    }
  }
}
