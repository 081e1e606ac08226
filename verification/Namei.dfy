/** What a path names: lookups in directories, resolution of components, and how both
    follow the changes of names. */
module Namei {
  import opened Dirs
  import opened NameTree
  import opened NameTreeDirs

  function LookupIn(t: Tree, d: int, name: string): (i: int)
    ensures i != 0 ==> IsDir(t, d)
  {
    if IsDir(t, d) && UniqueNames(t[d].slots) && name in View(t[d].slots) then View(t[d].slots)[name] else 0
  }

  /** Following names from inode i: 0 for none. */
  function Resolve(t: Tree, i: int, names: seq<string>): int
    decreases |names|
  {
    if names == [] then i
    else if !IsDir(t, i) || LookupIn(t, i, names[0]) == 0 then 0
    else Resolve(t, LookupIn(t, i, names[0]), names[1..])
  }

  function LastOf(names: seq<string>): string {
    if names == [] then "" else names[|names| - 1]
  }

  /** The directory that holds the last name: 0 for none. */
  function ParentOf(t: Tree, i: int, names: seq<string>): (p: int)
    ensures p != 0 ==> IsDir(t, p) && names != []
  {
    if names == [] then 0
    else
      var p := Resolve(t, i, names[..|names| - 1]);
      if IsDir(t, p) then p else 0
  }

  lemma {:induction false} ResolveMore(t: Tree, i: int, names: seq<string>, last: string)
    requires !IsDir(t, 0)
    ensures var p := Resolve(t, i, names);
            Resolve(t, i, names + [last]) == if p == 0 || !IsDir(t, p) then 0 else LookupIn(t, p, last)
    decreases |names|
  {
    if names == [] {
      assert (names + [last])[1..] == [];
    } else {
      assert (names + [last])[1..] == names[1..] + [last];
      if IsDir(t, i) && LookupIn(t, i, names[0]) != 0 {
        ResolveMore(t, LookupIn(t, i, names[0]), names[1..], last);
      }
    }
  }

  /** On a fixed tree, namei of a path is the lookup of its last name in nameiparent's
      directory. */
  lemma NameiIsLookupInParent(t: Tree, i: int, names: seq<string>)
    requires names != [] && !IsDir(t, 0)
    ensures var p := ParentOf(t, i, names);
            Resolve(t, i, names) == if p == 0 then 0 else LookupIn(t, p, LastOf(names))
  {
    var n := |names| - 1;
    assert names == names[..n] + [names[n]];
    ResolveMore(t, i, names[..n], names[n]);
  }

  // ----- changes of names -----

  /** What t finds, t' finds too. */
  ghost predicate Extends(t: Tree, t': Tree) {
    forall x, n :: LookupIn(t, x, n) != 0 ==> LookupIn(t', x, n) == LookupIn(t, x, n)
  }

  /** A path that names something still names it when names are added. */
  lemma {:induction false} ResolveGrows(t: Tree, t': Tree, i: int, names: seq<string>)
    requires Extends(t, t') && Resolve(t, i, names) != 0
    ensures Resolve(t', i, names) == Resolve(t, i, names)
    decreases |names|
  {
    if names != [] {
      var next := LookupIn(t, i, names[0]);
      assert LookupIn(t', i, names[0]) == next;
      ResolveGrows(t, t', next, names[1..]);
    }
  }

  /** Lookups are the same but for the name in d, which gives i. */
  ghost predicate OneName(t: Tree, t': Tree, d: int, name: string, i: int) {
    && LookupIn(t', d, name) == i
    && forall x, n :: !(x == d && n == name) ==> LookupIn(t', x, n) == LookupIn(t, x, n)
  }

  /** A name that was absent now names i: so does every path whose last name it is. */
  lemma NewNameResolves(t: Tree, t': Tree, start: int, names: seq<string>, i: int)
    requires names != [] && ParentOf(t, start, names) != 0 && i != 0
    requires Extends(t, t') && !IsDir(t', 0) && LookupIn(t', ParentOf(t, start, names), LastOf(names)) == i
    ensures Resolve(t', start, names) == i
  {
    hide Resolve, LookupIn, Extends, IsDir;
    var n, p := |names| - 1, ParentOf(t, start, names);
    assert Resolve(t, start, names[..n]) == p;
    ResolveGrows(t, t', start, names[..n]);
    assert names == names[..n] + [names[n]];
    ResolveMore(t', start, names[..n], names[n]);
  }

  /** A name that was there is gone: so is what every path whose last name it is named. */
  lemma GoneNameFails(t: Tree, t': Tree, start: int, names: seq<string>)
    requires names != [] && ParentOf(t, start, names) != 0
    requires Extends(t', t) && !IsDir(t', 0) && LookupIn(t', ParentOf(t, start, names), LastOf(names)) == 0
    ensures Resolve(t', start, names) == 0
  {
    hide Resolve, LookupIn, Extends, IsDir;
    var n, p := |names| - 1, ParentOf(t, start, names);
    assert names == names[..n] + [names[n]];
    ResolveMore(t', start, names[..n], names[n]);
    if Resolve(t', start, names[..n]) != 0 {
      ResolveGrows(t', t, start, names[..n]);
    }
  }

  lemma LinkedNames(t: Tree, d: int, name: string, i: int)
    requires IsDir(t, d) && UniqueNames(t[d].slots) && name !in View(t[d].slots) && 0 < i < |t| && i != d
    ensures OneName(t, Linked(t, d, name, i), d, name, i) && Extends(t, Linked(t, d, name, i))
  {
    hide View, FirstFree, Put;
    LinkView(t[d].slots, name, i);
    var t' := Linked(t, d, name, i);
    forall x, n ensures LookupIn(t', x, n) == if x == d && n == name then i else LookupIn(t, x, n) {
      assert 0 <= x < |t| && x != d ==> t'[x].slots == t[x].slots && t'[x].kind == t[x].kind;
    }
  }

  lemma AllocedNames(t: Tree, c: int, kind: Kind, x: int, n: string)
    requires 0 <= c < |t| && t[c].kind.Free?
    ensures LookupIn(Alloced(t, c, kind), x, n) == LookupIn(t, x, n)
  {
  }

  /** A new directory: its name in d, its dots, and no other lookup changes. */
  lemma MadeNames(t: Tree, d: int, name: string, c: int, x: int, n: string)
    requires IsDir(t, d) && UniqueNames(t[d].slots) && name !in View(t[d].slots)
    requires 0 < d && 0 < c < |t| && c != d && t[c] == Inode(Dir, 0, [])
    ensures LookupIn(Made(t, d, name, c), x, n) ==
            if x == d && n == name then c
            else if x == c then if n == "." then c else if n == ".." then d else 0
            else LookupIn(t, x, n)
    ensures LookupIn(t, c, n) == 0
  {
    hide View, FirstFree, Put, UniqueNames;
    LinkView(t[d].slots, name, c);
    DotsView(c, d);
    EmptyView();
    var t' := Made(t, d, name, c);
    assert t'[c].slots == [Dirent(c, "."), Dirent(d, "..")];
  }

  lemma EmptyView()
    ensures UniqueNames([]) && View([]) == map[]
  {
  }

  lemma DotsView(c: int, d: int)
    requires 0 < c && 0 < d
    ensures UniqueNames([Dirent(c, "."), Dirent(d, "..")])
    ensures View([Dirent(c, "."), Dirent(d, "..")]) == map["." := c, ".." := d]
  {
    var s := [Dirent(c, "."), Dirent(d, "..")];
    assert At(s, ".", 0) && At(s, "..", 1);
    SameView(s, map["." := c, ".." := d]);
  }

  lemma UnlinkedNames(t: Tree, t': Tree, d: int, k: int)
    requires IsDir(t, d) && UniqueNames(t[d].slots) && 0 <= k < |t[d].slots| && Live(t[d].slots[k])
    requires |t'| == |t| && t'[d].slots == t[d].slots[k := Dirent(0, "")]
    requires forall x :: 0 <= x < |t| ==> t'[x].kind == t[x].kind && (x != d ==> t'[x].slots == t[x].slots)
    ensures OneName(t, t', d, t[d].slots[k].name, 0) && Extends(t', t)
  {
    hide View;
    UnlinkView(t[d].slots, k);
  }

  /** create's new inode, for a file or a directory. */
  lemma CreatedNames(t: Tree, t': Tree, d: int, name: string, kind: Kind, c: int)
    requires IsDir(t, d) && 0 < d && UniqueNames(t[d].slots) && name !in View(t[d].slots) && kind != Free
    requires 0 < c < |t| && t[c].kind.Free?
    requires t' == if kind == Dir then Made(Alloced(t, c, kind), d, name, c) else Linked(Alloced(t, c, kind), d, name, c)
    ensures |t'| == |t| && Extends(t, t') && LookupIn(t', d, name) == c && t'[c].kind == kind
    ensures forall x, n :: x != c && !(x == d && n == name) ==> LookupIn(t', x, n) == LookupIn(t, x, n)
  {
    hide View, LookupIn, UniqueNames, FirstFree, Put;
    var a := Alloced(t, c, kind);
    if kind == Dir {
      forall x, n ensures LookupIn(t', x, n) == (if x == d && n == name then c
                                                 else if x == c then if n == "." then c else if n == ".." then d else 0
                                                 else LookupIn(t, x, n)) && LookupIn(t, c, n) == 0 {
        AllocedNames(t, c, kind, x, n);
        AllocedNames(t, c, kind, c, n);
        MadeNames(a, d, name, c, x, n);
      }
      MadeNames(a, d, name, c, d, name);
    } else {
      LinkedNames(a, d, name, c);
      forall x, n ensures LookupIn(a, x, n) == LookupIn(t, x, n) {
        AllocedNames(t, c, kind, x, n);
      }
    }
    AbsentName(t, d, name);
  }

  lemma AbsentName(t: Tree, d: int, name: string)
    requires IsDir(t, d) && UniqueNames(t[d].slots) && name !in View(t[d].slots)
    ensures LookupIn(t, d, name) == 0
  {
  }
}
