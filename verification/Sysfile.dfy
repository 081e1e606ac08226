/** namex, and the system calls that change names: link, unlink, open with O_CREATE,
    mkdir and mknod. */
module Sysfile {
  import opened Paths
  import opened Dirs
  import opened NameTree
  import opened NameTreeDirs
  import opened Namei
  import FsLayout
  import FsState
  import FsUpdate
  import FsInode

  /** Panic is the kernel stopping: the transaction it was in is never committed. */
  datatype Outcome = Done | Refused | Panic

  /** Entries in a directory of the largest size. */
  const MAXENTRIES: nat := FsLayout.MAXFILE * FsLayout.BSIZE / 16

  /** writei has room for one more entry. */
  predicate HasRoom(slots: seq<Dirent>) {
    FirstFree(slots, 0) < MAXENTRIES
  }

  predicate HasFree(t: Tree) {
    exists i :: 0 < i < |t| && t[i].kind.Free?
  }

  /** Names in linked directories name inodes, and no unlinked directory. */
  ghost predicate Closed(t: Tree) {
    && DirsOk(t) && |t| > 0 && !IsDir(t, 0)
    && forall d, name :: LinkedDir(t, d) ==> OkTarget(t, LookupIn(t, d, name))
  }

  predicate OkTarget(t: Tree, i: int) {
    0 <= i < |t| && (i != 0 ==> !t[i].kind.Free?) && (IsDir(t, i) ==> LinkedDir(t, i))
  }

  /** One element of a path. */
  lemma OneElement(t: Tree, i: int, names: seq<string>)
    requires names != [] && !IsDir(t, 0)
    ensures !IsDir(t, i) ==> Resolve(t, i, names) == 0 && ParentOf(t, i, names) == 0
    ensures IsDir(t, i) && |names| == 1 ==> ParentOf(t, i, names) == i
    ensures var next := LookupIn(t, i, names[0]);
            IsDir(t, i) ==>
              && (next == 0 ==> Resolve(t, i, names) == 0 && (|names| > 1 ==> ParentOf(t, i, names) == 0))
              && (next != 0 ==> Resolve(t, i, names) == Resolve(t, next, names[1..]))
              && (next != 0 && |names| > 1 ==> ParentOf(t, i, names) == ParentOf(t, next, names[1..]))
  {
    hide LookupIn, IsDir;
    var n := |names| - 1;
    if n > 0 {
      assert names[..n][0] == names[0] && names[..n][1..] == names[1..][..n - 1];
    }
  }

  /** Where a path starts. */
  function StartOf(path: string, cwd: int): int {
    if path != "" && path[0] == '/' then ROOT else cwd
  }

  class FileTree {
    var t: Tree

    /** dirlookup. */
    method DirLookup(d: int, name: string) returns (inum: int, k: nat)
      requires IsDir(t, d) && UniqueNames(t[d].slots)
      requires forall j :: 0 <= j < |t[d].slots| && Live(t[d].slots[j]) ==> t[d].slots[j].inum > 0
      ensures inum == LookupIn(t, d, name)
      ensures inum != 0 <==> name in View(t[d].slots)
      ensures inum != 0 ==> At(t[d].slots, name, k) && t[d].slots[k].inum == inum
    {
      k := Scan(t[d].slots, name);
      inum := if k < |t[d].slots| then t[d].slots[k].inum else 0;
    }

    /** namex: namei, or nameiparent with the last element. */
    method Namex(path: string, cwd: int, parent: bool) returns (ip: int, name: string)
      requires Closed(t) && LinkedDir(t, cwd) && LinkedDir(t, ROOT)
      ensures !parent ==> ip == Resolve(t, StartOf(path, cwd), Components(path))
      ensures parent ==> ip == ParentOf(t, StartOf(path, cwd), Components(path))
      ensures parent && ip != 0 ==> Components(path) != [] && name == LastOf(Components(path))
      ensures path != "" && path[0] == '/' ==>
                ip == if parent then ParentOf(t, ROOT, Components(path)) else Resolve(t, ROOT, Components(path))
      ensures path == "" || path[0] != '/' ==>
                ip == if parent then ParentOf(t, cwd, Components(path)) else Resolve(t, cwd, Components(path))
      ensures OkTarget(t, ip)
    {
      hide Components, Resolve, ParentOf, LookupIn;
      ghost var start, all := StartOf(path, cwd), Components(path);
      ip := if path != "" && path[0] == '/' then ROOT else cwd;
      name := "";
      var p := 0;
      assert path[0..] == path;
      var found: bool, elem: string, q: nat;
      found, elem, q := SkipElem(path, p);
      while found
        invariant p <= q <= |path| && OkTarget(t, ip) && ip != 0
        invariant found <==> Components(path[p..]) != []
        invariant found ==> q > p && Components(path[p..]) == [elem] + Components(path[q..])
        invariant found ==> (q == |path| <==> Components(path[q..]) == [])
        invariant Resolve(t, start, all) == Resolve(t, ip, Components(path[p..]))
        invariant parent ==> ParentOf(t, start, all) == ParentOf(t, ip, Components(path[p..]))
        invariant IsSuffix(Components(path[p..]), all)
        decreases |path| - p
      {
        hide Closed;
        name := elem;
        ghost var names := Components(path[p..]);
        OneElement(t, ip, names);
        SuffixLast(names, all);
        if t[ip].kind != Dir {
          return 0, name;
        }
        if parent && q == |path| {
          return;
        }
        TargetOk(t, ip, name);
        var next, _ := DirLookup(ip, name);
        if next == 0 {
          return 0, name;
        }
        assert names[1..] == Components(path[q..]);
        ip, p := next, q;
        found, elem, q := SkipElem(path, p);
      }
      NoElement(t, ip);
      if parent {
        return 0, name;
      }
    }

    /** dirlink: the name is added to the map, unless it is there; a directory that
        cannot grow makes it panic. */
    method DirLink(d: int, name: string, inum: int) returns (r: Outcome)
      requires IsDir(t, d) && UniqueNames(t[d].slots) && inum != 0
      requires forall j :: 0 <= j < |t[d].slots| && Live(t[d].slots[j]) ==> t[d].slots[j].inum > 0
      modifies this
      ensures r == Refused <==> name in View(old(t)[d].slots)
      ensures r == Panic <==> name !in View(old(t)[d].slots) && !HasRoom(old(t)[d].slots)
      ensures r != Done ==> t == old(t)
      ensures r == Done ==> t == WithSlots(old(t), d, Put(old(t)[d].slots, FirstFree(old(t)[d].slots, 0), Dirent(inum, name)))
      ensures r == Done ==> UniqueNames(t[d].slots) && View(t[d].slots) == View(old(t)[d].slots)[name := inum]
    {
      var there, _ := DirLookup(d, name);
      if there != 0 {
        return Refused;
      }
      LinkView(t[d].slots, name, inum);
      var k := ScanFree(t[d].slots);
      if k >= MAXENTRIES {
        return Panic;
      }
      t := WithSlots(t, d, Put(t[d].slots, k, Dirent(inum, name)));
      r := Done;
    }

    /** isdirempty. */
    method IsDirEmpty(d: int) returns (empty: bool)
      requires IsDir(t, d)
      ensures empty <==> OnlyDots(t[d].slots)
    {
      var k := 2;
      while k < |t[d].slots|
        invariant 2 <= k && forall y :: 2 <= y < k && y < |t[d].slots| ==> !Live(t[d].slots[y])
      {
        if t[d].slots[k].inum != 0 {
          return false;
        }
        k := k + 1;
      }
      empty := true;
    }

    /** sys_link: when it is refused, also after the count went up, nothing has
        changed. */
    method SysLink(oldPath: string, newPath: string, cwd: int) returns (r: Outcome)
      requires Inv(t) && LinkedDir(t, cwd)
      modifies this
      ensures r != Panic ==> Inv(t)
      ensures r == Refused ==> t == old(t)
      ensures var t0, names := old(t), Components(newPath);
              var ip, dp := Resolve(t0, StartOf(oldPath, cwd), Components(oldPath)), ParentOf(t0, StartOf(newPath, cwd), names);
              if ip != 0 && !IsDir(t0, ip) && dp != 0 && LookupIn(t0, dp, LastOf(names)) == 0 then
                if HasRoom(t0[dp].slots)
                then r == Done && names != [] && 0 <= ip < |t0| && t == Linked(t0, dp, LastOf(names), ip)
                else r == Panic && 0 <= ip < |t0| && t == AddLinks(t0, ip, 1)
              else r == Refused
      ensures r == Done ==>
                var t0, names := old(t), Components(newPath);
                var ip := Resolve(t0, StartOf(oldPath, cwd), Components(oldPath));
                && OneName(t0, t, ParentOf(t0, StartOf(newPath, cwd), names), LastOf(names), ip)
                && Resolve(t, StartOf(newPath, cwd), names) == ip && Resolve(t, StartOf(oldPath, cwd), Components(oldPath)) == ip
    {
      hide Components, Resolve, ParentOf, LinksCounted, TreeOk, Linked, FirstFree;
      InvClosed(t);
      ghost var t0 := t;
      var ip, _ := Namex(oldPath, cwd, false);
      if ip == 0 {
        return Refused;
      }
      if t[ip].kind == Dir {
        return Refused;
      }
      t := AddLinks(t, ip, 1);
      CountOnly(t0, t, ip);
      SameResolve(t0, t, StartOf(newPath, cwd), Components(newPath));
      var dp, name := Namex(newPath, cwd, true);
      if dp == 0 {
        t := AddLinks(t, ip, -1);
        return Refused;
      }
      TargetOk(t, dp, name);
      r := DirLink(dp, name, ip);
      if r == Refused {
        t := AddLinks(t, ip, -1);
      } else if r == Done {
        LinkedEither(t0, dp, name, ip);
        LinkedInv(t0, dp, name, ip);
        LinkedNames(t0, dp, name, ip);
        NewNameResolves(t0, t, StartOf(newPath, cwd), Components(newPath), ip);
        ResolveGrows(t0, t, StartOf(oldPath, cwd), Components(oldPath));
      }
    }

    /** sys_unlink: the entry goes; an empty directory takes its parent's link with it. */
    method SysUnlink(path: string, cwd: int) returns (ok: bool)
      requires Inv(t) && LinkedDir(t, cwd)
      modifies this
      ensures Inv(t)
      ensures !ok ==> t == old(t)
      ensures var t0, names := old(t), Components(path);
              var dp := ParentOf(t0, StartOf(path, cwd), names);
              && (ok <==> dp != 0 && MayUnlink(t0, dp, LastOf(names)))
              && (ok ==> exists k :: Erased(t0, t, dp, k, LastOf(names)))
      ensures ok ==>
                var t0, names := old(t), Components(path);
                && OneName(t0, t, ParentOf(t0, StartOf(path, cwd), names), LastOf(names), 0)
                && Resolve(t, StartOf(path, cwd), names) == 0
    {
      hide Components, Resolve, ParentOf, LinksCounted, TreeOk, Unlinked, Removed;
      InvClosed(t);
      ghost var t0 := t;
      var dp, name := Namex(path, cwd, true);
      if dp == 0 {
        return false;
      }
      if name == "." || name == ".." {
        return false;
      }
      TargetOk(t, dp, name);
      var ip, k := DirLookup(dp, name);
      if ip == 0 {
        return false;
      }
      if t[ip].kind == Dir {
        var empty := IsDirEmpty(ip);
        if !empty {
          return false;
        }
      }
      NotADot(t0, dp, k);
      assert t[ip].nlink >= 1 by { EntryNames(t0, dp, k, ip); NamedIsLinked(t0, dp, k, ip); }
      t := WithSlots(t, dp, t[dp].slots[k := Dirent(0, "")]);
      if t[ip].kind == Dir {
        t := AddLinks(t, dp, -1);
      }
      t := AddLinks(t, ip, -1);
      ErasedSo(t0, t, dp, k, name, ip);
      UnlinkedNames(t0, t, dp, k);
      GoneNameFails(t0, t, StartOf(path, cwd), Components(path));
      ok := true;
    }

    /** iput, with `refs` references in memory to the inode: the last one to an inode
        without links frees its blocks and then the inode. */
    method Iput(i: int, refs: nat, fs: FsInode.FileSystem) returns (left: nat)
      requires Inv(t) && 0 < i < |t| == |fs.inodes| && fs.Valid() && 0 < refs
      modifies this, fs`blocks, fs`inodes, fs`owner, fs`logged, fs`updated
      ensures Inv(t) && fs.Valid() && left == refs - 1 && |t| == |fs.inodes|
      ensures if refs == 1 && old(t)[i].nlink == 0
              then t == old(t)[i := Inode(Free, 0, [])] && FsInode.Others(old(fs.State()), fs.State(), i)
              else t == old(t) && fs.State() == old(fs.State()) && fs.owner == old(fs.owner)
      ensures refs == 1 && old(t)[i].nlink == 0 ==>
                && fs.inodes[i].size == 0 && fs.inodes[i].addrs == seq(FsLayout.NDIRECT + 1, _ => 0)
                && fs.owner == FsUpdate.Without(old(fs.owner), i, 0, FsState.NSLOTS)
    {
      hide FsUpdate.Without, FsInode.Others, FsState.Owned;
      if t[i].nlink == 0 && refs == 1 {
        fs.Itrunc(i);
        Unnoticed(t, i, Inode(Free, 0, []));
        t := t[i := Inode(Free, 0, [])];
      }
      left := refs - 1;
    }

    /** ialloc: the first free inode, or 0 where it panics. */
    method Ialloc(kind: Kind) returns (i: int)
      modifies this
      ensures i == 0 <==> !HasFree(old(t))
      ensures i == 0 ==> t == old(t)
      ensures i != 0 ==> 0 < i < |old(t)| && old(t)[i].kind.Free? && t == Alloced(old(t), i, kind)
      ensures forall j :: 0 < j < i ==> !old(t)[j].kind.Free?
    {
      i := 1;
      while i < |t|
        invariant 0 < i && (i <= |t| || i == 1) && forall j :: 0 < j < i ==> !t[j].kind.Free?
        invariant t == old(t)
      {
        if t[i].kind == Free {
          t := Alloced(t, i, kind);
          return;
        }
        i := i + 1;
      }
      i := 0;
    }

    /** create: an existing file, or a new inode with its name, and for a directory its
        dots and its parent's link. */
    method Create(path: string, kind: Kind, cwd: int) returns (r: Outcome, ip: int)
      requires Inv(t) && LinkedDir(t, cwd) && kind != Free
      modifies this
      ensures r != Panic ==> Inv(t)
      ensures var t0, names := old(t), Components(path);
              var dp := ParentOf(t0, StartOf(path, cwd), names);
              if dp == 0 then r == Refused && t == t0
              else
                var there := LookupIn(t0, dp, LastOf(names));
                if there != 0 then
                  t == t0 && if kind == File && 0 <= there < |t0| && t0[there].kind == File then r == Done && ip == there else r == Refused
                else if HasFree(t0) && HasRoom(t0[dp].slots) then
                  r == Done && 0 < ip < |t0| && t0[ip].kind.Free? && t == Created(t0, dp, LastOf(names), kind, ip)
                else r == Panic
      ensures r == Done ==>
                && 0 <= ip < |t| && t[ip].kind == kind && Resolve(t, StartOf(path, cwd), Components(path)) == ip
                && Extends(old(t), t)
    {
      hide Components, Resolve, ParentOf, LinksCounted, TreeOk, FirstFree, Linked, Made, View;
      ip := 0;
      InvClosed(t);
      ghost var t0 := t;
      var dp, name := Namex(path, cwd, true);
      if dp == 0 {
        return Refused, 0;
      }
      TargetOk(t, dp, name);
      var there, _ := DirLookup(dp, name);
      if there != 0 {
        NameiIsLookupInParent(t, StartOf(path, cwd), Components(path));
        if kind == File && t[there].kind == File {
          return Done, there;
        }
        return Refused, 0;
      }
      ip := Ialloc(kind);
      if ip == 0 {
        return Panic, 0;
      }
      AllocedInv(t0, ip, kind);
      r := Enter(dp, name, kind, ip);
      if r == Done {
        CreatedNames(t0, t, dp, name, kind, ip);
        NewNameResolves(t0, t, StartOf(path, cwd), Components(path), ip);
      }
    }

    /** The dots of a new directory; no panic is possible. */
    method Dots(ip: int, dp: int)
      requires 0 < ip < |t| && 0 < dp && t[ip].kind == Dir && t[ip].slots == []
      modifies this
      ensures t == WithSlots(WithSlots(old(t), ip, [Dirent(ip, ".")]), ip, Put([Dirent(ip, ".")], 1, Dirent(dp, "..")))
    {
      hide FirstFree, View, UniqueNames, Put;
      DotsFresh(ip);
      var _ := DirLink(ip, ".", ip);
      var _ := DirLink(ip, "..", dp);
    }

    /** The rest of create: links, dots, and the new name. */
    method Enter(dp: int, name: string, kind: Kind, ip: int) returns (r: Outcome)
      requires Inv(t) && LinkedDir(t, dp) && 0 < dp && 0 < ip < |t| && ip != dp && kind != Free && t[ip] == Inode(kind, 0, [])
      requires UniqueNames(t[dp].slots) && name !in View(t[dp].slots)
      requires forall j :: 0 <= j < |t[dp].slots| && Live(t[dp].slots[j]) ==> t[dp].slots[j].inum > 0
      modifies this
      ensures r == if HasRoom(old(t)[dp].slots) then Done else Panic
      ensures r == Done ==> Inv(t) && t == if kind == Dir then Made(old(t), dp, name, ip) else Linked(old(t), dp, name, ip)
    {
      hide LinksCounted, TreeOk, DirsOk, FreeOk, FirstFree, Linked, Made, View, UniqueNames;
      ghost var t1 := t;
      t := AddLinks(t, ip, 1);
      if kind == Dir {
        t := AddLinks(t, dp, 1);
        ghost var t2 := t;
        Dots(ip, dp);
        ghost var t4 := t;
        r := DirLink(dp, name, ip);
        if r == Done {
          MadeSo(t1, WithSlots(t2, ip, [Dirent(ip, ".")]), t4, t, dp, name, ip);
        }
      } else {
        r := DirLink(dp, name, ip);
        if r == Done {
          LinkedEither(t1, dp, name, ip);
          LinkedInv(t1, dp, name, ip);
        }
      }
    }
  }

  ghost function Created(t: Tree, d: int, name: string, kind: Kind, c: int): Tree
    requires 0 <= d < |t| && 0 <= c < |t|
  {
    if kind == Dir then Made(Alloced(t, c, kind), d, name, c) else Linked(Alloced(t, c, kind), d, name, c)
  }

  /** What unlink asks of the name. */
  ghost predicate MayUnlink(t: Tree, d: int, name: string) {
    && name != "." && name != ".." && LookupIn(t, d, name) != 0
    && (IsDir(t, LookupIn(t, d, name)) ==> OnlyDots(t[LookupIn(t, d, name)].slots))
  }

  /** The entry of the name, in slot k, is gone. */
  ghost predicate Erased(t: Tree, t': Tree, d: int, k: int, name: string) {
    && IsDir(t, d) && At(t[d].slots, name, k) && 0 <= t[d].slots[k].inum < |t|
    && var i := t[d].slots[k].inum;
    t' == if IsDir(t, i) then Removed(t, d, k, i) else Unlinked(t, d, k, i)
  }

  lemma NotADot(t: Tree, d: int, k: int)
    requires DirsOk(t) && LinkedDir(t, d) && 0 <= k < |t[d].slots| && Live(t[d].slots[k])
    requires t[d].slots[k].name != "." && t[d].slots[k].name != ".."
    ensures Entry(t, d, k, t[d].slots[k].inum) && 0 < t[d].slots[k].inum < |t|
  {
    assert DirOk(t, d);
  }

  lemma ErasedSo(t: Tree, t': Tree, d: int, k: int, name: string, i: int)
    requires Inv(t) && Entry(t, d, k, i) && 0 < i < |t| && (IsDir(t, i) ==> OnlyDots(t[i].slots)) && t[d].slots[k].name == name
    requires var t1 := WithSlots(t, d, t[d].slots[k := Dirent(0, "")]);
             t' == AddLinks(if IsDir(t, i) then AddLinks(t1, d, -1) else t1, i, -1)
    ensures Inv(t') && Erased(t, t', d, k, name)
  {
    hide LinksCounted, TreeOk, DirsOk;
    if IsDir(t, i) {
      RemovedInv(t, d, k, i);
      EmptyHasOneLink(t, d, k, i);
      assert t' == Removed(t, d, k, i);
    } else {
      UnlinkedInv(t, d, k, i);
    }
  }

  lemma DotsFresh(c: int)
    requires c > 0
    ensures UniqueNames([]) && "." !in View([]) && FirstFree([], 0) == 0 && Put([], 0, Dirent(c, ".")) == [Dirent(c, ".")]
    ensures ".." !in View([Dirent(c, ".")])
    ensures FirstFree([Dirent(c, ".")], 0) == 1
  {
  }

  /** The steps of create add up to a directory made. */
  lemma MadeSteps(t: Tree, t3: Tree, t4: Tree, t5: Tree, d: int, name: string, c: int)
    requires 0 <= d < |t| && 0 < c < |t| && c != d && t[c] == Inode(Dir, 0, [])
    requires t3 == WithSlots(AddLinks(AddLinks(t, c, 1), d, 1), c, [Dirent(c, ".")])
    requires t4 == WithSlots(t3, c, Put([Dirent(c, ".")], 1, Dirent(d, "..")))
    requires t5 == WithSlots(t4, d, Put(t[d].slots, FirstFree(t[d].slots, 0), Dirent(c, name)))
    ensures t5 == Made(t, d, name, c)
  {
    hide FirstFree;
    assert t4[c] == Inode(Dir, 1, [Dirent(c, "."), Dirent(d, "..")]);
    assert t4[d].slots == t[d].slots;
    var m := Made(t, d, name, c);
    assert m[d] == t5[d] && m[c] == t5[c];
    assert forall x :: 0 <= x < |t| && x != c && x != d ==> t5[x] == t[x] == m[x];
    assert |m| == |t5|;
  }

  lemma MadeSo(t: Tree, t3: Tree, t4: Tree, t5: Tree, d: int, name: string, c: int)
    requires Inv(t) && LinkedDir(t, d) && 0 < c < |t| && c != d && t[c] == Inode(Dir, 0, [])
    requires UniqueNames(t[d].slots) && name !in View(t[d].slots)
    requires t3 == WithSlots(AddLinks(AddLinks(t, c, 1), d, 1), c, [Dirent(c, ".")])
    requires t4 == WithSlots(t3, c, Put([Dirent(c, ".")], 1, Dirent(d, "..")))
    requires t5 == WithSlots(t4, d, Put(t[d].slots, FirstFree(t[d].slots, 0), Dirent(c, name)))
    ensures t5 == Made(t, d, name, c) && Inv(t5)
  {
    assert d != 0;
    hide *;
    MadeSteps(t, t3, t4, t5, d, name, c);
    MadeInv(t, d, name, c);
  }

  lemma InvClosed(t: Tree)
    requires Inv(t)
    ensures Closed(t) && LinkedDir(t, ROOT)
  {
    forall d, name | LinkedDir(t, d) ensures OkTarget(t, LookupIn(t, d, name)) {
      InvTarget(t, d, name);
    }
  }

  lemma InvTarget(t: Tree, d: int, name: string)
    requires DirsOk(t) && FreeOk(t) && LinksCounted(t) && LinkedDir(t, d)
    ensures OkTarget(t, LookupIn(t, d, name))
  {
    assert DirOk(t, d);
    var s := t[d].slots;
    if name in View(s) {
      var k := ViewHas(s, name);
      ViewAt(s, ".", 0);
      if name != "." {
        NamedIsLinked(t, d, k, s[k].inum);
      }
    }
  }

  lemma {:induction false} SameResolve(t: Tree, t': Tree, i: int, names: seq<string>)
    requires |t'| == |t| && forall x :: 0 <= x < |t| ==> t'[x].kind == t[x].kind && t'[x].slots == t[x].slots
    ensures Resolve(t', i, names) == Resolve(t, i, names) && ParentOf(t', i, names) == ParentOf(t, i, names)
    decreases |names|
  {
    assert LookupIn(t', i, if names == [] then "" else names[0]) == LookupIn(t, i, if names == [] then "" else names[0]);
    hide LookupIn;
    if names != [] {
      SameResolve(t, t', LookupIn(t, i, names[0]), names[1..]);
      SameResolve(t, t', i, names[..|names| - 1]);
    }
  }

  /** Count first and then the entry, or the other way round. */
  lemma LinkedEither(t: Tree, d: int, name: string, i: int)
    requires 0 <= d < |t| && 0 <= i < |t| && i != d
    ensures var s := t[d].slots;
            WithSlots(AddLinks(t, i, 1), d, Put(s, FirstFree(s, 0), Dirent(i, name))) == Linked(t, d, name, i)
  {
  }

  /** The namespace is the same when only a file's count differs. */
  lemma CountOnly(t: Tree, t': Tree, i: int)
    requires Closed(t) && 0 < i < |t| && !IsDir(t, i) && t' == AddLinks(t, i, 1)
    ensures Closed(t') && AddLinks(t', i, -1) == t
  {
    forall x | LinkedDir(t', x) ensures DirOk(t', x) {
      assert DirOk(t, x);
    }
    forall d, name | LinkedDir(t', d) ensures OkTarget(t', LookupIn(t', d, name)) {
      assert OkTarget(t, LookupIn(t, d, name));
    }
  }

  lemma NoElement(t: Tree, i: int)
    ensures Resolve(t, i, []) == i && ParentOf(t, i, []) == 0
  {
  }

  ghost predicate IsSuffix(a: seq<string>, b: seq<string>) {
    |a| <= |b| && b[|b| - |a|..] == a
  }

  lemma SuffixLast(a: seq<string>, b: seq<string>)
    requires IsSuffix(a, b) && a != []
    ensures b != [] && LastOf(b) == LastOf(a) && IsSuffix(a[1..], b)
  {
    assert b[|b| - 1] == b[|b| - |a|..][|a| - 1];
  }

  lemma TargetOk(t: Tree, d: int, name: string)
    requires Closed(t) && OkTarget(t, d) && IsDir(t, d)
    ensures UniqueNames(t[d].slots) && OkTarget(t, LookupIn(t, d, name)) && OkTarget(t, 0)
    ensures forall j :: 0 <= j < |t[d].slots| && Live(t[d].slots[j]) ==> t[d].slots[j].inum > 0
  {
    assert DirOk(t, d);
  }
}
