/** kalloc.c and vm.c in place: the free list, and page tables written inside
    page-stepping loops, with rollback when memory runs out. */
module Vm {
  import opened VmState

  function PgRoundUp(sz: nat): nat {
    (sz + PGSIZE - 1) / PGSIZE * PGSIZE
  }

  /** The number of pages that sz bytes reach into. */
  function Pages(sz: nat): nat {
    (sz + PGSIZE - 1) / PGSIZE
  }

  /** PGADDR(i, 0, 0): where the pages of table i begin. */
  function PgAddr(i: nat): (a: nat)
    ensures a / PGSIZE == i * ENTRIES && a % PGSIZE == 0
  {
    i * ENTRIES * PGSIZE
  }

  /** From m0 to m, the pages from lo to v have been given zeroed frames of the pool;
      nothing else has changed. */
  ghost predicate Grown(m0: Mem, m: Mem, d: Frame, lo: int, v: int)
    requires Good(m0, d)
  {
    && Good(m, d) && SameHas(m0, m, d) && OthersKept(m0, m, d) && NewPages(m0, m, d, lo, v)
    && (forall f :: f in m.free ==> f in m0.free)
    && (forall f :: f !in m0.free ==> SameBytes(m0, m, f))
  }

  ghost predicate NewPages(m0: Mem, m: Mem, d: Frame, lo: int, v: int)
    requires Wf(m0.words, d) && Wf(m.words, d)
  {
    forall w :: 0 <= w < ALLPAGES ==>
      var e := Lookup(m.words, d, w);
      if lo <= w < v then Fresh(m0, m, e) else e == Lookup(m0.words, d, w)
  }

  /** A writable user page of zeros, on a frame from the pool. */
  predicate Fresh(m0: Mem, m: Mem, e: Entry) {
    && e.Present? && e.flags == PTE_W + PTE_U
    && e.frame in m0.free && e.frame in m.bytes && m.bytes[e.frame] == Zeros()
  }

  class Kernel {
    var free: seq<Frame>
    var words: map<Frame, seq<Entry>>
    var bytes: map<Frame, Page>

    function Now(): Mem
      reads this
    {
      Mem(free, words, bytes)
    }

    method Kalloc() returns (f: Frame)
      modifies `free
      ensures old(free) == [] ==> f == 0 && free == []
      ensures old(free) != [] ==> f == old(free)[0] && free == old(free)[1..]
    {
      if free == [] {
        return 0;
      }
      f := free[0];
      free := free[1..];
    }

    method Kfree(f: Frame)
      modifies this
      ensures Now() == Freed(old(Now()), f)
      ensures free == [f] + old(free) && f !in words && f in bytes && |bytes[f]| == PGSIZE && forall i :: 0 <= i < PGSIZE ==> bytes[f][i] == 1
      ensures forall g :: g != f ==> Apart(old(Now()), Now(), g)
    {
      bytes := bytes[f := Junk()];
      words := words - {f};
      free := [f] + free;
    }

    /** walkpgdir: the table that page v lies in, or 0. */
    method Walk(d: Frame, v: int, alloc: bool) returns (t: Frame)
      requires Good(Now(), d) && 0 <= v < ALLPAGES
      modifies this
      ensures Good(Now(), d) && bytes == old(bytes)
      ensures t == 0 ==> Now() == old(Now()) && words[d][v / ENTRIES].Absent? && (!alloc || free == [])
      ensures t != 0 ==> words[d][v / ENTRIES].Present? && words[d][v / ENTRIES].frame == t
      ensures words[d] == if t == 0 || old(words[d][v / ENTRIES]).Present? then old(words[d])
                          else old(words[d])[v / ENTRIES := Present(t, PTE_W + PTE_U)]
      ensures !alloc ==> Now() == old(Now())
      ensures SameMap(old(Now()), Now(), d) && SameHas(old(Now()), Now(), d) && OthersKept(old(Now()), Now(), d)
      ensures (forall f :: f in free ==> f in old(free)) && |free| >= |old(free)| - 1
    {
      var pde := words[d][v / ENTRIES];
      if pde.Present? {
        return pde.frame;
      }
      if !alloc {
        return 0;
      }
      ghost var m := Now();
      t := Kalloc();
      if t == 0 {
        return;
      }
      ghost var m1 := Now();
      Taken(m, d, m1);
      TablesOwned(m1, d);
      words := words[t := EmptyTable()];
      words := words[d := words[d][v / ENTRIES := Present(t, PTE_W + PTE_U)]];
      AddTable(m1, d, v / ENTRIES, t, Now());
    }

    /** One turn of mappages' loop, which for user memory is all of it: page v is
        mapped to f, unless there is no frame for a table. */
    method MapPage(d: Frame, v: int, f: Frame, flags: int) returns (ok: bool)
      requires Good(Now(), d) && 0 <= v < ALLPAGES && Lookup(words, d, v).Absent?
      requires v < USERPAGES ==> f != 0 && !Has(Now(), d, f)
      modifies this
      ensures Good(Now(), d) && bytes == old(bytes)
      ensures !ok ==> old(free) == [] && SameMap(old(Now()), Now(), d) && SameHas(old(Now()), Now(), d)
      ensures ok ==> forall w :: 0 <= w < ALLPAGES ==>
                Lookup(words, d, w) == if w == v then Present(f, flags) else Lookup(old(words), d, w)
      ensures ok && v < USERPAGES ==> forall g :: Has(Now(), d, g) <==> Has(old(Now()), d, g) || g == f
      ensures v >= USERPAGES ==> SameHas(old(Now()), Now(), d)
      ensures OthersKept(old(Now()), Now(), d)
      ensures (forall g :: g in free ==> g in old(free)) && |free| >= |old(free)| - 1
    {
      var t := Walk(d, v, true);
      if t == 0 {
        return false;
      }
      ghost var m := Now();
      TablesOwned(m, d);
      SetPage(words, d, v, Present(f, flags));
      words := words[t := words[t][v % ENTRIES := Present(f, flags)]];
      if v < USERPAGES {
        PageSlotSet(m.words, words, d, v, Present(f, flags));
        Put(m, Now(), d, PageSlot(v), f);
      } else {
        KernelPage(m, Now(), d, v, Present(f, flags));
      }
      ok := true;
    }

    /** deallocuvm at one page, whose table is t. */
    method Unmap(d: Frame, v: int, t: Frame)
      requires Good(Now(), d) && 0 <= v < USERPAGES
      requires words[d][v / ENTRIES].Present? && words[d][v / ENTRIES].frame == t
      modifies this
      ensures Now() == Unmapped(old(Now()), d, v)
    {
      var pte := words[t][v % ENTRIES];
      if pte.Present? {
        assert At(words, d, TableSlot(v / ENTRIES)) == t && At(words, d, PageSlot(v)) == pte.frame;
        Kfree(pte.frame);
        words := words[t := words[t][v % ENTRIES := Absent]];
      }
    }

    /** One turn of deallocuvm's loop, at address a: where it goes next. */
    method DeallocTurn(d: Frame, a: nat, ghost hi: nat) returns (a': nat)
      requires Good(Now(), d) && a % PGSIZE == 0 && a / PGSIZE < hi <= USERPAGES
      modifies this
      ensures Good(Now(), d) && a' % PGSIZE == 0 && a' > a
      ensures Sweep(old(Now()), d, a / PGSIZE, hi) == Sweep(Now(), d, a' / PGSIZE, hi)
    {
      hide Good, Lookup, Unmapped, Freed, Has;
      var v := a / PGSIZE;
      ghost var m := Now();
      var t := Walk(d, v, false);
      if t == 0 {
        NoTable(m, d, v);
        SkipPages(m, d, v, hi, (v / ENTRIES + 1) * ENTRIES);
        a' := PgAddr(v / ENTRIES + 1) - PGSIZE;
      } else {
        Unmap(d, v, t);
        UnmappedGood(m, d, v);
        a' := a;
      }
      a' := a' + PGSIZE;
    }

    /** deallocuvm: the pages from newsz to oldsz, jumping over missing tables, as if
        every page were visited. */
    method DeallocUvm(d: Frame, oldsz: nat, newsz: nat) returns (sz: nat)
      requires Good(Now(), d) && oldsz <= KERNBASE
      modifies this
      ensures sz == if newsz >= oldsz then oldsz else newsz
      ensures Good(Now(), d) && Now() == if newsz >= oldsz then old(Now()) else Sweep(old(Now()), d, Pages(newsz), Pages(oldsz))
    {
      hide Good;
      if newsz >= oldsz {
        return oldsz;
      }
      ghost var hi := Pages(oldsz);
      var a := PgRoundUp(newsz);
      while a < oldsz
        invariant a % PGSIZE == 0 && Good(Now(), d) && hi <= USERPAGES
        invariant Sweep(old(Now()), d, Pages(newsz), hi) == Sweep(Now(), d, a / PGSIZE, hi)
        decreases oldsz - a
      {
        PageBelow(a, oldsz);
        a := DeallocTurn(d, a, hi);
      }
      PageBeyond(a, oldsz);
      sz := newsz;
    }

    /** One turn of allocuvm's loop. When it fails with a frame in hand, that frame is
        nowhere. */
    method AllocPage(d: Frame, v: int, ghost m0: Mem, ghost lo: int) returns (ok: bool, mem: Frame)
      requires Good(m0, d) && Grown(m0, Now(), d, lo, v) && 0 <= lo <= v < USERPAGES && Lookup(m0.words, d, v).Absent?
      modifies this
      ensures if ok then |free| >= |old(free)| - 2 else |old(free)| <= 1
      ensures ok ==> Grown(m0, Now(), d, lo, v + 1)
      ensures !ok && mem == 0 ==> Grown(m0, Now(), d, lo, v)
      ensures !ok && mem != 0 ==> HeldBack(m0, Now(), d, lo, v, mem)
    {
      ghost var m := Now();
      mem := Kalloc();
      if mem == 0 {
        return false, 0;
      }
      ghost var m1 := Now();
      Taken(m, d, m1);
      bytes := bytes[mem := Zeros()];
      ghost var m2 := Now();
      ok := MapPage(d, v, mem, PTE_W + PTE_U);
      Alloced(m0, m, m1, m2, Now(), d, lo, v, mem, ok);
    }

    /** allocuvm: the new size and zeroed pages up to it; or 0, and the address map and
        the pool as before. It does not fail when the pool has two frames for each page,
        one for the page and one for a table. */
    method AllocUvm(d: Frame, oldsz: nat, newsz: nat) returns (sz: nat)
      requires Good(Now(), d)
      requires oldsz <= newsz < KERNBASE ==>
                 forall w :: Pages(oldsz) <= w < Pages(newsz) ==> Lookup(words, d, w).Absent?
      modifies this
      ensures newsz >= KERNBASE ==> sz == 0 && Now() == old(Now())
      ensures newsz < oldsz && newsz < KERNBASE ==> sz == oldsz && Now() == old(Now())
      ensures oldsz <= newsz < KERNBASE ==>
                || (sz == newsz && Grown(old(Now()), Now(), d, Pages(oldsz), Pages(newsz)))
                || (sz == 0 && Restored(old(Now()), Now(), d))
      ensures oldsz <= newsz < KERNBASE && |old(free)| >= 2 * (Pages(newsz) - Pages(oldsz)) ==> sz == newsz
    {
      hide Good, Lookup, Has, Grown, HeldBack, Restored;
      if newsz >= KERNBASE {
        return 0;
      }
      if newsz < oldsz {
        return oldsz;
      }
      ghost var m0, lo, hi := Now(), Pages(oldsz), Pages(newsz);
      GrownNone(m0, d, lo);
      var a := PgRoundUp(oldsz);
      while a < newsz
        invariant a % PGSIZE == 0 && lo <= a / PGSIZE && hi <= USERPAGES
        invariant Grown(m0, Now(), d, lo, a / PGSIZE) && (a / PGSIZE <= hi || a / PGSIZE == lo)
        invariant |free| >= |m0.free| - 2 * (a / PGSIZE - lo)
        decreases newsz - a
      {
        PageBelow(a, newsz);
        var ok, mem := AllocPage(d, a / PGSIZE, m0, lo);
        if !ok {
          ghost var m := Now();
          if mem == 0 {
            GrownGood(m0, m, d, lo, a / PGSIZE);
            var _ := DeallocUvm(d, newsz, oldsz);
            RolledBack(m0, m, d, lo, hi, a / PGSIZE);
          } else {
            HeldGood(m0, m, d, lo, a / PGSIZE, mem);
            var _ := DeallocUvm(d, newsz, oldsz);
            Kfree(mem);
            RolledBackHeld(m0, m, d, lo, hi, a / PGSIZE, mem);
          }
          return 0;
        }
        a := a + PGSIZE;
      }
      PageBeyond(a, newsz);
      sz := newsz;
    }

    /** freevm: every frame of the address space goes to the pool, once. */
    method FreeVm(d: Frame)
      requires Good(Now(), d)
      modifies this
      ensures FreeOk(free) && forall f :: f in free <==> Has(old(Now()), d, f)
      ensures OthersKept(old(Now()), Now(), d)
    {
      hide Sweep, At, Lookup;
      ghost var m0 := Now();
      var _ := DeallocUvm(d, KERNBASE, 0);
      ghost var m := Now();
      Swept(m0, d, 0, USERPAGES);
      FreeTables(d);
      OnlyTables(m, d);
      Kfree(d);
      assert forall f :: f in free <==> Has(m, d, f);
    }

    /** The loop of freevm over the directory. */
    method FreeTables(d: Frame)
      requires Good(Now(), d)
      modifies this
      ensures FreeOk(free) && forall f :: f in free <==> f in old(free) || TableAmong(old(words)[d], f, ENTRIES)
      ensures forall f :: f !in free ==> Apart(old(Now()), Now(), f)
    {
      ghost var m := Now();
      for i := 0 to ENTRIES
        invariant d in words && words[d] == m.words[d] && FreeOk(free)
        invariant forall f :: f in free <==> f in m.free || TableAmong(m.words[d], f, i)
        invariant forall f :: f !in free ==> Apart(m, Now(), f)
      {
        hide Good, FreeOk, Lookup, Wf;
        if words[d][i].Present? {
          FreshTable(m, d, i);
          assert forall f :: TableAmong(m.words[d], f, i + 1) <==> TableAmong(m.words[d], f, i) || f == words[d][i].frame;
          FreeMore(free, words[d][i].frame);
          Kfree(words[d][i].frame);
        }
      }
    }

    /** mappages on kernel addresses, which are mapped and not owned. */
    method MapPages(d: Frame, k: Range) returns (ok: bool)
      requires Good(Now(), d) && InKernel(k) && forall w :: k.v <= w < k.v + k.n ==> Lookup(words, d, w).Absent?
      modifies this
      ensures Good(Now(), d) && bytes == old(bytes) && SameHas(old(Now()), Now(), d) && OthersKept(old(Now()), Now(), d)
      ensures ok ==> forall w :: k.v <= w < k.v + k.n ==> Lookup(words, d, w) == Present(k.f + (w - k.v), k.flags)
      ensures forall w :: 0 <= w < ALLPAGES && !(k.v <= w < k.v + k.n) ==> Lookup(words, d, w) == Lookup(old(words), d, w)
      ensures (forall f :: f in free ==> f in old(free)) && |free| >= |old(free)| - k.n && (!ok ==> |old(free)| < k.n)
    {
      hide Good, Lookup, Has;
      ghost var m := Now();
      for i := 0 to k.n
        invariant Good(Now(), d) && bytes == m.bytes && SameHas(m, Now(), d) && OthersKept(m, Now(), d)
        invariant forall w :: 0 <= w < ALLPAGES ==>
                    Lookup(words, d, w) == if k.v <= w < k.v + i then Present(k.f + (w - k.v), k.flags) else Lookup(m.words, d, w)
        invariant (forall f :: f in free ==> f in m.free) && |free| >= |m.free| - i
      {
        ok := MapPage(d, k.v + i, k.f + i, k.flags);
        if !ok {
          return;
        }
      }
      ok := true;
    }

    /** setupkvm: a directory with the kernel's mappings and no user page, or 0 and the
        pool as before. */
    method SetupKvm(kmap: seq<Range>) returns (d: Frame)
      requires FreeOk(free) && KmapOk(kmap)
      modifies this
      ensures FreeOk(free) && forall f :: f !in old(free) ==> Apart(old(Now()), Now(), f)
      ensures d == 0 ==> |old(free)| <= KernelPages(kmap, |kmap|) && forall f :: f in free <==> f in old(free)
      ensures d != 0 ==> Good(Now(), d) && (forall f :: Has(Now(), d, f) <==> f in old(free)) && Mapped(words, d, kmap, |kmap|)
      ensures d != 0 ==> |free| >= |old(free)| - 1 - KernelPages(kmap, |kmap|)
    {
      hide Good, Lookup, Built, Mapped, Has;
      ghost var m := Now();
      d := Kalloc();
      if d == 0 {
        return;
      }
      words := words[d := EmptyTable()];
      NewBuilt(m, Now(), d, kmap);
      for k := 0 to |kmap|
        invariant Built(m, Now(), d) && Good(Now(), d)
        invariant Mapped(words, d, kmap, k) && |free| >= |m.free| - 1 - KernelPages(kmap, k)
      {
        ghost var m1 := Now();
        KernelPagesGrow(kmap, k + 1, |kmap|);
        NotYet(words, d, kmap, k);
        var ok := MapPages(d, kmap[k]);
        BuiltMapped(m, m1, Now(), d);
        if !ok {
          ghost var m2 := Now();
          FreeVm(d);
          BuiltFreed(m, m2, Now(), d);
          return 0;
        }
        MappedMore(m1.words, words, d, kmap, k);
      }
      BuiltGood(m, Now(), d);
    }

    /** A page that is there, by walkpgdir. */
    method Pte(d: Frame, v: int) returns (e: Entry)
      requires Good(Now(), d) && 0 <= v < ALLPAGES && Lookup(words, d, v).Present?
      modifies this
      ensures Now() == old(Now()) && e == Lookup(words, d, v)
    {
      var t := Walk(d, v, false);
      e := words[t][v % ENTRIES];
    }

    /** One turn of copyuvm's loop, for the parent's page v. */
    method CopyPage(p: Frame, d: Frame, v: int, ghost m0: Mem) returns (ok: bool)
      requires Good(m0, p) && Copied(m0, Now(), p, d, v) && 0 <= v < USERPAGES
      requires Lookup(m0.words, p, v).Present? && Lookup(m0.words, p, v).frame in m0.bytes
      modifies this
      ensures if ok then |free| >= |old(free)| - 2 else |old(free)| <= 1
      ensures ok ==> Wf(old(words), d) && Wf(words, d) && SameKernel(old(words), words, d)
      ensures ok ==> Copied(m0, Now(), p, d, v + 1)
      ensures !ok ==> Built(m0, Now(), d)
    {
      hide Good, Lookup, Has, Built;
      ghost var m := Now();
      BuiltGood(m0, m, d);
      ParentKept(m0, m, p);
      var pte := Pte(p, v);
      var mem := Kalloc();
      if mem == 0 {
        return false;
      }
      ghost var m1 := Now();
      Taken(m, d, m1);
      bytes := bytes[mem := bytes[pte.frame]];
      ghost var m2 := Now();
      SameSpace(m1, m2, d);
      CopiedAbsent(m0, m, p, d, v);
      ok := MapPage(d, v, mem, pte.flags);
      if ok {
        BuiltMore(m0, m, m1, m2, Now(), d, mem);
        CopiedMore(m0, m, m2, Now(), p, d, v, mem);
      } else {
        BuiltLess(m0, m, m1, m2, Now(), d, mem);
        Kfree(mem);
      }
    }

    /** copyuvm: a child with the parent's pages, or 0 and the pool as before; either way
        the parent is as it was. */
    method CopyUvm(p: Frame, sz: nat, kmap: seq<Range>) returns (d: Frame)
      requires Good(Now(), p) && sz <= KERNBASE && KmapOk(kmap)
      requires forall w :: 0 <= w < Pages(sz) ==> Lookup(words, p, w).Present? && Lookup(words, p, w).frame in bytes
      modifies this
      ensures Good(Now(), p) && SameMap(old(Now()), Now(), p)
      ensures forall w :: 0 <= w < USERPAGES && Lookup(old(words), p, w).Present? ==>
                SameBytes(old(Now()), Now(), Lookup(old(words), p, w).frame)
      ensures d == 0 ==> forall f :: f in free <==> f in old(free)
      ensures |old(free)| > KernelPages(kmap, |kmap|) + 2 * Pages(sz) ==> d != 0
      ensures d != 0 ==> Copied(old(Now()), Now(), p, d, Pages(sz)) && Wf(words, d) && KernelMapped(words, d, kmap)
      ensures d != 0 ==> forall f :: !(Owns(words, p, f) && Owns(words, d, f))
    {
      hide Good, Lookup, Has, Built, Copied, FreeOk, Mapped, KernelMapped, SameKernel, Wf;
      ghost var m0 := Now();
      d := SetupKvm(kmap);
      if d == 0 {
        ParentKept(m0, Now(), p);
        return;
      }
      CopiedNone(m0, Now(), p, d, kmap);
      KernelPart(words, d, kmap);
      var i := 0;
      while i < sz
        invariant i % PGSIZE == 0 && i / PGSIZE <= USERPAGES && Copied(m0, Now(), p, d, i / PGSIZE)
        invariant Wf(words, d) && KernelMapped(words, d, kmap)
        invariant i / PGSIZE <= Pages(sz) && |free| >= |m0.free| - 1 - KernelPages(kmap, |kmap|) - 2 * (i / PGSIZE)
        decreases sz - i
      {
        PageBelow(i, sz);
        ghost var words1 := words;
        var ok := CopyPage(p, d, i / PGSIZE, m0);
        if ok {
          StillMapped(words1, words, d, kmap);
        } else {
          ghost var m := Now();
          BuiltGood(m0, m, d);
          FreeVm(d);
          BuiltFreed(m0, m, Now(), d);
          ParentKept(m0, Now(), p);
          return 0;
        }
        i := i + PGSIZE;
      }
      PageBeyond(i, sz);
      CopiedBuilt(m0, Now(), p, d, Pages(sz));
      BuiltGood(m0, Now(), d);
      ParentKept(m0, Now(), p);
      Disjoint(m0, Now(), p, d);
    }
  }

  lemma CopiedNone(m0: Mem, m: Mem, p: Frame, d: Frame, kmap: seq<Range>)
    requires Good(m0, p) && Good(m, d) && KmapOk(kmap) && Mapped(m.words, d, kmap, |kmap|)
    requires (forall f :: Has(m, d, f) <==> f in m0.free) && (forall f :: f !in m0.free ==> Apart(m0, m, f))
    ensures Copied(m0, m, p, d, 0)
  {
    forall w | 0 <= w < USERPAGES ensures Lookup(m.words, d, w).Absent? {
      forall k | 0 <= k < |kmap| ensures !Within(kmap[k], w) {
        assert InKernel(kmap[k]);
      }
    }
  }

  lemma BuiltFreed(m0: Mem, m: Mem, m': Mem, d: Frame)
    requires Built(m0, m, d) && OthersKept(m, m', d) && forall f :: f in m'.free <==> Has(m, d, f)
    ensures forall f :: f in m'.free <==> f in m0.free
    ensures forall f :: f !in m0.free ==> Apart(m0, m', f) && f !in m'.free
  {
    forall f | f !in m0.free ensures Apart(m0, m', f) {
      assert !Has(m, d, f);
    }
  }

  lemma CopiedBuilt(m0: Mem, m: Mem, p: Frame, d: Frame, v: int)
    requires Good(m0, p) && Copied(m0, m, p, d, v)
    ensures Built(m0, m, d)
  {
  }

  lemma Disjoint(m0: Mem, m: Mem, p: Frame, d: Frame)
    requires Good(m0, p) && Good(m, p) && SameMap(m0, m, p) && Built(m0, m, d)
    ensures forall f :: !(Owns(m.words, p, f) && Owns(m.words, d, f))
  {
    forall f | Owns(m.words, d, f) ensures !Owns(m.words, p, f) {
      assert Has(m, d, f);
      forall s | IsSlot(s) ensures At(m.words, p, s) != f {
        TablesOwned(m0, p);
        assert At(m0.words, p, s) !in m0.free;
        assert p !in m0.free;
      }
    }
  }

  /** A child under construction: all its frames are from the pool, and the rest of
      memory is as it was. */
  ghost predicate Built(m0: Mem, m: Mem, d: Frame) {
    Good(m, d) && (forall f :: Has(m, d, f) <==> f in m0.free) && (forall f :: f !in m0.free ==> Apart(m0, m, f))
  }

  lemma BuiltGood(m0: Mem, m: Mem, d: Frame)
    requires Built(m0, m, d)
    ensures Good(m, d) && forall f :: Has(m, d, f) <==> f in m0.free
    ensures forall f :: f !in m0.free ==> Apart(m0, m, f) && f !in m.free
  {
  }

  lemma SameSpace(m: Mem, m': Mem, d: Frame)
    requires Good(m, d) && m'.words == m.words && m'.free == m.free
    ensures Good(m', d) && forall f :: Has(m', d, f) <==> Has(m, d, f)
  {
  }

  /** The child has the parent's first v pages: the same flags and bytes, on frames of
      its own; and no more. */
  ghost predicate Copied(m0: Mem, m: Mem, p: Frame, d: Frame, v: int)
    requires Good(m0, p)
  {
    Built(m0, m, d) && CopiedPages(m0, m, p, d, v)
  }

  ghost predicate CopiedPages(m0: Mem, m: Mem, p: Frame, d: Frame, v: int)
    requires Good(m0, p) && Good(m, d)
  {
    forall w :: 0 <= w < USERPAGES ==>
      if w < v then IsCopy(m0, Lookup(m0.words, p, w), m, Lookup(m.words, d, w)) else Lookup(m.words, d, w).Absent?
  }

  predicate IsCopy(m0: Mem, parent: Entry, m: Mem, child: Entry) {
    && parent.Present? && child.Present? && child.flags == parent.flags && child.frame in m0.free
    && parent.frame in m0.bytes && child.frame in m.bytes && m.bytes[child.frame] == m0.bytes[parent.frame]
  }

  lemma CopiedAbsent(m0: Mem, m: Mem, p: Frame, d: Frame, v: int)
    requires Good(m0, p) && Copied(m0, m, p, d, v) && 0 <= v < USERPAGES
    ensures Good(m, d) && Lookup(m.words, d, v).Absent?
  {
  }

  lemma BuiltMore(m0: Mem, m: Mem, m1: Mem, m2: Mem, m3: Mem, d: Frame, mem: Frame)
    requires Built(m0, m, d) && m.free != [] && mem == m.free[0]
    requires Good(m1, d) && forall g :: Has(m, d, g) <==> Has(m1, d, g) || g == mem
    requires m1 == m.(free := m.free[1..]) && m2.words == m.words && m2.free == m1.free
    requires forall f :: f != mem ==> SameBytes(m, m2, f)
    requires Good(m3, d) && m3.bytes == m2.bytes && OthersKept(m2, m3, d)
    requires forall g :: Has(m3, d, g) <==> Has(m2, d, g) || g == mem
    ensures Built(m0, m3, d)
  {
    forall f | f !in m0.free ensures Apart(m0, m3, f) {
      assert !Has(m, d, f) && !Has(m2, d, f) && f != mem;
      assert SameBytes(m, m2, f);
    }
  }

  lemma CopiedMore(m0: Mem, m: Mem, m2: Mem, m3: Mem, p: Frame, d: Frame, v: int, mem: Frame)
    requires Good(m0, p) && Copied(m0, m, p, d, v) && 0 <= v < USERPAGES && Built(m0, m3, d) && Wf(m2.words, d)
    requires m.free != [] && mem == m.free[0] && m2.words == m.words && m3.bytes == m2.bytes
    requires forall f :: f != mem ==> SameBytes(m, m2, f)
    requires var e := Lookup(m0.words, p, v);
             && e.Present? && e.frame in m0.bytes && mem in m2.bytes && m2.bytes[mem] == m0.bytes[e.frame]
             && forall w :: 0 <= w < ALLPAGES ==>
                  Lookup(m3.words, d, w) == if w == v then Present(mem, e.flags) else Lookup(m2.words, d, w)
    ensures CopiedPages(m0, m3, p, d, v + 1)
  {
    assert mem in m.free && Has(m, d, mem);
    forall w | 0 <= w < v ensures IsCopy(m0, Lookup(m0.words, p, w), m3, Lookup(m3.words, d, w)) {
      assert IsCopy(m0, Lookup(m0.words, p, w), m, Lookup(m.words, d, w));
      assert At(m.words, d, PageSlot(w)) == Lookup(m.words, d, w).frame;
      assert SameBytes(m, m2, Lookup(m.words, d, w).frame);
    }
  }

  lemma BuiltLess(m0: Mem, m: Mem, m1: Mem, m2: Mem, m3: Mem, d: Frame, mem: Frame)
    requires Built(m0, m, d) && m.free != [] && mem == m.free[0]
    requires Good(m1, d) && mem != 0 && !Has(m1, d, mem) && forall g :: Has(m, d, g) <==> Has(m1, d, g) || g == mem
    requires m1 == m.(free := m.free[1..]) && m2.words == m.words && m2.free == m1.free
    requires forall f :: f != mem ==> SameBytes(m, m2, f)
    requires Good(m3, d) && m3.bytes == m2.bytes && OthersKept(m2, m3, d) && SameHas(m2, m3, d)
    ensures Built(m0, Freed(m3, mem), d)
  {
    assert forall f :: Has(m2, d, f) <==> Has(m1, d, f);
    GiveBack(m3, d, mem);
    assert Has(m, d, mem);
    forall f | f !in m0.free ensures Apart(m0, Freed(m3, mem), f) {
      assert !Has(m, d, f) && !Has(m2, d, f) && f != mem;
      assert SameBytes(m, m2, f);
    }
  }

  /** The parent's tables and pages are not from the pool, so they stay as they were. */
  lemma ParentKept(m0: Mem, m: Mem, p: Frame)
    requires Good(m0, p) && FreeOk(m.free)
    requires forall f :: f !in m0.free ==> Apart(m0, m, f) && f !in m.free
    ensures Good(m, p) && SameMap(m0, m, p)
    ensures forall w :: 0 <= w < USERPAGES && Lookup(m0.words, p, w).Present? ==> SameBytes(m0, m, Lookup(m0.words, p, w).frame)
  {
    TablesOwned(m0, p);
    forall w | 0 <= w < ALLPAGES ensures Lookup(m.words, p, w) == Lookup(m0.words, p, w) {
    }
    forall s | IsSlot(s) ensures At(m.words, p, s) == At(m0.words, p, s) && At(m.words, p, s) !in m.free {
    }
    forall w | 0 <= w < USERPAGES && Lookup(m0.words, p, w).Present? ensures SameBytes(m0, m, Lookup(m0.words, p, w).frame) {
      assert At(m0.words, p, PageSlot(w)) == Lookup(m0.words, p, w).frame;
    }
  }

  /** n pages from page v on, mapped to n frames from f on. */
  datatype Range = Range(v: int, n: nat, f: Frame, flags: int)

  predicate InKernel(k: Range) {
    USERPAGES <= k.v && k.v + k.n <= ALLPAGES
  }

  predicate KmapOk(kmap: seq<Range>) {
    && (forall k :: 0 <= k < |kmap| ==> InKernel(kmap[k]))
    && (forall j, k :: 0 <= j < k < |kmap| ==> kmap[j].v + kmap[j].n <= kmap[k].v || kmap[k].v + kmap[k].n <= kmap[j].v)
  }

  /** The pages of the first n ranges, and so no less than the tables they need. */
  ghost function KernelPages(kmap: seq<Range>, n: nat): nat
    requires n <= |kmap|
  {
    if n == 0 then 0 else KernelPages(kmap, n - 1) + kmap[n - 1].n
  }

  lemma {:induction false} KernelPagesGrow(kmap: seq<Range>, j: nat, n: nat)
    requires j <= n <= |kmap|
    ensures KernelPages(kmap, j) <= KernelPages(kmap, n)
    decreases n - j
  {
    if j < n {
      KernelPagesGrow(kmap, j, n - 1);
    }
  }

  predicate Within(k: Range, w: int) {
    k.v <= w < k.v + k.n
  }

  /** The first n ranges are mapped and nothing else is. */
  ghost predicate Mapped(words: Words, d: Frame, kmap: seq<Range>, n: int)
    requires Wf(words, d) && KmapOk(kmap) && 0 <= n <= |kmap|
  {
    && (forall k, w :: 0 <= k < n && Within(kmap[k], w) ==> Lookup(words, d, w) == Present(kmap[k].f + (w - kmap[k].v), kmap[k].flags))
    && (forall w :: 0 <= w < ALLPAGES && (forall k :: 0 <= k < n ==> !Within(kmap[k], w)) ==> Lookup(words, d, w).Absent?)
  }

  ghost predicate SameKernel(words: Words, words': Words, d: Frame)
    requires Wf(words, d) && Wf(words', d)
  {
    forall w :: USERPAGES <= w < ALLPAGES ==> Lookup(words', d, w) == Lookup(words, d, w)
  }

  /** Above the user's part, the ranges are mapped and nothing else is. */
  ghost predicate KernelMapped(words: Words, d: Frame, kmap: seq<Range>)
    requires Wf(words, d) && KmapOk(kmap)
  {
    && (forall k, w :: 0 <= k < |kmap| && Within(kmap[k], w) ==> Lookup(words, d, w) == Present(kmap[k].f + (w - kmap[k].v), kmap[k].flags))
    && (forall w :: USERPAGES <= w < ALLPAGES && (forall k :: 0 <= k < |kmap| ==> !Within(kmap[k], w)) ==> Lookup(words, d, w).Absent?)
  }

  lemma KernelPart(words: Words, d: Frame, kmap: seq<Range>)
    requires Wf(words, d) && KmapOk(kmap) && Mapped(words, d, kmap, |kmap|)
    ensures KernelMapped(words, d, kmap)
  {
  }

  lemma StillMapped(words: Words, words': Words, d: Frame, kmap: seq<Range>)
    requires Wf(words, d) && Wf(words', d) && KmapOk(kmap) && KernelMapped(words, d, kmap) && SameKernel(words, words', d)
    ensures KernelMapped(words', d, kmap)
  {
    hide Lookup;
    forall k, w | 0 <= k < |kmap| && Within(kmap[k], w)
      ensures Lookup(words', d, w) == Present(kmap[k].f + (w - kmap[k].v), kmap[k].flags)
    {
      assert InKernel(kmap[k]);
    }
  }

  lemma MappedMore(words: Words, words': Words, d: Frame, kmap: seq<Range>, k: int)
    requires Wf(words, d) && Wf(words', d) && KmapOk(kmap) && 0 <= k < |kmap| && Mapped(words, d, kmap, k)
    requires forall w :: kmap[k].v <= w < kmap[k].v + kmap[k].n ==> Lookup(words', d, w) == Present(kmap[k].f + (w - kmap[k].v), kmap[k].flags)
    requires forall w :: 0 <= w < ALLPAGES && !(kmap[k].v <= w < kmap[k].v + kmap[k].n) ==> Lookup(words', d, w) == Lookup(words, d, w)
    ensures Mapped(words', d, kmap, k + 1)
  {
    hide Lookup;
    forall j, w | 0 <= j < k + 1 && Within(kmap[j], w)
      ensures Lookup(words', d, w) == Present(kmap[j].f + (w - kmap[j].v), kmap[j].flags)
    {
    }
    forall w | 0 <= w < ALLPAGES && (forall j :: 0 <= j < k + 1 ==> !Within(kmap[j], w)) ensures Lookup(words', d, w).Absent? {
      assert !Within(kmap[k], w);
    }
  }

  lemma NewBuilt(m: Mem, m': Mem, d: Frame, kmap: seq<Range>)
    requires FreeOk(m.free) && m.free != [] && d == m.free[0] && KmapOk(kmap)
    requires m' == m.(free := m.free[1..], words := m.words[d := EmptyTable()])
    ensures d != 0 && Built(m, m', d) && Good(m', d) && Mapped(m'.words, d, kmap, 0)
  {
    assert m.free == [d] + m'.free;
    assert d in m.free && d !in m'.free;
    assert At(m'.words, d, DirSlot) == d;
    forall w | 0 <= w < ALLPAGES ensures Lookup(m'.words, d, w).Absent? {
    }
  }

  lemma BuiltMapped(m0: Mem, m: Mem, m': Mem, d: Frame)
    requires Built(m0, m, d) && Good(m, d) && Good(m', d) && SameHas(m, m', d) && OthersKept(m, m', d)
    ensures Built(m0, m', d)
  {
    forall f | f !in m0.free ensures Apart(m0, m', f) {
      assert !Has(m, d, f);
    }
  }

  lemma NotYet(words: Words, d: Frame, kmap: seq<Range>, k: int)
    requires Wf(words, d) && KmapOk(kmap) && 0 <= k < |kmap| && Mapped(words, d, kmap, k)
    ensures InKernel(kmap[k]) && forall w :: kmap[k].v <= w < kmap[k].v + kmap[k].n ==> Lookup(words, d, w).Absent?
  {
    forall w | kmap[k].v <= w < kmap[k].v + kmap[k].n ensures Lookup(words, d, w).Absent? {
      forall j | 0 <= j < k ensures !Within(kmap[j], w) {
      }
    }
  }

  lemma FreeMore(free: seq<Frame>, f: Frame)
    requires FreeOk(free) && f != 0 && f !in free
    ensures FreeOk([f] + free)
  {
  }

  predicate TableAmong(es: seq<Entry>, f: Frame, n: int) {
    exists j :: 0 <= j < n && j < |es| && es[j].Present? && es[j].frame == f
  }

  /** A table's frame is not in the pool and not among the earlier tables. */
  lemma FreshTable(m: Mem, d: Frame, i: int)
    requires Good(m, d) && 0 <= i < ENTRIES && m.words[d][i].Present?
    ensures var t := m.words[d][i].frame; t != 0 && t != d && t !in m.free && !TableAmong(m.words[d], t, i)
  {
    var t := m.words[d][i].frame;
    assert At(m.words, d, TableSlot(i)) == t && At(m.words, d, DirSlot) == d;
    forall j | 0 <= j < i && m.words[d][j].Present? ensures m.words[d][j].frame != t {
      assert At(m.words, d, TableSlot(j)) == m.words[d][j].frame;
    }
  }

  /** An address space without user pages owns its directory and its tables. */
  lemma OnlyTables(m: Mem, d: Frame)
    requires Good(m, d) && forall w :: 0 <= w < USERPAGES ==> Lookup(m.words, d, w).Absent?
    ensures forall f :: Owns(m.words, d, f) <==> f == d || TableAmong(m.words[d], f, ENTRIES)
    ensures d !in m.free && !TableAmong(m.words[d], d, ENTRIES)
  {
    TablesOwned(m, d);
    forall f ensures Owns(m.words, d, f) <==> f == d || TableAmong(m.words[d], f, ENTRIES) {
      if Owns(m.words, d, f) {
        var s :| IsSlot(s) && At(m.words, d, s) == f;
        assert s.TableSlot? ==> m.words[d][s.i].Present? && m.words[d][s.i].frame == f;
      }
      if TableAmong(m.words[d], f, ENTRIES) {
        var j :| 0 <= j < ENTRIES && m.words[d][j].Present? && m.words[d][j].frame == f;
        assert At(m.words, d, TableSlot(j)) == f;
      }
      assert At(m.words, d, DirSlot) == d;
    }
  }

  /** The address map, its pages' bytes and all owned frames as before (a new, empty
      table may stay). */
  ghost predicate Restored(m0: Mem, m: Mem, d: Frame)
    requires Good(m0, d)
  {
    && Good(m, d) && SameMap(m0, m, d) && SameHas(m0, m, d) && OthersKept(m0, m, d)
    && forall w :: 0 <= w < USERPAGES && Lookup(m0.words, d, w).Present? ==> SameBytes(m0, m, Lookup(m0.words, d, w).frame)
  }

  lemma GrownNone(m: Mem, d: Frame, lo: int)
    requires Good(m, d)
    ensures Grown(m, m, d, lo, lo)
  {
  }

  lemma GrownGood(m0: Mem, m: Mem, d: Frame, lo: int, v: int)
    requires Good(m0, d) && Grown(m0, m, d, lo, v)
    ensures Good(m, d)
  {
  }

  lemma HeldGood(m0: Mem, m: Mem, d: Frame, lo: int, v: int, mem: Frame)
    requires Good(m0, d) && HeldBack(m0, m, d, lo, v, mem)
    ensures Good(m, d)
  {
  }

  /** The sweep takes back exactly what was added. */
  lemma RolledBack(m0: Mem, m: Mem, d: Frame, lo: int, hi: int, v: int)
    requires Good(m0, d) && Grown(m0, m, d, lo, v) && Good(m, d) && 0 <= lo <= v <= hi <= USERPAGES
    requires forall w :: lo <= w < hi ==> Lookup(m0.words, d, w).Absent?
    ensures Restored(m0, Sweep(m, d, lo, hi), d)
  {
    var r := Sweep(m, d, lo, hi);
    Swept(m, d, lo, hi);
    forall w | 0 <= w < USERPAGES && Lookup(m0.words, d, w).Present? ensures SameBytes(m0, r, Lookup(m0.words, d, w).frame) {
      assert At(m0.words, d, PageSlot(w)) == Lookup(m0.words, d, w).frame;
      assert At(r.words, d, PageSlot(w)) == Lookup(m0.words, d, w).frame;
    }
  }

  lemma RolledBackHeld(m0: Mem, m: Mem, d: Frame, lo: int, hi: int, v: int, mem: Frame)
    requires Good(m0, d) && HeldBack(m0, m, d, lo, v, mem) && Good(m, d) && 0 <= lo <= v <= hi <= USERPAGES
    requires forall w :: lo <= w < hi ==> Lookup(m0.words, d, w).Absent?
    ensures Restored(m0, Freed(Sweep(m, d, lo, hi), mem), d)
  {
    var r := Sweep(m, d, lo, hi);
    Swept(m, d, lo, hi);
    GiveBack(r, d, mem);
    var r1 := Freed(r, mem);
    forall w | 0 <= w < USERPAGES && Lookup(m0.words, d, w).Present? ensures SameBytes(m0, r1, Lookup(m0.words, d, w).frame) {
      assert At(m0.words, d, PageSlot(w)) == Lookup(m0.words, d, w).frame;
      assert At(r.words, d, PageSlot(w)) == Lookup(m0.words, d, w).frame;
    }
  }

  /** As Grown, with a frame in hand. */
  ghost predicate HeldBack(m0: Mem, m: Mem, d: Frame, lo: int, v: int, mem: Frame)
    requires Good(m0, d)
  {
    && Good(m, d) && OthersKept(m0, m, d) && NewPages(m0, m, d, lo, v)
    && mem != 0 && !Has(m, d, mem) && mem in m0.free
    && (forall f :: Has(m0, d, f) <==> Has(m, d, f) || f == mem)
    && (forall f :: f in m.free ==> f in m0.free)
    && (forall f :: f !in m0.free ==> SameBytes(m0, m, f))
  }

  lemma Alloced(m0: Mem, m: Mem, m1: Mem, m2: Mem, m3: Mem, d: Frame, lo: int, v: int, mem: Frame, ok: bool)
    requires Good(m0, d) && Grown(m0, m, d, lo, v) && 0 <= lo <= v < USERPAGES
    requires m.free != [] && mem == m.free[0] && m1 == m.(free := m.free[1..]) && m2 == m1.(bytes := m.bytes[mem := Zeros()])
    requires Good(m1, d) && mem != 0 && !Has(m1, d, mem) && forall g :: Has(m, d, g) <==> Has(m1, d, g) || g == mem
    requires Good(m3, d) && m3.bytes == m2.bytes && OthersKept(m2, m3, d)
    requires forall f :: f in m3.free ==> f in m2.free
    requires !ok ==> SameMap(m2, m3, d) && SameHas(m2, m3, d)
    requires ok ==> forall g :: Has(m3, d, g) <==> Has(m2, d, g) || g == mem
    requires ok ==> forall w :: 0 <= w < ALLPAGES ==>
               Lookup(m3.words, d, w) == if w == v then Present(mem, PTE_W + PTE_U) else Lookup(m2.words, d, w)
    ensures ok ==> Grown(m0, m3, d, lo, v + 1)
    ensures !ok ==> HeldBack(m0, m3, d, lo, v, mem)
  {
    forall f | !Has(m0, d, f) ensures Apart(m0, m3, f) {
      assert !Has(m, d, f) && !Has(m2, d, f);
    }
  }

  lemma PageBelow(a: nat, sz: nat)
    requires a % PGSIZE == 0 && a < sz
    ensures a / PGSIZE < Pages(sz)
  {
  }

  lemma PageBeyond(a: nat, sz: nat)
    requires a % PGSIZE == 0 && sz <= a
    ensures Pages(sz) <= a / PGSIZE
  {
  }

  lemma KernelPage(m: Mem, m': Mem, d: Frame, v: int, e: Entry)
    requires Good(m, d) && Wf(m'.words, d) && m'.words[d] == m.words[d] && USERPAGES <= v < ALLPAGES && m'.free == m.free
    requires forall w :: 0 <= w < ALLPAGES ==> Lookup(m'.words, d, w) == if w == v then e else Lookup(m.words, d, w)
    ensures Good(m', d) && SameHas(m, m', d)
  {
    forall s | IsSlot(s) ensures At(m'.words, d, s) == At(m.words, d, s) {
    }
    forall g ensures Owns(m'.words, d, g) <==> Owns(m.words, d, g) {
      if Owns(m.words, d, g) {
        var s :| IsSlot(s) && At(m.words, d, s) == g;
        assert At(m'.words, d, s) == g;
      }
    }
  }

  /** Without its table no page is mapped up to the next table. */
  lemma NoTable(m: Mem, d: Frame, v: int)
    requires Good(m, d) && 0 <= v < USERPAGES && m.words[d][v / ENTRIES].Absent?
    ensures forall w :: v <= w < (v / ENTRIES + 1) * ENTRIES && w < USERPAGES ==> Lookup(m.words, d, w).Absent?
  {
    forall w | v <= w < (v / ENTRIES + 1) * ENTRIES && w < USERPAGES ensures Lookup(m.words, d, w).Absent? {
      assert w / ENTRIES == v / ENTRIES;
    }
  }

  /** kalloc takes the first frame of the pool; it is then nowhere. */
  lemma Taken(m: Mem, d: Frame, m': Mem)
    requires Good(m, d) && m.free != [] && m' == m.(free := m.free[1..])
    ensures Good(m', d) && m.free[0] != 0 && !Has(m', d, m.free[0]) && Has(m, d, m.free[0])
    ensures forall g :: Has(m, d, g) <==> Has(m', d, g) || g == m.free[0]
  {
    var f := m.free[0];
    assert f in m.free;
    assert m.free == [f] + m'.free;
  }

  lemma TablesOwned(m: Mem, d: Frame)
    requires Good(m, d)
    ensures Has(m, d, d) && d !in m.free
    ensures forall i :: 0 <= i < ENTRIES && m.words[d][i].Present? ==>
              Has(m, d, m.words[d][i].frame) && m.words[d][i].frame !in m.free && m.words[d][i].frame != d
  {
    assert At(m.words, d, DirSlot) == d;
    forall i | 0 <= i < ENTRIES && m.words[d][i].Present?
      ensures Has(m, d, m.words[d][i].frame) && m.words[d][i].frame !in m.free && m.words[d][i].frame != d
    {
      assert At(m.words, d, TableSlot(i)) == m.words[d][i].frame;
    }
  }
}
