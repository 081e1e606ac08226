/** malloc, free and morecore over the circular free list, with headers in memory
    changed in place. */
module Umalloc {
  import opened HeapList

  /** Everything the allocator maintains; brk is the end of the heap so far. */
  ghost predicate HeapOk(ptr: Words, size: Words, free: seq<int>, alloc: Words, obtained: iset<int>, brk: int) {
    && Ordered(size, free) && Linked(ptr, free) && Apart(size, free, alloc) && Covers(size, free, alloc, obtained)
    && (forall k :: 0 <= k < |free| ==> free[k] + size[free[k]] <= brk)
    && (forall a :: a in alloc ==> a + alloc[a] <= brk)
  }

  /** The value of the 32-bit expression that turns bytes into units. */
  function Units(nbytes: nat): (n: nat)
    ensures 0 < n
  {
    (nbytes + 7) % 0x1_0000_0000 / 8 + 1
  }

  /** A block of Units(nbytes) units holds a header and nbytes bytes exactly when the
      sum nbytes + 7 does not wrap around. */
  lemma UnitsSuffice(nbytes: nat)
    requires nbytes < 0x1_0000_0000
    ensures 8 * (Units(nbytes) - 1) >= nbytes <==> nbytes + 7 < 0x1_0000_0000
    ensures nbytes + 7 < 0x1_0000_0000 ==> 8 * (Units(nbytes) - 2) < nbytes
  {
    if nbytes + 7 >= 0x1_0000_0000 {
      assert (nbytes + 7) % 0x1_0000_0000 == nbytes + 7 - 0x1_0000_0000;
    }
  }

  class Heap {
    var freep: int          // 0 before the first malloc
    var ptr: Words          // s.ptr of each header
    var size: Words         // s.size of each header
    ghost var free: seq<int>
    ghost var alloc: Words
    ghost var obtained: iset<int>
    ghost var brk: int

    ghost predicate Valid()
      reads this
    {
      if freep == 0 then free == [] && (forall a :: a !in alloc) && (forall u :: u !in obtained) && BASE < brk
      else freep in free && HeapOk(ptr, size, free, alloc, obtained, brk)
    }

    constructor ()
      ensures Valid() && freep == 0
    {
      freep, ptr, size := 0, map[], map[];
      free, alloc, obtained, brk := [], map[], iset{}, BASE + 1;
    }

    /** free's search, from freep around the ring: it ends at the block below bp. */
    method Search(bp: int, ghost t: nat) returns (p: int)
      requires freep in free && Ordered(size, free) && Linked(ptr, free)
      requires t < |free| && free[t] < bp && (t + 1 < |free| ==> bp < free[t + 1])
      ensures p == free[t]
    {
      AtMostBelow(size, free);
      p := freep;
      ghost var k :| 0 <= k < |free| && free[k] == freep;
      assert LinkAt(ptr, free, k);
      while !(bp > p && bp < ptr[p])
        invariant 0 <= k < |free| && p == free[k] && LinkAt(ptr, free, k)
        decreases if k <= t then t - k else |free| - k + t
      {
        if p >= ptr[p] && (bp > p || bp < ptr[p]) {
          assert k == |free| - 1;
          break;
        }
        p := ptr[p];
        k := Succ(k, |free|);
        assert LinkAt(ptr, free, k);
      }
    }

    /** free's first half: bp takes over the block that follows it, if one begins
        exactly where bp ends, and in any case points past it. */
    method JoinUpper(bp: int, p: int, ghost t: nat) returns (ghost r: nat, ghost s: int)
      requires freep in free && HeapOk(ptr, size, free, alloc, obtained, brk) && bp in alloc
      requires Fits(size, free, t, bp, alloc[bp]) && p == free[t]
      modifies this`ptr, this`size
      ensures Merges(old(size), free, t, r, bp, alloc[bp], s) && (r < |free| ==> bp + s < free[r])
      ensures ptr == old(ptr)[bp := NextOf(free, r)] && size == old(size)[bp := s]
    {
      PlaceFacts(ptr, size, free, alloc, t, bp);
      r, s := t + 1, size[bp];
      if bp + size[bp] == ptr[p] {
        r, s := t + 2, size[bp] + size[free[t + 1]];
        size := size[bp := size[bp] + size[ptr[p]]];
        ptr := ptr[bp := ptr[ptr[p]]];
      } else {
        ptr := ptr[bp := ptr[p]];
        assert size == size[bp := s];
      }
    }

    /** free's second half: the block below takes over bp, if it ends exactly where bp
        begins, or else points to it. */
    method JoinLower(bp: int, p: int, ghost t: nat, ghost r: nat, ghost s: int, ghost ptr0: Words, ghost size0: Words)
      requires HeapOk(ptr0, size0, free, alloc, obtained, brk) && bp in alloc && BASE < bp
      requires t < r <= |free| && p == free[t] && p in size0 && 0 <= size0[p] && p != bp && p + size0[p] <= bp && (p + size0[p] == bp ==> 0 < t)
      requires 0 < alloc[bp] <= s && Merges(size0, free, t, r, bp, alloc[bp], s) && (r < |free| ==> bp + s < free[r])
      requires ptr == ptr0[bp := NextOf(free, r)] && size == size0[bp := s]
      modifies this
      ensures HeapOk(ptr, size, free, alloc, obtained, brk) && freep in free && freep == p
      ensures alloc == old(alloc) - {bp} && obtained == old(obtained) && brk == old(brk)
      ensures exists k :: HasRoom(size, free, k, old(alloc[bp]))
    {
      hide Ordered, Linked, Apart, Covers, Merges, Insert, Absorb;
      ghost var n := alloc[bp];
      if p + size[p] == bp {
        FreedByAbsorb(ptr0, size0, free, alloc, obtained, brk, t, r, bp, s);
        size := size[p := size[p] + size[bp]];
        ptr := ptr[p := ptr[bp]];
        free := Absorb(free, t, r);
        assert free[t] == p && HasRoom(size, free, t, n);
      } else {
        FreedByInsert(ptr0, size0, free, alloc, obtained, brk, t, r, bp, s);
        ptr := ptr[p := bp];
        free := Insert(free, t, r, bp);
        assert free[t] == p && HasRoom(size, free, t + 1, n);
      }
      alloc := alloc - {bp};
      freep := p;
    }

    /** free, of the block whose header is at bp. */
    method Free(bp: int)
      requires Valid() && freep != 0 && bp in alloc
      modifies this
      ensures Valid() && freep != 0
      ensures freep in old(free) && freep < bp && forall b :: b in old(free) && b < bp ==> b <= freep
      ensures alloc == old(alloc) - {bp} && obtained == old(obtained) && brk == old(brk)
      ensures exists k :: HasRoom(size, free, k, old(alloc[bp]))
    {
      ghost var ptr0, size0 := ptr, size;
      ghost var t := FindPlace(size, free, bp, alloc[bp], 0);
      var p := Search(bp, t);
      ghost var r, s := JoinUpper(bp, p, t);
      JoinLower(bp, p, t, r, s, ptr0, size0);
      AtMostBelow(size, free);
    }

    /** morecore; `grant` is the address sbrk returns, or -1 when it fails. */
    method Morecore(nu: nat, grant: int) returns (p: int)
      requires Valid() && freep != 0 && 0 < nu && Granted(grant, brk, nu)
      modifies this
      ensures Valid() && freep != 0 && alloc == old(alloc)
      ensures grant == -1 ==> p == 0 && obtained == old(obtained) && brk == old(brk)
      ensures grant != -1 ==> p == freep && obtained == old(obtained) + Region(grant, Core(nu))
      ensures grant != -1 ==> obtained == old(obtained) + Region(grant, if nu < 4096 then 4096 else nu)
      ensures grant != -1 ==> exists k :: HasRoom(size, free, k, nu)
    {
      hide Ordered, Linked, Apart, Covers, Region;
      if grant == -1 {
        return 0;
      }
      AddRegion(ptr, size, free, alloc, obtained, brk, grant, Core(nu));
      ghost var a0 := alloc;
      size := size[grant := Core(nu)];
      alloc := alloc[grant := Core(nu)];
      obtained := obtained + Region(grant, Core(nu));
      brk := grant + Core(nu);
      Free(grant);
      assert alloc == a0;
      ghost var k :| HasRoom(size, free, k, Core(nu));
      assert HasRoom(size, free, k, nu);
      p := freep;
    }

    /** Hand out n units of the block p at position k; prevp is at position k - 1. */
    method Take(prevp: int, p: int, n: nat, ghost k: nat) returns (q: int)
      requires Valid() && freep != 0 && 0 < n && 1 <= k < |free|
      requires prevp == free[k - 1] && p == free[k] && p in size && n <= size[p]
      modifies this
      ensures Valid() && freep == prevp != 0
      ensures q == p + old(size[p]) - n
      ensures q > 0 && q !in old(alloc) && alloc == old(alloc)[q := n] && obtained == old(obtained) && brk == old(brk)
    {
      hide Ordered, Linked, Apart, Covers;
      q := p;
      AtPosition(ptr, size, free, alloc, obtained, brk, k - 1);
      AtPosition(ptr, size, free, alloc, obtained, brk, k);
      if size[p] == n {
        TakenWhole(ptr, size, free, alloc, obtained, brk, k);
        ptr := ptr[prevp := ptr[p]];
        free := Absorb(free, k - 1, k + 1);
        assert free[k - 1] == prevp;
      } else {
        TakenPart(ptr, size, free, alloc, obtained, brk, k, n);
        size := size[p := size[p] - n];
        q := p + size[p];
        size := size[q := n];
      }
      alloc := alloc[q := n];
      freep := prevp;
    }

    /** malloc: the address after the header, or 0; `calls` counts morecore. */
    method Malloc(nbytes: nat, grant: int) returns (r: int, calls: nat)
      requires Valid() && nbytes < 0x1_0000_0000 && Granted(grant, brk, Units(nbytes))
      modifies this
      ensures Valid() && calls <= 1
      ensures r == 0 ==> calls == 1 && grant == -1 && alloc == old(alloc) && obtained == old(obtained)
      ensures r != 0 ==> r - 1 !in old(alloc) && alloc == old(alloc)[r - 1 := Units(nbytes)]
      ensures r != 0 && calls == 0 && old(freep) != 0 ==> NextFit(old(freep), old(size), old(free), Units(nbytes), r - 1)
      ensures r != 0 ==> obtained == old(obtained) + if calls == 1 then Region(grant, Core(Units(nbytes))) else iset{}
    {
      hide HeapOk, Region, Units, NextFit, AllSmall, Core, Granted;
      var nunits := Units(nbytes);
      calls := 0;
      if freep == 0 {
        Init();
      }
      var prevp := freep;
      ghost var f :| 0 <= f < |free| && free[f] == freep;
      AtPosition(ptr, size, free, alloc, obtained, brk, f);
      ghost var kp, k := f, Succ(f, |free|);
      NothingPassed(size, free, f, nunits);
      var p := ptr[prevp];
      while true
        invariant Valid() && freep != 0 && alloc == old(alloc) && calls <= 1
        invariant 0 <= f < |free| && 0 <= kp < |free| && k == Succ(kp, |free|)
        invariant free[f] == freep && prevp == free[kp] && p == free[k] && AllSmall(size, free, f, k, nunits)
        invariant calls == 0 ==> obtained == old(obtained) && brk == old(brk)
        invariant calls == 0 && old(freep) != 0 ==> free == old(free) && size == old(size) && freep == old(freep)
        invariant calls == 1 ==> obtained == old(obtained) + Region(grant, Core(nunits))
        invariant calls == 1 ==> exists j :: HasRoom(size, free, j, nunits)
        decreases 1 - calls, if k > f then |free| - k + f else f - k
      {
        AtPosition(ptr, size, free, alloc, obtained, brk, k);
        if size[p] >= nunits {
          FitsHere(freep, size, free, nunits, f, k);
          var q := Take(prevp, p, nunits, k);
          return q + 1, calls;
        }
        if p == freep {
          SamePosition(ptr, size, free, alloc, obtained, brk, k, f);
          NoRoom(size, free, f, nunits);
          p := Morecore(nunits, grant);
          calls := calls + 1;
          if p == 0 {
            return 0, calls;
          }
          f :| 0 <= f < |free| && free[f] == freep;
          k := f;
          AtPosition(ptr, size, free, alloc, obtained, brk, k);
          NothingPassed(size, free, f, nunits);
        } else {
          PassOne(size, free, f, k, nunits);
        }
        prevp, kp := p, k;
        p := ptr[p];
        k := Succ(k, |free|);
      }
    }

    /** The first call of malloc: the list is the header `base` alone. */
    method Init()
      requires Valid() && freep == 0
      modifies this
      ensures Valid() && freep == BASE && alloc == old(alloc) && obtained == old(obtained) && brk == old(brk)
    {
      ptr := ptr[BASE := BASE];
      size := size[BASE := 0];
      freep := BASE;
      free := [BASE];
      assert LinkAt(ptr, free, 0);
    }
  }

  /** The units morecore asks sbrk for. */
  function Core(nu: nat): nat {
    if nu < 4096 then 4096 else nu
  }

  /** The number of bytes sbrk is called with: a product of 32 bits read as an int. */
  function SbrkBytes(nu: nat): int {
    var n := Core(nu) * 8 % 0x1_0000_0000;
    if n < 0x8000_0000 then n else n - 0x1_0000_0000
  }

  /** sbrk fails, or gives a region for all the units above everything it gave before. */
  predicate Granted(grant: int, brk: int, nu: nat) {
    grant == -1 || (BASE < grant && brk <= grant && SbrkBytes(nu) == 8 * Core(nu))
  }

  /** morecore asks sbrk for the bytes of all the units exactly for these requests; for
      every other request it asks for nothing or for the heap to shrink. */
  lemma AsksForAllIff(nbytes: nat)
    requires nbytes < 0x1_0000_0000
    ensures SbrkBytes(Units(nbytes)) == 8 * Core(Units(nbytes)) <==> (nbytes + 7) % 0x1_0000_0000 < 0x8000_0000 - 8
    ensures SbrkBytes(Units(nbytes)) == 8 * Core(Units(nbytes)) || SbrkBytes(Units(nbytes)) <= 0
  {
    var n := (nbytes + 7) % 0x1_0000_0000;
    assert 8 * (n / 8) <= n < 8 * (n / 8) + 8;
  }

  /** When sbrk has given nothing, the header that morecore writes at its answer makes a
      block of units that were never obtained. */
  lemma NothingGranted(ptr: Words, size: Words, free: seq<int>, alloc: Words, obtained: iset<int>, brk: int, a: int, n: int,
                       obtained': iset<int>, brk': int)
    requires HeapOk(ptr, size, free, alloc, obtained, brk) && brk <= a && 0 < n && obtained' <= obtained
    ensures !HeapOk(ptr, size[a := n], free, alloc[a := n], obtained', brk')
  {
    assert a !in obtained;
    assert InUse(alloc[a := n], a) by {
      assert a in alloc[a := n] && a <= a < a + alloc[a := n][a];
    }
  }

  /** Position j has been looked at: it lies after f and before k, going round. */
  predicate Passed(f: nat, k: nat, j: nat) {
    if f < k then f < j < k else f < j || j < k
  }

  /** Going round from freep, q is the tail of the first block with n units. */
  ghost predicate NextFit(freep: int, size: Words, free: seq<int>, n: int, q: int) {
    exists f: nat, k: nat ::
      && f < |free| && free[f] == freep && k < |free| && free[k] in size && n <= size[free[k]] && q == free[k] + size[free[k]] - n
      && AllSmall(size, free, f, k, n)
  }

  lemma FitsHere(freep: int, size: Words, free: seq<int>, n: int, f: nat, k: nat)
    requires f < |free| && free[f] == freep && k < |free| && free[k] in size && n <= size[free[k]] && AllSmall(size, free, f, k, n)
    ensures NextFit(freep, size, free, n, free[k] + size[free[k]] - n)
  {
  }

  predicate Within(u: int, a: int, n: int) {
    a <= u < a + n
  }

  /** The units of a region of n from a. */
  ghost function Region(a: int, n: int): iset<int> {
    iset u | Within(u, a, n)
  }

  ghost predicate Small(size: Words, free: seq<int>, j: nat, n: int) {
    j < |free| && free[j] in size && size[free[j]] < n
  }

  /** The blocks looked at so far are too small. */
  ghost predicate AllSmall(size: Words, free: seq<int>, f: nat, k: nat, n: int) {
    forall j :: 0 <= j < |free| && Passed(f, k, j) ==> Small(size, free, j, n)
  }

  lemma NothingPassed(size: Words, free: seq<int>, f: nat, n: int)
    requires f < |free|
    ensures AllSmall(size, free, f, Succ(f, |free|), n)
  {
  }

  lemma PassOne(size: Words, free: seq<int>, f: nat, k: nat, n: int)
    requires f < |free| && k < |free| && k != f && AllSmall(size, free, f, k, n) && free[k] in size && size[free[k]] < n
    ensures AllSmall(size, free, f, Succ(k, |free|), n)
  {
    forall j | 0 <= j < |free| && Passed(f, Succ(k, |free|), j) ensures Small(size, free, j, n) {
      assert j == k || Passed(f, k, j);
    }
  }

  /** All the way round without finding n units: there are none. */
  lemma NoRoom(size: Words, free: seq<int>, f: nat, n: int)
    requires f < |free| && free[f] in size && size[free[f]] < n && AllSmall(size, free, f, f, n)
    ensures forall k: nat :: !HasRoom(size, free, k, n)
  {
    forall k: nat ensures !HasRoom(size, free, k, n) {
      assert k < |free| ==> k == f || Passed(f, f, k);
      assert k < |free| && k != f ==> Small(size, free, k, n);
    }
  }

  lemma AtPosition(ptr: Words, size: Words, free: seq<int>, alloc: Words, obtained: iset<int>, brk: int, k: nat)
    requires HeapOk(ptr, size, free, alloc, obtained, brk) && k < |free|
    ensures free[k] in size && free[k] in ptr && ptr[free[k]] == free[Succ(k, |free|)] == NextOf(free, k + 1) && free[k] > 0
    ensures size[free[k]] > 0 <==> k > 0
    ensures size[free[k]] >= 0
  {
    assert LinkAt(ptr, free, k);
    AtMostBelow(size, free);
  }

  lemma SamePosition(ptr: Words, size: Words, free: seq<int>, alloc: Words, obtained: iset<int>, brk: int, j: nat, k: nat)
    requires HeapOk(ptr, size, free, alloc, obtained, brk) && j < |free| && k < |free| && free[j] == free[k]
    ensures j == k
  {
    AtMostBelow(size, free);
  }

  /** A region from sbrk counts as an allocated block until it is freed. */
  lemma AddRegion(ptr: Words, size: Words, free: seq<int>, alloc: Words, obtained: iset<int>, brk: int, a: int, n: int)
    requires HeapOk(ptr, size, free, alloc, obtained, brk) && brk <= a && 0 < n && BASE < a
    ensures a !in alloc
    ensures HeapOk(ptr, size[a := n], free, alloc[a := n], obtained + Region(a, n), a + n)
  {
    var size', alloc', obtained' := size[a := n], alloc[a := n], obtained + Region(a, n);
    assert forall k :: 0 <= k < |free| ==> free[k] != a;
    forall u ensures u in obtained' <==> InFree(size', free, u) || InUse(alloc', u) {
      SameFree(size, size', free, u);
      UseOneMore(alloc, a, n, u);
      assert u in Region(a, n) <==> Within(u, a, n);
    }
  }

  /** The whole block at position k is handed out. */
  lemma TakenWhole(ptr: Words, size: Words, free: seq<int>, alloc: Words, obtained: iset<int>, brk: int, k: nat)
    requires HeapOk(ptr, size, free, alloc, obtained, brk) && 1 <= k < |free|
    ensures free[k] !in alloc && free[k] in ptr && free[k - 1] in ptr
    ensures HeapOk(ptr[free[k - 1] := ptr[free[k]]], size, Absorb(free, k - 1, k + 1),
                   alloc[free[k] := size[free[k]]], obtained, brk)
  {
    hide Ordered, Linked, InFree, InUse, Apart, Covers, Absorb;
    AtPosition(ptr, size, free, alloc, obtained, brk, k);
    AtPosition(ptr, size, free, alloc, obtained, brk, k - 1);
    WholeFollows(size, free, alloc, k);
    assert size[free[k - 1] := size[free[k - 1]]] == size;
    AbsorbOrdered(size, free, k - 1, k + 1, size[free[k - 1]]);
    AbsorbLinked(ptr, size, free, k - 1, k + 1);
    WholeCovers(size, free, alloc, obtained, k);
    WholeApart(size, free, alloc, k);
  }

  lemma WholeFollows(size: Words, free: seq<int>, alloc: Words, k: nat)
    requires Ordered(size, free) && Apart(size, free, alloc) && 1 <= k < |free|
    ensures free[k] !in alloc && (k + 1 < |free| ==> free[k - 1] + size[free[k - 1]] < free[k + 1])
  {
  }

  lemma WholeCovers(size: Words, free: seq<int>, alloc: Words, obtained: iset<int>, k: nat)
    requires Ordered(size, free) && Covers(size, free, alloc, obtained) && 1 <= k < |free| && free[k] !in alloc
    ensures Covers(size, Absorb(free, k - 1, k + 1), alloc[free[k] := size[free[k]]], obtained)
  {
    hide Absorb, InFree, InUse;
    forall u ensures u in obtained <==> InFree(size, Absorb(free, k - 1, k + 1), u) || InUse(alloc[free[k] := size[free[k]]], u) {
      RemoveFree(size, free, k - 1, u);
      UseOneMore(alloc, free[k], size[free[k]], u);
    }
  }

  lemma WholeApart(size: Words, free: seq<int>, alloc: Words, k: nat)
    requires Ordered(size, free) && Apart(size, free, alloc) && 1 <= k < |free|
    requires Ordered(size, Absorb(free, k - 1, k + 1))
    ensures Apart(size, Absorb(free, k - 1, k + 1), alloc[free[k] := size[free[k]]])
  {
    hide Absorb;
    AtMostBelow(size, free);
    var f, alloc' := Absorb(free, k - 1, k + 1), alloc[free[k] := size[free[k]]];
    forall a, j | a in alloc' && 1 <= j < |f| ensures a + alloc'[a] <= f[j] || f[j] + size[f[j]] <= a {
      var j' := if j < k then j else j + 1;
      assert f[j] == free[j'];
      if a == free[k] {
        assert if j' < k then free[j'] + size[free[j']] < free[k] else free[k] + size[free[k]] < free[j'];
      }
    }
  }

  /** The last n units of the block at position k are handed out. */
  lemma TakenPart(ptr: Words, size: Words, free: seq<int>, alloc: Words, obtained: iset<int>, brk: int, k: nat, n: int)
    requires HeapOk(ptr, size, free, alloc, obtained, brk) && 1 <= k < |free| && 0 < n < size[free[k]]
    ensures var q := free[k] + size[free[k]] - n;
            && q !in alloc
            && HeapOk(ptr, size[free[k] := size[free[k]] - n][q := n], free, alloc[q := n], obtained, brk)
  {
    var q := free[k] + size[free[k]] - n;
    var size' := size[free[k] := size[free[k]] - n][q := n];
    SplitOrdered(size, free, k, n);
    PartApart(size, free, alloc, k, n);
    forall u ensures u in obtained <==> InFree(size', free, u) || InUse(alloc[q := n], u) {
      SplitFree(size, free, k, n, u);
      UseOneMore(alloc, q, n, u);
    }
  }

  lemma PartApart(size: Words, free: seq<int>, alloc: Words, k: nat, n: int)
    requires Ordered(size, free) && Apart(size, free, alloc) && 1 <= k < |free| && 0 < n < size[free[k]]
    requires Ordered(size[free[k] := size[free[k]] - n][free[k] + size[free[k]] - n := n], free)
    requires forall j :: 0 <= j < |free| ==> free[j] != free[k] + size[free[k]] - n
    ensures free[k] + size[free[k]] - n !in alloc
    ensures Apart(size[free[k] := size[free[k]] - n][free[k] + size[free[k]] - n := n], free,
                  alloc[free[k] + size[free[k]] - n := n])
  {
    hide Ordered;
    PartHeaders(size, free, alloc, k, n);
    var q := free[k] + size[free[k]] - n;
    var size', alloc' := size[free[k] := size[free[k]] - n][q := n], alloc[q := n];
    forall a, j | a in alloc' && 1 <= j < |free| ensures a + alloc'[a] <= free[j] || free[j] + size'[free[j]] <= a {
      PartApartAt(size, free, alloc, k, n, a, j);
    }
  }

  lemma PartHeaders(size: Words, free: seq<int>, alloc: Words, k: nat, n: int)
    requires Ordered(size, free) && Apart(size, free, alloc) && 1 <= k < |free| && 0 < n < size[free[k]]
    ensures BASE < free[k] && forall j :: 0 <= j < |free| ==> free[j] in size
    ensures var q := free[k] + size[free[k]] - n;
            forall a :: a in alloc ==> a != q && a != free[k] && (a + alloc[a] <= q || q + n <= a)
  {
    AtMostBelow(size, free);
    forall a | a in alloc ensures a + alloc[a] <= free[k] || free[k] + size[free[k]] <= a {
    }
  }

  lemma PartApartAt(size: Words, free: seq<int>, alloc: Words, k: nat, n: int, a: int, j: nat)
    requires Ordered(size, free) && Apart(size, free, alloc) && 1 <= k < |free| && 1 <= j < |free| && 0 < n < size[free[k]]
    requires a in alloc || a == free[k] + size[free[k]] - n
    requires forall i :: 0 <= i < |free| ==> free[i] != free[k] + size[free[k]] - n
    ensures var q := free[k] + size[free[k]] - n;
            var size', alloc' := size[free[k] := size[free[k]] - n][q := n], alloc[q := n];
            a + alloc'[a] <= free[j] || free[j] + size'[free[j]] <= a
  {
    AtMostBelow(size, free);
    var q := free[k] + size[free[k]] - n;
    if a == q {
      assert j < k ==> free[j] + size[free[j]] < free[k];
      assert k < j ==> free[k] + size[free[k]] < free[j];
    } else {
      assert a + alloc[a] <= free[j] || free[j] + size[free[j]] <= a;
    }
  }

  /** The block at position k has at least n units. */
  ghost predicate HasRoom(size: Words, free: seq<int>, k: nat, n: int) {
    1 <= k < |free| && free[k] in size && n <= size[free[k]]
  }

  /** The block of s units at a, which is the allocated block there together with the
      free block that follows it, if one does, becomes a free block of its own. */
  lemma FreedByInsert(ptr: Words, size: Words, free: seq<int>, alloc: Words, obtained: iset<int>, brk: int,
                      t: nat, r: nat, a: int, s: int)
    requires HeapOk(ptr, size, free, alloc, obtained, brk) && a in alloc
    requires Merges(size, free, t, r, a, alloc[a], s)
    requires free[t] + size[free[t]] < a && (r < |free| ==> a + s < free[r])
    ensures HeapOk(ptr[a := NextOf(free, r)][free[t] := a], size[a := s], Insert(free, t, r, a),
                   alloc - {a}, obtained, brk)
  {
    InsertOrdered(size, free, t, r, a, s);
    InsertLinked(ptr, size, free, t, r, a);
    var f, size', alloc' := Insert(free, t, r, a), size[a := s], alloc - {a};
    forall u ensures u in obtained <==> InFree(size', f, u) || InUse(alloc', u) {
      InsertFree(size, free, t, r, a, alloc[a], s, u);
      UseOneLess(alloc, a, u);
    }
    InsertApart(size, free, alloc, brk, t, r, a, s);
  }

  lemma InsertApart(size: Words, free: seq<int>, alloc: Words, brk: int, t: nat, r: nat, a: int, s: int)
    requires Ordered(size, free) && Apart(size, free, alloc) && a in alloc
    requires forall k :: 0 <= k < |free| ==> free[k] + size[free[k]] <= brk
    requires a + alloc[a] <= brk
    requires Merges(size, free, t, r, a, alloc[a], s)
    requires free[t] + size[free[t]] < a && (r < |free| ==> a + s < free[r])
    requires Ordered(size[a := s], Insert(free, t, r, a))
    ensures Apart(size[a := s], Insert(free, t, r, a), alloc - {a})
    ensures forall k :: 0 <= k < |Insert(free, t, r, a)| ==>
              Insert(free, t, r, a)[k] + size[a := s][Insert(free, t, r, a)[k]] <= brk
  {
    hide Insert, Merges;
    MergesGrow(size, free, t, r, a, alloc[a], s);
    var f, size', alloc' := Insert(free, t, r, a), size[a := s], alloc - {a};
    forall b, k | b in alloc' && 1 <= k < |f| ensures b + alloc'[b] <= f[k] || f[k] + size'[f[k]] <= b {
      InsertApartAt(size, free, alloc, t, r, a, s, b, k);
    }
    forall k | 0 <= k < |f| ensures f[k] + size'[f[k]] <= brk {
      InsertAt(size, free, t, r, a, alloc[a], s, k);
    }
  }

  /** The blocks of the list with a put in: a itself, and the others as they were. */
  lemma InsertAt(size: Words, free: seq<int>, t: nat, r: nat, a: int, s0: int, s: int, k: nat)
    requires Ordered(size, free) && 0 < s0 && Merges(size, free, t, r, a, s0, s) && k < |Insert(free, t, r, a)|
    requires free[t] + size[free[t]] < a && (r < |free| ==> a + s < free[r])
    ensures var f, size' := Insert(free, t, r, a), size[a := s];
            if k == t + 1 then
              f[k] == a && if r == t + 1 then s == s0 else t + 1 < |free| && a + s == free[t + 1] + size[free[t + 1]]
            else
              var j := if k <= t then k else k - t - 2 + r;
              0 <= j < |free| && f[k] == free[j] && f[k] in size' && size'[f[k]] == size[free[j]]
  {
    hide Insert;
    OthersStay(size, free, t, r, a, s);
  }

  lemma InsertApartAt(size: Words, free: seq<int>, alloc: Words, t: nat, r: nat, a: int, s: int, b: int, k: nat)
    requires Ordered(size, free) && Apart(size, free, alloc) && a in alloc && b in alloc && b != a
    requires Merges(size, free, t, r, a, alloc[a], s) && 1 <= k < |Insert(free, t, r, a)|
    requires free[t] + size[free[t]] < a && (r < |free| ==> a + s < free[r])
    requires Ordered(size[a := s], Insert(free, t, r, a))
    ensures var f, size' := Insert(free, t, r, a), size[a := s];
            b + alloc[b] <= f[k] || f[k] + size'[f[k]] <= b
  {
    hide Insert;
    InsertAt(size, free, t, r, a, alloc[a], s, k);
    assert b + alloc[b] <= a || a + alloc[a] <= b;
    if k == t + 1 {
      if r == t + 2 {
        assert b + alloc[b] <= free[t + 1] || free[t + 1] + size[free[t + 1]] <= b;
      }
    } else {
      var j := if k <= t then k else k - t - 2 + r;
      assert b + alloc[b] <= free[j] || free[j] + size[free[j]] <= b;
    }
  }

  /** The same when it begins where the block below ends: that block grows. */
  lemma FreedByAbsorb(ptr: Words, size: Words, free: seq<int>, alloc: Words, obtained: iset<int>, brk: int,
                      t: nat, r: nat, a: int, s: int)
    requires HeapOk(ptr, size, free, alloc, obtained, brk) && a in alloc
    requires 0 < t && Merges(size, free, t, r, a, alloc[a], s)
    requires free[t] + size[free[t]] == a && (r < |free| ==> a + s < free[r])
    ensures HeapOk(ptr[a := NextOf(free, r)][free[t] := NextOf(free, r)],
                   size[a := s][free[t] := size[free[t]] + s], Absorb(free, t, r), alloc - {a}, obtained, brk)
  {
    hide Linked, InFree, InUse, Absorb, Covers, Apart;
    AtMostBelow(size, free);
    HeadersApart(size, free, alloc, a);
    var sizeA := size[a := s];
    assert Ordered(sizeA, free);
    LinkedElsewhere(ptr, free, a, NextOf(free, r));
    AbsorbOrdered(sizeA, free, t, r, size[free[t]] + s);
    AbsorbLinked(ptr[a := NextOf(free, r)], sizeA, free, t, r);
    AbsorbCovers(size, free, alloc, obtained, t, r, a, s);
    AbsorbApart(size, free, alloc, t, r, a, s);
    AbsorbBelow(size, free, brk, t, r, a, alloc[a], s);
  }

  lemma AbsorbCovers(size: Words, free: seq<int>, alloc: Words, obtained: iset<int>, t: nat, r: nat, a: int, s: int)
    requires Ordered(size, free) && Covers(size, free, alloc, obtained) && a in alloc && 0 < alloc[a]
    requires 0 < t && Merges(size, free, t, r, a, alloc[a], s) && forall k :: 0 <= k < |free| ==> free[k] != a
    requires free[t] + size[free[t]] == a && (r < |free| ==> a + s < free[r])
    ensures Covers(size[a := s][free[t] := size[free[t]] + s], Absorb(free, t, r), alloc - {a}, obtained)
  {
    hide Absorb, InFree, InUse;
    var sizeA := size[a := s];
    assert Ordered(sizeA, free);
    var f, size' := Absorb(free, t, r), sizeA[free[t] := size[free[t]] + s];
    forall u ensures u in obtained <==> InFree(size', f, u) || InUse(alloc - {a}, u) {
      AbsorbFree(sizeA, free, t, r, a, alloc[a], s, u);
      SameFree(size, sizeA, free, u);
      UseOneLess(alloc, a, u);
    }
  }

  /** The header of an allocated block is no list position. */
  lemma HeadersApart(size: Words, free: seq<int>, alloc: Words, a: int)
    requires Ordered(size, free) && Apart(size, free, alloc) && a in alloc
    ensures 0 < alloc[a] && forall k :: 0 <= k < |free| ==> free[k] != a
  {
  }

  lemma LinkedElsewhere(ptr: Words, free: seq<int>, a: int, v: int)
    requires Linked(ptr, free) && forall k :: 0 <= k < |free| ==> free[k] != a
    ensures Linked(ptr[a := v], free)
  {
    var ptr' := ptr[a := v];
    forall k | 0 <= k < |free| ensures LinkAt(ptr', free, k) {
      assert LinkAt(ptr, free, k);
    }
  }

  /** What free finds at the place it has searched for. */
  lemma PlaceFacts(ptr: Words, size: Words, free: seq<int>, alloc: Words, t: nat, a: int)
    requires Ordered(size, free) && Linked(ptr, free) && Apart(size, free, alloc) && a in alloc
    requires Fits(size, free, t, a, alloc[a])
    ensures size[a] == alloc[a] && a != free[t] && (free[t] + size[free[t]] == a ==> 0 < t)
    ensures free[t] in ptr && ptr[free[t]] == NextOf(free, t + 1)
    ensures a + size[a] == ptr[free[t]] ==> t + 1 < |free|
    ensures t + 1 < |free| ==> free[t + 1] in ptr && free[t + 1] != a && ptr[free[t + 1]] == NextOf(free, t + 2)
    ensures t + 2 < |free| ==> free[t + 1] + size[free[t + 1]] < free[t + 2]
  {
    assert LinkAt(ptr, free, t);
    if t + 1 < |free| {
      assert LinkAt(ptr, free, t + 1);
    }
  }

  lemma SameFree(size: Words, size': Words, free: seq<int>, u: int)
    requires forall k :: 0 <= k < |free| ==> free[k] in size && free[k] in size' && size'[free[k]] == size[free[k]]
    ensures InFree(size', free, u) <==> InFree(size, free, u)
  {
    if InFree(size, free, u) {
      var k :| At(size, free, k, u);
      assert At(size', free, k, u);
    }
    if InFree(size', free, u) {
      var k :| At(size', free, k, u);
      assert At(size, free, k, u);
    }
  }

  lemma AbsorbApart(size: Words, free: seq<int>, alloc: Words, t: nat, r: nat, a: int, s: int)
    requires Ordered(size, free) && Apart(size, free, alloc) && a in alloc
    requires 0 < t && Merges(size, free, t, r, a, alloc[a], s)
    requires free[t] + size[free[t]] == a && (r < |free| ==> a + s < free[r])
    requires Ordered(size[a := s][free[t] := size[free[t]] + s], Absorb(free, t, r))
    ensures Apart(size[a := s][free[t] := size[free[t]] + s], Absorb(free, t, r), alloc - {a})
  {
    hide Absorb;
    AtMostBelow(size, free);
    var f, size', alloc' := Absorb(free, t, r), size[a := s][free[t] := size[free[t]] + s], alloc - {a};
    forall b | b in alloc' ensures size'[b] == alloc'[b] {
      HeadersApart(size, free, alloc, b);
    }
    HeadersApart(size, free, alloc, a);
    forall b, k | b in alloc' && 1 <= k < |f| ensures b + alloc'[b] <= f[k] || f[k] + size'[f[k]] <= b {
      assert f[k] == free[if k <= t then k else k - t - 1 + r];
      if k == t {
        assert b + alloc[b] <= a || a + alloc[a] <= b;
        assert b + alloc[b] <= free[t] || a <= b;
        if r == t + 2 {
          assert b + alloc[b] <= free[t + 1] || free[t + 1] + size[free[t + 1]] <= b;
        }
      }
    }
  }

  lemma AbsorbBelow(size: Words, free: seq<int>, brk: int, t: nat, r: nat, a: int, s0: int, s: int)
    requires Ordered(size, free) && a + s0 <= brk && Merges(size, free, t, r, a, s0, s)
    requires forall k :: 0 <= k < |free| ==> free[k] != a && free[k] + size[free[k]] <= brk
    requires free[t] + size[free[t]] == a
    requires Ordered(size[a := s][free[t] := size[free[t]] + s], Absorb(free, t, r))
    ensures forall k :: 0 <= k < |Absorb(free, t, r)| ==>
              Absorb(free, t, r)[k] + size[a := s][free[t] := size[free[t]] + s][Absorb(free, t, r)[k]] <= brk
  {
    hide Absorb;
    AtMostBelow(size, free);
    var f, size' := Absorb(free, t, r), size[a := s][free[t] := size[free[t]] + s];
    forall k | 0 <= k < |f| ensures f[k] + size'[f[k]] <= brk {
      assert f[k] == free[if k <= t then k else k - t - 1 + r];
    }
  }

  /** Each unit obtained from sbrk lies in exactly one block, free or allocated, and
      no other unit lies in any; so allocated blocks never overlap and free and
      allocated units add up to the units obtained. */
  lemma UnitsPartitioned(ptr: Words, size: Words, free: seq<int>, alloc: Words, obtained: iset<int>, brk: int, u: int)
    requires HeapOk(ptr, size, free, alloc, obtained, brk)
    ensures u in obtained <==> InFree(size, free, u) || InUse(alloc, u)
    ensures !(InFree(size, free, u) && InUse(alloc, u))
    ensures forall j, k :: At(size, free, j, u) && At(size, free, k, u) ==> j == k
    ensures forall a, b :: a in alloc && b in alloc && a <= u < a + alloc[a] && b <= u < b + alloc[b] ==> a == b
  {
    AtMostBelow(size, free);
  }
}
