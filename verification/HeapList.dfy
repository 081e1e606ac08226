/** The circular free list of the user-level allocator, as a sorted sequence of
    block addresses. Addresses and sizes count header-sized units. */
module HeapList {

  /** The address of the static header `base`; the heap lies above it. */
  const BASE: int := 1

  type Words = map<int, int>

  /** The position after k in a ring of n. */
  function Succ(k: nat, n: nat): nat {
    if k + 1 < n then k + 1 else 0
  }

  /** Address-ordered, starting at base, with a gap after each block: neighbouring
      free blocks have been merged. */
  ghost predicate Ordered(size: Words, free: seq<int>) {
    && |free| > 0 && free[0] == BASE
    && (forall k :: 0 <= k < |free| ==> free[k] in size)
    && size[BASE] == 0
    && (forall k :: 1 <= k < |free| ==> size[free[k]] > 0)
    && (forall j, k :: 0 <= j < k < |free| ==> free[j] + size[free[j]] < free[k])
  }

  /** The pointer of the block at position k leads to the next one. */
  ghost predicate LinkAt(ptr: Words, free: seq<int>, k: nat)
    requires k < |free|
  {
    free[k] in ptr && ptr[free[k]] == free[Succ(k, |free|)]
  }

  /** The pointers run around the ring. */
  ghost predicate Linked(ptr: Words, free: seq<int>) {
    forall k :: 0 <= k < |free| ==> LinkAt(ptr, free, k)
  }

  /** Unit u lies in the block at position k. */
  ghost predicate At(size: Words, free: seq<int>, k: int, u: int) {
    1 <= k < |free| && free[k] in size && free[k] <= u < free[k] + size[free[k]]
  }

  /** Unit u lies in a block of the free list. */
  ghost predicate InFree(size: Words, free: seq<int>, u: int) {
    exists k :: At(size, free, k, u)
  }

  /** Unit u lies in an allocated block. */
  ghost predicate InUse(alloc: Words, u: int) {
    exists a :: a in alloc && a <= u < a + alloc[a]
  }

  /** Allocated blocks overlap neither each other nor a free block, and their
      headers carry their sizes. */
  ghost predicate Apart(size: Words, free: seq<int>, alloc: Words)
    requires Ordered(size, free)
  {
    && (forall a :: a in alloc ==> BASE < a && 0 < alloc[a] && a in size && size[a] == alloc[a])
    && (forall a, k :: a in alloc && 1 <= k < |free| ==> a + alloc[a] <= free[k] || free[k] + size[free[k]] <= a)
    && (forall a, b :: a in alloc && b in alloc && a != b ==> a + alloc[a] <= b || b + alloc[b] <= a)
  }

  /** The free and the allocated blocks are exactly the units obtained. */
  ghost predicate Covers(size: Words, free: seq<int>, alloc: Words, obtained: iset<int>) {
    forall u :: u in obtained <==> InFree(size, free, u) || InUse(alloc, u)
  }

  // ----- the place for a block -----

  /** Block a of s units fits between position t and the next. */
  ghost predicate Fits(size: Words, free: seq<int>, t: nat, a: int, s: int)
    requires Ordered(size, free)
  {
    && t < |free| && 0 < s && free[t] < a && free[t] + size[free[t]] <= a
    && (t + 1 < |free| ==> a + s <= free[t + 1])
  }

  /** Any block that overlaps no free block fits in exactly one place. */
  lemma {:induction false} FindPlace(size: Words, free: seq<int>, a: int, s: int, t: nat) returns (r: nat)
    requires Ordered(size, free) && BASE < a && 0 < s && t < |free| && free[t] < a
    requires forall k :: 1 <= k < |free| ==> a + s <= free[k] || free[k] + size[free[k]] <= a
    ensures Fits(size, free, r, a, s)
    decreases |free| - t
  {
    if t + 1 < |free| && free[t + 1] < a {
      r := FindPlace(size, free, a, s, t + 1);
    } else {
      r := t;
    }
  }

  // ----- putting a block in -----

  /** The block [a, a + s) replaces positions t + 1 .. r - 1. */
  function Insert(free: seq<int>, t: nat, r: nat, a: int): (f: seq<int>)
    requires t < r <= |free|
    ensures |f| == |free| - r + t + 2 && f[t + 1] == a
    ensures forall k :: 0 <= k <= t ==> f[k] == free[k]
    ensures forall k :: t + 2 <= k < |f| ==> f[k] == free[k - t - 2 + r]
  {
    free[..t + 1] + [a] + free[r..]
  }

  /** The block at position t grows over positions t + 1 .. r - 1. */
  function Absorb(free: seq<int>, t: nat, r: nat): (f: seq<int>)
    requires t < r <= |free|
    ensures |f| == |free| - r + t + 1
    ensures forall k :: 0 <= k <= t ==> f[k] == free[k]
    ensures forall k :: t + 1 <= k < |f| ==> f[k] == free[k - t - 1 + r]
  {
    free[..t + 1] + free[r..]
  }

  function NextOf(free: seq<int>, r: nat): int {
    if r < |free| then free[r] else BASE
  }

  lemma InsertOrdered(size: Words, free: seq<int>, t: nat, r: nat, a: int, s: int)
    requires Ordered(size, free) && t < r <= |free| && 0 < s
    requires free[t] + size[free[t]] < a && (r < |free| ==> a + s < free[r])
    ensures Ordered(size[a := s], Insert(free, t, r, a))
  {
    hide Insert;
    var f := Insert(free, t, r, a);
    var size' := size[a := s];
    AtMostBelow(size, free);
    forall k | 0 <= k < |f| && k != t + 1 ensures f[k] in size && f[k] != a && (k <= t ==> f[k] < a) && (k > t ==> a + s < f[k]) {
      if k <= t {
        assert f[k] == free[k] <= free[t];
      } else {
        assert f[k] == free[k - t - 2 + r] >= free[r];
      }
    }
    forall j, k | 0 <= j < k < |f| ensures f[j] + size'[f[j]] < f[k] {
      if k == t + 1 {
        assert j <= t && (j < t ==> free[j] + size[free[j]] < free[t]);
      } else if j != t + 1 {
        var j', k' := if j <= t then j else j - t - 2 + r, if k <= t then k else k - t - 2 + r;
        assert f[j] == free[j'] && f[k] == free[k'] && j' < k';
      }
    }
    forall k | 1 <= k < |f| ensures size'[f[k]] > 0 {
      if k > t + 1 {
        assert f[k] == free[k - t - 2 + r];
      }
    }
  }

  lemma AtMostBelow(size: Words, free: seq<int>)
    requires Ordered(size, free)
    ensures forall j, k :: 0 <= j < k < |free| ==> free[j] < free[k]
    ensures forall j, k :: 0 <= j <= k < |free| ==> free[j] <= free[k]
  {
    forall j, k | 0 <= j < k < |free| ensures free[j] < free[k] {
      if j > 0 { assert size[free[j]] > 0; }
    }
  }

  lemma InsertLinked(ptr: Words, size: Words, free: seq<int>, t: nat, r: nat, a: int)
    requires Ordered(size, free) && Linked(ptr, free) && t < r <= |free|
    requires free[t] < a && (r < |free| ==> a < free[r])
    ensures Linked(ptr[a := NextOf(free, r)][free[t] := a], Insert(free, t, r, a))
  {
    hide Insert;
    var f := Insert(free, t, r, a);
    AtMostBelow(size, free);
    var ptr' := ptr[a := NextOf(free, r)][free[t] := a];
    forall k | 0 <= k < |f| ensures LinkAt(ptr', f, k) {
      InsertLinkAt(ptr, size, free, t, r, a, k);
    }
  }

  lemma InsertLinkAt(ptr: Words, size: Words, free: seq<int>, t: nat, r: nat, a: int, k: nat)
    requires Ordered(size, free) && Linked(ptr, free) && t < r <= |free|
    requires free[t] < a && (r < |free| ==> a < free[r]) && k < |Insert(free, t, r, a)|
    ensures LinkAt(ptr[a := NextOf(free, r)][free[t] := a], Insert(free, t, r, a), k)
  {
    hide Insert;
    var f := Insert(free, t, r, a);
    AtMostBelow(size, free);
    if k < t {
      assert LinkAt(ptr, free, k);
      assert f[k] == free[k] < free[t] && f[k + 1] == free[k + 1];
    } else if k > t + 1 {
      var k' := k - t - 2 + r;
      assert LinkAt(ptr, free, k');
      assert f[k] == free[k'] >= free[r] > a;
      assert k + 1 < |f| ==> f[k + 1] == free[k' + 1];
    } else if k == t + 1 && r < |free| {
      assert f[t + 2] == free[r];
    }
  }

  lemma AbsorbOrdered(size: Words, free: seq<int>, t: nat, r: nat, s: int)
    requires Ordered(size, free) && t < r <= |free| && size[free[t]] <= s && (t == 0 ==> s == 0)
    requires r < |free| ==> free[t] + s < free[r]
    ensures Ordered(size[free[t] := s], Absorb(free, t, r))
  {
    hide Absorb;
    var f := Absorb(free, t, r);
    var size' := size[free[t] := s];
    AtMostBelow(size, free);
    forall j, k | 0 <= j < k < |f| ensures f[j] in size' && f[k] in size' && size'[f[k]] > 0 && f[j] + size'[f[j]] < f[k] {
      var j', k' := if j <= t then j else j - t - 1 + r, if k <= t then k else k - t - 1 + r;
      assert f[j] == free[j'] && f[k] == free[k'] && j' < k';
      assert k > t ==> free[k'] >= free[r];
    }
  }

  lemma AbsorbLinked(ptr: Words, size: Words, free: seq<int>, t: nat, r: nat)
    requires Ordered(size, free) && Linked(ptr, free) && t < r <= |free|
    ensures Linked(ptr[free[t] := NextOf(free, r)], Absorb(free, t, r))
  {
    hide Absorb;
    var f := Absorb(free, t, r);
    AtMostBelow(size, free);
    var ptr' := ptr[free[t] := NextOf(free, r)];
    forall k | 0 <= k < |f| ensures LinkAt(ptr', f, k) {
      if k < t {
        assert LinkAt(ptr, free, k);
        assert f[k] == free[k] < free[t] && f[k + 1] == free[k + 1];
      } else if k > t {
        var k' := k - t - 1 + r;
        assert LinkAt(ptr, free, k');
        assert f[k] == free[k'] > free[t];
        if k + 1 < |f| {
          assert f[k + 1] == free[k' + 1];
        }
      } else if r < |free| {
        assert f[t + 1] == free[r];
      }
    }
  }

  // ----- which units are free -----

  /** What lies between position t and r of the list, if anything, is one block that
      begins where a block of s0 units at a ends; together they have s units. */
  ghost predicate Merges(size: Words, free: seq<int>, t: nat, r: nat, a: int, s0: int, s: int)
    requires Ordered(size, free)
  {
    || (t < r == t + 1 <= |free| && s == s0)
    || (t < r == t + 2 <= |free| && a + s0 == free[t + 1] && s == s0 + size[free[t + 1]])
  }

  lemma InsertFree(size: Words, free: seq<int>, t: nat, r: nat, a: int, s0: int, s: int, u: int)
    requires Ordered(size, free) && 0 < s0 && Merges(size, free, t, r, a, s0, s)
    requires free[t] + size[free[t]] < a && (r < |free| ==> a + s < free[r])
    ensures InFree(size[a := s], Insert(free, t, r, a), u) <==> InFree(size, free, u) || a <= u < a + s0
  {
    hide Insert, Merges;
    MergesGrow(size, free, t, r, a, s0, s);
    var f, size' := Insert(free, t, r, a), size[a := s];
    if k :| At(size, free, k, u) {
      InsertKeeps(size, free, t, r, a, s0, s, u, k);
    }
    if a <= u < a + s0 {
      assert f[t + 1] == a;
      assert At(size', f, t + 1, u);
    }
    if k :| At(size', f, k, u) {
      InsertCame(size, free, t, r, a, s0, s, u, k);
    }
  }

  lemma MergesGrow(size: Words, free: seq<int>, t: nat, r: nat, a: int, s0: int, s: int)
    requires Ordered(size, free) && Merges(size, free, t, r, a, s0, s)
    ensures s0 <= s && t < r <= |free|
  {
  }

  lemma InsertKeeps(size: Words, free: seq<int>, t: nat, r: nat, a: int, s0: int, s: int, u: int, k: int)
    requires Ordered(size, free) && 0 < s0 && Merges(size, free, t, r, a, s0, s)
    requires free[t] + size[free[t]] < a && (r < |free| ==> a + s < free[r]) && At(size, free, k, u)
    ensures InFree(size[a := s], Insert(free, t, r, a), u)
  {
    hide Insert;
    var f, size' := Insert(free, t, r, a), size[a := s];
    OthersStay(size, free, t, r, a, s);
    assert At(size', f, if k <= t then k else if k < r then t + 1 else k - r + t + 2, u);
  }

  lemma InsertCame(size: Words, free: seq<int>, t: nat, r: nat, a: int, s0: int, s: int, u: int, k: int)
    requires Ordered(size, free) && 0 < s0 && Merges(size, free, t, r, a, s0, s)
    requires free[t] + size[free[t]] < a && (r < |free| ==> a + s < free[r]) && At(size[a := s], Insert(free, t, r, a), k, u)
    ensures InFree(size, free, u) || a <= u < a + s0
  {
    hide Insert;
    OthersStay(size, free, t, r, a, s);
    if k != t + 1 || a + s0 <= u {
      assert At(size, free, if k <= t then k else if k == t + 1 then t + 1 else k - t - 2 + r, u);
    }
  }

  /** Away from positions t + 1 .. r - 1 no block begins at a. */
  lemma OthersStay(size: Words, free: seq<int>, t: nat, r: nat, a: int, s: int)
    requires Ordered(size, free) && t < r <= |free| && 0 < s
    requires free[t] + size[free[t]] < a && (r < |free| ==> a + s < free[r])
    ensures forall k :: 0 <= k <= t ==> free[k] != a
    ensures forall k :: r <= k < |free| ==> free[k] != a
  {
    AtMostBelow(size, free);
    assert forall k :: 0 <= k <= t ==> free[k] <= free[t];
    assert forall k :: r <= k < |free| ==> free[r] <= free[k];
  }

  lemma AbsorbFree(size: Words, free: seq<int>, t: nat, r: nat, a: int, s0: int, s: int, u: int)
    requires Ordered(size, free) && 0 < s0 && 0 < t && Merges(size, free, t, r, a, s0, s)
    requires free[t] + size[free[t]] == a && (r < |free| ==> a + s < free[r])
    ensures InFree(size[free[t] := size[free[t]] + s], Absorb(free, t, r), u) <==>
            InFree(size, free, u) || a <= u < a + s0
  {
    hide Absorb, Merges;
    MergesGrow(size, free, t, r, a, s0, s);
    var f, size' := Absorb(free, t, r), size[free[t] := size[free[t]] + s];
    if k :| At(size, free, k, u) {
      AbsorbKeeps(size, free, t, r, a, s0, s, u, k);
    }
    if a <= u < a + s0 {
      assert At(size', f, t, u);
    }
    if k :| At(size', f, k, u) {
      AbsorbCame(size, free, t, r, a, s0, s, u, k);
    }
  }

  lemma AbsorbKeeps(size: Words, free: seq<int>, t: nat, r: nat, a: int, s0: int, s: int, u: int, k: int)
    requires Ordered(size, free) && 0 < s0 && 0 < t && Merges(size, free, t, r, a, s0, s)
    requires free[t] + size[free[t]] == a && At(size, free, k, u)
    ensures InFree(size[free[t] := size[free[t]] + s], Absorb(free, t, r), u)
  {
    hide Absorb;
    AtMostBelow(size, free);
    var f, size' := Absorb(free, t, r), size[free[t] := size[free[t]] + s];
    assert k != t ==> free[k] != free[t];
    assert At(size', f, if k <= t then k else if k < r then t else k - r + t + 1, u);
  }

  lemma AbsorbCame(size: Words, free: seq<int>, t: nat, r: nat, a: int, s0: int, s: int, u: int, k: int)
    requires Ordered(size, free) && 0 < s0 && 0 < t && Merges(size, free, t, r, a, s0, s)
    requires free[t] + size[free[t]] == a && At(size[free[t] := size[free[t]] + s], Absorb(free, t, r), k, u)
    ensures InFree(size, free, u) || a <= u < a + s0
  {
    hide Absorb;
    AtMostBelow(size, free);
    var j := if k <= t then k else k - t - 1 + r;
    assert j != t ==> free[j] != free[t];
    if k != t || u < a || a + s0 <= u {
      assert At(size, free, if k == t && a <= u then t + 1 else j, u);
    }
  }

  /** Taking the whole block at position t + 1 out of the list. */
  lemma RemoveFree(size: Words, free: seq<int>, t: nat, u: int)
    requires Ordered(size, free) && t + 1 < |free|
    ensures InFree(size, free, u) <==>
            InFree(size, Absorb(free, t, t + 2), u) || free[t + 1] <= u < free[t + 1] + size[free[t + 1]]
  {
    hide Absorb;
    var f := Absorb(free, t, t + 2);
    if InFree(size, free, u) {
      var k :| At(size, free, k, u);
      if k != t + 1 {
        assert At(size, f, if k <= t then k else k - 1, u);
      }
    }
    if InFree(size, f, u) {
      var k :| At(size, f, k, u);
      assert At(size, free, if k <= t then k else k + 1, u);
    }
    if free[t + 1] <= u < free[t + 1] + size[free[t + 1]] {
      assert At(size, free, t + 1, u);
    }
  }

  /** Taking the last n units of the block at position k. */
  lemma SplitOrdered(size: Words, free: seq<int>, k: nat, n: int)
    requires Ordered(size, free) && 1 <= k < |free| && 0 < n < size[free[k]]
    ensures var q := free[k] + size[free[k]] - n;
            && (forall j :: 0 <= j < |free| ==> free[j] != q)
            && Ordered(size[free[k] := size[free[k]] - n][q := n], free)
  {
    AtMostBelow(size, free);
    var q := free[k] + size[free[k]] - n;
    forall j | 0 <= j < |free| ensures free[j] != q {
      if j <= k {
        assert free[j] <= free[k];
      }
    }
    var size' := size[free[k] := size[free[k]] - n][q := n];
    forall i, j | 0 <= i < j < |free| ensures free[i] + size'[free[i]] < free[j] {
      assert size'[free[i]] <= size[free[i]];
    }
  }

  lemma SplitFree(size: Words, free: seq<int>, k: nat, n: int, u: int)
    requires Ordered(size, free) && 1 <= k < |free| && 0 < n < size[free[k]]
    requires forall j :: 0 <= j < |free| ==> free[j] != free[k] + size[free[k]] - n
    ensures var q := free[k] + size[free[k]] - n;
            var size' := size[free[k] := size[free[k]] - n][q := n];
            InFree(size, free, u) <==> InFree(size', free, u) || q <= u < q + n
  {
    AtMostBelow(size, free);
    var q := free[k] + size[free[k]] - n;
    var size' := size[free[k] := size[free[k]] - n][q := n];
    if InFree(size, free, u) {
      var j :| At(size, free, j, u);
      if j != k || u < q {
        assert At(size', free, j, u);
      }
    }
    if InFree(size', free, u) {
      var j :| At(size', free, j, u);
      assert At(size, free, j, u);
    }
    if q <= u < q + n {
      assert At(size, free, k, u);
    }
  }

  // ----- which units are in use -----

  lemma UseOneMore(alloc: Words, a: int, n: int, u: int)
    requires a !in alloc
    ensures InUse(alloc[a := n], u) <==> InUse(alloc, u) || a <= u < a + n
  {
    if x :| x in alloc && x <= u < x + alloc[x] {
      assert x in alloc[a := n];
    }
    if a <= u < a + n {
      assert a in alloc[a := n];
    }
  }

  lemma UseOneLess(alloc: Words, a: int, u: int)
    requires a in alloc
    ensures InUse(alloc, u) <==> InUse(alloc - {a}, u) || a <= u < a + alloc[a]
  {
    if x :| x in alloc && x <= u < x + alloc[x] {
      if x != a {
        assert x in alloc - {a};
      }
    }
  }
}
