/** The circular doubly linked list of buffers, as next and prev indices. Index NBUF is
    the list head. */
module BufRing {

  const NBUF: nat := 30

  /** The ring from the head on: the most recently used buffer first. */
  function Cycle(ring: seq<int>): (c: seq<int>)
    ensures |c| == |ring| + 1 && c[0] == NBUF && forall k :: 0 < k <= |ring| ==> c[k] == ring[k - 1]
  {
    [NBUF] + ring
  }

  function After(n: int, k: int): int {
    if k == n then 0 else k + 1
  }

  /** Position k and the one after it point at each other. */
  predicate LinkAt(next: seq<int>, prev: seq<int>, c: seq<int>, k: int)
    requires |next| == |prev| == NBUF + 1 && 0 <= k < |c| && InRange(c)
  {
    next[c[k]] == c[After(|c| - 1, k)] && prev[c[After(|c| - 1, k)]] == c[k]
  }

  predicate InRange(c: seq<int>) {
    forall k :: 0 <= k < |c| ==> 0 <= c[k] <= NBUF
  }

  predicate Distinct(ring: seq<int>) {
    forall j, k :: 0 <= j < k < |ring| ==> ring[j] != ring[k]
  }

  predicate Buffers(ring: seq<int>) {
    Distinct(ring) && forall k :: 0 <= k < |ring| ==> 0 <= ring[k] < NBUF
  }

  ghost predicate Linked(next: seq<int>, prev: seq<int>, ring: seq<int>) {
    && |next| == |prev| == NBUF + 1 && Buffers(ring)
    && forall k :: 0 <= k <= |ring| ==> LinkAt(next, prev, Cycle(ring), k)
  }

  function Without(ring: seq<int>, k: nat): seq<int>
    requires k < |ring|
  {
    ring[..k] + ring[k + 1..]
  }

  /** The link at position j of the cycle d, which is c without position i. */
  lemma UnlinkedAt(next: seq<int>, prev: seq<int>, c: seq<int>, d: seq<int>, i: nat, j: nat)
    requires |next| == |prev| == NBUF + 1 && InRange(c) && Distinct(c) && 0 < i < |c| && j < |d|
    requires |d| == |c| - 1 && InRange(d)
    requires forall m :: 0 <= m < |d| ==> d[m] == c[if m < i then m else m + 1]
    requires LinkAt(next, prev, c, i - 1) && LinkAt(next, prev, c, i)
    requires LinkAt(next, prev, c, if j < i then j else j + 1)
    ensures LinkAt(next[prev[c[i]] := next[c[i]]], prev[next[c[i]] := prev[c[i]]], d, j)
  {
    var n := |c| - 1;
    assert prev[c[i]] == c[i - 1] && next[c[i]] == c[After(n, i)];
    var at := if j < i then j else j + 1;
    if j == i - 1 {
      assert d[After(n - 1, j)] == c[After(n, i)];
    } else {
      assert d[After(n - 1, j)] == c[After(n, at)];
      assert c[at] != c[i - 1] && c[After(n, at)] != c[After(n, i)];
    }
  }

  /** Taking the buffer at position k out by its own links. */
  lemma Unlinked(next: seq<int>, prev: seq<int>, ring: seq<int>, k: nat)
    requires Linked(next, prev, ring) && k < |ring|
    ensures var b := ring[k];
            && 0 <= next[b] <= NBUF && 0 <= prev[b] <= NBUF
            && Linked(next[prev[b] := next[b]], prev[next[b] := prev[b]], Without(ring, k))
  {
    var b, c := ring[k], Cycle(ring);
    CycleDistinct(ring);
    assert LinkAt(next, prev, c, k) && LinkAt(next, prev, c, k + 1);
    assert c[k + 1] == b && 0 <= next[b] <= NBUF && 0 <= prev[b] <= NBUF;
    var n2, p2, r2 := next[prev[b] := next[b]], prev[next[b] := prev[b]], Without(ring, k);
    CycleDistinct(r2);
    hide LinkAt;
    forall j | 0 <= j <= |r2| ensures LinkAt(n2, p2, Cycle(r2), j) {
      UnlinkedAt(next, prev, c, Cycle(r2), k + 1, j);
    }
  }

  lemma CycleDistinct(ring: seq<int>)
    requires Buffers(ring)
    ensures Distinct(Cycle(ring)) && InRange(Cycle(ring))
  {
  }

  /** Putting b right after the head. */
  lemma Pushed(next: seq<int>, prev: seq<int>, ring: seq<int>, b: int)
    requires Linked(next, prev, ring) && 0 <= b < NBUF && b !in ring
    ensures var first := next[NBUF];
            && 0 <= first <= NBUF
            && Linked(next[b := first][NBUF := b], prev[b := NBUF][first := b], [b] + ring)
  {
    var c, r2 := Cycle(ring), [b] + ring;
    var d := Cycle(r2);
    assert LinkAt(next, prev, c, 0);
    CycleDistinct(ring);
    CycleDistinct(r2);
    var n2, p2 := next[b := next[NBUF]][NBUF := b], prev[b := NBUF][next[NBUF] := b];
    forall j | 0 <= j <= |r2| ensures LinkAt(n2, p2, d, j) {
      assert j >= 2 ==> LinkAt(next, prev, c, j - 1);
      PushedAt(next, prev, c, d, b, j);
    }
  }

  /** The link at position j of the cycle d, which is c with b after the head. */
  lemma PushedAt(next: seq<int>, prev: seq<int>, c: seq<int>, d: seq<int>, b: int, j: nat)
    requires |next| == |prev| == NBUF + 1 && InRange(c) && Distinct(c) && |c| > 0 && c[0] == NBUF && 0 <= b < NBUF
    requires |d| == |c| + 1 && InRange(d) && Distinct(d) && d[0] == NBUF && d[1] == b && j < |d|
    requires forall m :: 2 <= m < |d| ==> d[m] == c[m - 1]
    requires LinkAt(next, prev, c, 0) && (j >= 2 ==> LinkAt(next, prev, c, j - 1))
    ensures LinkAt(next[b := next[NBUF]][NBUF := b], prev[b := NBUF][next[NBUF] := b], d, j)
  {
    var first := next[NBUF];
    if |c| > 1 {
      assert first == c[1] == d[2] && first != b && first != NBUF;
    } else {
      assert first == NBUF;
    }
    if j >= 2 {
      assert d[j] == c[j - 1] && d[j] != b && d[j] != NBUF;
      if j + 1 < |d| {
        assert d[j + 1] == c[j] && c[j] != c[1] && d[j + 1] != b;
      }
    }
  }

  /** The links of the empty ring. */
  lemma EmptyRing(next: seq<int>, prev: seq<int>)
    requires |next| == |prev| == NBUF + 1 && next[NBUF] == NBUF && prev[NBUF] == NBUF
    ensures Linked(next, prev, [])
  {
  }

  /** Following next from the head meets the ring in order, and prev in reverse. */
  lemma Follow(next: seq<int>, prev: seq<int>, ring: seq<int>, k: nat)
    requires Linked(next, prev, ring) && k <= |ring|
    ensures next[Cycle(ring)[k]] == if k == |ring| then NBUF else ring[k]
    ensures prev[if k == |ring| then NBUF else ring[k]] == Cycle(ring)[k]
  {
    assert LinkAt(next, prev, Cycle(ring), k);
  }
}
