/** Two-level page tables in physical memory and the pool of free frames, as values. */
module VmState {

  const PGSIZE: nat := 4096
  const ENTRIES: nat := 1024
  const KERNBASE: nat := 0x8000_0000
  const USERPAGES: nat := 0x8_0000      // KERNBASE / PGSIZE
  const ALLPAGES: nat := 0x10_0000      // of a 32-bit address space

  type Frame = int
  type Page = seq<int>

  /** A directory or table entry; Present is PTE_P. */
  datatype Entry = Absent | Present(frame: Frame, flags: int)

  const PTE_W: int := 2
  const PTE_U: int := 4

  /** Physical memory: frames that hold entries, frames that hold bytes, and the list
      of free frames. A freed frame holds no entries. */
  datatype Mem = Mem(free: seq<Frame>, words: map<Frame, seq<Entry>>, bytes: map<Frame, Page>)

  type Words = map<Frame, seq<Entry>>

  // ----- one address space -----

  predicate IsTable(words: Words, t: Frame) {
    t in words && |words[t]| == ENTRIES
  }

  ghost predicate Wf(words: Words, d: Frame) {
    && IsTable(words, d)
    && forall i :: 0 <= i < ENTRIES && words[d][i].Present? ==> words[d][i].frame != 0 && IsTable(words, words[d][i].frame)
  }

  /** The entry for page v. */
  function Lookup(words: Words, d: Frame, v: int): Entry
    requires Wf(words, d) && 0 <= v < ALLPAGES
  {
    var p := words[d][v / ENTRIES];
    if p.Absent? then Absent else words[p.frame][v % ENTRIES]
  }

  /** The places of an address space that own a frame: the directory, the tables, and
      the user pages. Kernel pages are mapped, not owned. */
  datatype Slot = DirSlot | TableSlot(i: int) | PageSlot(v: int)

  predicate IsSlot(s: Slot) {
    match s case DirSlot => true case TableSlot(i) => 0 <= i < ENTRIES case PageSlot(v) => 0 <= v < USERPAGES
  }

  function FrameOf(e: Entry): Frame {
    if e.Absent? then 0 else e.frame
  }

  /** The frame a slot owns, 0 for none. */
  function At(words: Words, d: Frame, s: Slot): Frame
    requires Wf(words, d) && IsSlot(s)
  {
    match s case DirSlot => d case TableSlot(i) => FrameOf(words[d][i]) case PageSlot(v) => FrameOf(Lookup(words, d, v))
  }

  ghost predicate Owns(words: Words, d: Frame, f: Frame)
    requires Wf(words, d)
  {
    f != 0 && exists s :: IsSlot(s) && At(words, d, s) == f
  }

  /** No frame is owned twice. */
  ghost predicate Once(words: Words, d: Frame)
    requires Wf(words, d)
  {
    forall s, r :: IsSlot(s) && IsSlot(r) && s != r && At(words, d, s) != 0 ==> At(words, d, s) != At(words, d, r)
  }

  ghost predicate FreeOk(free: seq<Frame>) {
    && (forall j, k :: 0 <= j < k < |free| ==> free[j] != free[k])
    && 0 !in free
  }

  /** An address space and the pool: every frame in one place only. */
  ghost predicate Good(m: Mem, d: Frame)
    ensures Good(m, d) ==> Wf(m.words, d) && FreeOk(m.free) && d != 0
  {
    && Wf(m.words, d) && Once(m.words, d) && FreeOk(m.free) && d != 0
    && (forall v :: 0 <= v < USERPAGES && Lookup(m.words, d, v).Present? ==> Lookup(m.words, d, v).frame != 0)
    && forall s :: IsSlot(s) ==> At(m.words, d, s) !in m.free
  }

  /** In the pool or in the address space. */
  ghost predicate Has(m: Mem, d: Frame, f: Frame)
    requires Wf(m.words, d)
  {
    f in m.free || Owns(m.words, d, f)
  }

  // ----- changing one slot -----

  /** Slot x gets f; every other slot keeps its frame. */
  ghost predicate OneSlot(words: Words, words': Words, d: Frame, x: Slot, f: Frame)
    requires Wf(words, d) && Wf(words', d) && IsSlot(x)
  {
    && At(words', d, x) == f
    && forall s :: IsSlot(s) && s != x ==> At(words', d, s) == At(words, d, s)
  }

  /** A frame that is nowhere goes to an empty slot. */
  lemma Put(m: Mem, m': Mem, d: Frame, x: Slot, f: Frame)
    requires Good(m, d) && Wf(m'.words, d) && IsSlot(x) && OneSlot(m.words, m'.words, d, x, f)
    requires m'.free == m.free && f != 0 && !Has(m, d, f) && At(m.words, d, x) == 0
    requires forall v :: 0 <= v < USERPAGES && Lookup(m'.words, d, v).Present? ==> Lookup(m'.words, d, v).frame != 0
    ensures Good(m', d)
    ensures forall g :: Has(m', d, g) <==> Has(m, d, g) || g == f
  {
    forall s | IsSlot(s) ensures s != x ==> At(m'.words, d, s) != f {
    }
    forall g ensures Has(m', d, g) <==> Has(m, d, g) || g == f {
      assert g == f ==> At(m'.words, d, x) == g;
      if g != 0 {
        SameOwned(m.words, m'.words, d, x, g);
      }
    }
  }

  lemma SameOwned(words: Words, words': Words, d: Frame, x: Slot, g: Frame)
    requires Wf(words, d) && Wf(words', d) && IsSlot(x) && OneSlot(words, words', d, x, At(words', d, x))
    requires g != At(words, d, x)
    ensures Owns(words, d, g) ==> Owns(words', d, g)
    ensures g != At(words', d, x) ==> (Owns(words', d, g) ==> Owns(words, d, g))
  {
    if Owns(words, d, g) {
      var s :| IsSlot(s) && At(words, d, s) == g;
      assert At(words', d, s) == g;
    }
    if Owns(words', d, g) && g != At(words', d, x) {
      var s :| IsSlot(s) && At(words', d, s) == g;
      assert At(words, d, s) == g;
    }
  }

  /** A slot is emptied; its frame is then nowhere. */
  lemma Drop(m: Mem, m': Mem, d: Frame, x: Slot, f: Frame)
    requires Good(m, d) && Wf(m'.words, d) && IsSlot(x) && OneSlot(m.words, m'.words, d, x, 0)
    requires m'.free == m.free && f != 0 && At(m.words, d, x) == f && x != DirSlot
    requires forall v :: 0 <= v < USERPAGES && Lookup(m'.words, d, v).Present? ==> Lookup(m'.words, d, v).frame != 0
    ensures Good(m', d) && !Has(m', d, f)
    ensures forall g :: Has(m', d, g) || g == f <==> Has(m, d, g)
  {
    forall g | g != f ensures Has(m', d, g) <==> Has(m, d, g) {
      if g != 0 {
        SameOwned(m.words, m'.words, d, x, g);
      }
    }
    assert Owns(m.words, d, f);
    forall s | IsSlot(s) ensures At(m'.words, d, s) != f {
      assert s != x ==> At(m'.words, d, s) == At(m.words, d, s);
    }
  }

  // ----- the operations on memory -----

  function EmptyTable(): seq<Entry> {
    seq(ENTRIES, _ => Absent)
  }

  function Zeros(): Page {
    seq(PGSIZE, _ => 0)
  }

  function Junk(): Page {
    seq(PGSIZE, _ => 1)
  }

  /** kfree: the frame is filled with junk and put at the head of the list. */
  function Freed(m: Mem, f: Frame): Mem {
    Mem([f] + m.free, m.words - {f}, m.bytes[f := Junk()])
  }

  function WithEntry(words: Words, t: Frame, i: int, e: Entry): Words
    requires IsTable(words, t) && 0 <= i < ENTRIES
  {
    words[t := words[t][i := e]]
  }

  /** Page v's entry is set in the table it lies in. */
  lemma SetPage(words: Words, d: Frame, v: int, e: Entry)
    requires Wf(words, d) && Once(words, d) && d != 0 && 0 <= v < ALLPAGES
    requires words[d][v / ENTRIES].Present?
    ensures IsTable(words, words[d][v / ENTRIES].frame)
    ensures var words' := WithEntry(words, words[d][v / ENTRIES].frame, v % ENTRIES, e);
            && Wf(words', d) && words'[d] == words[d]
            && (forall w :: 0 <= w < ALLPAGES ==> Lookup(words', d, w) == if w == v then e else Lookup(words, d, w))
  {
    var i := v / ENTRIES;
    var t := words[d][i].frame;
    var words' := WithEntry(words, t, v % ENTRIES, e);
    assert At(words, d, TableSlot(i)) == t && At(words, d, DirSlot) == d;
    forall w | 0 <= w < ALLPAGES ensures Lookup(words', d, w) == if w == v then e else Lookup(words, d, w) {
      var j := w / ENTRIES;
      if j != i && words[d][j].Present? {
        assert At(words, d, TableSlot(j)) != t;
      }
    }
  }

  lemma PageSlotSet(words: Words, words': Words, d: Frame, v: int, e: Entry)
    requires Wf(words, d) && Wf(words', d) && words'[d] == words[d] && 0 <= v < USERPAGES
    requires forall w :: 0 <= w < ALLPAGES ==> Lookup(words', d, w) == if w == v then e else Lookup(words, d, w)
    ensures OneSlot(words, words', d, PageSlot(v), FrameOf(e))
  {
  }

  /** walkpgdir's new table: empty, so that no page's entry changes. */
  function WithTable(words: Words, d: Frame, i: int, f: Frame): Words
    requires IsTable(words, d) && 0 <= i < ENTRIES
  {
    words[f := EmptyTable()][d := words[d][i := Present(f, PTE_W + PTE_U)]]
  }

  lemma AddTable(m: Mem, d: Frame, i: int, f: Frame, m': Mem)
    requires Good(m, d) && 0 <= i < ENTRIES && m.words[d][i].Absent? && f != 0 && !Has(m, d, f)
    requires m' == m.(words := WithTable(m.words, d, i, f))
    ensures Good(m', d)
    ensures forall w :: 0 <= w < ALLPAGES ==> Lookup(m'.words, d, w) == Lookup(m.words, d, w)
    ensures forall g :: Has(m', d, g) <==> Has(m, d, g) || g == f
  {
    var words, words' := m.words, m'.words;
    assert At(words, d, DirSlot) == d && Owns(words, d, d);
    forall j | 0 <= j < ENTRIES && words[d][j].Present? ensures words[d][j].frame != d && words[d][j].frame != f {
      assert At(words, d, TableSlot(j)) == words[d][j].frame;
      assert FrameOf(words[d][j]) != 0 ==> Owns(words, d, words[d][j].frame);
    }
    forall w | 0 <= w < ALLPAGES ensures Lookup(words', d, w) == Lookup(words, d, w) {
      var j := w / ENTRIES;
    }
    assert OneSlot(words, words', d, TableSlot(i), f);
    Put(m, m', d, TableSlot(i), f);
  }

  /** A frame that is nowhere goes back to the pool. */
  lemma GiveBack(m: Mem, d: Frame, f: Frame)
    requires Good(m, d) && f != 0 && !Has(m, d, f)
    ensures Good(Freed(m, f), d)
    ensures forall w :: 0 <= w < ALLPAGES ==> Lookup(Freed(m, f).words, d, w) == Lookup(m.words, d, w)
    ensures forall g :: Has(Freed(m, f), d, g) <==> Has(m, d, g) || g == f
  {
    var m' := Freed(m, f);
    forall s | IsSlot(s) ensures At(m.words, d, s) != f {
    }
    assert At(m.words, d, DirSlot) == d;
    forall j | 0 <= j < ENTRIES && m.words[d][j].Present? ensures m.words[d][j].frame != f {
      assert At(m.words, d, TableSlot(j)) == m.words[d][j].frame;
    }
    forall w | 0 <= w < ALLPAGES ensures Lookup(m'.words, d, w) == Lookup(m.words, d, w) {
    }
    forall s | IsSlot(s) ensures At(m'.words, d, s) == At(m.words, d, s) {
    }
    forall g ensures Owns(m'.words, d, g) <==> Owns(m.words, d, g) {
      if Owns(m.words, d, g) {
        var s :| IsSlot(s) && At(m.words, d, s) == g;
        assert At(m'.words, d, s) == g;
      }
    }
  }

  // ----- what stays the same -----

  predicate SameBytes(m: Mem, m': Mem, f: Frame) {
    f in m.bytes ==> f in m'.bytes && m'.bytes[f] == m.bytes[f]
  }

  predicate Apart(m: Mem, m': Mem, f: Frame) {
    (f in m.words ==> f in m'.words && m'.words[f] == m.words[f]) && SameBytes(m, m', f)
  }

  /** Frames of neither the pool nor this address space are as they were. */
  ghost predicate OthersKept(m: Mem, m': Mem, d: Frame)
    requires Wf(m.words, d)
  {
    forall f :: !Has(m, d, f) ==> Apart(m, m', f)
  }

  ghost predicate SameHas(m: Mem, m': Mem, d: Frame)
    requires Wf(m.words, d) && Wf(m'.words, d)
  {
    forall f :: Has(m', d, f) <==> Has(m, d, f)
  }

  /** Every page's entry is as it was. */
  ghost predicate SameMap(m: Mem, m': Mem, d: Frame)
    requires Wf(m.words, d) && Wf(m'.words, d)
  {
    forall w :: 0 <= w < ALLPAGES ==> Lookup(m'.words, d, w) == Lookup(m.words, d, w)
  }

  // ----- visiting every page -----

  /** What deallocuvm does at page v. */
  ghost function Unmapped(m: Mem, d: Frame, v: int): Mem
    requires Good(m, d) && 0 <= v < USERPAGES
  {
    if Lookup(m.words, d, v).Absent? then m
    else
      var t, f := m.words[d][v / ENTRIES].frame, Lookup(m.words, d, v).frame;
      assert At(m.words, d, TableSlot(v / ENTRIES)) == t && At(m.words, d, PageSlot(v)) == f;
      var m1 := Freed(m, f);
      m1.(words := WithEntry(m1.words, t, v % ENTRIES, Absent))
  }

  lemma UnmappedGood(m: Mem, d: Frame, v: int)
    requires Good(m, d) && 0 <= v < USERPAGES
    ensures var m' := Unmapped(m, d, v);
            && Good(m', d)
            && (forall w :: 0 <= w < ALLPAGES ==> Lookup(m'.words, d, w) == if w == v then Absent else Lookup(m.words, d, w))
            && m'.words[d] == m.words[d]
    ensures SameHas(m, Unmapped(m, d, v), d) && OthersKept(m, Unmapped(m, d, v), d)
    ensures forall f :: f !in Unmapped(m, d, v).free ==> SameBytes(m, Unmapped(m, d, v), f)
    ensures forall f :: f in m.free ==> f in Unmapped(m, d, v).free
  {
    if Lookup(m.words, d, v).Present? {
      var t, f := m.words[d][v / ENTRIES].frame, Lookup(m.words, d, v).frame;
      assert At(m.words, d, TableSlot(v / ENTRIES)) == t && At(m.words, d, PageSlot(v)) == f && At(m.words, d, DirSlot) == d;
      SetPage(m.words, d, v, Absent);
      var m1 := m.(words := WithEntry(m.words, t, v % ENTRIES, Absent));
      PageSlotSet(m.words, m1.words, d, v, Absent);
      Drop(m, m1, d, PageSlot(v), f);
      GiveBack(m1, d, f);
      assert Owns(m.words, d, t) && Owns(m.words, d, f);
      assert Unmapped(m, d, v).words == Freed(m1, f).words;
      assert Unmapped(m, d, v) == Freed(m1, f);
    }
  }

  /** Every page from lo to hi, one at a time. */
  ghost function Sweep(m: Mem, d: Frame, lo: int, hi: int): (r: Mem)
    requires Good(m, d) && 0 <= lo && hi <= USERPAGES
    ensures Good(r, d)
    decreases hi - lo
  {
    if lo >= hi then m else
      UnmappedGood(m, d, lo);
      Sweep(Unmapped(m, d, lo), d, lo + 1, hi)
  }

  /** After the sweep the pages are unmapped, nothing else is, and every frame is where
      it can be used again. */
  lemma {:induction false} Swept(m: Mem, d: Frame, lo: int, hi: int)
    requires Good(m, d) && 0 <= lo && hi <= USERPAGES
    ensures var r := Sweep(m, d, lo, hi);
            forall w :: 0 <= w < ALLPAGES ==> Lookup(r.words, d, w) == if lo <= w < hi then Absent else Lookup(m.words, d, w)
    ensures Sweep(m, d, lo, hi).words[d] == m.words[d]
    ensures SameHas(m, Sweep(m, d, lo, hi), d) && OthersKept(m, Sweep(m, d, lo, hi), d)
    ensures forall f :: f !in Sweep(m, d, lo, hi).free ==> SameBytes(m, Sweep(m, d, lo, hi), f)
    ensures forall f :: f in m.free ==> f in Sweep(m, d, lo, hi).free
    decreases hi - lo
  {
    if lo < hi {
      UnmappedGood(m, d, lo);
      var m1 := Unmapped(m, d, lo);
      Swept(m1, d, lo + 1, hi);
      hide Good, Lookup, Has, Wf, Unmapped;
      assert Sweep(m, d, lo, hi) == Sweep(m1, d, lo + 1, hi);
    }
  }

  /** Pages that are not mapped need no visit. */
  lemma {:induction false} SkipPages(m: Mem, d: Frame, lo: int, hi: int, stop: int)
    requires Good(m, d) && 0 <= lo <= stop && hi <= USERPAGES
    requires forall w :: lo <= w < stop && w < hi ==> Lookup(m.words, d, w).Absent?
    ensures Sweep(m, d, lo, hi) == Sweep(m, d, stop, hi)
    decreases stop - lo
  {
    if lo < stop && lo < hi {
      assert Lookup(m.words, d, lo).Absent?;
      SkipPages(m, d, lo + 1, hi, stop);
    }
  }
}
