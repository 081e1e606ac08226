/** Bits and 32-bit words inside disk blocks made of bytes. */
module FsLayout {

  const BSIZE: nat := 512
  const BPB: nat := 4096          // bitmap bits per block
  const NDIRECT: nat := 12
  const NINDIRECT: nat := 128
  const MAXFILE: nat := 140
  const WORD: int := 0x1_0000_0000

  type Block = seq<int>

  ghost predicate IsBlock(b: Block) {
    |b| == BSIZE && forall i :: 0 <= i < BSIZE ==> 0 <= b[i] < 256
  }

  function Zeroed(): (b: Block)
    ensures IsBlock(b)
    ensures forall i :: 0 <= i < BSIZE ==> b[i] == 0
  {
    seq(BSIZE, _ => 0)
  }

  // ----- bits of a byte -----

  /** x & (1 << k) != 0. */
  function TestBit(x: nat, k: nat): bool {
    if k == 0 then x % 2 == 1 else TestBit(x / 2, k - 1)
  }

  /** x | (1 << k). */
  function SetBit(x: nat, k: nat): nat {
    if k == 0 then x - x % 2 + 1 else 2 * SetBit(x / 2, k - 1) + x % 2
  }

  /** x & ~(1 << k). */
  function ClearBit(x: nat, k: nat): nat {
    if k == 0 then x - x % 2 else 2 * ClearBit(x / 2, k - 1) + x % 2
  }

  lemma {:induction false} SetBitAt(x: nat, k: nat, j: nat)
    ensures TestBit(SetBit(x, k), j) == (j == k || TestBit(x, j))
  {
    if k > 0 && j > 0 {
      SetBitAt(x / 2, k - 1, j - 1);
      assert SetBit(x, k) / 2 == SetBit(x / 2, k - 1);
    } else if k == 0 && j > 0 {
      assert SetBit(x, 0) / 2 == x / 2;
    }
  }

  lemma {:induction false} ClearBitAt(x: nat, k: nat, j: nat)
    ensures TestBit(ClearBit(x, k), j) == (j != k && TestBit(x, j))
  {
    if k > 0 && j > 0 {
      ClearBitAt(x / 2, k - 1, j - 1);
      assert ClearBit(x, k) / 2 == ClearBit(x / 2, k - 1);
    } else if k == 0 && j > 0 {
      assert ClearBit(x, 0) / 2 == x / 2;
    }
  }

  function Pow2(k: nat): nat {
    if k == 0 then 1 else 2 * Pow2(k - 1)
  }

  lemma HalveBelow(x: nat, half: nat)
    requires x < half + half
    ensures x / 2 < half && x - x % 2 + 1 < half + half
  {
  }

  lemma {:induction false} BitsFit(x: nat, k: nat, w: nat)
    requires x < Pow2(w) && k < w
    ensures SetBit(x, k) < Pow2(w) && ClearBit(x, k) < Pow2(w)
  {
    var half := Pow2(w - 1);
    assert Pow2(w) == half + half;
    HalveBelow(x, half);
    if k > 0 {
      BitsFit(x / 2, k - 1, w - 1);
    }
  }

  lemma ByteBits(x: nat, k: nat)
    requires x < 256 && k < 8
    ensures SetBit(x, k) < 256 && ClearBit(x, k) < 256
  {
    assert Pow2(8) == 256 by {
      assert Pow2(4) == 16;
    }
    BitsFit(x, k, 8);
  }

  // ----- bits of a bitmap block -----

  function BlockBit(b: Block, i: nat): bool
    requires i / 8 < |b| && 0 <= b[i / 8]
  {
    TestBit(b[i / 8], i % 8)
  }

  function BlockWithBit(b: Block, i: nat, on: bool): (r: Block)
    requires IsBlock(b) && i < BPB
    ensures |r| == |b|
  {
    b[i / 8 := if on then SetBit(b[i / 8], i % 8) else ClearBit(b[i / 8], i % 8)]
  }

  /** Setting or clearing a bit changes that bit and no other. */
  lemma BlockBitAt(b: Block, i: nat, on: bool, j: nat)
    requires IsBlock(b) && i < BPB && j < BPB
    ensures IsBlock(BlockWithBit(b, i, on))
    ensures BlockBit(BlockWithBit(b, i, on), j) == if j == i then on else BlockBit(b, j)
  {
    ByteBits(b[i / 8], i % 8);
    if j / 8 == i / 8 {
      assert j == i <==> j % 8 == i % 8;
      SetBitAt(b[i / 8], i % 8, j % 8);
      ClearBitAt(b[i / 8], i % 8, j % 8);
    }
  }

  // ----- words of an indirect block -----

  function Word(b: Block, j: nat): int
    requires 4 * j + 3 < |b|
  {
    b[4 * j] + 0x100 * b[4 * j + 1] + 0x1_0000 * b[4 * j + 2] + 0x100_0000 * b[4 * j + 3]
  }

  function WithWord(b: Block, j: nat, w: int): (r: Block)
    requires 4 * j + 3 < |b|
    ensures |r| == |b|
  {
    b[4 * j := w % 256][4 * j + 1 := w / 0x100 % 256][4 * j + 2 := w / 0x1_0000 % 256][4 * j + 3 := w / 0x100_0000 % 256]
  }

  lemma WordAt(b: Block, j: nat, w: int, k: nat)
    requires IsBlock(b) && j < NINDIRECT && k < NINDIRECT && 0 <= w < WORD
    ensures IsBlock(WithWord(b, j, w))
    ensures Word(WithWord(b, j, w), k) == if k == j then w else Word(b, k)
  {
    if k == j {
      FourBytes(w);
    }
  }

  lemma FourBytes(w: int)
    requires 0 <= w < WORD
    ensures w == w % 256 + 0x100 * (w / 0x100 % 256) + 0x1_0000 * (w / 0x1_0000 % 256) + 0x100_0000 * (w / 0x100_0000 % 256)
  {
    assert w == w % 256 + 256 * (w / 256);
    assert w / 0x1_0000 == w / 256 / 256;
    assert w / 0x100_0000 == w / 256 / 256 / 256;
  }
}
