/** A disk as an array of blocks, changed one whole block at a time.

    The in-memory disk driver of the kernel copies exactly one block per
    request, so a crash can fall between two block writes but not inside one. */
module BlockDisk {

  /** Words in a block: BSIZE / sizeof(uint). */
  const WORDS: nat := 128

  /** The words of a block. */
  type Block = seq<int>

  type Disk = seq<Block>

  datatype Write = Write(at: int, data: Block)

  ghost predicate InRange(ws: seq<Write>, size: nat) {
    forall i :: 0 <= i < |ws| ==> 0 <= ws[i].at < size
  }

  /** The disk after the given block writes, in order. */
  ghost function Apply(d: Disk, ws: seq<Write>): (r: Disk)
    requires InRange(ws, |d|)
    ensures |r| == |d|
  {
    if ws == [] then d
    else
      var w := ws[|ws| - 1];
      Apply(d, ws[..|ws| - 1])[w.at := w.data]
  }

  lemma ApplyNone(d: Disk)
    ensures Apply(d, []) == d
  {
  }

  lemma ApplySingle(d: Disk, w: Write)
    requires 0 <= w.at < |d|
    ensures Apply(d, [w]) == d[w.at := w.data]
  {
    assert [w][..0] == [];
  }

  lemma ApplyOneMore(d: Disk, ws: seq<Write>, i: nat)
    requires InRange(ws, |d|) && i < |ws|
    ensures Apply(d, ws[..i + 1]) == Apply(d, ws[..i])[ws[i].at := ws[i].data]
  {
    assert ws[..i + 1][..i] == ws[..i];
  }

  lemma {:induction false} ApplyConcat(d: Disk, a: seq<Write>, b: seq<Write>)
    requires InRange(a, |d|) && InRange(b, |d|)
    ensures InRange(a + b, |d|)
    ensures Apply(d, a + b) == Apply(Apply(d, a), b)
  {
    if b == [] {
      assert a + b == a;
    } else {
      var m := |b| - 1;
      assert (a + b)[..|a| + m] == a + b[..m];
      ApplyConcat(d, a, b[..m]);
    }
  }

  ghost predicate Distinct(blocks: seq<int>) {
    forall i, j :: 0 <= i < j < |blocks| ==> blocks[i] != blocks[j]
  }

  /** One write per block number: blocks[i] receives data[i]. */
  ghost function Installs(blocks: seq<int>, data: seq<Block>): (ws: seq<Write>)
    requires |blocks| == |data|
    ensures |ws| == |blocks|
    ensures forall i :: 0 <= i < |ws| ==> ws[i] == Write(blocks[i], data[i])
  {
    seq(|blocks|, i requires 0 <= i < |blocks| => Write(blocks[i], data[i]))
  }

  /** Block b is one of the first k listed. */
  ghost predicate Among(blocks: seq<int>, k: nat, b: int)
    requires k <= |blocks|
  {
    exists j :: 0 <= j < k && blocks[j] == b
  }

  /** Installing k of the blocks gives exactly those their data. */
  lemma {:induction false} InstallsPrefix(d: Disk, blocks: seq<int>, data: seq<Block>, k: nat)
    requires |blocks| == |data| && k <= |blocks|
    requires Distinct(blocks)
    requires forall i :: 0 <= i < |blocks| ==> 0 <= blocks[i] < |d|
    ensures InRange(Installs(blocks, data), |d|)
    ensures forall i :: 0 <= i < k ==> Apply(d, Installs(blocks, data)[..k])[blocks[i]] == data[i]
    ensures forall b :: 0 <= b < |d| && !Among(blocks, k, b)
              ==> Apply(d, Installs(blocks, data)[..k])[b] == d[b]
  {
    if k > 0 {
      InstallsPrefix(d, blocks, data, k - 1);
      ApplyOneMore(d, Installs(blocks, data), k - 1);
      assert Among(blocks, k, blocks[k - 1]);
      assert forall b :: Among(blocks, k - 1, b) ==> Among(blocks, k, b);
    }
  }

  /** The disk with every listed block replaced. */
  ghost function InstallAll(d: Disk, blocks: seq<int>, data: seq<Block>): (r: Disk)
    requires |blocks| == |data|
    requires forall i :: 0 <= i < |blocks| ==> 0 <= blocks[i] < |d|
    ensures |r| == |d|
  {
    Apply(d, Installs(blocks, data))
  }

  lemma InstallAllAt(d: Disk, blocks: seq<int>, data: seq<Block>)
    requires |blocks| == |data|
    requires Distinct(blocks)
    requires forall i :: 0 <= i < |blocks| ==> 0 <= blocks[i] < |d|
    ensures forall i :: 0 <= i < |blocks| ==> InstallAll(d, blocks, data)[blocks[i]] == data[i]
    ensures forall b :: 0 <= b < |d| && !Among(blocks, |blocks|, b) ==> InstallAll(d, blocks, data)[b] == d[b]
  {
    InstallsPrefix(d, blocks, data, |blocks|);
    assert Installs(blocks, data)[..|blocks|] == Installs(blocks, data);
  }
}
