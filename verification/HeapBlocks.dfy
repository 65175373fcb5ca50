/**
  The block list of the user-level heap, as a value.

  Addresses and sizes are counted in 8-byte units (MBLOCKSIZE), the unit in which the
  headers of lib/libc/malloc.c store their offsets.  A block starts with a one-unit
  header, so a block of `units` units has a payload of `units - 1` units.
 */
module HeapBlocks {

  /** What one header says: its address, and the fields prevblock, nextblock and inuse. */
  datatype Block = Block(start: nat, prev: nat, units: nat, used: bool) {
    function End(): nat { start + units }
  }

  datatype Heap = Heap(base: nat, top: nat, blocks: seq<Block>)

  /** The headers tile [base, top) exactly and every prevblock is the nextblock before it. */
  ghost predicate Tiled(h: Heap) {
    var bs := h.blocks;
    && h.base <= h.top
    && (bs == [] ==> h.base == h.top)
    && (bs != [] ==> bs[0].start == h.base && bs[0].prev == 0 && bs[|bs| - 1].End() == h.top)
    && (forall k | 0 <= k < |bs| :: bs[k].units >= 1)
    && (forall j, k | 0 <= j && k == j + 1 < |bs| :: Linked(bs[j], bs[k]))
  }

  /** b is the block right above a, and knows a's size. */
  predicate Linked(a: Block, b: Block) {
    b.start == a.End() && b.prev == a.units
  }

  /** No two neighbouring blocks are both free. */
  ghost predicate Coalesced(bs: seq<Block>) {
    forall j, k | 0 <= j && k == j + 1 < |bs| :: bs[j].used || bs[k].used
  }

  ghost predicate WellFormed(h: Heap) {
    Tiled(h) && Coalesced(h.blocks)
  }

  /** Blocks lie in address order without overlap, inside the heap. */
  ghost predicate Ordered(h: Heap) {
    && (forall i, j | 0 <= i < j < |h.blocks| :: h.blocks[i].End() <= h.blocks[j].start)
    && (forall i | 0 <= i < |h.blocks| :: h.base <= h.blocks[i].start && h.blocks[i].End() <= h.top)
  }

  lemma {:induction false} TiledIsOrdered(h: Heap)
    requires Tiled(h)
    ensures Ordered(h)
  {
    var bs := h.blocks;
    forall i, j | 0 <= i < j < |bs| ensures bs[i].End() <= bs[j].start {
      TiledPair(h, i, j);
    }
    forall i | 0 <= i < |bs| ensures h.base <= bs[i].start && bs[i].End() <= h.top {
      if i > 0 { TiledPair(h, 0, i); }
      if i < |bs| - 1 { TiledPair(h, i, |bs| - 1); }
    }
  }

  lemma {:induction false} TiledPair(h: Heap, i: nat, j: nat)
    requires Tiled(h) && i < j < |h.blocks|
    ensures h.blocks[i].End() <= h.blocks[j].start
    decreases j
  {
    assert h.blocks[j].start == h.blocks[j - 1].End();
    if i < j - 1 { TiledPair(h, i, j - 1); }
  }

  // ------------------------------------------------------------ first fit

  predicate Fits(b: Block, n: nat) {
    !b.used && b.units - 1 >= n
  }

  /** The first-fit choice among blocks[k..]: the lowest index that fits, or |bs|. */
  function FirstFit(bs: seq<Block>, n: nat, k: nat := 0): (r: nat)
    requires k <= |bs|
    ensures k <= r <= |bs|
    ensures r < |bs| ==> Fits(bs[r], n)
    ensures forall j | k <= j < r :: !Fits(bs[j], n)
    decreases |bs| - k
  {
    if k == |bs| || Fits(bs[k], n) then k else FirstFit(bs, n, k + 1)
  }

  // ------------------------------------------------------------ the three edits

  /** Correct the prevblock field of the first block of a suffix. */
  function Relink(bs: seq<Block>, prev: nat): (r: seq<Block>)
  {
    if bs == [] then bs else bs[0 := bs[0].(prev := prev)]
  }

  /** Hand out block k for n units of payload, splitting off the excess if it is two units or more. */
  function Take(bs: seq<Block>, k: nat, n: nat): (r: seq<Block>)
    requires k < |bs| && Fits(bs[k], n)
  {
    var b := bs[k];
    if b.units - 1 - n < 2 then
      bs[k := b.(used := true)]
    else
      bs[..k]
      + [Block(b.start, b.prev, n + 1, true), Block(b.start + n + 1, n + 1, b.units - n - 1, false)]
      + Relink(bs[k + 1..], b.units - n - 1)
  }

  /** Merge blocks k and k+1 if both are free. */
  function MergeAt(bs: seq<Block>, k: nat): (r: seq<Block>)
    requires k + 1 < |bs|
  {
    if bs[k].used || bs[k + 1].used then bs
    else
      var units := bs[k].units + bs[k + 1].units;
      bs[..k] + [bs[k].(units := units)] + Relink(bs[k + 2..], units)
  }

  function MergeAbove(bs: seq<Block>, k: nat): (r: seq<Block>)
    requires k < |bs|
    ensures |r| > k
  {
    if k + 1 < |bs| then MergeAt(bs, k) else bs
  }

  function MergeBelow(bs: seq<Block>, k: nat): (r: seq<Block>)
    requires k < |bs|
  {
    if k > 0 then MergeAt(bs, k - 1) else bs
  }

  /** Free block k, then merge it upwards, then downwards. */
  function Release(bs: seq<Block>, k: nat): (r: seq<Block>)
    requires k < |bs|
  {
    MergeBelow(MergeAbove(bs[k := bs[k].(used := false)], k), k)
  }

  // ------------------------------------------------------------ the edits keep the tiling

  /** r is bs with block k cut after n payload units: where each block comes from. */
  ghost predicate SplitOf(bs: seq<Block>, k: nat, n: nat, r: seq<Block>)
    requires k < |bs| && n + 1 < bs[k].units
  {
    var b := bs[k];
    && |r| == |bs| + 1
    && (forall i | 0 <= i < k :: r[i] == bs[i])
    && r[k] == Block(b.start, b.prev, n + 1, true)
    && r[k + 1] == Block(b.start + n + 1, n + 1, b.units - n - 1, false)
    && (k + 1 < |bs| ==> r[k + 2] == bs[k + 1].(prev := b.units - n - 1))
    && (forall i | k + 2 < i < |r| :: r[i] == bs[i - 1])
  }

  lemma TakeSplits(bs: seq<Block>, k: nat, n: nat)
    requires k < |bs| && Fits(bs[k], n) && bs[k].units - 1 - n >= 2
    ensures SplitOf(bs, k, n, Take(bs, k, n))
  {
  }

  lemma {:induction false} SplitKeeps(h: Heap, k: nat, n: nat, r: seq<Block>)
    requires Tiled(h) && k < |h.blocks| && !h.blocks[k].used && n + 1 < h.blocks[k].units
    requires SplitOf(h.blocks, k, n, r)
    ensures Tiled(h.(blocks := r))
    ensures Coalesced(h.blocks) ==> Coalesced(r)
  {
    var bs := h.blocks;
    forall i, j | 0 <= i && j == i + 1 < |r|
      ensures Linked(r[i], r[j]) && (Coalesced(bs) ==> r[i].used || r[j].used)
    {
      if j <= k { assert Linked(bs[i], bs[j]); }
      else if i > k { assert Linked(bs[i - 1], bs[j - 1]); }
    }
  }

  /** Changing only the inuse bit of a block keeps the tiling. */
  lemma {:induction false} RemarkKeeps(h: Heap, k: nat, used: bool)
    requires Tiled(h) && k < |h.blocks|
    ensures Tiled(h.(blocks := h.blocks[k := h.blocks[k].(used := used)]))
  {
    var r := h.blocks[k := h.blocks[k].(used := used)];
    forall i, j | 0 <= i && j == i + 1 < |r| ensures Linked(r[i], r[j]) {
      assert Linked(h.blocks[i], h.blocks[j]);
    }
  }

  lemma {:induction false} TakeKeeps(h: Heap, k: nat, n: nat)
    requires WellFormed(h) && k < |h.blocks| && Fits(h.blocks[k], n)
    ensures WellFormed(h.(blocks := Take(h.blocks, k, n)))
  {
    if h.blocks[k].units - 1 - n < 2 {
      RemarkKeeps(h, k, true);
    } else {
      TakeSplits(h.blocks, k, n);
      SplitKeeps(h, k, n, Take(h.blocks, k, n));
    }
  }

  /** Where the blocks of a merged list come from. */
  lemma MergeShape(bs: seq<Block>, k: nat)
    requires k + 1 < |bs| && !bs[k].used && !bs[k + 1].used
    ensures var r := MergeAt(bs, k);
            && |r| == |bs| - 1
            && (forall i | 0 <= i < k :: r[i] == bs[i])
            && r[k] == bs[k].(units := bs[k].units + bs[k + 1].units)
            && (k + 2 < |bs| ==> r[k + 1] == bs[k + 2].(prev := r[k].units))
            && (forall i | k + 1 < i < |r| :: r[i] == bs[i + 1])
  {
  }

  lemma {:induction false} MergeKeeps(h: Heap, k: nat)
    requires Tiled(h) && k + 1 < |h.blocks|
    ensures Tiled(h.(blocks := MergeAt(h.blocks, k)))
  {
    var bs, r := h.blocks, MergeAt(h.blocks, k);
    if !bs[k].used && !bs[k + 1].used {
      MergeShape(bs, k);
      assert Linked(bs[k], bs[k + 1]);
      forall i, j | 0 <= i && j == i + 1 < |r| ensures Linked(r[i], r[j]) {
        if j <= k { assert Linked(bs[i], bs[j]); }
        else { assert Linked(bs[i + 1], bs[j + 1]); }
      }
    }
  }

  /** Merging the only adjacent free pair leaves no adjacent free pair. */
  lemma {:induction false} MergeCoalesces(bs: seq<Block>, k: nat)
    requires k + 1 < |bs|
    requires forall i, j | 0 <= i && j == i + 1 < |bs| && i != k :: bs[i].used || bs[j].used
    ensures Coalesced(MergeAt(bs, k))
  {
    var r := MergeAt(bs, k);
    if !bs[k].used && !bs[k + 1].used {
      MergeShape(bs, k);
      forall i, j | 0 <= i && j == i + 1 < |r| ensures r[i].used || r[j].used {
        if j <= k { assert bs[i].used || bs[j].used; }
        else { assert bs[i + 1].used || bs[j + 1].used; }
      }
    }
  }

  lemma {:induction false} ReleaseKeeps(h: Heap, k: nat)
    requires WellFormed(h) && k < |h.blocks|
    ensures WellFormed(h.(blocks := Release(h.blocks, k)))
  {
    var b1 := h.blocks[k := h.blocks[k].(used := false)];
    var b2 := MergeAbove(b1, k);
    RemarkKeeps(h, k, false);
    if k + 1 < |b1| { MergeKeeps(h.(blocks := b1), k); }
    AfterMergeAbove(h.blocks, k);
    if k > 0 {
      MergeKeeps(h.(blocks := b2), k - 1);
      MergeCoalesces(b2, k - 1);
    }
  }

  /** After the upward merge only the pair (k-1, k) can still be free on both sides. */
  lemma {:induction false} AfterMergeAbove(bs: seq<Block>, k: nat)
    requires Coalesced(bs) && k < |bs|
    ensures var b2 := MergeAbove(bs[k := bs[k].(used := false)], k);
            && !b2[k].used
            && (forall i | 0 <= i < k :: b2[i] == bs[i])
            && (forall i, j | 0 <= i && j == i + 1 < |b2| && j != k :: b2[i].used || b2[j].used)
  {
    var b1 := bs[k := bs[k].(used := false)];
    var b2 := MergeAbove(b1, k);
    if k + 1 < |bs| && !bs[k + 1].used { MergeShape(b1, k); }
    forall i, j | 0 <= i && j == i + 1 < |b2| && j != k ensures b2[i].used || b2[j].used {
      if j < k || |b2| == |bs| { assert bs[i].used || bs[j].used; }
      else { assert bs[i + 1].used || bs[j + 1].used; }
    }
  }
}
