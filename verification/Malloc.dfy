/**
  The user-level allocator of lib/libc/malloc.c, headers and payloads in one memory.

  Memory is an array of 8-byte cells, each a pair of 32-bit words, indexed by address / 8.
  A header is one cell; its bit fields are decoded from the two words.
 */
module Malloc {
  import opened Basics
  import opened HeapBlocks
  import opened HeapRuns

  const CELLS: int := 0x2000_0000         // cells in a 32-bit address space
  const USER_CELLS: int := 0x1000_0000    // cells below USERTOP
  const MMAGIC := 2

  datatype Cell = Cell(lo: word, hi: word)

  const DEADBEEF: Cell := Cell(0xdead_beef, 0xdead_beef)

  // lo = prevblock:29 pad:1 magic1:2, hi = nextblock:29 inuse:1 magic2:2
  function PrevBlock(c: Cell): nat { c.lo / 8 }
  function NextBlock(c: Cell): nat { c.hi / 8 }
  predicate InUse(c: Cell) { c.hi / 4 % 2 == 1 }
  predicate Ok(c: Cell) { c.lo % 4 == MMAGIC && c.hi % 4 == MMAGIC }

  /** A block number above three low bits. */
  function Pack(v: nat, low: nat): (r: word)
    requires v < CELLS && low < 8
    ensures r / 8 == v && r % 4 == low % 4 && r / 4 % 2 == low / 4
  {
    8 * v + low
  }

  lemma LowBits(x: nat)
    ensures x % 8 % 4 == x % 4 && x % 8 / 4 == x / 4 % 2
  {
    var q, r := x / 8, x % 8;
    assert x == 8 * q + r;
    assert x / 4 == 2 * q + r / 4;
  }

  function SetPrev(c: Cell, v: nat): (r: Cell)
    requires v < CELLS
    ensures PrevBlock(r) == v && NextBlock(r) == NextBlock(c) && InUse(r) == InUse(c) && Ok(r) == Ok(c)
  {
    LowBits(c.lo);
    c.(lo := Pack(v, c.lo % 8))
  }

  function SetNext(c: Cell, v: nat): (r: Cell)
    requires v < CELLS
    ensures PrevBlock(r) == PrevBlock(c) && NextBlock(r) == v && InUse(r) == InUse(c) && Ok(r) == Ok(c)
  {
    LowBits(c.hi);
    c.(hi := Pack(v, c.hi % 8))
  }

  function SetInUse(c: Cell, used: bool): (r: Cell)
    ensures PrevBlock(r) == PrevBlock(c) && NextBlock(r) == NextBlock(c) && InUse(r) == used && Ok(r) == Ok(c)
  {
    c.(hi := Pack(c.hi / 8, c.hi % 4 + if used then 4 else 0))
  }

  function NewHeader(prev: nat, next: nat, used: bool): (r: Cell)
    requires prev < CELLS && next < CELLS
    ensures PrevBlock(r) == prev && NextBlock(r) == next && InUse(r) == used && Ok(r)
  {
    SetInUse(SetNext(SetPrev(Cell(MMAGIC, MMAGIC), prev), next), used)
  }

  /** Cell c holds the header of block b. */
  predicate HeaderIs(c: Cell, b: Block) {
    Ok(c) && PrevBlock(c) == b.prev && NextBlock(c) == b.units && InUse(c) == b.used
  }

  /** m holds block b: its header, and if it is free a wiped payload. */
  ghost predicate Holds(m: seq<Cell>, b: Block) {
    && b.units >= 1 && b.End() <= |m|
    && HeaderIs(m[b.start], b)
    && (!b.used ==> forall c | b.start < c < b.End() :: m[c] == DEADBEEF)
  }

  /** m holds heap h, block by block. */
  ghost predicate Laid(m: seq<Cell>, h: Heap) {
    && Tiled(h) && h.top <= USER_CELLS < |m| == CELLS
    && forall k | 0 <= k < |h.blocks| :: Holds(m, h.blocks[k])
  }

  /** m' is m outside [lo, hi). */
  ghost predicate SameOutside(m: seq<Cell>, m': seq<Cell>, lo: int, hi: int) {
    |m'| == |m| && forall c | 0 <= c < |m| && !(lo <= c < hi) :: m'[c] == m[c]
  }

  // ------------------------------------------------------------ layout lemmas

  function StartOf(h: Heap, i: nat): nat
    requires i <= |h.blocks|
  {
    if i < |h.blocks| then h.blocks[i].start else h.top
  }

  /** Rewriting the blocks i..j in place, by writes inside their own cells, keeps the layout. */
  lemma {:induction false} LaidSplice(m: seq<Cell>, h: Heap, i: nat, j: nat, mid: seq<Block>, m': seq<Cell>, h': Heap)
    requires Laid(m, h) && i <= j <= |h.blocks|
    requires h' == h.(blocks := h.blocks[..i] + mid + h.blocks[j..]) && Tiled(h')
    requires SameOutside(m, m', StartOf(h, i), StartOf(h, j))
    requires forall x | 0 <= x < |mid| :: Holds(m', mid[x])
    ensures Laid(m', h')
  {
    TiledIsOrdered(h);
    forall x | 0 <= x < |h'.blocks| ensures Holds(m', h'.blocks[x]) {
      if x < i {
        HoldsFrame(m, m', StartOf(h, i), StartOf(h, j), h.blocks[x]);
      } else if x < i + |mid| {
        assert h'.blocks[x] == mid[x - i];
      } else {
        assert h'.blocks[x] == h.blocks[x - i - |mid| + j];
        HoldsFrame(m, m', StartOf(h, i), StartOf(h, j), h.blocks[x - i - |mid| + j]);
      }
    }
  }

  lemma HoldsFrame(m: seq<Cell>, m': seq<Cell>, lo: int, hi: int, b: Block)
    requires Holds(m, b) && SameOutside(m, m', lo, hi) && (b.End() <= lo || hi <= b.start)
    ensures Holds(m', b)
  {
  }

  /** Setting or clearing the inuse bit of block k, whose payload may be wiped at the same time. */
  lemma {:induction false} LaidRemark(m: seq<Cell>, h: Heap, k: nat, used: bool, m': seq<Cell>)
    requires Laid(m, h) && k < |h.blocks|
    requires SameOutside(m, m', h.blocks[k].start, h.blocks[k].End())
    requires Holds(m', h.blocks[k].(used := used))
    ensures Laid(m', h.(blocks := h.blocks[k := h.blocks[k].(used := used)]))
  {
    var bs, b' := h.blocks, h.blocks[k].(used := used);
    RemarkKeeps(h, k, used);
    assert bs[k := b'] == bs[..k] + [b'] + bs[k + 1..];
    assert StartOf(h, k + 1) == bs[k].End() by { if k + 1 < |bs| { assert Linked(bs[k], bs[k + 1]); } }
    LaidSplice(m, h, k, k + 1, [b'], m', h.(blocks := bs[k := b']));
  }

  /** The block list after __malloc_split: as after Take, with block k not yet marked. */
  function Cut(bs: seq<Block>, k: nat, n: nat): (r: seq<Block>)
    requires k < |bs| && Fits(bs[k], n)
    ensures k < |r|
  {
    var t := Take(bs, k, n);
    t[k := t[k].(used := false)]
  }

  lemma CutNothing(bs: seq<Block>, k: nat, n: nat)
    requires k < |bs| && Fits(bs[k], n) && bs[k].units - 1 - n < 2
    ensures Cut(bs, k, n) == bs
  {
  }

  /** The window of blocks that begins at i and takes `count` blocks, or as many as there are. */
  function Upto(h: Heap, i: nat, count: nat): (j: nat)
    requires i <= |h.blocks|
    ensures i <= j <= |h.blocks|
  {
    if i + count <= |h.blocks| then i + count else |h.blocks|
  }

  function CutMid(h: Heap, k: nat, n: nat): (r: seq<Block>)
    requires k < |h.blocks| && n + 1 < h.blocks[k].units
  {
    var b := h.blocks[k];
    [b.(units := n + 1), Block(b.start + n + 1, n + 1, b.units - n - 1, false)]
    + (if k + 1 < |h.blocks| then [h.blocks[k + 1].(prev := b.units - n - 1)] else [])
  }

  lemma CutIsSplice(h: Heap, k: nat, n: nat)
    requires k < |h.blocks| && Fits(h.blocks[k], n) && h.blocks[k].units - 1 - n >= 2
    ensures Cut(h.blocks, k, n) == h.blocks[..k] + CutMid(h, k, n) + h.blocks[Upto(h, k, 2)..]
  {
  }

  lemma {:induction false} CutKeeps(h: Heap, k: nat, n: nat)
    requires Tiled(h) && k < |h.blocks| && Fits(h.blocks[k], n) && h.blocks[k].units - 1 - n >= 2
    ensures Tiled(h.(blocks := Cut(h.blocks, k, n)))
  {
    var r := Take(h.blocks, k, n);
    TakeSplits(h.blocks, k, n);
    SplitKeeps(h, k, n, r);
    RemarkKeeps(h.(blocks := r), k, false);
  }

  /** A fresh header over otherwise unchanged cells. */
  lemma HoldsRelinked(m: seq<Cell>, m': seq<Cell>, b: Block, prev: nat)
    requires Holds(m, b) && |m'| == |m| && HeaderIs(m'[b.start], b.(prev := prev))
    requires forall c | b.start < c < b.End() :: m'[c] == m[c]
    ensures Holds(m', b.(prev := prev))
  {
  }

  /** m' is m after the header writes of __malloc_split on block k. */
  ghost predicate CutWrites(m: seq<Cell>, h: Heap, k: nat, n: nat, m': seq<Cell>)
    requires k < |h.blocks| && n + 1 < h.blocks[k].units && h.blocks[k].End() <= h.top < |m|
  {
    var b := h.blocks[k];
    && |m'| == |m|
    && HeaderIs(m'[b.start], b.(units := n + 1))
    && HeaderIs(m'[b.start + n + 1], Block(b.start + n + 1, n + 1, b.units - n - 1, false))
    && (if k + 1 < |h.blocks| then HeaderIs(m'[b.End()], h.blocks[k + 1].(prev := b.units - n - 1))
        else m'[b.End()] == m[b.End()])
    && forall c | 0 <= c < |m| && c != b.start && c != b.start + n + 1 && c != b.End() :: m'[c] == m[c]
  }

  lemma {:induction false} CutMidHolds(m: seq<Cell>, h: Heap, k: nat, n: nat, m': seq<Cell>)
    requires Laid(m, h) && k < |h.blocks| && Fits(h.blocks[k], n) && h.blocks[k].units - 1 - n >= 2
    requires h.blocks[k].End() <= h.top && CutWrites(m, h, k, n, m')
    ensures forall x | 0 <= x < |CutMid(h, k, n)| :: Holds(m', CutMid(h, k, n)[x])
  {
    hide HeaderIs;
    var b := h.blocks[k];
    assert Holds(m, b);
    if k + 1 < |h.blocks| {
      assert Linked(b, h.blocks[k + 1]);
      HoldsRelinked(m, m', h.blocks[k + 1], b.units - n - 1);
    }
  }

  lemma {:induction false} LaidCut(m: seq<Cell>, h: Heap, k: nat, n: nat, m': seq<Cell>)
    requires Laid(m, h) && k < |h.blocks| && Fits(h.blocks[k], n) && h.blocks[k].units - 1 - n >= 2
    requires h.blocks[k].End() <= h.top && CutWrites(m, h, k, n, m')
    ensures Laid(m', h.(blocks := Cut(h.blocks, k, n)))
  {
    var bs, j := h.blocks, Upto(h, k, 2);
    CutKeeps(h, k, n);
    CutIsSplice(h, k, n);
    CutMidHolds(m, h, k, n, m');
    assert SameOutside(m, m', StartOf(h, k), StartOf(h, j)) by {
      WindowEnds(h, k, 2);
      if k + 1 < |bs| { assert Linked(bs[k], bs[k + 1]); }
    }
    LaidSplice(m, h, k, j, CutMid(h, k, n), m', h.(blocks := Cut(bs, k, n)));
  }

  /** The header that follows block i, if any, lies inside a window of two blocks or more from i. */
  lemma {:induction false} WindowEnds(h: Heap, i: nat, count: nat)
    requires Tiled(h) && i < |h.blocks| && 1 <= count <= 3
    ensures StartOf(h, i) + h.blocks[i].units <= StartOf(h, Upto(h, i, count))
    ensures count > 1 && i + 1 < |h.blocks| ==> h.blocks[i + 1].start < StartOf(h, Upto(h, i, count))
    ensures count > 2 && i + 2 < |h.blocks| ==> h.blocks[i + 2].start < StartOf(h, Upto(h, i, count))
  {
    var bs := h.blocks;
    if i + 1 < |bs| { assert Linked(bs[i], bs[i + 1]); }
    if i + 2 < |bs| { assert Linked(bs[i + 1], bs[i + 2]); }
    if i + 3 < |bs| { assert Linked(bs[i + 2], bs[i + 3]); }
  }

  function MergeMid(h: Heap, k: nat): (r: seq<Block>)
    requires k + 1 < |h.blocks|
  {
    var u := h.blocks[k].units + h.blocks[k + 1].units;
    [h.blocks[k].(units := u)] + (if k + 2 < |h.blocks| then [h.blocks[k + 2].(prev := u)] else [])
  }

  lemma MergeIsSplice(h: Heap, k: nat)
    requires k + 1 < |h.blocks| && !h.blocks[k].used && !h.blocks[k + 1].used
    ensures MergeAt(h.blocks, k) == h.blocks[..k] + MergeMid(h, k) + h.blocks[Upto(h, k, 3)..]
  {
  }

  /** m' is m after the header writes of __malloc_trymerge on blocks k and k+1. */
  ghost predicate MergeWrites(m: seq<Cell>, h: Heap, k: nat, m': seq<Cell>)
    requires k + 1 < |h.blocks| && h.blocks[k].start < |m| && h.blocks[k + 1].units > 0
    requires h.blocks[k + 1].End() <= h.top < |m|
  {
    var a, b, u := h.blocks[k], h.blocks[k + 1], h.blocks[k].units + h.blocks[k + 1].units;
    && |m'| == |m|
    && HeaderIs(m'[a.start], a.(units := u))
    && m'[b.start] == DEADBEEF
    && (if k + 2 < |h.blocks| then HeaderIs(m'[b.End()], h.blocks[k + 2].(prev := u))
        else m'[b.End()] == m[b.End()])
    && forall c | 0 <= c < |m| && c != a.start && c != b.start && c != b.End() :: m'[c] == m[c]
  }

  lemma {:induction false} LaidMerge(m: seq<Cell>, h: Heap, k: nat, m': seq<Cell>)
    requires Laid(m, h) && k + 1 < |h.blocks| && !h.blocks[k].used && !h.blocks[k + 1].used
    requires h.blocks[k].start < |m| && h.blocks[k + 1].End() <= h.top && MergeWrites(m, h, k, m')
    ensures Laid(m', h.(blocks := MergeAt(h.blocks, k)))
  {
    var bs, j := h.blocks, Upto(h, k, 3);
    MergeKeeps(h, k);
    MergeIsSplice(h, k);
    MergeMidHolds(m, h, k, m');
    assert SameOutside(m, m', StartOf(h, k), StartOf(h, j)) by {
      WindowEnds(h, k, 3);
      assert Linked(bs[k], bs[k + 1]);
      if k + 2 < |bs| { assert Linked(bs[k + 1], bs[k + 2]); }
    }
    LaidSplice(m, h, k, j, MergeMid(h, k), m', h.(blocks := MergeAt(bs, k)));
  }

  lemma {:induction false} MergeMidHolds(m: seq<Cell>, h: Heap, k: nat, m': seq<Cell>)
    requires Laid(m, h) && k + 1 < |h.blocks| && !h.blocks[k].used && !h.blocks[k + 1].used
    requires h.blocks[k].start < |m| && h.blocks[k + 1].End() <= h.top && MergeWrites(m, h, k, m')
    ensures forall x | 0 <= x < |MergeMid(h, k)| :: Holds(m', MergeMid(h, k)[x])
  {
    hide HeaderIs;
    var a, b := h.blocks[k], h.blocks[k + 1];
    assert Holds(m, a) && Holds(m, b) && Linked(a, b);
    if k + 2 < |h.blocks| {
      assert Linked(b, h.blocks[k + 2]);
      HoldsRelinked(m, m', h.blocks[k + 2], a.units + b.units);
    }
  }

  // ------------------------------------------------------------ the answer of malloc, as a function

  /** malloc's rounding: whole units, computed in size_t arithmetic. */
  function Units(size: nat): (n: nat)
    requires size < TWO_32
    ensures n < CELLS
  {
    (size + 7) % TWO_32 / 8
  }

  /** Bytes asked of sbrk for n payload units and a header, in size_t arithmetic. */
  function GrowBytes(n: nat): (r: nat)
    requires n < CELLS
    ensures r < TWO_32
  {
    (8 * n + 8) % TWO_32
  }

  /** Heap and pointer (a byte address, 0 for NULL) after malloc(size) on heap h, with sbrk stopping at limit. */
  function MallocSpec(h: Heap, limit: nat, size: nat): (r: (Heap, nat))
    requires size < TWO_32
  {
    var n := Units(size);
    var k := FirstFit(h.blocks, n);
    if k < |h.blocks| then (h.(blocks := Take(h.blocks, k, n)), 8 * (h.blocks[k].start + 1))
    else ExtendSpec(h, limit, n)
  }

  function ExtendSpec(h: Heap, limit: nat, n: nat): (r: (Heap, nat))
    requires n < CELLS
  {
    if GrowBytes(n) == 0 then (h, 8 * (h.top + 1))
    else if SbrkGrants(8 * h.top, limit, GrowBytes(n)) then (Grow(h, n), 8 * (h.top + 1))
    else (h, 0)
  }

  /** sbrk takes an int: a change of 2^31 or more reads as negative and is refused. */
  predicate SbrkGrants(brk: nat, limit: nat, change: nat) {
    change < 0x8000_0000 && brk + change <= 8 * limit
  }

  datatype FreeOutcome = Accepted | NotReady | OutOfRange | CorruptHeader | AlreadyFree

  /** What free(x) answers: it looks at nothing but the range of the heap and the cell before x. */
  ghost function FreeAnswer(ready: bool, m: seq<Cell>, h: Heap, x: nat): (r: FreeOutcome)
    requires x % 8 == 0 && |m| == CELLS && h.base > 0 && h.top <= CELLS
  {
    if x == 0 then Accepted
    else if !ready then NotReady
    else if x < 8 * h.base || x >= 8 * h.top then OutOfRange
    else if !Ok(m[x / 8 - 1]) then CorruptHeader
    else if !InUse(m[x / 8 - 1]) then AlreadyFree
    else Accepted
  }

  /** The index of the block in use that starts at cell c, or |bs|. */
  function LiveIndex(bs: seq<Block>, c: int, k: nat := 0): (r: nat)
    requires k <= |bs|
    ensures k <= r <= |bs|
    ensures r < |bs| ==> bs[r].used && bs[r].start == c
    ensures r == |bs| ==> forall j | k <= j < |bs| :: !(bs[j].used && bs[j].start == c)
    decreases |bs| - k
  {
    if k == |bs| || (bs[k].used && bs[k].start == c) then k else LiveIndex(bs, c, k + 1)
  }

  class Allocator {
    var heapbase: nat  // in cells; 0 before the first call
    var heaptop: nat
    var brk: nat       // the process break, in bytes
    const limit: nat   // cells below which sbrk may move the break
    const mem: array<Cell>
    ghost var blocks: seq<Block>

    /** The heap the allocator sees, or would see after its set-up. */
    ghost function Abs(): Heap
      reads this
    {
      if heapbase == 0 then Heap((brk + 7) / 8, (brk + 7) / 8, []) else Heap(heapbase, heaptop, blocks)
    }

    ghost predicate Valid()
      reads this, mem
    {
      && mem.Length == CELLS && limit <= USER_CELLS && 0 < brk <= 8 * limit
      && (heapbase == 0 ==> heaptop == 0 && blocks == [])
      && (heapbase != 0 ==> brk == 8 * heaptop)
      && Coalesced(Abs().blocks)
      && Laid(mem[..], Abs())
    }

    constructor (brk: nat, limit: nat, mem: array<Cell>)
      requires mem.Length == CELLS && limit <= USER_CELLS && 0 < brk <= 8 * limit
      ensures Valid() && Abs().blocks == [] && this.mem == mem && this.limit == limit && this.brk == brk
    {
      this.heapbase, this.heaptop, this.blocks := 0, 0, [];
      this.brk, this.limit, this.mem := brk, limit, mem;
    }

    /** The system call: move the break up, or answer -1. */
    method Sbrk(change: nat) returns (x: int)
      requires change < TWO_32
      modifies this`brk
      ensures SbrkGrants(old(brk), limit, change) ==> x == old(brk) && brk == old(brk) + change
      ensures !SbrkGrants(old(brk), limit, change) ==> x == -1 && brk == old(brk)
    {
      if SbrkGrants(brk, limit, change) {
        x := brk;
        brk := brk + change;
      } else {
        x := -1;
      }
    }

    /** __malloc_init: find the break and align it upwards. */
    method Init()
      requires Valid() && heapbase == 0
      modifies this
      ensures Valid() && heapbase != 0 && Abs() == old(Abs())
      ensures heaptop == heapbase && blocks == [] && old(brk) <= 8 * heapbase < old(brk) + 8
    {
      var x := Sbrk(0);
      assert x > 0;
      var base := brk;
      if base % 8 != 0 {
        var adjust := 8 - base % 8;
        x := Sbrk(adjust);
        assert x == base;  // neither "sbrk failed" nor "heap base moved"
        base := base + adjust;
      }
      heapbase, heaptop := base / 8, base / 8;
    }

    /** __malloc_split: cut free block k after n payload units if two or more units remain. */
    method Split(mh: nat, n: nat, ghost k: nat)
      requires heapbase != 0 && mem.Length == CELLS && Laid(mem[..], Abs())
      requires k < |blocks| && blocks[k].start == mh && Fits(blocks[k], n)
      modifies this`blocks, mem
      ensures Laid(mem[..], Abs()) && blocks == Cut(old(blocks), k, n)
      ensures forall c | 0 <= c < CELLS && c != mh && c != mh + n + 1 && c != mh + old(blocks[k].units) ::
                mem[c] == old(mem[c])
    {
      hide PrevBlock, NextBlock, InUse, Ok, SetNext, SetPrev, NewHeader, Laid, Cut;
      ghost var h, m := Abs(), mem[..];
      Neighbourhood(m, h, k);
      var oldsize := NextBlock(mem[mh]) - 1;
      if oldsize - n < 2 {
        CutNothing(blocks, k, n);
        return;
      }
      var mhnext := mh + NextBlock(mem[mh]);
      mem[mh] := SetNext(mem[mh], n + 1);
      var mhnew := mh + NextBlock(mem[mh]);
      assert mhnew != mhnext;
      mem[mhnew] := NewHeader(n + 1, oldsize - n, false);
      if mhnext != heaptop {
        mem[mhnext] := SetPrev(mem[mhnext], NextBlock(mem[mhnew]));
      }
      blocks := Cut(blocks, k, n);
      LaidCut(m, h, k, n, mem[..]);
    }

    /** __malloc_sbrk: extend the heap, or answer -1. */
    method MallocSbrk(size: nat) returns (x: int)
      requires Valid() && heapbase != 0 && size < TWO_32 && size % 8 == 0
      modifies this`brk, this`heaptop
      ensures SbrkGrants(8 * old(heaptop), limit, size) ==>
                x == old(heaptop) && heaptop == old(heaptop) + size / 8 && brk == 8 * heaptop
      ensures !SbrkGrants(8 * old(heaptop), limit, size) ==>
                x == -1 && heaptop == old(heaptop) && brk == old(brk)
    {
      var y := Sbrk(size);
      if y == -1 { return -1; }
      assert y == 8 * heaptop;  // not "heap top moved itself"
      x := heaptop;
      heaptop := heaptop + size / 8;
    }

    /** The end of a successful search: split block k if worthwhile and mark it in use. */
    method Allocate(mh: nat, n: nat, ghost k: nat)
      requires Valid() && heapbase != 0
      requires k < |blocks| && blocks[k].start == mh && Fits(blocks[k], n)
      modifies this`blocks, mem
      ensures Valid() && Abs() == old(Abs()).(blocks := Take(old(blocks), k, n))
      ensures OthersKept(old(mem[..]), mem[..], old(Abs()), -1)
    {
      hide PrevBlock, NextBlock, InUse, Ok, Tiled, Laid, Coalesced, SetInUse, Take, Cut, OthersKept;
      ghost var h, m := Abs(), mem[..];
      LaidBounds(m, h);
      Neighbourhood(m, h, k);
      TakeKeeps(h, k, n);
      CutThenMark(blocks, k, n);
      Split(mh, n, k);
      ghost var m1, h1 := mem[..], Abs();
      Neighbourhood(m1, h1, k);
      mem[mh] := SetInUse(mem[mh], true);
      blocks := Take(h.blocks, k, n);
      LaidRemark(m1, h1, k, true, mem[..]);
      TakeKeepsOthers(m, h, k, n, mem[..]);
    }

    /** No block fits: get a new one from sbrk and write its header. */
    method Extend(n: nat, rightprev: nat) returns (p: nat)
      requires Valid() && heapbase != 0 && n < CELLS
      requires FirstFit(blocks, n) == |blocks|
      requires rightprev == if blocks == [] then 0 else blocks[|blocks| - 1].units
      modifies this, mem
      ensures Valid() && heapbase != 0
      ensures (Abs(), p) == ExtendSpec(old(Abs()), limit, n)
      ensures OthersKept(old(mem[..]), mem[..], old(Abs()), -1)
    {
      hide PrevBlock, NextBlock, InUse, Ok, Tiled, Laid, Coalesced, NewHeader, OthersKept;
      ghost var h, m := Abs(), mem[..];
      LaidBounds(m, h);
      LastUnits(m, h);
      KeptOutside(m, h, m);
      var x := MallocSbrk(GrowBytes(n));
      if x == -1 {
        return 0;
      }
      mem[x] := NewHeader(rightprev, GrowBytes(n) / 8, true);
      KeptOutside(m, h, mem[..]);
      if GrowBytes(n) == 0 {
        LaidAbove(m, h, mem[..]);
      } else {
        blocks := Grow(h, n).blocks;
        GrowKeeps(h, n);
        LaidGrow(m, h, n, mem[..]);
      }
      p := 8 * (x + 1);
    }

    /**
      malloc.  The first-fit scan checks every header it passes; the assertions say that none of
      its "heap corrupt" exits is taken.
     */
    method Malloc(size: nat) returns (p: nat)
      requires Valid() && size < TWO_32
      modifies this, mem
      ensures Valid() && heapbase != 0
      ensures (Abs(), p) == MallocSpec(old(Abs()), limit, size)
      ensures OthersKept(old(mem[..]), mem[..], old(Abs()), -1)
    {
      hide PrevBlock, NextBlock, InUse, Ok, Tiled, Laid, Coalesced, Take, OthersKept;
      if heapbase == 0 { Init(); }
      ghost var h, m := Abs(), mem[..];
      assert heapbase != 0 && heaptop != 0 && heapbase <= heaptop by { LaidBounds(m, h); }

      var n := Units(size);
      var rightprev, i := 0, heapbase;
      ghost var k := 0;
      LaidBounds(m, h);
      while i < heaptop
        invariant Valid() && heapbase != 0 && Abs() == h && mem[..] == m
        invariant k <= |h.blocks| && i == StartOf(h, k)
        invariant rightprev == if k == 0 then 0 else h.blocks[k - 1].units
        invariant FirstFit(h.blocks, n) == FirstFit(h.blocks, n, k)
        decreases heaptop - i
      {
        Neighbourhood(m, h, k);
        var mh := mem[i];
        assert Ok(mh);                       // not "bad magic bits"
        assert PrevBlock(mh) == rightprev;   // not "bad previous-block size"
        rightprev := NextBlock(mh);
        if InUse(mh) || NextBlock(mh) - 1 < n {
          i := i + NextBlock(mh);
          k := k + 1;
          continue;
        }
        Allocate(i, n, k);
        return 8 * (i + 1);
      }
      assert k == |blocks| by { if k < |blocks| { Neighbourhood(m, h, k); } }
      assert i == heaptop;                   // not "ran off end"
      p := Extend(n, rightprev);
    }

    /** __malloc_deadbeef on whole cells. */
    method Deadbeef(from: nat, count: nat)
      requires mem.Length == CELLS && from + count <= CELLS
      modifies mem
      ensures forall c | 0 <= c < CELLS :: mem[c] == if from <= c < from + count then DEADBEEF else old(mem[c])
    {
      for i := 0 to count
        invariant forall c | 0 <= c < CELLS :: mem[c] == if from <= c < from + i then DEADBEEF else old(mem[c])
      {
        mem[from + i] := DEADBEEF;
      }
    }

    /** __malloc_trymerge on blocks k and k+1. */
    method TryMerge(mh: nat, mhnext: nat, ghost k: nat)
      requires heapbase != 0 && mem.Length == CELLS && Laid(mem[..], Abs())
      requires k + 1 < |blocks| && blocks[k].start == mh && blocks[k + 1].start == mhnext
      modifies this`blocks, mem
      ensures Laid(mem[..], Abs()) && blocks == MergeAt(old(blocks), k)
      ensures forall c | 0 <= c < CELLS && c != mh && c != mhnext && c != mhnext + old(blocks[k + 1].units) ::
                mem[c] == old(mem[c])
    {
      hide PrevBlock, NextBlock, InUse, Ok, SetNext, SetPrev, Laid, MergeAt;
      ghost var h, m := Abs(), mem[..];
      Neighbourhood(m, h, k);
      Neighbourhood(m, h, k + 1);
      assert NextBlock(mem[mh]) == PrevBlock(mem[mhnext]);  // not "heap corrupt ... inconsistent"
      if InUse(mem[mh]) || InUse(mem[mhnext]) {
        MergeNothing(blocks, k);
        return;
      }
      var mhnextnext := mhnext + NextBlock(mem[mhnext]);
      mem[mh] := SetNext(mem[mh], 1 + (NextBlock(mem[mh]) - 1) + 1 + (NextBlock(mem[mhnext]) - 1));
      if mhnextnext != heaptop {
        mem[mhnextnext] := SetPrev(mem[mhnextnext], NextBlock(mem[mh]));
      }
      Deadbeef(mhnext, 1);
      blocks := MergeAt(blocks, k);
      LaidMerge(m, h, k, mem[..]);
    }

    /** The first part of free: mark block k free and wipe its payload. */
    method MarkFree(mh: nat, ghost k: nat)
      requires heapbase != 0 && mem.Length == CELLS && Laid(mem[..], Abs())
      requires k < |blocks| && blocks[k].start == mh
      modifies this`blocks, mem
      ensures Laid(mem[..], Abs()) && blocks == old(blocks)[k := old(blocks)[k].(used := false)]
      ensures forall c | 0 <= c < CELLS && !(mh <= c < mh + old(blocks[k].units)) :: mem[c] == old(mem[c])
    {
      hide PrevBlock, NextBlock, InUse, Ok, SetInUse, Laid;
      ghost var h, m := Abs(), mem[..];
      Neighbourhood(m, h, k);
      mem[mh] := SetInUse(mem[mh], false);
      Deadbeef(mh + 1, NextBlock(mem[mh]) - 1);
      blocks := blocks[k := blocks[k].(used := false)];
      LaidRemark(m, h, k, false, mem[..]);
    }

    /** free once its checks have passed: mark, wipe, merge upwards, merge downwards. */
    method Recycle(mh: nat, ghost k: nat)
      requires Valid() && heapbase != 0 && k < |blocks| && blocks[k].start == mh
      modifies this`blocks, mem
      ensures Valid() && Abs() == old(Abs()).(blocks := Release(old(blocks), k))
      ensures OthersKept(old(mem[..]), mem[..], old(Abs()), k)
    {
      hide PrevBlock, NextBlock, InUse, Ok, Tiled, Laid, Coalesced, MergeAt, OthersKept;
      ghost var h, m := Abs(), mem[..];
      LaidBounds(m, h);
      Neighbourhood(m, h, k);
      ReleaseKeeps(h, k);
      MarkFree(mh, k);
      ghost var h1 := Abs();
      Neighbourhood(mem[..], h1, k);
      var mhnext := mh + NextBlock(mem[mh]);
      if mhnext != heaptop {
        TryMerge(mh, mhnext, k);
      }
      UpwardMergeKeepsStart(h1, k);
      ghost var h2 := Abs();
      Neighbourhood(mem[..], h2, k);
      if mh != heapbase {
        var mhprev := mh - PrevBlock(mem[mh]);
        TryMerge(mhprev, mh, k - 1);
      }
      FreeKeepsOthers(m, h, k, mem[..]);
    }

    /**
      free.  The caller must not have forged a header: when the cell before x looks like the
      header of a block in use, it is one.
     */
    method Free(x: nat) returns (r: FreeOutcome)
      requires Valid() && x % 8 == 0
      requires x != 0 && FreeAnswer(heapbase != 0, mem[..], Abs(), x) == Accepted ==>
                 LiveIndex(blocks, x / 8 - 1) < |blocks|
      modifies this, mem
      ensures Valid() && heapbase == old(heapbase)
      ensures x == 0 ==> r == Accepted
      ensures x != 0 && old(heapbase) == 0 ==> r == NotReady
      ensures x != 0 && old(heapbase) != 0 ==> (r == OutOfRange <==> x < 8 * old(heapbase) || x >= 8 * old(heaptop))
      ensures r == old(FreeAnswer(heapbase != 0, mem[..], Abs(), x))
      ensures r != Accepted || x == 0 ==> Abs() == old(Abs()) && mem[..] == old(mem[..])
      ensures r == Accepted && x != 0 ==>
                var k := LiveIndex(old(blocks), x / 8 - 1);
                && Abs() == old(Abs()).(blocks := Release(old(blocks), k))
                && OthersKept(old(mem[..]), mem[..], old(Abs()), k)
    {
      hide InUse, Ok, Tiled, Laid, Coalesced, Release, OthersKept;
      if x == 0 { return Accepted; }
      ghost var h, m := Abs(), mem[..];
      LaidBounds(m, h);
      if heapbase == 0 || heaptop == 0 || heapbase > heaptop { return NotReady; }
      if x < 8 * heapbase || x >= 8 * heaptop { return OutOfRange; }
      var mh := x / 8 - 1;
      if !Ok(mem[mh]) { return CorruptHeader; }
      if !InUse(mem[mh]) { return AlreadyFree; }
      Recycle(mh, LiveIndex(blocks, mh));
      r := Accepted;
    }
  }

  /** The payloads of the blocks in use, block `except` aside, and everything below the heap are as before. */
  ghost predicate OthersKept(m: seq<Cell>, m': seq<Cell>, h: Heap, except: int) {
    && |m'| == |m|
    && (forall c | 0 <= c < h.base && c < |m| :: m'[c] == m[c])
    && (forall j, c | 0 <= j < |h.blocks| && h.blocks[j].used && j != except
                      && h.blocks[j].start < c < h.blocks[j].End() && c < |m| :: m'[c] == m[c])
  }

  /** What the header of block k and the one after it say, and where they lie. */
  lemma {:induction false} Neighbourhood(m: seq<Cell>, h: Heap, k: nat)
    requires Laid(m, h) && k < |h.blocks|
    ensures var b := h.blocks[k];
            && HeaderIs(m[b.start], b) && b.units >= 1 && h.base <= b.start && b.End() <= h.top
            && h.top <= USER_CELLS < |m| == CELLS
            && (b.End() == h.top <==> k + 1 == |h.blocks|)
            && (k + 1 < |h.blocks| ==> h.blocks[k + 1].start == b.End() && HeaderIs(m[b.End()], h.blocks[k + 1]))
            && b.prev == (if k == 0 then 0 else h.blocks[k - 1].units) <= b.start - h.base
            && (b.start == h.base <==> k == 0)
            && (k > 0 ==> h.blocks[k - 1].start == b.start - b.prev)
  {
    hide HeaderIs;
    TiledIsOrdered(h);
    assert Holds(m, h.blocks[k]);
    if k + 1 < |h.blocks| {
      assert Linked(h.blocks[k], h.blocks[k + 1]) && Holds(m, h.blocks[k + 1]);
    }
    if k > 0 { assert Linked(h.blocks[k - 1], h.blocks[k]); }
  }

  lemma LaidBounds(m: seq<Cell>, h: Heap)
    requires Laid(m, h)
    ensures h.base <= h.top <= USER_CELLS < |m| == CELLS
    ensures Tiled(h) && h.base == StartOf(h, 0)
  {
  }

  lemma CutThenMark(bs: seq<Block>, k: nat, n: nat)
    requires k < |bs| && Fits(bs[k], n)
    ensures var c := Cut(bs, k, n);
            Take(bs, k, n) == c[k := c[k].(used := true)] && c[k].start == bs[k].start && n < c[k].units
  {
  }

  lemma {:induction false} LastUnits(m: seq<Cell>, h: Heap)
    requires Laid(m, h)
    ensures h.top <= USER_CELLS < CELLS == |m|
    ensures h.blocks != [] ==> h.blocks[|h.blocks| - 1].units <= h.top
  {
    if h.blocks != [] { Neighbourhood(m, h, |h.blocks| - 1); }
  }

  /** Writes at or above the top of the heap touch no payload in use. */
  lemma {:induction false} KeptOutside(m: seq<Cell>, h: Heap, m': seq<Cell>)
    requires Laid(m, h) && |m'| == |m|
    requires forall c | 0 <= c < h.top && c < |m| :: m'[c] == m[c]
    ensures OthersKept(m, m', h, -1)
  {
    TiledIsOrdered(h);
  }

  lemma {:induction false} LaidAbove(m: seq<Cell>, h: Heap, m': seq<Cell>)
    requires Laid(m, h) && SameOutside(m, m', h.top, |m|)
    ensures Laid(m', h)
  {
    hide HeaderIs;
    TiledIsOrdered(h);
    forall x | 0 <= x < |h.blocks| ensures Holds(m', h.blocks[x]) {
      assert Holds(m, h.blocks[x]);
      HoldsFrame(m, m', h.top, |m|, h.blocks[x]);
    }
  }

  lemma {:induction false} LaidGrow(m: seq<Cell>, h: Heap, n: nat, m': seq<Cell>)
    requires Laid(m, h) && WellFormed(Grow(h, n)) && Grow(h, n).top <= USER_CELLS && |m'| == |m|
    requires forall c | 0 <= c < h.top && c < |m| :: m'[c] == m[c]
    requires HeaderIs(m'[h.top], Grow(h, n).blocks[|h.blocks|])
    ensures Laid(m', Grow(h, n))
  {
    hide HeaderIs;
    var g := Grow(h, n);
    TiledIsOrdered(h);
    forall x | 0 <= x < |g.blocks| ensures Holds(m', g.blocks[x]) {
      if x < |h.blocks| {
        assert Holds(m, h.blocks[x]);
        HoldsFrame(m, m', h.top, |m|, h.blocks[x]);
      }
    }
  }

  /** Taking block k writes only block k's own cells and the header after it. */
  lemma {:induction false} TakeKeepsOthers(m: seq<Cell>, h: Heap, k: nat, n: nat, m': seq<Cell>)
    requires Laid(m, h) && k < |h.blocks| && !h.blocks[k].used && |m'| == |m|
    requires forall c | 0 <= c < |m| && !(h.blocks[k].start <= c <= h.blocks[k].End()) :: m'[c] == m[c]
    ensures OthersKept(m, m', h, -1)
  {
    TiledIsOrdered(h);
    forall j, c | 0 <= j < |h.blocks| && h.blocks[j].used && h.blocks[j].start < c < h.blocks[j].End()
      ensures m'[c] == m[c]
    {
      if j < k { TiledPair(h, j, k); } else { TiledPair(h, k, j); }
    }
  }

  lemma MergeNothing(bs: seq<Block>, k: nat)
    requires k + 1 < |bs| && (bs[k].used || bs[k + 1].used)
    ensures MergeAt(bs, k) == bs
  {
  }

  /** Merging upwards moves neither block k nor those below it, and block k ends where it or its neighbour did. */
  lemma UpwardMergeKeepsStart(h: Heap, k: nat)
    requires k < |h.blocks|
    ensures var r := MergeAbove(h.blocks, k);
            && k < |r| && r[k].start == h.blocks[k].start && r[k].prev == h.blocks[k].prev
            && (forall i | 0 <= i < k :: r[i] == h.blocks[i])
            && (r[k].units == h.blocks[k].units
                || (k + 1 < |h.blocks| && r[k].units == h.blocks[k].units + h.blocks[k + 1].units))
  {
  }

  /** free(x) writes only block k's own cells and headers of its neighbours. */
  lemma {:induction false} FreeKeepsOthers(m: seq<Cell>, h: Heap, k: nat, m': seq<Cell>)
    requires Laid(m, h) && k < |h.blocks| && |m'| == |m|
    requires forall c | 0 <= c < |m| && FreeMayNotWrite(h, k, c) :: m'[c] == m[c]
    ensures OthersKept(m, m', h, k)
  {
    TiledIsOrdered(h);
    forall j, c | 0 <= j < |h.blocks| && j != k && h.blocks[j].start < c < h.blocks[j].End()
      ensures FreeMayNotWrite(h, k, c)
    {
      HeaderNotPayload(h, j, k, c);
    }
  }

  ghost predicate FreeMayNotWrite(h: Heap, k: nat, c: int)
    requires k < |h.blocks|
  {
    && !(h.blocks[k].start <= c <= h.blocks[k].End())
    && (k > 0 ==> c != h.blocks[k - 1].start)
    && (k + 1 < |h.blocks| ==> c != h.blocks[k + 1].End())
  }

  lemma {:induction false} HeaderNotPayload(h: Heap, j: nat, k: nat, c: int)
    requires Tiled(h) && j < |h.blocks| && k < |h.blocks| && j != k
    requires h.blocks[j].start < c < h.blocks[j].End()
    ensures FreeMayNotWrite(h, k, c)
  {
    if j < k { TiledPair(h, j, k); } else { TiledPair(h, k, j); }
    if k > 0 && j != k - 1 {
      if j < k - 1 { TiledPair(h, j, k - 1); } else { TiledPair(h, k - 1, j); }
    }
    if k + 1 < |h.blocks| && j != k + 1 {
      if j < k + 1 { TiledPair(h, j, k + 1); } else { TiledPair(h, k + 1, j); }
    }
  }
}
