/**
  What callers of malloc and free get, exactly: when a request is served, when a live
  pointer is accepted by free, and that a pointer freed twice is refused.
 */
module MallocTheorems {
  import opened Basics
  import opened HeapBlocks
  import opened HeapRuns
  import opened Malloc

  /** Some block in use has its payload at byte address p, and the payload holds size bytes. */
  ghost predicate Serving(bs: seq<Block>, p: nat, size: nat) {
    exists k | 0 <= k < |bs| :: bs[k].used && 8 * (bs[k].start + 1) == p && 8 * (bs[k].units - 1) >= size
  }

  /** The rounding of malloc is a rounding up exactly below the top eight sizes, where size_t wraps. */
  lemma RoundsUp(size: nat)
    requires size < TWO_32
    ensures 8 * Units(size) >= size <==> size <= TWO_32 - 8
    ensures GrowBytes(Units(size)) == 0 <==> TWO_32 - 16 < size <= TWO_32 - 8
    ensures size <= TWO_32 - 16 ==> 8 * Units(size) < size + 8 && GrowBytes(Units(size)) == 8 * Units(size) + 8
    ensures size > TWO_32 - 8 ==> Units(size) == 0
  {
  }

  /** Within range, malloc is one step of the heap runs: first fit, growth, or refusal. */
  lemma {:induction false} MallocIsStep(h: Heap, limit: nat, size: nat)
    requires size <= TWO_32 - 16
    ensures var (h', p) := MallocSpec(h, limit, size);
            if p == 0 then Step(h, Refused(Units(size)), h')
            else p % 8 == 0 && p >= 8 && Step(h, Malloced(Units(size), p / 8 - 1), h')
  {
    hide Units, GrowBytes, Take;
    RoundsUp(size);
  }

  /** An accepted free is one step of the heap runs. */
  lemma FreeIsStep(h: Heap, c: nat)
    requires LiveIndex(h.blocks, c) < |h.blocks|
    ensures Step(h, Freed(c), h.(blocks := Release(h.blocks, LiveIndex(h.blocks, c))))
  {
    var k := LiveIndex(h.blocks, c);
    assert h.blocks[k].used && h.blocks[k].start == c;
  }

  lemma {:induction false} TakeServes(h: Heap, k: nat, size: nat)
    requires k < |h.blocks| && size <= TWO_32 - 8 && Fits(h.blocks[k], Units(size))
    ensures Serving(Take(h.blocks, k, Units(size)), 8 * (h.blocks[k].start + 1), size)
  {
    var n, r := Units(size), Take(h.blocks, k, Units(size));
    RoundsUp(size);
    assert r[k].used && r[k].start == h.blocks[k].start && r[k].units - 1 >= n;
  }

  /** Exact condition: a non-NULL answer is a payload of at least size bytes iff size <= 2^32 - 16. */
  lemma {:induction false} MallocServesIff(h: Heap, limit: nat, size: nat)
    requires WellFormed(h) && h.top <= USER_CELLS && size < TWO_32
    requires MallocSpec(h, limit, size).1 != 0
    ensures Serving(MallocSpec(h, limit, size).0.blocks, MallocSpec(h, limit, size).1, size)
            <==> size <= TWO_32 - 16
  {
    hide Take, Units, GrowBytes;
    RoundsUp(size);
    var n := Units(size);
    var k := FirstFit(h.blocks, n);
    TiledIsOrdered(h);
    if size <= TWO_32 - 16 {
      if k < |h.blocks| {
        TakeServes(h, k, size);
      } else {
        var g := Grow(h, n).blocks;
        assert g[|h.blocks|].used && g[|h.blocks|].start == h.top && g[|h.blocks|].units == n + 1;
      }
    } else {
      TooLargeNotServed(h, limit, size);
    }
  }

  lemma {:induction false} TooLargeNotServed(h: Heap, limit: nat, size: nat)
    requires WellFormed(h) && h.top <= USER_CELLS && TWO_32 - 16 < size < TWO_32
    ensures !Serving(MallocSpec(h, limit, size).0.blocks, MallocSpec(h, limit, size).1, size)
  {
    hide Take, Units, GrowBytes;
    var (h', p) := MallocSpec(h, limit, size);
    RoundsUp(size);
    var n := Units(size);
    var k := FirstFit(h.blocks, n);
    assert Tiled(h') && h'.top <= USER_CELLS + n + 1 by {
      if k < |h.blocks| { TakeKeeps(h, k, n); } else { GrowKeeps(h, n); }
    }
    TiledIsOrdered(h');
    if GrowBytes(n) != 0 { assert n == 0; }
  }

  /** Exact condition: free accepts a live pointer iff it is not the empty payload at the very top of the heap. */
  lemma {:induction false} FreeAcceptsIff(m: seq<Cell>, h: Heap, k: nat)
    requires Laid(m, h) && h.base > 0 && k < |h.blocks| && h.blocks[k].used
    ensures FreeAnswer(true, m, h, 8 * (h.blocks[k].start + 1))
            == if k == |h.blocks| - 1 && h.blocks[k].units == 1 then OutOfRange else Accepted
  {
    hide Ok, InUse;
    Neighbourhood(m, h, k);
  }

  /** The failing family is met at once: the first malloc(0) answers a pointer that free refuses. */
  lemma ZeroSizeRefused(base: nat, limit: nat, m: seq<Cell>)
    requires 0 < base < limit <= USER_CELLS && |m| == CELLS
    ensures var (h, p) := MallocSpec(Heap(base, base, []), limit, 0);
            p != 0 && h.blocks == [Block(base, 0, 1, true)] && FreeAnswer(true, m, h, p) == OutOfRange
  {
  }

  /** free refuses every pointer just above a cell of a free block: its header, or anything wiped. */
  lemma {:induction false} FreeCellRefused(m: seq<Cell>, h: Heap, k: nat, c: nat)
    requires Laid(m, h) && h.base > 0 && k < |h.blocks| && !h.blocks[k].used
    requires h.blocks[k].start <= c < h.blocks[k].End() && c + 1 < h.top
    ensures FreeAnswer(true, m, h, 8 * (c + 1))
            == if c == h.blocks[k].start then AlreadyFree else CorruptHeader
  {
    Neighbourhood(m, h, k);
    assert Holds(m, h.blocks[k]);
    assert !Ok(DEADBEEF);
  }

  /** After free of block k, the cell that was its header lies in a free block. */
  lemma {:induction false} ReleasedCellIsFree(h: Heap, k: nat) returns (j: nat)
    requires WellFormed(h) && k < |h.blocks|
    ensures var r := Release(h.blocks, k);
            j < |r| && !r[j].used && r[j].start <= h.blocks[k].start < r[j].End()
  {
    var b1 := h.blocks[k := h.blocks[k].(used := false)];
    var b2 := MergeAbove(b1, k);
    assert h.blocks[k].units >= 1;
    assert !b2[k].used && b2[k].start == h.blocks[k].start && b2[k].units >= 1;
    if k > 0 && !b2[k - 1].used {
      assert b2[k - 1] == h.blocks[k - 1] && Linked(h.blocks[k - 1], h.blocks[k]);
      MergeShape(b2, k - 1);
      j := k - 1;
    } else {
      j := k;
    }
  }

  /** free turns away the aligned pointer x. */
  ghost predicate Refuses(m: seq<Cell>, h: Heap, x: nat) {
    x % 8 == 0 && |m| == CELLS && 0 < h.base && h.top <= CELLS && FreeAnswer(true, m, h, x) != Accepted
  }

  /** A pointer freed twice in a row is always refused the second time. */
  lemma {:induction false} DoubleFreeRefused(h: Heap, k: nat, h': Heap, m': seq<Cell>)
    requires WellFormed(h) && h.base > 0 && k < |h.blocks| && h.blocks[k].used
    requires Laid(m', h') && h'.base == h.base && h'.top == h.top && h'.blocks == Release(h.blocks, k)
    ensures Refuses(m', h', 8 * (h.blocks[k].start + 1))
  {
    hide Ok, InUse, Release;
    var j := ReleasedCellIsFree(h, k);
    if h.blocks[k].start + 1 < h.top {
      FreeCellRefused(m', h', j, h.blocks[k].start);
    }
  }

  // ------------------------------------------------------------ free of what malloc has just answered

  /** A pointer that malloc answers is that of a live block, or lies at the top of the heap or above it. */
  lemma {:induction false} AnswerIsLive(h: Heap, limit: nat, size: nat)
    requires WellFormed(h) && size < TWO_32
    ensures var (h', p) := MallocSpec(h, limit, size);
            && p % 8 == 0 && (p != 0 ==> p >= 8 * (h.base + 1))
            && (0 < p < 8 * h'.top ==> LiveIndex(h'.blocks, p / 8 - 1) < |h'.blocks|)
  {
    hide Units, GrowBytes, Take;
    TiledIsOrdered(h);
    var n := Units(size);
    var k := FirstFit(h.blocks, n);
    if k < |h.blocks| {
      TakenAt(h, k, n);
    } else if GrowBytes(n) != 0 {
      GrownAt(h, n);
    }
  }

  lemma TakenAt(h: Heap, k: nat, n: nat)
    requires k < |h.blocks| && Fits(h.blocks[k], n)
    ensures k < |Take(h.blocks, k, n)| && var b := Take(h.blocks, k, n)[k]; b.used && b.start == h.blocks[k].start
  {
  }

  lemma GrownAt(h: Heap, n: nat)
    ensures |h.blocks| < |Grow(h, n).blocks| && var b := Grow(h, n).blocks[|h.blocks|]; b.used && b.start == h.top
  {
  }

  lemma {:induction false} AnswerBelowTop(h: Heap, limit: nat, size: nat)
    requires WellFormed(h) && size < TWO_32
    ensures var (h', p) := MallocSpec(h, limit, size);
            (p == 0 ==> h' == h) && (1 <= size <= TWO_32 - 16 ==> p == 0 || p < 8 * h'.top)
  {
    hide Units, GrowBytes, Take;
    TiledIsOrdered(h);
    RoundsUp(size);
    var k := FirstFit(h.blocks, Units(size));
    if k < |h.blocks| { assert h.blocks[k].End() <= h.top; }
  }

  lemma LaidWell(m: seq<Cell>, h: Heap)
    requires Laid(m, h) && Coalesced(h.blocks)
    ensures WellFormed(h) && h.base <= h.top <= USER_CELLS < |m| == CELLS
  {
  }

  lemma {:induction false} LiveAccepted(m: seq<Cell>, h: Heap, p: nat)
    requires Laid(m, h) && h.base > 0 && p % 8 == 0 && h.top <= CELLS == |m|
    ensures 0 < p < 8 * h.top && LiveIndex(h.blocks, p / 8 - 1) < |h.blocks| ==> FreeAnswer(true, m, h, p) == Accepted
  {
    hide FreeAnswer, Laid;
    if p > 0 {
      var k := LiveIndex(h.blocks, p / 8 - 1);
      if k < |h.blocks| {
        FreeAcceptsIff(m, h, k);
        Neighbourhood(m, h, k);
      }
    }
  }

  lemma AboveRefused(m: seq<Cell>, h: Heap, p: nat)
    requires p % 8 == 0 && |m| == CELLS && 0 < h.base && h.top <= CELLS
    ensures p > 0 && p >= 8 * h.top ==> FreeAnswer(true, m, h, p) == OutOfRange
  {
  }

  /**
    Exact condition, across both calls: free of what malloc has just answered is accepted iff that is
    NULL or lies below the top of the heap.  It does not when it is an empty payload at the very top,
    or when the growth request has wrapped to nothing.
   */
  method MallocThenFree(al: Allocator, size: nat) returns (p: nat, r: FreeOutcome)
    requires al.Valid() && size < TWO_32
    modifies al, al.mem
    ensures al.Valid() && p == MallocSpec(old(al.Abs()), al.limit, size).1
    ensures r == Accepted <==> p == 0 || p < 8 * al.Abs().top
    ensures 1 <= size <= TWO_32 - 16 ==> r == Accepted
    ensures p == 0 ==> al.Abs() == old(al.Abs())
  {
    hide MallocSpec, Laid, Coalesced, FreeAnswer, Release, OthersKept;
    ghost var h := al.Abs();
    LaidWell(al.mem[..], h);
    p := al.Malloc(size);
    AnswerIsLive(h, al.limit, size);
    AnswerBelowTop(h, al.limit, size);
    LaidWell(al.mem[..], al.Abs());
    LiveAccepted(al.mem[..], al.Abs(), p);
    AboveRefused(al.mem[..], al.Abs(), p);
    r := al.Free(p);
  }
}
