/**
  What every run of malloc and free keeps, and how the two undo each other.
 */
module HeapRuns {
  import opened HeapBlocks

  // ------------------------------------------------------------ free against a global reference

  /** A block list with addresses and back links forgotten. */
  datatype Piece = Piece(units: nat, used: bool)

  function Pieces(bs: seq<Block>): (r: seq<Piece>)
    ensures |r| == |bs|
    ensures forall i | 0 <= i < |bs| :: r[i] == Piece(bs[i].units, bs[i].used)
  {
    seq(|bs|, i requires 0 <= i < |bs| => Piece(bs[i].units, bs[i].used))
  }

  /** Reference: join every maximal run of free pieces, looking at the whole list. */
  function Squash(s: seq<Piece>): (r: seq<Piece>)
    ensures s != [] ==> r != [] && (s[0].used ==> r[0] == s[0]) && (!s[0].used ==> !r[0].used)
  {
    if |s| <= 1 then s
    else
      var rest := Squash(s[1..]);
      if !s[0].used && !rest[0].used then [Piece(s[0].units + rest[0].units, false)] + rest[1..]
      else [s[0]] + rest
  }

  ghost predicate Squashed(s: seq<Piece>) {
    forall i, j | 0 <= i && j == i + 1 < |s| :: s[i].used || s[j].used
  }

  lemma {:induction false} SquashFixed(s: seq<Piece>)
    requires Squashed(s)
    ensures Squash(s) == s
  {
    if |s| > 1 {
      var t := s[1..];
      assert forall i, j | 0 <= i && j == i + 1 < |t| :: t[i] == s[i + 1] && t[j] == s[j + 1];
      SquashFixed(t);
      assert s == [s[0]] + t;
    }
  }

  /** The two local merges of free(), on pieces. */
  function JoinAt(s: seq<Piece>, k: nat): (r: seq<Piece>)
    requires k + 1 < |s|
  {
    if s[k].used || s[k + 1].used then s
    else s[..k] + [Piece(s[k].units + s[k + 1].units, false)] + s[k + 2..]
  }

  lemma {:induction false} MergeIsJoin(bs: seq<Block>, k: nat)
    requires k + 1 < |bs|
    ensures Pieces(MergeAt(bs, k)) == JoinAt(Pieces(bs), k)
  {
    if !bs[k].used && !bs[k + 1].used { MergeShape(bs, k); }
  }

  function JoinUp(s: seq<Piece>, k: nat): (r: seq<Piece>)
    requires k < |s|
    ensures |r| > k
  {
    if k + 1 < |s| then JoinAt(s, k) else s
  }

  function JoinBoth(s: seq<Piece>, k: nat): (r: seq<Piece>)
    requires k < |s|
  {
    if k > 0 then JoinAt(JoinUp(s, k), k - 1) else JoinUp(s, k)
  }

  lemma {:induction false} JoinTail(s: seq<Piece>, k: nat)
    requires k + 2 < |s|
    ensures JoinAt(s, k + 1) == [s[0]] + JoinAt(s[1..], k)
  {
  }

  lemma {:induction false} JoinBothTail(s: seq<Piece>, k: nat)
    requires 0 < k < |s|
    ensures JoinUp(s, k) == [s[0]] + JoinUp(s[1..], k - 1)
    ensures k > 1 ==> JoinBoth(s, k) == [s[0]] + JoinBoth(s[1..], k - 1)
  {
    if k + 1 < |s| { JoinTail(s, k - 1); }
    var up := JoinUp(s, k);
    assert up[1..] == JoinUp(s[1..], k - 1);
    if k > 1 { JoinTail(up, k - 2); }
  }

  /** Every adjacent free pair of s involves piece k. */
  ghost predicate SquashedExcept(s: seq<Piece>, k: nat) {
    forall i, j | 0 <= i && j == i + 1 < |s| && i != k && j != k :: s[i].used || s[j].used
  }

  lemma {:induction false} SquashFirst(s: seq<Piece>)
    requires s != [] && !s[0].used && SquashedExcept(s, 0)
    ensures Squash(s) == JoinBoth(s, 0)
  {
    var t := s[1..];
    assert forall i, j | 0 <= i && j == i + 1 < |t| :: t[i] == s[i + 1] && t[j] == s[j + 1];
    SquashFixed(t);
    if |s| == 1 { assert JoinBoth(s, 0) == s; }
  }

  /** Joining upwards at k and then downwards joins everything, if k is the only new free piece. */
  lemma {:induction false} LocalJoinsSquash(s: seq<Piece>, k: nat)
    requires k < |s| && !s[k].used && SquashedExcept(s, k)
    ensures Squash(s) == JoinBoth(s, k)
  {
    if k == 0 {
      SquashFirst(s);
    } else {
      var t := s[1..];
      assert forall i, j | 0 <= i && j == i + 1 < |t| :: t[i] == s[i + 1] && t[j] == s[j + 1];
      LocalJoinsSquash(t, k - 1);
      JoinBothTail(s, k);
      if k > 1 { assert s[0].used || s[1].used; }
    }
  }

  /** free() at block k yields exactly the globally coalesced list. */
  lemma {:induction false} ReleaseIsSquash(bs: seq<Block>, k: nat)
    requires Coalesced(bs) && k < |bs|
    ensures Pieces(Release(bs, k)) == Squash(Pieces(bs)[k := Piece(bs[k].units, false)])
  {
    var b1 := bs[k := bs[k].(used := false)];
    var s := Pieces(b1);
    assert s == Pieces(bs)[k := Piece(bs[k].units, false)];
    if k + 1 < |b1| { MergeIsJoin(b1, k); }
    var b2 := MergeAbove(b1, k);
    if k > 0 { MergeIsJoin(b2, k - 1); }
    assert SquashedExcept(s, k) by {
      forall i, j | 0 <= i && j == i + 1 < |s| && i != k && j != k ensures s[i].used || s[j].used {
        assert bs[i].used || bs[j].used;
      }
    }
    LocalJoinsSquash(s, k);
  }

  // ------------------------------------------------------------ free undoes malloc

  /** Freeing at once what a fitting block supplied restores the very same block list. */
  lemma {:induction false} ReleaseUndoesTake(h: Heap, k: nat, n: nat)
    requires WellFormed(h) && k < |h.blocks| && Fits(h.blocks[k], n)
    ensures k < |Take(h.blocks, k, n)|
    ensures Release(Take(h.blocks, k, n), k) == h.blocks
  {
    var bs := h.blocks;
    var r := Take(bs, k, n);
    var r1 := r[k := r[k].(used := false)];
    assert k > 0 ==> bs[k - 1].used;
    if bs[k].units - 1 - n < 2 {
      assert r1 == bs;
      assert k + 1 < |bs| ==> bs[k + 1].used;
      assert MergeAbove(r1, k) == bs;
    } else {
      TakeSplits(bs, k, n);
      UnsplitMerges(h, k, n, r);
    }
  }

  lemma {:induction false} UnsplitMerges(h: Heap, k: nat, n: nat, r: seq<Block>)
    requires WellFormed(h) && k < |h.blocks| && n + 1 < h.blocks[k].units && !h.blocks[k].used
    requires SplitOf(h.blocks, k, n, r)
    ensures MergeAt(r[k := r[k].(used := false)], k) == h.blocks
  {
    var bs, r1 := h.blocks, r[k := r[k].(used := false)];
    MergeShape(r1, k);
    if k + 1 < |bs| { assert Linked(bs[k], bs[k + 1]); }
    assert MergeAt(r1, k) == bs;
  }

  /** The heap after sbrk supplied a new block of n payload units at the top. */
  function Grow(h: Heap, n: nat): (r: Heap)
  {
    var prev := if h.blocks == [] then 0 else h.blocks[|h.blocks| - 1].units;
    h.(top := h.top + n + 1, blocks := h.blocks + [Block(h.top, prev, n + 1, true)])
  }

  lemma {:induction false} GrowKeeps(h: Heap, n: nat)
    requires WellFormed(h)
    ensures WellFormed(Grow(h, n))
  {
    var bs, r := h.blocks, Grow(h, n).blocks;
    forall i, j | 0 <= i && j == i + 1 < |r| ensures Linked(r[i], r[j]) && (r[i].used || r[j].used) {
      if j < |bs| { assert Linked(bs[i], bs[j]); }
    }
  }

  /** Freeing at once what growth supplied only lengthens, or adds, one trailing free block. */
  lemma {:induction false} ReleaseAfterGrow(h: Heap, n: nat)
    requires WellFormed(h)
    ensures var bs, last := h.blocks, |h.blocks| - 1;
            Release(Grow(h, n).blocks, |bs|) ==
              if bs != [] && !bs[last].used
              then bs[last := bs[last].(units := bs[last].units + n + 1)]
              else bs + [Block(h.top, if bs == [] then 0 else bs[last].units, n + 1, false)]
  {
    var bs := h.blocks;
    var g := Grow(h, n).blocks;
    var g1 := g[|bs| := g[|bs|].(used := false)];
    assert MergeAbove(g1, |bs|) == g1;
    if bs != [] && !bs[|bs| - 1].used { MergeShape(g1, |bs| - 1); }
  }

  // ------------------------------------------------------------ which blocks are live

  /** Start and length of every block in use. */
  function Live(bs: seq<Block>): (r: set<(nat, nat)>)
  {
    set i | 0 <= i < |bs| && bs[i].used :: (bs[i].start, bs[i].units)
  }

  lemma {:induction false} LiveMerge(bs: seq<Block>, k: nat)
    requires k + 1 < |bs|
    ensures Live(MergeAt(bs, k)) == Live(bs)
  {
    var r := MergeAt(bs, k);
    if !bs[k].used && !bs[k + 1].used {
      MergeShape(bs, k);
      forall i | 0 <= i < |bs| && bs[i].used ensures (bs[i].start, bs[i].units) in Live(r) {
        var j := if i < k then i else i - 1;
        assert r[j].used && (r[j].start, r[j].units) == (bs[i].start, bs[i].units);
      }
      forall j | 0 <= j < |r| && r[j].used ensures (r[j].start, r[j].units) in Live(bs) {
        var i := if j < k then j else j + 1;
        assert bs[i].used && (r[j].start, r[j].units) == (bs[i].start, bs[i].units);
      }
    }
  }

  /** free(p) takes exactly block k out of use. */
  lemma {:induction false} LiveRelease(h: Heap, k: nat)
    requires Tiled(h) && k < |h.blocks|
    ensures Live(Release(h.blocks, k)) == Live(h.blocks) - {(h.blocks[k].start, h.blocks[k].units)}
  {
    var bs := h.blocks;
    var b1 := bs[k := bs[k].(used := false)];
    TiledIsOrdered(h);
    assert Live(b1) == Live(bs) - {(bs[k].start, bs[k].units)} by {
      forall i | 0 <= i < |bs| && bs[i].used && i != k
        ensures (bs[i].start, bs[i].units) in Live(b1) && bs[i].start != bs[k].start
      {
        assert b1[i] == bs[i];
        if i < k { assert bs[i].End() <= bs[k].start; } else { assert bs[k].End() <= bs[i].start; }
      }
    }
    if k + 1 < |b1| { LiveMerge(b1, k); }
    if k > 0 { LiveMerge(MergeAbove(b1, k), k - 1); }
  }

  /** malloc from block k puts exactly one block into use, n or n+1 payload units long. */
  lemma {:induction false} LiveTake(h: Heap, k: nat, n: nat) returns (u: nat)
    requires Tiled(h) && k < |h.blocks| && Fits(h.blocks[k], n)
    ensures n + 1 <= u <= n + 2
    ensures Live(Take(h.blocks, k, n)) == Live(h.blocks) + {(h.blocks[k].start, u)}
  {
    var bs, r := h.blocks, Take(h.blocks, k, n);
    if bs[k].units - 1 - n < 2 {
      u := bs[k].units;
      assert r[k].used && (r[k].start, r[k].units) == (bs[k].start, u);
      assert forall i | 0 <= i < |bs| && i != k :: r[i] == bs[i];
    } else {
      u := n + 1;
      TakeSplits(bs, k, n);
      LiveSplit(bs, k, n, r);
    }
  }

  lemma {:induction false} LiveSplit(bs: seq<Block>, k: nat, n: nat, r: seq<Block>)
    requires k < |bs| && n + 1 < bs[k].units && !bs[k].used && SplitOf(bs, k, n, r)
    ensures Live(r) == Live(bs) + {(bs[k].start, n + 1)}
  {
    assert r[k].used && (r[k].start, r[k].units) == (bs[k].start, n + 1);
    forall i | 0 <= i < |bs| && bs[i].used ensures (bs[i].start, bs[i].units) in Live(r) {
      var j := if i < k then i else i + 1;
      assert r[j].used && (r[j].start, r[j].units) == (bs[i].start, bs[i].units);
    }
    forall j | 0 <= j < |r| && r[j].used && j != k ensures (r[j].start, r[j].units) in Live(bs) {
      var i := if j < k then j else j - 1;
      assert bs[i].used && (r[j].start, r[j].units) == (bs[i].start, bs[i].units);
    }
  }

  lemma {:induction false} LiveGrow(h: Heap, n: nat)
    ensures Live(Grow(h, n).blocks) == Live(h.blocks) + {(h.top, n + 1)}
  {
    var bs, r := h.blocks, Grow(h, n).blocks;
    assert r[|bs|].used && (r[|bs|].start, r[|bs|].units) == (h.top, n + 1);
    assert forall i | 0 <= i < |bs| :: r[i] == bs[i];
  }

  // ------------------------------------------------------------ every run

  /** What a program sees: malloc of n units answered block b (or NULL), free of block b. */
  datatype Event = Malloced(n: nat, b: nat) | Refused(n: nat) | Freed(b: nat)

  /** One call, as the heap sees it. */
  ghost predicate Step(h: Heap, e: Event, h': Heap) {
    match e
    case Malloced(n, b) =>
      var k := FirstFit(h.blocks, n);
      if k < |h.blocks| then h' == h.(blocks := Take(h.blocks, k, n)) && b == h.blocks[k].start
      else h' == Grow(h, n) && b == h.top
    case Refused(n) => h' == h && FirstFit(h.blocks, n) == |h.blocks|
    case Freed(b) =>
      exists k | 0 <= k < |h.blocks| ::
        h.blocks[k].used && h.blocks[k].start == b && h' == h.(blocks := Release(h.blocks, k))
  }

  /** The requests outstanding after a sequence of events, from the program's side alone. */
  function Outstanding(es: seq<Event>): (r: map<nat, nat>)
  {
    if es == [] then map[]
    else
      var m := Outstanding(es[..|es| - 1]);
      match es[|es| - 1]
      case Malloced(n, b) => m[b := n]
      case Refused(_) => m
      case Freed(b) => m - {b}
  }

  ghost predicate IsRun(hs: seq<Heap>, es: seq<Event>) {
    && |hs| == |es| + 1
    && hs[0] == Heap(hs[0].base, hs[0].base, [])
    && forall i | 0 <= i < |es| :: Step(hs[i], es[i], hs[i + 1])
  }

  /** The blocks in use are the outstanding requests, each with the payload it asked for (or one unit more). */
  ghost predicate Serves(bs: seq<Block>, m: map<nat, nat>) {
    && (forall x | x in Live(bs) :: x.0 in m && m[x.0] + 1 <= x.1 <= m[x.0] + 2)
    && (forall b | b in m :: exists x | x in Live(bs) :: x.0 == b)
  }

  lemma {:induction false} MallocStepKeeps(h: Heap, n: nat, b: nat, h': Heap, m: map<nat, nat>)
    requires WellFormed(h) && Serves(h.blocks, m) && Step(h, Malloced(n, b), h')
    ensures WellFormed(h') && Serves(h'.blocks, m[b := n])
  {
    var k := FirstFit(h.blocks, n);
    if k < |h.blocks| {
      TakeKeeps(h, k, n);
      var u := LiveTake(h, k, n);
      FreeStartNotLive(h, k);
      ServesAdd(h.blocks, h'.blocks, m, b, n, u);
    } else {
      GrowKeeps(h, n);
      LiveGrow(h, n);
      TiledIsOrdered(h);
      ServesAdd(h.blocks, h'.blocks, m, b, n, n + 1);
    }
  }

  lemma {:induction false} FreeStepKeeps(h: Heap, b: nat, h': Heap, m: map<nat, nat>)
    requires WellFormed(h) && Serves(h.blocks, m) && Step(h, Freed(b), h')
    ensures WellFormed(h') && Serves(h'.blocks, m - {b})
  {
    var k :| 0 <= k < |h.blocks| && h.blocks[k].used && h.blocks[k].start == b
             && h' == h.(blocks := Release(h.blocks, k));
    ReleaseKeeps(h, k);
    LiveRelease(h, k);
    ServesRemove(h, k, h'.blocks, m);
  }

  lemma {:induction false} FreeStartNotLive(h: Heap, k: nat)
    requires Tiled(h) && k < |h.blocks| && !h.blocks[k].used
    ensures forall x | x in Live(h.blocks) :: x.0 != h.blocks[k].start
  {
    StartsDiffer(h);
  }

  lemma {:induction false} StartsDiffer(h: Heap)
    requires Tiled(h)
    ensures forall i, j | 0 <= i < j < |h.blocks| :: h.blocks[i].start != h.blocks[j].start
  {
    TiledIsOrdered(h);
    forall i, j | 0 <= i < j < |h.blocks| ensures h.blocks[i].start != h.blocks[j].start {
      assert h.blocks[i].End() <= h.blocks[j].start;
    }
  }

  lemma ServesAdd(bs: seq<Block>, bs': seq<Block>, m: map<nat, nat>, b: nat, n: nat, u: nat)
    requires Serves(bs, m) && n + 1 <= u <= n + 2
    requires forall x | x in Live(bs) :: x.0 != b
    requires Live(bs') == Live(bs) + {(b, u)}
    ensures Serves(bs', m[b := n])
  {
    assert (b, u) in Live(bs');
    var m' := m[b := n];
    forall c | c in m' ensures exists x | x in Live(bs') :: x.0 == c {
      if c != b {
        var x :| x in Live(bs) && x.0 == c;
        assert x in Live(bs');
      }
    }
  }

  lemma {:induction false} ServesRemove(h: Heap, k: nat, bs': seq<Block>, m: map<nat, nat>)
    requires Tiled(h) && k < |h.blocks| && h.blocks[k].used && Serves(h.blocks, m)
    requires Live(bs') == Live(h.blocks) - {(h.blocks[k].start, h.blocks[k].units)}
    ensures Serves(bs', m - {h.blocks[k].start})
  {
    StartsDiffer(h);
    var b := h.blocks[k].start;
    forall c | c in m - {b} ensures exists x | x in Live(bs') :: x.0 == c {
      var x :| x in Live(h.blocks) && x.0 == c;
      assert x in Live(bs');
    }
    assert forall x | x in Live(h.blocks) && x.0 == b :: x == (b, h.blocks[k].units);
  }

  /**
    Main result: after every run of malloc and free the headers tile the heap exactly, the
    back links are right, no two neighbours are both free, and the blocks in use are exactly
    the program's outstanding requests, each at least as large as asked.
   */
  lemma {:induction false} EveryRunKeepsHeap(hs: seq<Heap>, es: seq<Event>)
    requires IsRun(hs, es)
    ensures WellFormed(hs[|es|]) && Serves(hs[|es|].blocks, Outstanding(es))
  {
    if es != [] {
      var n := |es| - 1;
      EveryRunKeepsHeap(hs[..n + 1], es[..n]);
      assert Step(hs[n], es[n], hs[n + 1]);
      match es[n]
      case Malloced(u, b) => MallocStepKeeps(hs[n], u, b, hs[n + 1], Outstanding(es[..n]));
      case Refused(_) =>
      case Freed(b) => FreeStepKeeps(hs[n], b, hs[n + 1], Outstanding(es[..n]));
    }
  }

  /** In every run, freeing any outstanding pointer finds its block: the next free is always a step. */
  lemma {:induction false} EveryFreeIsDefined(hs: seq<Heap>, es: seq<Event>, b: nat) returns (h': Heap)
    requires IsRun(hs, es) && b in Outstanding(es)
    ensures Step(hs[|es|], Freed(b), h') && WellFormed(h')
  {
    EveryRunKeepsHeap(hs, es);
    var h := hs[|es|];
    var x :| x in Live(h.blocks) && x.0 == b;
    var k :| 0 <= k < |h.blocks| && h.blocks[k].used && (h.blocks[k].start, h.blocks[k].units) == x;
    h' := h.(blocks := Release(h.blocks, k));
    ReleaseKeeps(h, k);
  }

  // ------------------------------------------------------------ no block without a payload

  /** Every block has room for data beside its header. */
  ghost predicate Roomy(bs: seq<Block>) { forall i | 0 <= i < |bs| :: bs[i].units >= 2 }

  lemma {:induction false} RoomyTake(bs: seq<Block>, k: nat, n: nat)
    requires Roomy(bs) && n >= 1 && k < |bs| && Fits(bs[k], n)
    ensures Roomy(Take(bs, k, n))
  {
    if bs[k].units - 1 - n >= 2 {
      TakeSplits(bs, k, n);
    }
  }

  lemma {:induction false} RoomyMerge(bs: seq<Block>, k: nat)
    requires Roomy(bs) && k < |bs|
    ensures Roomy(MergeAbove(bs, k))
  {
  }

  lemma {:induction false} RoomyRelease(bs: seq<Block>, k: nat)
    requires Roomy(bs) && k < |bs|
    ensures Roomy(Release(bs, k))
  {
    hide MergeAbove;
    var b1 := bs[k := bs[k].(used := false)];
    RoomyMerge(b1, k);
    if k > 0 { RoomyMerge(MergeAbove(b1, k), k - 1); }
  }

  /**
    The split leaves no header without a block: if no request is empty, then in every run every block,
    free or in use, has a payload.
   */
  lemma {:induction false} EveryRunRoomy(hs: seq<Heap>, es: seq<Event>)
    requires IsRun(hs, es) && forall e | e in es && e.Malloced? :: e.n >= 1
    ensures Roomy(hs[|es|].blocks)
  {
    hide Take, Release, FirstFit;
    if es != [] {
      var n := |es| - 1;
      assert forall e | e in es[..n] :: e in es;
      EveryRunRoomy(hs[..n + 1], es[..n]);
      var h, h' := hs[n], hs[n + 1];
      assert Step(h, es[n], h') && es[n] in es;
      match es[n]
      case Malloced(u, b) =>
        var k := FirstFit(h.blocks, u);
        if k < |h.blocks| { RoomyTake(h.blocks, k, u); }
      case Refused(_) =>
      case Freed(b) =>
        var k :| 0 <= k < |h.blocks| && h.blocks[k].used && h.blocks[k].start == b && h' == h.(blocks := Release(h.blocks, k));
        RoomyRelease(h.blocks, k);
    }
  }
}
