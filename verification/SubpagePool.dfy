/**
  The pool of subpages of kern/lib/kheap.c, as a value: which pages there are, which of their
  blocks are free and in what order the two lists of pagerefs hold them.

  Addresses and sizes are counted in 16-byte granules, the smallest block size; a page is 256
  granules.
 */
module SubpagePool {

  const NSIZES := 8
  const PAGE := 256         // granules per page
  const NPAGEREFS := 256

  /** Block size of type t, in granules: 16, 32, ..., 2048 bytes. */
  function SizeOf(t: nat): (r: nat)
    requires t < NSIZES
    ensures 1 <= r <= 128
  {
    if t == 0 then 1 else if t == 1 then 2 else if t == 2 then 4 else if t == 3 then 8
    else if t == 4 then 16 else if t == 5 then 32 else if t == 6 then 64 else 128
  }

  /** The sizes double, from 16 bytes to half a page. */
  lemma SizesDouble(t: nat)
    requires t < NSIZES
    ensures 16 * SizeOf(0) == 16 && 16 * SizeOf(NSIZES - 1) == 2048 && (t > 0 ==> SizeOf(t) == 2 * SizeOf(t - 1))
  {
  }

  /** Blocks per page of type t. */
  function Count(t: nat): (r: nat)
    requires t < NSIZES
    ensures 2 <= r <= 256 && PAGE / SizeOf(t) == r
  {
    if t == 0 then 256 else if t == 1 then 128 else if t == 2 then 64 else if t == 3 then 32
    else if t == 4 then 16 else if t == 5 then 8 else if t == 6 then 4 else 2
  }

  /** Offset of block i in a page of type t: i times the block size. */
  function Off(t: nat, i: nat): (r: nat)
    requires t < NSIZES
    ensures r % SizeOf(t) == 0 && r / SizeOf(t) == i
    ensures i < Count(t) <==> r < PAGE
    ensures i < Count(t) ==> r + SizeOf(t) <= PAGE
  {
    if t == 0 then i else if t == 1 then 2 * i else if t == 2 then 4 * i else if t == 3 then 8 * i
    else if t == 4 then 16 * i else if t == 5 then 32 * i else if t == 6 then 64 * i else 128 * i
  }

  /** Distinct blocks of a page do not overlap. */
  lemma OffApart(t: nat, i: nat, j: nat)
    requires t < NSIZES && i < j
    ensures Off(t, i) + SizeOf(t) <= Off(t, j)
  {
  }

  /** Every aligned offset is that of a block. */
  lemma OffOnto(t: nat, off: nat)
    requires t < NSIZES && off % SizeOf(t) == 0
    ensures Off(t, off / SizeOf(t)) == off
  {
  }

  ghost predicate NoDup(s: seq<nat>) {
    forall i, j | 0 <= i < j < |s| :: s[i] != s[j]
  }

  /** One subpage: its address, its block type and its freelist (block numbers, head first). */
  datatype Page = Page(addr: nat, kind: nat, free: seq<nat>)

  /** The pool: the page of each pageref in use, the list of all of them and one list per block type. */
  datatype Pool = Pool(pages: map<nat, Page>, all: seq<nat>, bySize: seq<seq<nat>>)

  const EMPTY: Pool := Pool(map[], [], [[], [], [], [], [], [], [], []])

  /** A page of the pool: an acyclic freelist of its own blocks, and at least one block in use. */
  ghost predicate PageOk(g: Page) {
    && g.kind < NSIZES && g.addr > 0 && g.addr % PAGE == 0
    && NoDup(g.free) && (forall x | x in g.free :: x < Count(g.kind))
    && |g.free| < Count(g.kind)
  }

  ghost predicate PoolOk(s: Pool) {
    && |s.bySize| == NSIZES
    && NoDup(s.all) && (forall p :: p in s.all <==> p in s.pages)
    && (forall p | p in s.pages :: p < NPAGEREFS && PageOk(s.pages[p]))
    && (forall t | 0 <= t < NSIZES ::
          NoDup(s.bySize[t]) && forall p :: p in s.bySize[t] <==> p in s.pages && s.pages[p].kind == t)
    && (forall p, q | p in s.pages && q in s.pages && p != q :: s.pages[p].addr != s.pages[q].addr)
  }

  // ------------------------------------------------------------ allocating and freeing

  /** The first pageref of a list whose page has a free block, or |ps|. */
  function FirstRoom(s: Pool, ps: seq<nat>, k: nat := 0): (r: nat)
    requires k <= |ps| && forall p | p in ps :: p in s.pages
    ensures k <= r <= |ps|
    ensures r < |ps| ==> s.pages[ps[r]].free != []
    ensures forall j | k <= j < r :: s.pages[ps[j]].free == []
    decreases |ps| - k
  {
    if k == |ps| || s.pages[ps[k]].free != [] then k else FirstRoom(s, ps, k + 1)
  }

  /** Hand out the head of the freelist of page p. */
  function Pop(s: Pool, p: nat): (r: Pool)
    requires p in s.pages && s.pages[p].free != []
  {
    s.(pages := s.pages[p := s.pages[p].(free := s.pages[p].free[1..])])
  }

  /** The freelist of a fresh page: the last block first. */
  function Fresh(n: nat): (r: seq<nat>)
    ensures |r| == n && forall i | 0 <= i < n :: r[i] == n - 1 - i
  {
    seq(n, i requires 0 <= i < n => n - 1 - i)
  }

  /** Add page addr, cut into blocks of type t, under pageref p, at the front of both lists. */
  function AddPage(s: Pool, p: nat, addr: nat, t: nat): (r: Pool)
    requires t < NSIZES == |s.bySize|
  {
    Pool(s.pages[p := Page(addr, t, Fresh(Count(t)))], [p] + s.all, s.bySize[t := [p] + s.bySize[t]])
  }

  function Without(ps: seq<nat>, p: nat): (r: seq<nat>)
    ensures p !in r
    ensures forall x | x != p :: x in r <==> x in ps
    ensures p !in ps ==> r == ps
  {
    if ps == [] then []
    else if ps[0] == p then Without(ps[1..], p)
    else [ps[0]] + Without(ps[1..], p)
  }

  lemma {:induction false} WithoutNoDup(ps: seq<nat>, p: nat)
    requires NoDup(ps)
    ensures NoDup(Without(ps, p))
  {
    if ps != [] {
      var t := ps[1..];
      assert forall i | 0 <= i < |t| :: t[i] == ps[i + 1];
      WithoutNoDup(t, p);
      assert ps[0] !in t;
    }
  }

  /** Removing the element at position k of a list without duplicates. */
  lemma {:induction false} WithoutAt(ps: seq<nat>, k: nat)
    requires NoDup(ps) && k < |ps|
    ensures Without(ps, ps[k]) == ps[..k] + ps[k + 1..]
  {
    var t := ps[1..];
    assert forall i | 0 <= i < |t| :: t[i] == ps[i + 1];
    if k == 0 {
      assert ps[0] !in t;
    } else {
      WithoutAt(t, k - 1);
      assert ps[..k] + ps[k + 1..] == [ps[0]] + (t[..k - 1] + t[k..]);
    }
  }

  function RemovePage(s: Pool, p: nat): (r: Pool)
    requires p in s.pages && s.pages[p].kind < |s.bySize|
  {
    var t := s.pages[p].kind;
    Pool(s.pages - {p}, Without(s.all, p), s.bySize[t := Without(s.bySize[t], p)])
  }

  /** Free block i of page p; a page with no block left in use leaves the pool. */
  function Push(s: Pool, p: nat, i: nat): (r: Pool)
    requires p in s.pages && s.pages[p].kind < NSIZES == |s.bySize|
  {
    var g := s.pages[p];
    if |g.free| + 1 == Count(g.kind) then RemovePage(s, p)
    else s.(pages := s.pages[p := g.(free := [i] + g.free)])
  }

  // ------------------------------------------------------------ blocks in use

  /** The blocks of page g that are handed out. */
  function InUse(g: Page): (r: set<nat>)
    requires g.kind < NSIZES
  {
    set i | 0 <= i < Count(g.kind) && i !in g.free
  }

  function SetOf(s: seq<nat>): (r: set<nat>)
  {
    set x | x in s
  }

  lemma {:induction false} SetOfNoDup(s: seq<nat>)
    requires NoDup(s)
    ensures |SetOf(s)| == |s|
  {
    if s == [] {
      assert SetOf(s) == {};
    } else {
      var t := s[1..];
      assert forall i | 0 <= i < |t| :: t[i] == s[i + 1];
      SetOfNoDup(t);
      assert s[0] !in t;
      assert SetOf(s) == {s[0]} + SetOf(t);
    }
  }

  function Numbers(n: nat): (r: set<nat>)
    ensures |r| == n && forall i :: i in r <==> 0 <= i < n
  {
    if n == 0 then {} else Numbers(n - 1) + {n - 1}
  }

  /** Conservation: free blocks and blocks in use make up the page. */
  lemma {:induction false} FreePlusUsed(g: Page)
    requires g.kind < NSIZES && NoDup(g.free) && forall x | x in g.free :: x < Count(g.kind)
    ensures |g.free| + |InUse(g)| == Count(g.kind)
  {
    hide Count, NoDup;
    SetOfNoDup(g.free);
    var f, n := SetOf(g.free), Numbers(Count(g.kind));
    assert f <= n;
    assert InUse(g) == n - f;
  }
}
