/**
  The kernel's subpage allocator, kern/lib/kheap.c: freelists threaded through the free blocks,
  two lists threaded through the pagerefs, and the words that mark pagerefs in use.

  Memory is an array with one entry per 16-byte granule, holding the granule's first word.
  Addresses are counted in granules; address 0 is NULL.
 */
module KHeap {
  import opened Basics
  import opened SubpagePool
  import opened SubpageRuns
  import opened PagerefBits

  const NIL: int := -1               // the NULL pageref
  const INVALID_OFFSET: nat := 0xffff
  const DEAD: nat := 0xdead_beef

  /** struct pageref; list links are pageref numbers, the packed word is in bytes. */
  datatype Pageref = Pageref(nextSame: int, nextAll: int, pab: nat, flOff: nat, nfree: nat)

  function PageAddr(r: Pageref): nat { r.pab / 4096 * PAGE }
  function BlockType(r: Pageref): nat { r.pab % 4096 }

  function MakePab(addr: nat, t: nat): (r: nat)
    requires addr % PAGE == 0 && t < NSIZES
    ensures r / 4096 * PAGE == addr && r % 4096 == t
  {
    addr / PAGE * 4096 + t
  }

  /** The list links of one kind: through all pagerefs, or through those of one size. */
  function Link(r: Pageref, every: bool): int {
    if every then r.nextAll else r.nextSame
  }

  function After(ps: seq<nat>, k: int): int
    requires -1 <= k < |ps|
  {
    if k + 1 < |ps| then ps[k + 1] else NIL
  }

  /** The links starting at head spell out ps. */
  ghost predicate Chain(prs: seq<Pageref>, every: bool, head: int, ps: seq<nat>) {
    && head == After(ps, -1)
    && (forall k | 0 <= k < |ps| :: ps[k] < |prs| && Link(prs[ps[k]], every) == After(ps, k))
  }

  /** The head of a freelist, as an address: 0 at the end. */
  function FreeAt(g: Page, k: nat): (r: nat)
    requires g.kind < NSIZES
  {
    if k < |g.free| then g.addr + Off(g.kind, g.free[k]) else 0
  }

  /** The freelist of g is threaded through the first words of its blocks. */
  ghost predicate Threaded(m: seq<nat>, g: Page) {
    && g.kind < NSIZES && g.addr > 0 && g.addr + PAGE <= |m|
    && (forall k | 0 <= k < |g.free| :: BlockWord(m, g, k))
  }

  /** The k-th free block is a block of the page and its first word is the address of the next. */
  ghost predicate BlockWord(m: seq<nat>, g: Page, k: nat)
    requires g.kind < NSIZES && g.addr + PAGE <= |m| && k < |g.free|
  {
    g.free[k] < Count(g.kind) && m[g.addr + Off(g.kind, g.free[k])] == FreeAt(g, k + 1)
  }

  /** Pageref r describes page g: address, type, length and head of the freelist. */
  predicate Describes(r: Pageref, g: Page)
    requires g.kind < NSIZES
  {
    && PageAddr(r) == g.addr && BlockType(r) == g.kind
    && r.nfree == |g.free|
    && r.flOff == (if g.free == [] then INVALID_OFFSET else Off(g.kind, g.free[0]))
  }

  ghost predicate PageHeld(m: seq<nat>, r: Pageref, g: Page) {
    Threaded(m, g) && Describes(r, g)
  }

  ghost predicate PagesHeld(m: seq<nat>, prs: seq<Pageref>, s: Pool) {
    forall p | p in s.pages :: p < |prs| && PageHeld(m, prs[p], s.pages[p])
  }

  ghost predicate ListsHeld(prs: seq<Pageref>, bases: seq<int>, allbase: int, s: Pool) {
    && |s.bySize| == |bases|
    && Chain(prs, true, allbase, s.all)
    && (forall t | 0 <= t < |bases| :: Chain(prs, false, bases[t], s.bySize[t]))
  }

  ghost predicate BitsHeld(ws: seq<word>, s: Pool) {
    |ws| == WORDS && forall p | 0 <= p < NPAGEREFS :: Taken(ws, p) <==> p in s.pages
  }

  // ------------------------------------------------------------ what changes and what stays

  /** A page keeps its contents if neither its pageref's page fields nor its granules change. */
  lemma HeldFrame(m: seq<nat>, m': seq<nat>, r: Pageref, r': Pageref, g: Page)
    requires PageHeld(m, r, g) && |m'| == |m|
    requires r'.pab == r.pab && r'.flOff == r.flOff && r'.nfree == r.nfree
    requires forall a | g.addr <= a < g.addr + PAGE :: m'[a] == m[a]
    ensures PageHeld(m', r', g)
  {
    hide Off, Count;
    forall k | 0 <= k < |g.free| ensures BlockWord(m', g, k) { assert BlockWord(m, g, k); }
  }

  /** Rewriting a link field of pagerefs outside a list leaves the list. */
  lemma ChainFrame(prs: seq<Pageref>, prs': seq<Pageref>, every: bool, head: int, ps: seq<nat>)
    requires Chain(prs, every, head, ps) && |prs'| == |prs|
    requires forall p | p in ps && p < |prs| :: Link(prs'[p], every) == Link(prs[p], every)
    ensures Chain(prs', every, head, ps)
  {
  }

  /** Putting p in front of a list. */
  lemma ChainCons(prs: seq<Pageref>, prs': seq<Pageref>, every: bool, head: int, ps: seq<nat>, p: nat)
    requires Chain(prs, every, head, ps) && |prs'| == |prs| && p < |prs| && p !in ps
    requires forall q | q in ps && q < |prs| :: Link(prs'[q], every) == Link(prs[q], every)
    requires Link(prs'[p], every) == head
    ensures Chain(prs', every, p, [p] + ps)
  {
    hide Link, After;
    var qs := [p] + ps;
    AfterCons(p, ps, -1);
    forall k | 0 <= k < |qs| ensures qs[k] < |prs'| && Link(prs'[qs[k]], every) == After(qs, k) {
      AfterCons(p, ps, k);
      if k > 0 { ChainAt(prs, every, head, ps, k - 1); }
    }
  }

  lemma AfterCons(p: nat, ps: seq<nat>, k: int)
    requires -1 <= k <= |ps|
    ensures var qs := [p] + ps; After(qs, k) == (if k == -1 then p else After(ps, k - 1)) && (k > 0 ==> qs[k] == ps[k - 1])
  {
  }

  lemma ChainStart(prs: seq<Pageref>, every: bool, head: int, ps: seq<nat>)
    requires Chain(prs, every, head, ps)
    ensures head == After(ps, -1)
  {
  }

  lemma ChainAt(prs: seq<Pageref>, every: bool, head: int, ps: seq<nat>, k: nat)
    requires Chain(prs, every, head, ps) && k < |ps|
    ensures ps[k] < |prs| && Link(prs[ps[k]], every) == After(ps, k)
    ensures k > 0 ==> ps[k - 1] < |prs|
  {
  }

  /** Unlinking position k from a list: the link before it now skips it. */
  lemma {:induction false} ChainCut(prs: seq<Pageref>, prs': seq<Pageref>, every: bool, head: int, head': int, ps: seq<nat>, k: nat)
    requires Chain(prs, every, head, ps) && NoDup(ps) && k < |ps| && |prs'| == |prs|
    requires if k == 0 then head' == After(ps, 0) && prs' == prs
             else head' == head && Link(prs'[ps[k - 1]], every) == After(ps, k)
                  && forall q | 0 <= q < |prs| && q != ps[k - 1] :: prs'[q] == prs[q]
    ensures Chain(prs', every, head', Without(ps, ps[k]))
  {
    hide Link, Without, After;
    WithoutAt(ps, k);
    var qs := Without(ps, ps[k]);
    AfterCut(ps, k, -1);
    forall j | 0 <= j < |qs| ensures qs[j] < |prs'| && Link(prs'[qs[j]], every) == After(qs, j) {
      AfterCut(ps, k, j);
      var i := if j < k then j else j + 1;
      assert ps[i] < |prs| && Link(prs[ps[i]], every) == After(ps, i);
      if k > 0 && i != k - 1 { assert ps[i] != ps[k - 1]; }
    }
  }

  /** What follows position j once position k is cut out. */
  lemma AfterCut(ps: seq<nat>, k: nat, j: int)
    requires k < |ps| && -1 <= j < |ps| - 1
    ensures var qs := ps[..k] + ps[k + 1..];
            && (j >= 0 ==> qs[j] == ps[if j < k then j else j + 1])
            && After(qs, j) == if j + 1 == k then After(ps, k) else if j < k then After(ps, j) else After(ps, j + 1)
  {
  }

  lemma {:induction false} ThreadedPop(m: seq<nat>, g: Page)
    requires Threaded(m, g) && g.free != []
    ensures Threaded(m, g.(free := g.free[1..]))
  {
    hide Off, Count;
    var g' := g.(free := g.free[1..]);
    forall k | 0 <= k < |g'.free| ensures BlockWord(m, g', k) {
      assert g'.free[k] == g.free[k + 1] && BlockWord(m, g, k + 1);
      assert FreeAt(g', k + 1) == FreeAt(g, k + 2);
    }
  }

  /** Popping the freelist: the head's first word is the next address. */
  lemma {:induction false} PopHeld(m: seq<nat>, r: Pageref, g: Page)
    requires PageHeld(m, r, g) && g.free != []
    ensures r.nfree == |g.free| && r.flOff < PAGE && PageAddr(r) == g.addr && g.addr + r.flOff == FreeAt(g, 0) < |m|
    ensures var next := m[g.addr + r.flOff];
            && (next == 0 <==> |g.free| == 1)
            && (next != 0 ==> g.addr <= next < g.addr + PAGE)
            && Describes(r.(nfree := r.nfree - 1, flOff := if next != 0 then next - g.addr else INVALID_OFFSET),
                         g.(free := g.free[1..]))
  {
    hide Off, Count;
    assert BlockWord(m, g, 0);
    assert |g.free| > 1 ==> BlockWord(m, g, 1);
  }

  /** The doalloc part of subpage_kmalloc on memory and pageref: the block and the pageref after it, or None where an assertion fails. */
  function TakeHead(m: seq<nat>, r: Pageref): Option<(nat, Pageref)> {
    var page := PageAddr(r);
    var ptr := page + r.flOff;
    if r.nfree == 0 || r.flOff >= PAGE || ptr >= |m| then None
    else if m[ptr] == 0 then
      if r.nfree > 1 then None else Some((ptr, r.(nfree := 0, flOff := INVALID_OFFSET)))
    else
      if r.nfree == 1 || !(page <= m[ptr] < page + PAGE) then None
      else Some((ptr, r.(nfree := r.nfree - 1, flOff := m[ptr] - page)))
  }

  /** kmalloc's size class: the smallest block type that holds sz bytes. */
  function TypeFor(sz: nat, t: nat := 0): (r: nat)
    requires t < NSIZES && sz <= 2048
    requires t > 0 ==> sz > 16 * SizeOf(t - 1)
    ensures t <= r < NSIZES && sz <= 16 * SizeOf(r)
    ensures r > 0 ==> sz > 16 * SizeOf(r - 1)
    decreases NSIZES - t
  {
    if sz <= 16 * SizeOf(t) then t else TypeFor(sz, t + 1)
  }

  /** The answer of alloc_kpages(1): no page, or a page of memory outside the pool. */
  ghost predicate PageOffered(s: Pool, memory: nat, a: nat) {
    a == 0 || (a % PAGE == 0 && a + PAGE <= memory && forall p | p in s.pages :: s.pages[p].addr != a)
  }

  /** The lowest pageref not in use, or NPAGEREFS. */
  ghost predicate LowestFree(s: Pool, p: nat) {
    p !in s.pages && p < NPAGEREFS && forall q | 0 <= q < p :: q in s.pages
  }

  /** prs' is prs but for pageref p. */
  ghost predicate OnlyAt(prs: seq<Pageref>, prs': seq<Pageref>, p: nat) {
    |prs'| == |prs| && forall q | 0 <= q < |prs| && q != p :: prs'[q] == prs[q]
  }

  ghost predicate SameLinks(r: Pageref, r': Pageref) {
    r'.nextSame == r.nextSame && r'.nextAll == r.nextAll
  }

  /** Changing page p, its pageref's page fields and granules of its own, holds if page p itself does. */
  lemma {:induction false} PagesAfter(m: seq<nat>, m': seq<nat>, prs: seq<Pageref>, prs': seq<Pageref>, s: Pool, s': Pool, p: nat, lo: nat)
    requires PagesHeld(m, prs, s) && PoolOk(s) && OnlyAt(prs, prs', p) && p < |prs|
    requires |m'| == |m| && lo % PAGE == 0 && forall x | 0 <= x < |m| && !(lo <= x < lo + PAGE) :: m'[x] == m[x]
    requires forall q | q in s'.pages && q != p :: q in s.pages && s'.pages[q] == s.pages[q] && s.pages[q].addr != lo
    requires p in s'.pages ==> PageHeld(m', prs'[p], s'.pages[p])
    ensures PagesHeld(m', prs', s')
  {
    hide PageHeld;
    forall q | q in s'.pages ensures q < |prs'| && PageHeld(m', prs'[q], s'.pages[q]) {
      if q != p {
        var g := s.pages[q];
        assert PageOk(g);
        PagesApart(g.addr, lo);
        OtherPageHeld(m, m', prs[q], g, lo);
      }
    }
  }

  lemma OtherPageHeld(m: seq<nat>, m': seq<nat>, r: Pageref, g: Page, lo: nat)
    requires PageHeld(m, r, g) && |m'| == |m| && (g.addr + PAGE <= lo || lo + PAGE <= g.addr)
    requires forall x | 0 <= x < |m| && !(lo <= x < lo + PAGE) :: m'[x] == m[x]
    ensures PageHeld(m', r, g)
  {
    hide Off, Count, PageAddr, BlockType;
    HeldFrame(m, m', r, r, g);
  }

  lemma PagesApart(a: nat, b: nat)
    requires a % PAGE == 0 && b % PAGE == 0 && a != b
    ensures a + PAGE <= b || b + PAGE <= a
  {
  }

  /** The lists stay when no link changes. */
  lemma {:induction false} ListsSame(prs: seq<Pageref>, prs': seq<Pageref>, bases: seq<int>, allbase: int, s: Pool, s': Pool, p: nat)
    requires ListsHeld(prs, bases, allbase, s) && OnlyAt(prs, prs', p) && p < |prs| && SameLinks(prs[p], prs'[p])
    requires s'.all == s.all && s'.bySize == s.bySize
    ensures ListsHeld(prs', bases, allbase, s')
  {
    ChainFrame(prs, prs', true, allbase, s.all);
    forall t | 0 <= t < |bases| ensures Chain(prs', false, bases[t], s.bySize[t]) {
      ChainFrame(prs, prs', false, bases[t], s.bySize[t]);
    }
  }

  /** The lists after a new pageref p, linked to both old heads, became both heads. */
  lemma {:induction false} ListsAdd(prs: seq<Pageref>, prs': seq<Pageref>, bases: seq<int>, allbase: int, s: Pool, p: nat, a: nat, t: nat)
    requires ListsHeld(prs, bases, allbase, s) && OnlyAt(prs, prs', p) && p < |prs| && t < NSIZES == |bases|
    requires p !in s.all && forall u | 0 <= u < NSIZES :: p !in s.bySize[u]
    requires prs'[p].nextAll == allbase && prs'[p].nextSame == bases[t]
    ensures ListsHeld(prs', bases[t := p], p, AddPage(s, p, a, t))
  {
    hide Count;
    ChainCons(prs, prs', true, allbase, s.all, p);
    ChainCons(prs, prs', false, bases[t], s.bySize[t], p);
    var s', bases' := AddPage(s, p, a, t), bases[t := p];
    forall u | 0 <= u < |bases'| ensures Chain(prs', false, bases'[u], s'.bySize[u]) {
      if u != t { ChainFrame(prs, prs', false, bases[u], s.bySize[u]); }
    }
  }

  /** What kmalloc answers below 2048 bytes, for block type t and offered page a. */
  ghost predicate KmallocAnswer(s: Pool, t: nat, a: nat, s': Pool, ptr: nat, took: bool)
    requires PoolOk(s) && t < NSIZES
  {
    var k := FirstRoom(s, s.bySize[t]);
    if k < |s.bySize[t]| then
      var p := s.bySize[t][k];
      s' == Pop(s, p) && ptr == Ptr(s, p, s.pages[p].free[0]) && !took
    else if a == 0 || forall p | 0 <= p < NPAGEREFS :: p in s.pages then
      s' == s && ptr == 0 && !took
    else
      took && exists p | LowestFree(s, p) :: AddStep(s, t, ptr, s', p, a)
  }

  class Subpages {
    const mem: array<nat>
    const pagerefs: array<Pageref>
    const inuse: array<word>
    const sizebases: array<int>
    var allbase: int
    ghost var pool: Pool

    ghost predicate Shape()
      reads this
    {
      && pagerefs.Length == NPAGEREFS && inuse.Length == WORDS && sizebases.Length == NSIZES
      && mem as object != inuse && mem as object != sizebases && inuse as object != sizebases
      && mem as object != pagerefs && inuse as object != pagerefs && sizebases as object != pagerefs
    }

    ghost predicate Valid()
      reads this, mem, pagerefs, inuse, sizebases
    {
      && Shape() && PoolOk(pool)
      && PagesHeld(mem[..], pagerefs[..], pool)
      && ListsHeld(pagerefs[..], sizebases[..], allbase, pool)
      && BitsHeld(inuse[..], pool)
    }

    /** The static tables at boot: no pageref in use, every list empty. */
    constructor (memory: nat)
      ensures Valid() && pool == EMPTY && mem.Length == memory && fresh(mem)
      ensures fresh(pagerefs) && fresh(inuse) && fresh(sizebases)
    {
      mem := new nat[memory];
      pagerefs := new Pageref[NPAGEREFS](_ => Pageref(NIL, NIL, 0, 0, 0));
      inuse := new word[WORDS](_ => 0);
      sizebases := new int[NSIZES](_ => NIL);
      allbase := NIL;
      pool := EMPTY;
      new;
      forall p | 0 <= p < NPAGEREFS ensures !Taken(inuse[..], p) { ZeroBits(p % BITS); }
    }

    /** blocktype(): the table search. */
    method FindType(sz: nat) returns (t: nat)
      requires sz <= 2048
      ensures t == TypeFor(sz)
    {
      t := 0;
      while t < NSIZES
        invariant t < NSIZES && (t > 0 ==> sz > 16 * SizeOf(t - 1)) && TypeFor(sz) == TypeFor(sz, t)
        decreases NSIZES - t
      {
        if sz <= 16 * SizeOf(t) { return; }
        t := t + 1;
      }
    }

    /** The doalloc part of subpage_kmalloc: take the head of the freelist of page p. */
    method DoAlloc(p: nat) returns (ptr: nat)
      requires Shape() && p < NPAGEREFS && p in pool.pages
      requires pool.pages[p].free != [] && PageHeld(mem[..], pagerefs[p], pool.pages[p])
      modifies this`pool, pagerefs
      ensures pool == Pop(old(pool), p) && ptr == FreeAt(old(pool.pages[p]), 0)
      ensures PageHeld(mem[..], pagerefs[p], pool.pages[p])
      ensures TakeHead(mem[..], old(pagerefs[p])) == Some((ptr, pagerefs[p]))
      ensures pagerefs[p].nextSame == old(pagerefs[p].nextSame) && pagerefs[p].nextAll == old(pagerefs[p].nextAll)
      ensures forall q | 0 <= q < NPAGEREFS && q != p :: pagerefs[q] == old(pagerefs[q])
    {
      hide Off, Count, PageAddr, BlockType, Threaded, Describes;
      ghost var g := pool.pages[p];
      PopHeld(mem[..], pagerefs[p], g);
      ThreadedPop(mem[..], g);
      var pr := pagerefs[p];
      assert pr.flOff < PAGE;
      var prpage := PageAddr(pr);
      ptr := prpage + pr.flOff;
      var next := mem[ptr];
      pr := pr.(nfree := pr.nfree - 1);
      if next != 0 {
        assert pr.nfree > 0;
        assert next - prpage < PAGE;
        pr := pr.(flOff := next - prpage);
      } else {
        assert pr.nfree == 0;
        pr := pr.(flOff := INVALID_OFFSET);
      }
      pagerefs[p] := pr;
      pool := Pop(pool, p);
    }
  
    /** Take a block from page p of a valid pool. */
    method AllocFrom(p: nat) returns (ptr: nat)
      requires Valid() && p in pool.pages && p < NPAGEREFS && pool.pages[p].free != [] && pool.pages[p].kind < NSIZES
      modifies this`pool, pagerefs
      ensures Valid() && pool == Pop(old(pool), p) && ptr == Ptr(old(pool), p, old(pool).pages[p].free[0])
    {
      hide PageHeld, PoolOk, Chain, Taken;
      ghost var s, prs := pool, pagerefs[..];
      PopKeeps(s, p);
      ptr := DoAlloc(p);
      PagesStill(mem[..], prs, pagerefs[..], s, pool, p);
      ListsSame(prs, pagerefs[..], sizebases[..], allbase, s, pool, p);
    }

    /** Cut page a into blocks of type t and thread the freelist through them, last block first. */
    method Format(a: nat, t: nat)
      requires 0 < a && a + PAGE <= mem.Length && t < NSIZES
      modifies mem
      ensures Threaded(mem[..], Page(a, t, Fresh(Count(t))))
      ensures forall x | 0 <= x < mem.Length && !(a <= x < a + PAGE) :: mem[x] == old(mem[x])
    {
      hide Off, Count;
      OffZero(t);
      mem[a] := 0;
      for i := 1 to Count(t)
        invariant forall j | 0 <= j < i :: PointsDown(mem[..], a, t, j)
        invariant forall x | 0 <= x < mem.Length && !(a <= x < a + PAGE) :: mem[x] == old(mem[x])
      {
        ghost var m := mem[..];
        mem[a + Off(t, i)] := a + Off(t, i - 1);
        forall j | 0 <= j < i ensures PointsDown(mem[..], a, t, j) {
          assert PointsDown(m, a, t, j);
          OffApart(t, j, i);
        }
      }
      FreshThreaded(mem[..], a, t);
    }

    /** The end of subpage_kmalloc when no page has room: set up page a under pageref p and allocate from it. */
    method NewPage(p: nat, a: nat, t: nat) returns (ptr: nat)
      requires Shape() && PoolOk(pool) && PagesHeld(mem[..], pagerefs[..], pool)
      requires ListsHeld(pagerefs[..], sizebases[..], allbase, pool)
      requires p !in pool.pages && p < NPAGEREFS && t < NSIZES && a > 0 && PageOffered(pool, mem.Length, a)
      modifies this`pool, this`allbase, mem, pagerefs, sizebases
      ensures Shape() && PoolOk(pool) && PagesHeld(mem[..], pagerefs[..], pool)
      ensures ListsHeld(pagerefs[..], sizebases[..], allbase, pool)
      ensures AddStep(old(pool), t, ptr, pool, p, a)
      ensures forall x | 0 <= x < mem.Length && !(a <= x < a + PAGE) :: mem[x] == old(mem[x])
    {
      hide Off, Count, PageHeld, PoolOk, Chain, PageAddr, BlockType;
      ghost var s, m, prs, bases, base := pool, mem[..], pagerefs[..], sizebases[..], allbase;
      AddKeeps(s, p, a, t);
      NotListed(s, p);
      var pr := pagerefs[p].(pab := MakePab(a, t), nfree := PAGE / SizeOf(t));
      Format(a, t);
      pr := pr.(flOff := Off(t, pr.nfree - 1), nextSame := sizebases[t]);
      sizebases[t] := p;
      pr := pr.(nextAll := allbase);
      allbase := p;
      pagerefs[p] := pr;
      pool := AddPage(pool, p, a, t);
      FreshHeld(mem[..], pr, a, t);
      ghost var prs1 := pagerefs[..];
      PagesAfter(m, mem[..], prs, prs1, s, pool, p, a);
      ListsAdd(prs, prs1, bases, base, s, p, a, t);
      ghost var s1 := pool;
      ptr := DoAlloc(p);
      PagesStill(mem[..], prs1, pagerefs[..], s1, pool, p);
      ListsSame(prs1, pagerefs[..], sizebases[..], allbase, s1, pool, p);
    }

    /**
      kmalloc below 2048 bytes.  `avail` is what alloc_kpages(1) would answer; `took` says that the
      page was used.
     */
    method SubpageKmalloc(sz: nat, avail: nat) returns (ptr: nat, took: bool)
      requires Valid() && sz <= 2048 && PageOffered(pool, mem.Length, avail)
      modifies this`pool, this`allbase, mem, pagerefs, inuse, sizebases
      ensures Valid() && KmallocAnswer(old(pool), TypeFor(sz), avail, pool, ptr, took)
      ensures forall x | 0 <= x < mem.Length && !(took && avail <= x < avail + PAGE) :: mem[x] == old(mem[x])
    {
      hide Off, Count, PageHeld, PoolOk, Chain, Taken, TypeFor, PageAddr, BlockType;
      var t := FindType(sz);
      ghost var s := pool;
      PoolLists(s, t);
      var pr := sizebases[t];
      ghost var ps, k := pool.bySize[t], 0;
      ChainStart(pagerefs[..], false, pr, ps);
      while pr != NIL
        invariant Valid() && pool == s && mem[..] == old(mem[..])
        invariant k <= |ps| && pr == After(ps, k - 1)
        invariant FirstRoom(s, ps) == FirstRoom(s, ps, k)
        decreases |ps| - k
      {
        ListedPage(mem[..], pagerefs[..], sizebases[..], allbase, s, t, k);
        assert BlockType(pagerefs[pr]) == t;
        if pagerefs[pr].nfree > 0 {
          ptr := AllocFrom(pr);
          took := false;
          return;
        }
        pr := pagerefs[pr].nextSame;
        k := k + 1;
      }
      var p := AllocPageref(inuse);
      if p == NIL {
        return 0, false;
      }
      if avail == 0 {
        FreePageref(inuse, p);
        return 0, false;
      }
      ptr := NewPage(p, avail, t);
      took := true;
    }

    ghost function Head(every: bool, t: nat): int
      requires t < sizebases.Length
      reads this, sizebases
    {
      if every then allbase else sizebases[t]
    }

    /** One loop of remove_lists: find p in the list ps of all pagerefs, or of size t, and unlink it. */
    method RemoveFrom(every: bool, t: nat, p: nat, ghost ps: seq<nat>)
      requires Shape() && t < NSIZES && p < NPAGEREFS && NoDup(ps) && p in ps
      requires Chain(pagerefs[..], every, Head(every, t), ps)
      modifies this`allbase, sizebases, pagerefs
      ensures Chain(pagerefs[..], every, Head(every, t), Without(ps, p))
      ensures every ==> sizebases[..] == old(sizebases[..])
      ensures !every ==> allbase == old(allbase)
      ensures forall u | 0 <= u < NSIZES && u != t :: sizebases[u] == old(sizebases[u])
      ensures forall q | 0 <= q < NPAGEREFS && q !in ps :: pagerefs[q] == old(pagerefs[q])
      ensures forall q | 0 <= q < NPAGEREFS :: OnlyLink(old(pagerefs[q]), pagerefs[q], every)
    {
      hide Chain, NoDup, Without;
      ghost var prs, head := pagerefs[..], Head(every, t);
      ChainStart(prs, every, head, ps);
      var prev, cur := NIL, if every then allbase else sizebases[t];
      ghost var k := 0;
      while cur != p
        invariant k < |ps| && cur == ps[k] && prev == (if k == 0 then NIL else ps[k - 1])
        invariant p !in ps[..k] && pagerefs[..] == prs && Head(every, t) == head
        modifies {}
        decreases |ps| - k
      {
        ChainAt(prs, every, head, ps, k);
        prev := cur;
        cur := Link(pagerefs[cur], every);
        k := k + 1;
      }
      ChainAt(prs, every, head, ps, k);
      var next := Link(pagerefs[p], every);
      if prev == NIL {
        if every { allbase := next; } else { sizebases[t] := next; }
      } else {
        pagerefs[prev] := if every then pagerefs[prev].(nextAll := next) else pagerefs[prev].(nextSame := next);
      }
      ChainCut(prs, pagerefs[..], every, head, Head(every, t), ps, k);
    }

    /** remove_lists: take pageref p off the list of its size t and off the list of all. */
    method RemoveLists(p: nat, t: nat)
      requires Shape() && PoolOk(pool) && p in pool.pages && pool.pages[p].kind == t < NSIZES && p < NPAGEREFS
      requires ListsHeld(pagerefs[..], sizebases[..], allbase, pool)
      modifies this`allbase, sizebases, pagerefs
      ensures ListsHeld(pagerefs[..], sizebases[..], allbase, RemovePage(pool, p))
      ensures forall q | 0 <= q < NPAGEREFS :: SamePage(old(pagerefs[q]), pagerefs[q])
    {
      hide Chain, PoolOk, Without, NoDup;
      InLists(pool, p);
      ghost var prs, bases := pagerefs[..], sizebases[..];
      RemoveFrom(false, t, p, pool.bySize[t]);
      ghost var prs1 := pagerefs[..];
      ListsAfterSame(prs, prs1, bases, sizebases[..], allbase, pool, p);
      ghost var base := allbase;
      RemoveFrom(true, t, p, pool.all);
      ListsAfterAll(prs1, pagerefs[..], sizebases[..], base, allbase, pool, p);
    }

    /** Wipe the block at ptr and put it in front of the freelist of pageref pr; whether it is free already is not looked at. */
    method PushBlock(pr: nat, ptr: nat, ghost i: nat)
      requires Shape() && PoolOk(pool) && pr < NPAGEREFS && pr in pool.pages && pool.pages[pr].kind < NSIZES
      requires PageHeld(mem[..], pagerefs[pr], pool.pages[pr]) && i < Count(pool.pages[pr].kind)
      requires ptr == Ptr(pool, pr, i)
      modifies mem, pagerefs
      ensures Pushed(old(mem[..]), mem[..], old(pagerefs[pr]), pagerefs[pr], pool.pages[pr], i)
      ensures OnlyAt(old(pagerefs[..]), pagerefs[..], pr) && SameLinks(old(pagerefs[pr]), pagerefs[pr])
    {
      hide Off, Count, PoolOk;
      ghost var g, m := pool.pages[pr], mem[..];
      var r := pagerefs[pr];
      var prpage, size := PageAddr(r), SizeOf(BlockType(r));
      for j := 0 to size
        modifies mem
        invariant forall x | 0 <= x < mem.Length :: mem[x] == if ptr <= x < ptr + j then DEAD else m[x]
      {
        mem[ptr + j] := DEAD;
      }
      mem[ptr] := if r.flOff == INVALID_OFFSET then 0 else prpage + r.flOff;
      pagerefs[pr] := r.(flOff := ptr - prpage, nfree := r.nfree + 1);
      HeadAddress(m, g, r);
    }

    /**
      The end of subpage_kfree: free block i of pageref pr; `page` is the page given back to free_kpages,
      or 0.  A block that is free already is pushed again, and if that makes the page look wholly free it goes.
     */
    method FreeIn(pr: nat, ptr: nat, ghost i: nat) returns (page: nat)
      requires Valid() && pr in pool.pages && pr < NPAGEREFS && pool.pages[pr].kind < NSIZES
      requires i < Count(pool.pages[pr].kind) && ptr == Ptr(pool, pr, i)
      modifies this`pool, this`allbase, mem, pagerefs, inuse, sizebases
      ensures if i in InUse(old(pool).pages[pr]) || |old(pool).pages[pr].free| + 1 == Count(old(pool).pages[pr].kind)
              then Valid() && pool == Push(old(pool), pr, i)
              else pool == old(pool) && Pushed(old(mem[..]), mem[..], old(pagerefs[pr]), pagerefs[pr], pool.pages[pr], i)
      ensures page == if |old(pool).pages[pr].free| + 1 == Count(old(pool).pages[pr].kind) then old(pool).pages[pr].addr else 0
      ensures forall x | 0 <= x < mem.Length && !(ptr <= x < ptr + SizeOf(old(pool).pages[pr].kind)) :: mem[x] == old(mem[x])
    {
      hide Off, Count, Threaded, PageAddr, BlockType, PoolOk, Chain, Taken, Without, InUse, Pushed;
      ghost var s, s', m, prs := pool, Push(pool, pr, i), mem[..], pagerefs[..];
      ghost var g := s.pages[pr];
      PoolAddr(s, pr);
      BlockBounds(s, pr, i);
      var t, prpage := BlockType(pagerefs[pr]), PageAddr(pagerefs[pr]);
      PushBlock(pr, ptr, i);
      ghost var prs1 := pagerefs[..];
      PushedOutside(m, mem[..], prs[pr], prs1[pr], g, i);
      ListsSame(prs, prs1, sizebases[..], allbase, s, s, pr);
      assert pagerefs[pr].nfree <= PAGE / SizeOf(t) by { PageRoom(s, pr); }
      if pagerefs[pr].nfree == PAGE / SizeOf(t) {
        RemoveKeeps(s, pr);
        PagesAfter(m, mem[..], prs, prs1, s, s', pr, g.addr);
        RemoveLists(pr, t);
        PagesRelinked(mem[..], prs1, pagerefs[..], s');
        page := prpage;
        FreePageref(inuse, pr);
        pool := s';
      } else {
        page := 0;
        if i in InUse(g) {
          PushKeeps(s, pr, i);
          PushHeld(m, mem[..], prs[pr], prs1[pr], g, i);
          PagesAfter(m, mem[..], prs, prs1, s, s', pr, g.addr);
          ListsSame(prs, prs1, sizebases[..], allbase, s, s', pr);
          pool := s';
        }
      }
    }

    /** The search of subpage_kfree along the list of all pages. */
    method FindPage(ptr: nat) returns (pr: int)
      requires Valid()
      ensures pr == NIL ==> forall p | p in pool.pages :: !InPage(pool.pages[p], ptr)
      ensures pr != NIL ==> 0 <= pr < NPAGEREFS && pr in pool.pages && InPage(pool.pages[pr], ptr)
      ensures pr != NIL ==> pool.pages[pr].kind < NSIZES && PageAddr(pagerefs[pr]) == pool.pages[pr].addr
                            && BlockType(pagerefs[pr]) == pool.pages[pr].kind
    {
      hide Off, Count, PagesHeld, ListsHeld, BitsHeld, PageAddr, BlockType, PoolOk;
      ghost var s, ps, k := pool, pool.all, 0;
      pr := allbase;
      AllListed(s);
      AllHead(pagerefs[..], sizebases[..], allbase, s);
      while pr != NIL
        invariant k <= |ps| && pr == After(ps, k - 1)
        invariant forall j | 0 <= j < k :: ps[j] in s.pages && !InPage(s.pages[ps[j]], ptr)
        decreases |ps| - k
      {
        AnyPage(mem[..], pagerefs[..], sizebases[..], allbase, s, k);
        if PageAddr(pagerefs[pr]) <= ptr < PageAddr(pagerefs[pr]) + PAGE { return; }
        pr := pagerefs[pr].nextAll;
        k := k + 1;
      }
    }

    /** subpage_kfree: find the page that holds ptr and free the block. */
    method SubpageKfree(ptr: nat) returns (r: KfreeResult)
      requires Valid()
      modifies this`pool, this`allbase, mem, pagerefs, inuse, sizebases
      ensures NotFreeTwice(old(pool), ptr) ==> Valid() && KfreeAnswer(old(pool), ptr, pool, r)
      ensures !NotFreeTwice(old(pool), ptr) ==>
                DoubleFreed(old(pool), ptr, pool, r, old(mem[..]), mem[..], old(pagerefs[..]), pagerefs[..]) && (r != Done(0) ==> Valid())
      ensures !r.Done? ==> mem[..] == old(mem[..])
      ensures forall p, x | p in old(pool).pages && old(pool).pages[p].kind < NSIZES && InPage(old(pool).pages[p], ptr)
                            && 0 <= x < mem.Length && !(ptr <= x < ptr + SizeOf(old(pool).pages[p].kind)) ::
                mem[x] == old(mem[x])
    {
      hide Off, Count, SizeOf, PagesHeld, ListsHeld, BitsHeld, PageAddr, BlockType, PoolOk, InUse;
      ghost var s := pool;
      AllListed(s);
      var pr := FindPage(ptr);
      if pr == NIL {
        return NotSubpage;
      }
      ghost var g := s.pages[pr];
      OnePage(s, ptr, pr);
      var offset, size := ptr - PageAddr(pagerefs[pr]), SizeOf(BlockType(pagerefs[pr]));
      if offset % size != 0 {
        return BadAddress;
      }
      OffOnto(g.kind, offset);
      ghost var i := offset / size;
      assert i < Count(g.kind) by { OffBounds(g.kind, i); }
      TwiceIff(s, ptr, pr, i);
      var page := FreeIn(pr, ptr, i);
      r := Done(page);
      if NotFreeTwice(s, ptr) {
        PushEmpties(s, pr, i);
        assert KfreeDone(s, ptr, pool, page, pr, i);
      } else {
        TwiceRemoves(s, pr, i);
        PoolAddrPositive(s, pr);
        assert FreeTwice(s, ptr, pr, i) && KfreeTwice(s, pr, i, pool, r);
      }
    }

    /**
      kmalloc: whole pages from alloc_kpages from 2048 bytes up (npages is what it asks for), a subpage
      block below.  The rounding wraps for the last 4095 sizes, and alloc_kpages(0) gives NULL.
     */
    method Kmalloc(sz: nat, avail: nat) returns (ptr: nat, npages: nat)
      requires Valid() && PageOffered(pool, mem.Length, avail) && sz < TWO_32
      modifies this`pool, this`allbase, mem, pagerefs, inuse, sizebases
      ensures Valid()
      ensures 2048 <= sz <= TWO_32 - 4096 ==> ptr == avail && 4096 * (npages - 1) < sz <= 4096 * npages && pool == old(pool)
      ensures sz > TWO_32 - 4096 ==> npages == 0 && ptr == 0 && pool == old(pool)
      ensures sz < 2048 ==> npages <= 1 && KmallocAnswer(old(pool), TypeFor(sz), avail, pool, ptr, npages == 1)
      ensures forall x | 0 <= x < mem.Length && !(sz < 2048 && npages == 1 && avail <= x < avail + PAGE) :: mem[x] == old(mem[x])
    {
      hide Off, Count, PageHeld, PoolOk, Chain, Taken, TypeFor, KmallocAnswer;
      if sz >= 2048 {
        npages := (sz + 4096 - 1) % TWO_32 / 4096;
        ptr := if npages == 0 then 0 else avail;
        return;
      }
      var took;
      ptr, took := SubpageKmalloc(sz, avail);
      npages := if took then 1 else 0;
    }

    /** kfree: NULL is ignored; what is on no subpage must be a page-aligned address for free_kpages. */
    method Kfree(ptr: nat) returns (r: KfreeResult)
      requires Valid()
      requires ptr % PAGE == 0 || exists p | p in pool.pages :: InPage(pool.pages[p], ptr)
      modifies this`pool, this`allbase, mem, pagerefs, inuse, sizebases
      ensures ptr == 0 ==> Valid() && r == Done(0) && pool == old(pool) && mem[..] == old(mem[..])
      ensures ptr != 0 && NotFreeTwice(old(pool), ptr) ==> Valid()
      ensures ptr != 0 && NotFreeTwice(old(pool), ptr) && (exists p | p in old(pool).pages :: InPage(old(pool).pages[p], ptr)) ==>
                !r.NotSubpage? && KfreeAnswer(old(pool), ptr, pool, r)
      ensures ptr != 0 && (forall p | p in old(pool).pages :: !InPage(old(pool).pages[p], ptr)) ==>
                r == Done(ptr) && pool == old(pool)
      ensures ptr != 0 && !NotFreeTwice(old(pool), ptr) ==>
                DoubleFreed(old(pool), ptr, pool, r, old(mem[..]), mem[..], old(pagerefs[..]), pagerefs[..]) && (r != Done(0) ==> Valid())
      ensures forall p, x | p in old(pool).pages && old(pool).pages[p].kind < NSIZES && InPage(old(pool).pages[p], ptr)
                            && 0 <= x < mem.Length && !(ptr <= x < ptr + SizeOf(old(pool).pages[p].kind)) ::
                mem[x] == old(mem[x])
    {
      hide Off, Count, PageHeld, PoolOk, Chain, Taken, InUse, Pushed, PagesHeld, ListsHeld, BitsHeld;
      if ptr == 0 {
        return Done(0);
      }
      r := SubpageKfree(ptr);
      if r.NotSubpage? {
        assert ptr % PAGE == 0;
        r := Done(ptr);
      } else if r.Done? && NotFreeTwice(old(pool), ptr) {
        ghost var p, i :| KfreeDone(old(pool), ptr, pool, r.page, p, i);
        BlockInPage(old(pool), p, i);
      }
    }
  }

  datatype KfreeResult = NotSubpage | BadAddress | Done(page: nat)

  predicate InPage(g: Page, ptr: nat) {
    g.addr <= ptr < g.addr + PAGE
  }

  /** If ptr is the address of a block of the pool, that block is in use. */
  ghost predicate NotFreeTwice(s: Pool, ptr: nat) {
    forall p | p in s.pages && InPage(s.pages[p], ptr) && s.pages[p].kind < NSIZES
               && (ptr - s.pages[p].addr) % SizeOf(s.pages[p].kind) == 0 ::
      (ptr - s.pages[p].addr) / SizeOf(s.pages[p].kind) in InUse(s.pages[p])
  }

  ghost predicate KfreeDone(s: Pool, ptr: nat, s': Pool, page: nat, p: nat, i: nat) {
    && |s.bySize| == NSIZES
    && Used(s, p, i) && ptr == Ptr(s, p, i) && s' == Push(s, p, i)
    && page == (if p in s'.pages then 0 else s.pages[p].addr)
  }

  /** ptr is block i of page p, which is free already. */
  ghost predicate FreeTwice(s: Pool, ptr: nat, p: nat, i: nat) {
    p in s.pages && s.pages[p].kind < NSIZES && i in s.pages[p].free && ptr == Ptr(s, p, i)
  }

  /** What kfree then does: it drops a page with one block in use, and otherwise leaves a freelist that is none. */
  ghost predicate KfreeTwice(s: Pool, p: nat, i: nat, s': Pool, r: KfreeResult)
    requires p in s.pages && s.pages[p].kind < NSIZES
  {
    if |s.pages[p].free| + 1 == Count(s.pages[p].kind)
    then s.pages[p].kind < |s.bySize| && s' == RemovePage(s, p) && r == Done(s.pages[p].addr)
    else s' == s && r == Done(0)
  }

  /** The outcome of freeing the block at ptr a second time: pool and result, and the memory if the page stays. */
  ghost predicate DoubleFreed(s: Pool, ptr: nat, s': Pool, r: KfreeResult, m: seq<nat>, m': seq<nat>, prs: seq<Pageref>, prs': seq<Pageref>) {
    exists p: nat, i: nat | FreeTwice(s, ptr, p, i) ::
      && KfreeTwice(s, p, i, s', r)
      && (p in s'.pages ==> p < |prs| == |prs'| && Pushed(m, m', prs[p], prs'[p], s.pages[p], i))
  }

  /** What kfree does with ptr. */
  ghost predicate KfreeAnswer(s: Pool, ptr: nat, s': Pool, r: KfreeResult) {
    match r
    case NotSubpage => s' == s && forall p | p in s.pages :: !InPage(s.pages[p], ptr)
    case BadAddress =>
      s' == s && exists p | p in s.pages ::
        InPage(s.pages[p], ptr) && s.pages[p].kind < NSIZES && (ptr - s.pages[p].addr) % SizeOf(s.pages[p].kind) != 0
    case Done(page) => exists p, i :: KfreeDone(s, ptr, s', page, p, i)
  }

  lemma AllHead(prs: seq<Pageref>, bases: seq<int>, allbase: int, s: Pool)
    requires ListsHeld(prs, bases, allbase, s)
    ensures allbase == After(s.all, -1)
  {
  }

  lemma AllListed(s: Pool)
    requires PoolOk(s)
    ensures |s.bySize| == NSIZES
    ensures forall p :: p in s.all <==> p in s.pages
    ensures forall p | p in s.pages :: p < NPAGEREFS && s.pages[p].kind < NSIZES
  {
    forall p | p in s.pages ensures s.pages[p].kind < NSIZES { assert PageOk(s.pages[p]); }
  }

  /** The k-th page of the list of all: its pageref, its page and its successor. */
  lemma {:induction false} AnyPage(m: seq<nat>, prs: seq<Pageref>, bases: seq<int>, allbase: int, s: Pool, k: nat)
    requires PoolOk(s) && PagesHeld(m, prs, s) && ListsHeld(prs, bases, allbase, s) && k < |s.all|
    ensures var p := s.all[k];
            && p in s.pages && p < |prs| && s.pages[p].kind < NSIZES && prs[p].nextAll == After(s.all, k)
            && PageAddr(prs[p]) == s.pages[p].addr && BlockType(prs[p]) == s.pages[p].kind
  {
    hide Off, Count, PageAddr, BlockType;
    var p := s.all[k];
    assert p in s.all;
    assert PageHeld(m, prs[p], s.pages[p]);
    assert Link(prs[p], true) == After(s.all, k);
  }

  /** Only one page holds ptr. */
  lemma {:induction false} OnePage(s: Pool, ptr: nat, p: nat)
    requires PoolOk(s) && p in s.pages && InPage(s.pages[p], ptr)
    ensures forall q | q in s.pages && InPage(s.pages[q], ptr) :: q == p
  {
    hide Count;
    forall q | q in s.pages && InPage(s.pages[q], ptr) ensures q == p {
      assert PageOk(s.pages[p]) && PageOk(s.pages[q]);
      if q != p { PagesApart(s.pages[p].addr, s.pages[q].addr); }
    }
  }

  lemma BlockInPage(s: Pool, p: nat, i: nat)
    requires p in s.pages && s.pages[p].kind < NSIZES && i in InUse(s.pages[p])
    ensures s.pages[p].addr <= Ptr(s, p, i) && Ptr(s, p, i) + SizeOf(s.pages[p].kind) <= s.pages[p].addr + PAGE
  {
    hide Off, Count;
  }

  lemma BlockBounds(s: Pool, p: nat, i: nat)
    requires p in s.pages && s.pages[p].kind < NSIZES && i < Count(s.pages[p].kind)
    ensures s.pages[p].addr <= Ptr(s, p, i) && Ptr(s, p, i) + SizeOf(s.pages[p].kind) <= s.pages[p].addr + PAGE
  {
    hide Off, Count;
  }

  lemma OffBounds(t: nat, i: nat)
    requires t < NSIZES && Off(t, i) < PAGE
    ensures i < Count(t)
  {
    hide Count;
  }

  /** The pointer of block i is freed twice iff the block is on the freelist. */
  lemma {:induction false} TwiceIff(s: Pool, ptr: nat, p: nat, i: nat)
    requires PoolOk(s) && p in s.pages && s.pages[p].kind < NSIZES && i < Count(s.pages[p].kind) && ptr == Ptr(s, p, i)
    ensures NotFreeTwice(s, ptr) <==> i in InUse(s.pages[p])
    ensures i in InUse(s.pages[p]) <==> i !in s.pages[p].free
  {
    hide Off, Count, SizeOf;
    BlockBounds(s, p, i);
    SizePositive(s.pages[p].kind);
    OnePage(s, ptr, p);
    assert (ptr - s.pages[p].addr) % SizeOf(s.pages[p].kind) == 0 && (ptr - s.pages[p].addr) / SizeOf(s.pages[p].kind) == i;
  }

  lemma SizePositive(t: nat)
    requires t < NSIZES
    ensures SizeOf(t) >= 1
  {
  }

  lemma PushEmpties(s: Pool, p: nat, i: nat)
    requires PoolOk(s) && p in s.pages && s.pages[p].kind < NSIZES == |s.bySize|
    ensures p in Push(s, p, i).pages <==> |s.pages[p].free| + 1 != Count(s.pages[p].kind)
  {
    hide Count, PoolOk;
  }

  lemma TwiceRemoves(s: Pool, p: nat, i: nat)
    requires p in s.pages && s.pages[p].kind < NSIZES == |s.bySize|
    ensures |s.pages[p].free| + 1 == Count(s.pages[p].kind) ==> Push(s, p, i) == RemovePage(s, p) && p !in RemovePage(s, p).pages
  {
    hide Count;
  }

  // ------------------------------------------------------------ pushing a block

  /** Memory and pageref after block i of page g was wiped and put in front of the freelist. */
  ghost predicate Pushed(m: seq<nat>, m': seq<nat>, r: Pageref, r': Pageref, g: Page, i: nat) {
    && g.kind < NSIZES && g.addr + PAGE <= |m| == |m'| && i < Count(g.kind)
    && m'[g.addr + Off(g.kind, i)] == FreeAt(g, 0)
    && (forall x | 0 <= x < |m| && !(Off(g.kind, i) <= x - g.addr < Off(g.kind, i) + SizeOf(g.kind)) :: m'[x] == m[x])
    && (forall x | Off(g.kind, i) < x - g.addr < Off(g.kind, i) + SizeOf(g.kind) :: x < |m'| && m'[x] == DEAD)
    && r' == r.(flOff := Off(g.kind, i), nfree := r.nfree + 1)
  }

  lemma PushedOutside(m: seq<nat>, m': seq<nat>, r: Pageref, r': Pageref, g: Page, i: nat)
    requires Pushed(m, m', r, r', g, i)
    ensures |m'| == |m| && r'.nfree == r.nfree + 1
    ensures forall x | 0 <= x < |m| && !(Off(g.kind, i) <= x - g.addr < Off(g.kind, i) + SizeOf(g.kind)) :: m'[x] == m[x]
    ensures forall x | 0 <= x < |m| && !(g.addr <= x < g.addr + PAGE) :: m'[x] == m[x]
  {
    hide Count;
  }

  /** A block in use joins the freelist. */
  lemma {:induction false} PushHeld(m: seq<nat>, m': seq<nat>, r: Pageref, r': Pageref, g: Page, i: nat)
    requires PageHeld(m, r, g) && Pushed(m, m', r, r', g, i) && i in InUse(g)
    ensures PageHeld(m', r', g.(free := [i] + g.free))
  {
    hide Off, Count, SizeOf, FreeAt;
    ThreadedPush(m, m', g, i);
  }

  lemma {:induction false} OffInjective(t: nat, i: nat, j: nat)
    requires t < NSIZES && Off(t, i) == Off(t, j)
    ensures i == j
  {
    hide Off, SizeOf;
    SizePositive(t);
    if i < j { OffApart(t, i, j); } else if j < i { OffApart(t, j, i); }
  }

  lemma OffDistinct(t: nat, i: nat, j: nat)
    requires t < NSIZES && i != j
    ensures Off(t, i) != Off(t, j)
  {
    hide Off;
    if Off(t, i) == Off(t, j) { OffInjective(t, i, j); }
  }

  /** The word of another block is not touched. */
  lemma {:induction false} OtherWord(m: seq<nat>, m': seq<nat>, r: Pageref, r': Pageref, g: Page, i: nat, k: nat)
    requires Threaded(m, g) && Pushed(m, m', r, r', g, i) && k < |g.free| && g.free[k] != i
    ensures g.free[k] < Count(g.kind) && g.addr + Off(g.kind, g.free[k]) < |m'|
    ensures m'[g.addr + Off(g.kind, g.free[k])] == FreeAt(g, k + 1)
  {
    hide Off, Count, SizeOf, FreeAt;
    var j := g.free[k];
    assert BlockWord(m, g, k);
    SizePositive(g.kind);
    if j < i { OffApart(g.kind, j, i); } else { OffApart(g.kind, i, j); }
  }

  /** n links on from address a. */
  function Follow(m: seq<nat>, a: nat, n: nat): nat
    decreases n
  {
    if n == 0 || a >= |m| then a else Follow(m, m[a], n - 1)
  }

  /** After a push of the free block at position k, the links from position j <= k lead to it. */
  lemma {:induction false} LinksReach(m: seq<nat>, m': seq<nat>, r: Pageref, r': Pageref, g: Page, k: nat, j: nat)
    requires Threaded(m, g) && NoDup(g.free) && j <= k < |g.free| && Pushed(m, m', r, r', g, g.free[k])
    ensures Follow(m', FreeAt(g, j), k - j) == FreeAt(g, k)
    decreases k - j
  {
    hide Off, Count, SizeOf;
    if j < k {
      OtherWord(m, m', r, r', g, g.free[k], j);
      LinksReach(m, m', r, r', g, k, j + 1);
    }
  }

  /** A double free: from the new head, position k of the old freelist, the links come back to it after k + 1 steps. */
  lemma {:induction false} DoubleFreeLoops(m: seq<nat>, m': seq<nat>, r: Pageref, r': Pageref, g: Page, k: nat)
    requires PageHeld(m, r, g) && NoDup(g.free) && k < |g.free| && Pushed(m, m', r, r', g, g.free[k])
    ensures var head := g.addr + Off(g.kind, g.free[k]);
            r'.flOff == Off(g.kind, g.free[k]) && Follow(m', head, k + 1) == head
  {
    hide Off, Count, SizeOf, PageAddr, BlockType;
    LinksReach(m, m', r, r', g, k, 0);
  }

  /** The pageref after n allocations from the page, as long as no assertion fails and no holder writes. */
  function Drawn(m: seq<nat>, r: Pageref, n: nat): Option<Pageref> {
    if n == 0 then Some(r)
    else
      var q := Drawn(m, r, n - 1);
      if q.None? || TakeHead(m, q.value).None? then None else Some(TakeHead(m, q.value).value.1)
  }

  /** The block that allocation number n gives, counting from 0. */
  function Given(m: seq<nat>, r: Pageref, n: nat): Option<nat> {
    var q := Drawn(m, r, n);
    if q.None? || TakeHead(m, q.value).None? then None else Some(TakeHead(m, q.value).value.0)
  }

  /** After the block at position k was freed again: the position on the old freelist of the n-th block on the loop. */
  function Nth(k: nat, n: nat): (r: nat)
    ensures r <= k && (1 <= n <= k + 1 ==> r == n - 1)
  {
    if n == 0 then k else if Nth(k, n - 1) == k then 0 else Nth(k, n - 1) + 1
  }

  /** Freeing the block at position k again has closed the freelist to a loop of k + 1 blocks, and nfree counts one block too many. */
  ghost predicate Looped(m: seq<nat>, r: Pageref, g: Page, k: nat) {
    && g.kind < NSIZES && k < |g.free| && g.addr + PAGE <= |m| && g.addr > 0
    && PageAddr(r) == g.addr && r.nfree == |g.free| + 1 && g.addr + r.flOff == FreeAt(g, k)
    && forall i | 0 <= i <= k :: LoopWord(m, g, k, i)
  }

  ghost predicate LoopWord(m: seq<nat>, g: Page, k: nat, i: nat)
    requires g.kind < NSIZES && k < |g.free|
  {
    g.addr <= FreeAt(g, i) < g.addr + PAGE <= |m| && m[FreeAt(g, i)] == FreeAt(g, if i == k then 0 else i + 1)
  }

  lemma {:induction false} DoubleFreeLooped(m: seq<nat>, m': seq<nat>, r: Pageref, r': Pageref, g: Page, k: nat)
    requires PageHeld(m, r, g) && NoDup(g.free) && k < |g.free| && Pushed(m, m', r, r', g, g.free[k])
    ensures Looped(m', r', g, k)
  {
    hide Off, Count, SizeOf, BlockType;
    forall i | 0 <= i <= k ensures LoopWord(m', g, k, i) {
      assert BlockWord(m, g, i);
      OffBounds(g.kind, g.free[i]);
      if i < k { OtherWord(m, m', r, r', g, g.free[k], i); }
    }
  }

  /** The allocations go round the loop until nfree would become 0. */
  lemma {:induction false} DrawnLoop(m: seq<nat>, r: Pageref, g: Page, k: nat, n: nat)
    requires Looped(m, r, g, k) && n <= |g.free|
    ensures var q := Drawn(m, r, n);
            && q.Some? && q.value.nfree == |g.free| + 1 - n && PageAddr(q.value) == g.addr
            && g.addr + q.value.flOff == FreeAt(g, Nth(k, n))
    ensures Given(m, r, n) == if n < |g.free| then Some(FreeAt(g, Nth(k, n))) else None
  {
    hide FreeAt, Nth, LoopWord, TakeHead, PageAddr;
    NthNext(k, n);
    if n > 0 {
      DrawnLoop(m, r, g, k, n - 1);
      TakeOnLoop(m, Drawn(m, r, n - 1).value, g, k, Nth(k, n - 1));
    }
    TakeOnLoop(m, Drawn(m, r, n).value, g, k, Nth(k, n));
  }

  lemma TakeOnLoop(m: seq<nat>, q: Pageref, g: Page, k: nat, i: nat)
    requires g.kind < NSIZES && i <= k < |g.free| && g.addr > 0 && forall j | 0 <= j <= k :: LoopWord(m, g, k, j)
    requires PageAddr(q) == g.addr && q.nfree >= 1 && g.addr + q.flOff == FreeAt(g, i)
    ensures if q.nfree == 1 then TakeHead(m, q).None?
            else TakeHead(m, q).Some? && var (ptr, q') := TakeHead(m, q).value;
                 ptr == FreeAt(g, i) && q'.nfree == q.nfree - 1 && PageAddr(q') == g.addr
                 && g.addr + q'.flOff == FreeAt(g, if i == k then 0 else i + 1)
  {
    hide FreeAt;
    assert LoopWord(m, g, k, i);
    assert LoopWord(m, g, k, if i == k then 0 else i + 1);
  }

  lemma NthNext(k: nat, n: nat)
    ensures Nth(k, n) == if n == 0 then k else if Nth(k, n - 1) == k then 0 else Nth(k, n - 1) + 1
  {
  }

  lemma {:induction false} NoneAfter(m: seq<nat>, r: Pageref, n: nat, l: nat)
    requires l <= n && Given(m, r, l).None?
    ensures Given(m, r, n).None?
  {
    if l < n { NoneAfter(m, r, n - 1, l); }
  }

  /** Two allocations give the same block. */
  ghost predicate GivenTwice(m: seq<nat>, r: Pageref) {
    exists i: nat, j: nat | i < j :: Given(m, r, i).Some? && Given(m, r, i) == Given(m, r, j)
  }

  /**
    Exact condition, on the blocks handed out: after the free block at position k was freed again,
    the next kmallocs from the page give that block twice iff it was not the last of the freelist.
    If it was, an assertion of kmalloc fails first.
   */
  lemma {:induction false} GivenTwiceIff(m: seq<nat>, m': seq<nat>, r: Pageref, r': Pageref, g: Page, k: nat)
    requires PageHeld(m, r, g) && NoDup(g.free) && k < |g.free| && Pushed(m, m', r, r', g, g.free[k])
    ensures Given(m', r', 0) == Some(g.addr + Off(g.kind, g.free[k]))
    ensures Given(m', r', k + 1) == if k + 1 < |g.free| then Given(m', r', 0) else None
    ensures GivenTwice(m', r') <==> k + 1 < |g.free|
  {
    hide Off, Count, SizeOf, Given, Pushed, PageHeld, Nth;
    HeldKind(m, r, g);
    DoubleFreeLooped(m, m', r, r', g, k);
    DrawnLoop(m', r', g, k, 0);
    NthNext(k, 0);
    DrawnLoop(m', r', g, k, k + 1);
    if k + 1 == |g.free| {
      forall i: nat, j: nat | i < j && Given(m', r', i).Some? ensures Given(m', r', i) != Given(m', r', j) {
        OnceEach(m', r', g, k, i, j);
      }
    }
  }

  lemma HeldKind(m: seq<nat>, r: Pageref, g: Page)
    requires PageHeld(m, r, g)
    ensures g.kind < NSIZES
  {
  }

  lemma {:induction false} OnceEach(m: seq<nat>, r: Pageref, g: Page, k: nat, i: nat, j: nat)
    requires Looped(m, r, g, k) && NoDup(g.free) && k + 1 == |g.free| && i < j && Given(m, r, i).Some?
    ensures Given(m, r, i) != Given(m, r, j)
  {
    hide Off, Count, SizeOf, Given, Nth;
    DrawnLoop(m, r, g, k, k + 1);
    if j > k {
      NoneAfter(m, r, j, k + 1);
    } else {
      DrawnLoop(m, r, g, k, i);
      DrawnLoop(m, r, g, k, j);
      NthNext(k, 0);
      OffDistinct(g.kind, g.free[Nth(k, i)], g.free[Nth(k, j)]);
    }
  }

  /** If memory threads some freelist after a push, it starts with the block and goes on with the old one. */
  lemma {:induction false} MustContinue(m: seq<nat>, m': seq<nat>, r: Pageref, r': Pageref, g: Page, i: nat, fs: seq<nat>, j: nat)
    requires PageHeld(m, r, g) && Pushed(m, m', r, r', g, i) && PageHeld(m', r', g.(free := fs))
    requires j <= |g.free| && forall n | 0 <= n < j - 1 :: g.free[n] != i
    ensures |fs| == |g.free| + 1 && fs[j] == if j == 0 then i else g.free[j - 1]
    decreases j
  {
    hide Off, Count, SizeOf, PageAddr, BlockType;
    var g' := g.(free := fs);
    if j == 0 {
      assert BlockWord(m', g', 0);
      OffInjective(g.kind, fs[0], i);
    } else {
      MustContinue(m, m', r, r', g, i, fs, j - 1);
      assert BlockWord(m', g', j - 1) && BlockWord(m', g', j);
      if j > 1 { OtherWord(m, m', r, r', g, i, j - 2); }
      OffInjective(g.kind, fs[j], g.free[j - 1]);
    }
  }

  /** Memory and pageref hold some freelist of the page, without repetition. */
  ghost predicate HoldsList(m: seq<nat>, r: Pageref, g: Page) {
    exists fs :: NoDup(fs) && PageHeld(m, r, g.(free := fs))
  }

  /**
    Exact condition, on memory: after a kfree of block i the page has a freelist again iff the block
    was in use.  Nothing in the code checks it.
   */
  lemma {:induction false} PushThreadsIff(m: seq<nat>, m': seq<nat>, r: Pageref, r': Pageref, g: Page, i: nat)
    requires PageHeld(m, r, g) && NoDup(g.free) && Pushed(m, m', r, r', g, i)
    ensures HoldsList(m', r', g) <==> i in InUse(g)
  {
    hide Off, Count, SizeOf, PageHeld, Pushed;
    InRange(m, m', r, r', g, i);
    if i in InUse(g) {
      PushHeld(m, m', r, r', g, i);
      ConsNoDup(i, g.free);
    } else {
      var k :| 0 <= k < |g.free| && g.free[k] == i;
      forall fs | PageHeld(m', r', g.(free := fs)) ensures !NoDup(fs) {
        MustContinue(m, m', r, r', g, i, fs, 0);
        MustContinue(m, m', r, r', g, i, fs, k + 1);
      }
    }
  }

  lemma InRange(m: seq<nat>, m': seq<nat>, r: Pageref, r': Pageref, g: Page, i: nat)
    requires Pushed(m, m', r, r', g, i)
    ensures g.kind < NSIZES && (i in InUse(g) <==> i !in g.free)
  {
  }

  /** If a double free makes the page look wholly free, one block of it is still in use when it goes. */
  lemma {:induction false} ReleasedInUse(s: Pool, p: nat, i: nat) returns (b: nat)
    requires PoolOk(s) && p in s.pages && s.pages[p].kind < NSIZES && i in s.pages[p].free
    requires |s.pages[p].free| + 1 == Count(s.pages[p].kind)
    ensures InUse(s.pages[p]) == {b} && b != i && |s.bySize| == NSIZES && p !in Push(s, p, i).pages
  {
    hide Count;
    var g := s.pages[p];
    assert PageOk(g);
    FreePlusUsed(g);
    assert |InUse(g)| == 1;
    OneElement(InUse(g));
    b :| b in InUse(g);
    assert InUse(g) == {b};
  }

  lemma OneElement(a: set<nat>)
    requires |a| == 1
    ensures exists x :: x in a && a == {x} && forall y | y in a :: y == x
  {
    var x :| x in a;
    assert a == {x} + (a - {x});
  }

  /** Concretely, from the empty pool: two blocks of 2048 bytes, the first freed twice, and the page of the second is gone. */
  lemma EarlyRelease()
    ensures var s := Pop(Pop(AddPage(EMPTY, 0, PAGE, 7), 0), 0);
            && Used(s, 0, 0) && Used(s, 0, 1) && |s.bySize| == NSIZES
            && var s1 := Push(s, 0, 1);
               Used(s1, 0, 0) && 1 in s1.pages[0].free && Push(s1, 0, 1).pages == map[]
  {
    var a := AddPage(EMPTY, 0, PAGE, 7);
    assert Count(7) == 2 && Fresh(2) == [1, 0];
    var s := Pop(Pop(a, 0), 0);
    assert s.pages[0].free == [];
    var s1 := Push(s, 0, 1);
    assert s1.pages[0].free == [1];
  }

  /** Concretely, in memory: with block 1 of four alone on the freelist, freeing it again makes it its own successor. */
  lemma SelfLoop() returns (m: seq<nat>, r: Pageref, m': seq<nat>, r': Pageref)
    ensures PageHeld(m, r, Page(PAGE, 6, [1])) && Pushed(m, m', r, r', Page(PAGE, 6, [1]), 1)
    ensures r'.nfree == 2 && Follow(m', PAGE + 64, 1) == PAGE + 64
  {
    var g := Page(PAGE, 6, [1]);
    assert Count(6) == 4 && SizeOf(6) == 64 && Off(6, 1) == 64;
    m := seq(2 * PAGE, i => 0);
    r := Pageref(NIL, NIL, MakePab(PAGE, 6), 64, 1);
    m' := seq(2 * PAGE, i requires 0 <= i => if i == PAGE + 64 then PAGE + 64 else if PAGE + 64 < i < PAGE + 128 then DEAD else 0);
    r' := r.(flOff := 64, nfree := 2);
    assert BlockWord(m, g, 0);
    assert Follow(m', PAGE + 64, 1) == Follow(m', m'[PAGE + 64], 0);
  }

  lemma PageRoom(s: Pool, p: nat)
    requires PoolOk(s) && p in s.pages
    ensures s.pages[p].kind < NSIZES && |s.pages[p].free| < PAGE / SizeOf(s.pages[p].kind) == Count(s.pages[p].kind)
  {
    hide Count;
    assert PageOk(s.pages[p]);
  }

  lemma {:induction false} PagesRelinked(m: seq<nat>, prs: seq<Pageref>, prs': seq<Pageref>, s: Pool)
    requires PagesHeld(m, prs, s) && |prs'| == |prs|
    requires forall q | 0 <= q < |prs| :: SamePage(prs[q], prs'[q])
    ensures PagesHeld(m, prs', s)
  {
    hide PageHeld;
    forall p | p in s.pages ensures p < |prs'| && PageHeld(m, prs'[p], s.pages[p]) {
      HeldBy(m, prs[p], prs'[p], s.pages[p]);
    }
  }

  lemma HeldBy(m: seq<nat>, r: Pageref, r': Pageref, g: Page)
    requires PageHeld(m, r, g) && SamePage(r, r')
    ensures PageHeld(m, r', g)
  {
    hide Off, Count, Threaded;
  }

  /** Only the links may differ. */
  ghost predicate SamePage(r: Pageref, r': Pageref) {
    r'.pab == r.pab && r'.flOff == r.flOff && r'.nfree == r.nfree
  }

  lemma InLists(s: Pool, p: nat)
    requires PoolOk(s) && p in s.pages
    ensures |s.bySize| == NSIZES && s.pages[p].kind < NSIZES
    ensures p in s.all && NoDup(s.all) && p in s.bySize[s.pages[p].kind] && NoDup(s.bySize[s.pages[p].kind])
    ensures forall u, q | 0 <= u < NSIZES && u != s.pages[p].kind && q in s.bySize[u] :: q !in s.bySize[s.pages[p].kind]
  {
  }

  /** The lists once p is off the list of its size. */
  ghost predicate HalfRemoved(prs: seq<Pageref>, bases: seq<int>, allbase: int, s: Pool, p: nat)
    requires p in s.pages && s.pages[p].kind < |s.bySize|
  {
    && |s.bySize| == |bases|
    && Chain(prs, true, allbase, s.all)
    && forall u | 0 <= u < |bases| :: Chain(prs, false, bases[u], RemovePage(s, p).bySize[u])
  }

  lemma {:induction false} ListsAfterSame(prs: seq<Pageref>, prs': seq<Pageref>, bases: seq<int>, bases': seq<int>, allbase: int, s: Pool, p: nat)
    requires PoolOk(s) && p in s.pages && s.pages[p].kind < NSIZES == |bases| == |bases'| && |prs| == |prs'| == NPAGEREFS
    requires ListsHeld(prs, bases, allbase, s)
    requires var t := s.pages[p].kind;
             && Chain(prs', false, bases'[t], Without(s.bySize[t], p))
             && (forall u | 0 <= u < NSIZES && u != t :: bases'[u] == bases[u])
             && (forall q | 0 <= q < NPAGEREFS && q !in s.bySize[t] :: prs'[q] == prs[q])
             && (forall q | 0 <= q < NPAGEREFS :: OnlyLink(prs[q], prs'[q], false))
    ensures HalfRemoved(prs', bases', allbase, s, p)
  {
    hide Chain, Without;
    var t := s.pages[p].kind;
    InLists(s, p);
    ChainFrame(prs, prs', true, allbase, s.all);
    forall u | 0 <= u < NSIZES ensures Chain(prs', false, bases'[u], RemovePage(s, p).bySize[u]) {
      if u != t {
        assert Chain(prs, false, bases[u], s.bySize[u]);
        ChainFrame(prs, prs', false, bases[u], s.bySize[u]);
      }
    }
  }

  lemma {:induction false} ListsAfterAll(prs: seq<Pageref>, prs': seq<Pageref>, bases: seq<int>, allbase: int, allbase': int, s: Pool, p: nat)
    requires p in s.pages && s.pages[p].kind < NSIZES == |bases| == |s.bySize| && |prs| == |prs'| == NPAGEREFS
    requires HalfRemoved(prs, bases, allbase, s, p)
    requires Chain(prs', true, allbase', Without(s.all, p))
    requires forall q | 0 <= q < NPAGEREFS :: OnlyLink(prs[q], prs'[q], true)
    ensures ListsHeld(prs', bases, allbase', RemovePage(s, p))
  {
    hide Chain, Without;
    var s' := RemovePage(s, p);
    forall u | 0 <= u < NSIZES ensures Chain(prs', false, bases[u], s'.bySize[u]) {
      assert Chain(prs, false, bases[u], s'.bySize[u]);
      ChainFrame(prs, prs', false, bases[u], s'.bySize[u]);
    }
  }

  lemma HeadAddress(m: seq<nat>, g: Page, r: Pageref)
    requires Threaded(m, g) && Describes(r, g)
    ensures (if r.flOff == INVALID_OFFSET then 0 else PageAddr(r) + r.flOff) == FreeAt(g, 0)
  {
    hide Count;
    if g.free != [] { assert BlockWord(m, g, 0); }
  }

  /** Putting block i in front of the freelist: its first word is the old head. */
  lemma {:induction false} ThreadedPush(m: seq<nat>, m': seq<nat>, g: Page, i: nat)
    requires Threaded(m, g) && i in InUse(g) && |m'| == |m|
    requires m'[g.addr + Off(g.kind, i)] == FreeAt(g, 0)
    requires forall x | 0 <= x < |m| && !(Off(g.kind, i) <= x - g.addr < Off(g.kind, i) + SizeOf(g.kind)) :: m'[x] == m[x]
    ensures Threaded(m', g.(free := [i] + g.free))
  {
    hide Off, Count, SizeOf, FreeAt;
    var g' := g.(free := [i] + g.free);
    assert i < Count(g.kind);
    forall k | 0 <= k < |g'.free| ensures BlockWord(m', g', k) {
      PushedFreeAt(g, i, k);
      if k > 0 {
        assert g'.free[k] == g.free[k - 1];
        OtherBlockWord(m, m', g, i, k - 1);
      }
    }
  }

  lemma PushedFreeAt(g: Page, i: nat, k: nat)
    requires g.kind < NSIZES
    ensures FreeAt(g.(free := [i] + g.free), k + 1) == FreeAt(g, k)
  {
  }

  lemma {:induction false} OtherBlockWord(m: seq<nat>, m': seq<nat>, g: Page, i: nat, k: nat)
    requires Threaded(m, g) && i in InUse(g) && |m'| == |m| && k < |g.free|
    requires forall x | 0 <= x < |m| && !(Off(g.kind, i) <= x - g.addr < Off(g.kind, i) + SizeOf(g.kind)) :: m'[x] == m[x]
    ensures BlockWord(m', g, k)
  {
    hide Off, Count, SizeOf, FreeAt;
    var j := g.free[k];
    assert j in g.free && BlockWord(m, g, k);
    if j < i { OffApart(g.kind, j, i); } else { OffApart(g.kind, i, j); }
  }

  /** Only the link of one kind may differ. */
  ghost predicate OnlyLink(r: Pageref, r': Pageref, every: bool) {
    && r'.pab == r.pab && r'.flOff == r.flOff && r'.nfree == r.nfree
    && (every ==> r'.nextSame == r.nextSame) && (!every ==> r'.nextAll == r.nextAll)
  }

  lemma NotListed(s: Pool, p: nat)
    requires PoolOk(s) && p !in s.pages
    ensures |s.bySize| == NSIZES && p !in s.all && forall t | 0 <= t < NSIZES :: p !in s.bySize[t]
  {
  }

  lemma PoolLists(s: Pool, t: nat)
    requires PoolOk(s) && t < NSIZES
    ensures |s.bySize| == NSIZES && forall p | p in s.bySize[t] :: p in s.pages && p < NPAGEREFS && s.pages[p].kind == t
  {
  }

  /** The k-th page of a size list: its pageref, its type and its successor. */
  lemma {:induction false} ListedPage(m: seq<nat>, prs: seq<Pageref>, bases: seq<int>, allbase: int, s: Pool, t: nat, k: nat)
    requires PoolOk(s) && t < NSIZES == |bases| && PagesHeld(m, prs, s) && ListsHeld(prs, bases, allbase, s)
    requires k < |s.bySize[t]|
    ensures var p := s.bySize[t][k];
            && p in s.pages && p < |prs| && s.pages[p].kind == t && BlockType(prs[p]) == t
            && prs[p].nfree == |s.pages[p].free| && prs[p].nextSame == After(s.bySize[t], k)
  {
    hide Off, Count;
    var p := s.bySize[t][k];
    assert p in s.bySize[t];
    assert Chain(prs, false, bases[t], s.bySize[t]);
    assert PageHeld(m, prs[p], s.pages[p]);
  }

  lemma {:induction false} FreshHeld(m: seq<nat>, r: Pageref, a: nat, t: nat)
    requires t < NSIZES && Threaded(m, Page(a, t, Fresh(Count(t)))) && a % PAGE == 0
    requires r.pab == MakePab(a, t) && r.nfree == Count(t) && r.flOff == Off(t, Count(t) - 1)
    ensures PageHeld(m, r, Page(a, t, Fresh(Count(t))))
  {
    hide Off, Count;
  }

  /** Changing only pageref p, consistently with its page. */
  lemma {:induction false} PagesStill(m: seq<nat>, prs: seq<Pageref>, prs': seq<Pageref>, s: Pool, s': Pool, p: nat)
    requires PagesHeld(m, prs, s) && OnlyAt(prs, prs', p) && p < |prs|
    requires forall q | q in s'.pages && q != p :: q in s.pages && s'.pages[q] == s.pages[q]
    requires p in s'.pages ==> PageHeld(m, prs'[p], s'.pages[p])
    ensures PagesHeld(m, prs', s')
  {
    hide PageHeld;
  }

  /** The first word of block j holds the address of block j-1, NULL for block 0. */
  ghost predicate PointsDown(m: seq<nat>, a: nat, t: nat, j: nat)
    requires t < NSIZES && j < Count(t) && a + PAGE <= |m|
  {
    m[a + Off(t, j)] == if j == 0 then 0 else a + Off(t, j - 1)
  }

  lemma {:induction false} FreshThreaded(m: seq<nat>, a: nat, t: nat)
    requires t < NSIZES && 0 < a && a + PAGE <= |m|
    requires forall j | 0 <= j < Count(t) :: PointsDown(m, a, t, j)
    ensures Threaded(m, Page(a, t, Fresh(Count(t))))
  {
    hide Off, Count;
    var g := Page(a, t, Fresh(Count(t)));
    forall k | 0 <= k < |g.free| ensures BlockWord(m, g, k) {
      var j := Count(t) - 1 - k;
      assert g.free[k] == j && PointsDown(m, a, t, j);
      assert j > 0 ==> g.free[k + 1] == j - 1;
    }
  }

  lemma OffZero(t: nat)
    requires t < NSIZES
    ensures Off(t, 0) == 0
  {
  }

  lemma PoolAddrPositive(s: Pool, p: nat)
    requires PoolOk(s) && p in s.pages
    ensures s.pages[p].addr > 0
  {
    assert PageOk(s.pages[p]);
  }

  lemma PoolAddr(s: Pool, p: nat)
    requires PoolOk(s) && p in s.pages
    ensures s.pages[p].addr % PAGE == 0
    ensures forall q | q in s.pages && q != p :: s.pages[q].addr != s.pages[p].addr
  {
  }

  lemma {:induction false} ZeroBits(j: nat)
    ensures !Bit(0, j)
  {
    if j > 0 { ZeroBits(j - 1); }
  }

  /** kmalloc below 2048 bytes is one step of the pool runs. */
  lemma KmallocIsStep(s: Pool, t: nat, a: nat, s': Pool, ptr: nat, took: bool)
    requires PoolOk(s) && t < NSIZES && KmallocAnswer(s, t, a, s', ptr, took)
    ensures if ptr == 0 then Step(s, Refused(t), s') else Step(s, Alloced(t, ptr), s')
  {
    hide Off, Count;
    var k := FirstRoom(s, s.bySize[t]);
    if k < |s.bySize[t]| { assert PageOk(s.pages[s.bySize[t][k]]); }
  }

  /** An accepted kfree of a subpage block is one step of the pool runs. */
  lemma KfreeIsStep(s: Pool, ptr: nat, s': Pool, page: nat)
    requires PoolOk(s) && KfreeAnswer(s, ptr, s', Done(page))
    ensures Step(s, Freed(ptr), s')
  {
    hide Off, Count, PoolOk, Push;
    var p, i :| KfreeDone(s, ptr, s', page, p, i);
    assert Used(s, p, i) && ptr == Ptr(s, p, i) && s' == Push(s, p, i);
  }
}
