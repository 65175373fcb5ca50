/**
  Whole programs over kmalloc and kfree below 2048 bytes: as far as their holders can tell, the
  blocks are independent stores, although the freelists run through the same memory.
 */
module KHeapClients {
  import opened SubpagePool
  import opened SubpageRuns
  import opened KHeap

  /** Blocks by name: obtain one, write or read granule i of one, give one back.  page is what alloc_kpages(1) would answer. */
  datatype Op = New(id: nat, sz: nat, page: nat) | Write(id: nat, i: nat, x: nat) | Read(id: nat, i: nat) | Drop(id: nat)

  /** The reference: blocks with nothing in common, each with what was written to it. */
  datatype Buffer = Buffer(kind: nat, written: map<nat, nat>)

  datatype World = World(pool: Pool, store: map<nat, Buffer>, at: map<nat, nat>)

  datatype Answer = Got(p: nat) | Null | Value(x: nat) | Nothing

  // ------------------------------------------------------------ the reference

  /** Pool and pointer (0 for NULL) after kmalloc of a block of type t, page a being on offer. */
  ghost function KmallocSpec(s: Pool, t: nat, a: nat): (Pool, nat)
    requires PoolOk(s) && t < NSIZES
  {
    var k := FirstRoom(s, s.bySize[t]);
    if k < |s.bySize[t]| then
      var p := s.bySize[t][k];
      (Pop(s, p), Ptr(s, p, s.pages[p].free[0]))
    else if a == 0 || forall p | 0 <= p < NPAGEREFS :: p in s.pages then (s, 0)
    else if exists p: nat :: LowestFree(s, p) then
      var p: nat :| LowestFree(s, p);
      (Pop(AddPage(s, p, a, t), p), a + Off(t, Count(t) - 1))
    else (s, 0)
  }

  /** The pool after kfree of the block at x. */
  ghost function KfreeSpec(s: Pool, x: nat): Pool
    requires |s.bySize| == NSIZES
  {
    if exists p: nat, i: nat :: Used(s, p, i) && Ptr(s, p, i) == x then
      var p: nat, i: nat :| Used(s, p, i) && Ptr(s, p, i) == x;
      Push(s, p, i)
    else s
  }

  /** Sizes below 2048 bytes, and a page from alloc_kpages is one of memory that is not in the pool. */
  ghost predicate Sane(s: Pool, memory: nat, op: Op) {
    op.New? ==> op.sz < 2048 && PageOffered(s, memory, op.page)
  }

  predicate Possible(st: map<nat, Buffer>, op: Op) {
    match op
    case New(id, _, _) => id !in st
    case Write(id, i, _) => id in st && st[id].kind < NSIZES && i < SizeOf(st[id].kind)
    case Read(id, i) => id in st && i in st[id].written
    case Drop(id) => id in st
  }

  ghost function Act(w: World, memory: nat, op: Op): World
    requires PoolOk(w.pool) && Sane(w.pool, memory, op)
  {
    if !Possible(w.store, op) then w
    else match op
      case New(id, sz, page) =>
        var (s, p) := KmallocSpec(w.pool, TypeFor(sz), page);
        if p == 0 then w else World(s, w.store[id := Buffer(TypeFor(sz), map[])], w.at[id := p])
      case Write(id, i, x) => w.(store := w.store[id := w.store[id].(written := w.store[id].written[i := x])])
      case Read(_, _) => w
      case Drop(id) => World(if id in w.at then KfreeSpec(w.pool, w.at[id]) else w.pool, w.store - {id}, w.at - {id})
  }

  ghost function Reply(w: World, memory: nat, op: Op): Answer
    requires PoolOk(w.pool) && Sane(w.pool, memory, op)
  {
    if !Possible(w.store, op) then Nothing
    else match op
      case New(_, sz, page) => var p := KmallocSpec(w.pool, TypeFor(sz), page).1; if p == 0 then Null else Got(p)
      case Read(id, i) => Value(w.store[id].written[i])
      case _ => Nothing
  }

  lemma {:induction false} ActKeepsPool(w: World, memory: nat, op: Op)
    requires PoolOk(w.pool) && Sane(w.pool, memory, op)
    ensures PoolOk(Act(w, memory, op).pool)
  {
    hide PoolOk, Off, Count, TypeFor;
    if Possible(w.store, op) {
      if op.New? {
        SpecKeepsPool(w.pool, memory, TypeFor(op.sz), op.page);
      } else if op.Drop? && op.id in w.at {
        FreeKeepsPool(w.pool, w.at[op.id]);
      }
    }
  }

  lemma {:induction false} SpecKeepsPool(s: Pool, memory: nat, t: nat, a: nat)
    requires PoolOk(s) && t < NSIZES && PageOffered(s, memory, a)
    ensures PoolOk(KmallocSpec(s, t, a).0)
  {
    hide Off, Count;
    PoolLists(s, t);
    var k := FirstRoom(s, s.bySize[t]);
    if k < |s.bySize[t]| {
      assert s.bySize[t][k] in s.bySize[t];
      PopKeeps(s, s.bySize[t][k]);
    } else if a != 0 {
      if p: nat :| LowestFree(s, p) { AddKeeps(s, p, a, t); LowestUnique(s, p); }
    }
  }

  lemma LowestUnique(s: Pool, p: nat)
    requires LowestFree(s, p)
    ensures forall q: nat | LowestFree(s, q) :: q == p
  {
  }

  lemma {:induction false} FreeKeepsPool(s: Pool, x: nat)
    requires PoolOk(s)
    ensures |s.bySize| == NSIZES && PoolOk(KfreeSpec(s, x))
  {
    hide Off, Count, InUse;
    forall p: nat, i: nat | Used(s, p, i) ensures PoolOk(Push(s, p, i)) { PushKeeps(s, p, i); }
  }

  /** alloc_kpages never offers a page that is in the pool. */
  ghost predicate AllSane(w: World, memory: nat, ops: seq<Op>)
    requires PoolOk(w.pool)
    decreases |ops|
  {
    ops == [] || (Sane(w.pool, memory, ops[0]) && (ActKeepsPool(w, memory, ops[0]); AllSane(Act(w, memory, ops[0]), memory, ops[1..])))
  }

  ghost function Final(w: World, memory: nat, ops: seq<Op>): (r: World)
    requires PoolOk(w.pool) && AllSane(w, memory, ops)
    ensures PoolOk(r.pool)
    decreases |ops|
  {
    if ops == [] then w else ActKeepsPool(w, memory, ops[0]); Final(Act(w, memory, ops[0]), memory, ops[1..])
  }

  ghost function Replies(w: World, memory: nat, ops: seq<Op>): (r: seq<Answer>)
    requires PoolOk(w.pool) && AllSane(w, memory, ops)
    ensures |r| == |ops|
    decreases |ops|
  {
    if ops == [] then []
    else ActKeepsPool(w, memory, ops[0]); [Reply(w, memory, ops[0])] + Replies(Act(w, memory, ops[0]), memory, ops[1..])
  }

  // ------------------------------------------------------------ where the blocks are

  lemma {:induction false} LiveBlock(s: Pool, out: map<nat, nat>, x: nat) returns (p: nat, i: nat)
    requires Serves(s, out) && x in out
    ensures Used(s, p, i) && Ptr(s, p, i) == x && s.pages[p].kind == out[x]
  {
    p, i :| Used(s, p, i) && Ptr(s, p, i) == x;
  }

  lemma {:induction false} BlocksApart(s: Pool, p: nat, i: nat, q: nat, j: nat)
    requires PoolOk(s) && Used(s, p, i) && Used(s, q, j) && (p != q || i != j)
    ensures Ptr(s, p, i) + SizeOf(s.pages[p].kind) <= Ptr(s, q, j) || Ptr(s, q, j) + SizeOf(s.pages[q].kind) <= Ptr(s, p, i)
  {
    hide Off, Count, SizeOf;
    BlockInPage(s, p, i);
    BlockInPage(s, q, j);
    if p == q {
      if i < j { OffApart(s.pages[p].kind, i, j); } else { OffApart(s.pages[p].kind, j, i); }
    } else {
      PoolAddr(s, p);
      PoolAddr(s, q);
      PagesApart(s.pages[p].addr, s.pages[q].addr);
    }
  }

  /** Blocks at different addresses do not overlap. */
  lemma {:induction false} LiveApart(s: Pool, out: map<nat, nat>, x: nat, y: nat)
    requires PoolOk(s) && Serves(s, out) && x in out && y in out && x != y
    ensures out[x] < NSIZES && out[y] < NSIZES && (x + SizeOf(out[x]) <= y || y + SizeOf(out[y]) <= x)
  {
    hide PoolOk, Serves, InUse, Off;
    var p, i := LiveBlock(s, out, x);
    var q, j := LiveBlock(s, out, y);
    BlocksApart(s, p, i, q, j);
  }

  lemma {:induction false} LiveInMemory(m: seq<nat>, prs: seq<Pageref>, s: Pool, out: map<nat, nat>, x: nat)
    requires PoolOk(s) && PagesHeld(m, prs, s) && Serves(s, out) && x in out
    ensures x > 0 && out[x] < NSIZES && x + SizeOf(out[x]) <= |m|
  {
    hide Off, Count, InUse, Serves;
    var p, i := LiveBlock(s, out, x);
    BlockInPage(s, p, i);
    assert PageHeld(m, prs[p], s.pages[p]);
  }

  /** Blocks of the pool lie outside a page on offer. */
  lemma {:induction false} LiveOffPage(s: Pool, out: map<nat, nat>, x: nat, memory: nat, a: nat)
    requires PoolOk(s) && Serves(s, out) && x in out && PageOffered(s, memory, a) && a != 0
    ensures out[x] < NSIZES && (x + SizeOf(out[x]) <= a || a + PAGE <= x)
  {
    hide Off, Count, InUse, Serves;
    var p, i := LiveBlock(s, out, x);
    BlockInPage(s, p, i);
    PoolAddr(s, p);
    PagesApart(s.pages[p].addr, a);
  }

  // ------------------------------------------------------------ kmalloc and kfree

  lemma {:induction false} AnswerIsSpec(s: Pool, t: nat, a: nat, s': Pool, ptr: nat, took: bool)
    requires PoolOk(s) && t < NSIZES && KmallocAnswer(s, t, a, s', ptr, took)
    ensures (s', ptr) == KmallocSpec(s, t, a)
  {
    hide Off, Count, PoolOk, Pop, AddPage;
    if took {
      var p :| LowestFree(s, p) && AddStep(s, t, ptr, s', p, a);
      LowestUnique(s, p);
    }
  }

  /** A block handed out is at an address that no block in use has. */
  lemma {:induction false} NewServes(s: Pool, t: nat, a: nat, s': Pool, ptr: nat, took: bool, out: map<nat, nat>)
    requires PoolOk(s) && t < NSIZES && KmallocAnswer(s, t, a, s', ptr, took) && ptr != 0 && Serves(s, out)
    ensures Serves(s', out[ptr := t]) && ptr !in out
  {
    hide Off, Count, Serves, PoolOk, Pop, AddPage;
    KmallocIsStep(s, t, a, s', ptr, took);
    AllocStepKeeps(s, t, ptr, s', out);
    PoolLists(s, t);
    var k := FirstRoom(s, s.bySize[t]);
    if k < |s.bySize[t]| {
      assert s.bySize[t][k] in s.bySize[t];
      PopIsNew(s, s.bySize[t][k], out);
    } else {
      var p :| LowestFree(s, p) && AddStep(s, t, ptr, s', p, a);
      AddIsNew(s, p, a, t, out);
    }
  }

  lemma {:induction false} PopIsNew(s: Pool, p: nat, out: map<nat, nat>)
    requires PoolOk(s) && Serves(s, out) && p in s.pages && s.pages[p].kind < NSIZES && s.pages[p].free != []
    ensures Ptr(s, p, s.pages[p].free[0]) !in out
  {
    hide Off, Count, Serves, PoolOk, InUse;
    UsedPop(s, p);
    PopKeeps(s, p);
    NewIsNew(s, Pop(s, p), p, s.pages[p].free[0], out);
  }

  lemma {:induction false} AddIsNew(s: Pool, p: nat, a: nat, t: nat, out: map<nat, nat>)
    requires PoolOk(s) && Serves(s, out) && p !in s.pages && p < NPAGEREFS && t < NSIZES
    requires a > 0 && a % PAGE == 0 && forall q | q in s.pages :: s.pages[q].addr != a
    ensures a + Off(t, Count(t) - 1) !in out
  {
    hide Off, Count, Serves, PoolOk, InUse;
    PoolLists(s, t);
    UsedAdd(s, p, a, t);
    AddKeeps(s, p, a, t);
    NewIsNew(s, Pop(AddPage(s, p, a, t), p), p, Count(t) - 1, out);
  }

  lemma {:induction false} NewIsNew(s: Pool, s': Pool, p: nat, i: nat, out: map<nat, nat>)
    requires PoolOk(s') && Serves(s, out) && Used(s', p, i) && !Used(s, p, i)
    requires forall q, j :: Used(s, q, j) ==> Used(s', q, j)
    requires forall q | q in s.pages :: q in s'.pages && s'.pages[q].addr == s.pages[q].addr && s'.pages[q].kind == s.pages[q].kind
    ensures Ptr(s', p, i) !in out
  {
    hide Off, Count, InUse, PoolOk;
    if Ptr(s', p, i) in out {
      var q, j := LiveBlock(s, out, Ptr(s', p, i));
      PtrInjective(s', p, i, q, j);
      assert false;
    }
  }

  lemma {:induction false} DropServes(s: Pool, x: nat, s': Pool, page: nat, out: map<nat, nat>)
    requires PoolOk(s) && Serves(s, out) && x in out && KfreeAnswer(s, x, s', Done(page))
    ensures |s.bySize| == NSIZES && Serves(s', out - {x}) && s' == KfreeSpec(s, x)
  {
    hide Off, Count, InUse, Serves, PoolOk, Push;
    KfreeIsStep(s, x, s', page);
    FreeStepKeeps(s, x, s', out);
    var p: nat, i: nat :| KfreeDone(s, x, s', page, p, i);
    forall q: nat, j: nat | Used(s, q, j) && Ptr(s, q, j) == x ensures q == p && j == i { PtrInjective(s, p, i, q, j); }
    assert Used(s, p, i) && Ptr(s, p, i) == x;
  }

  /** kfree of a block in use is no double free, and its address is on a page and aligned. */
  lemma {:induction false} DropIsFine(s: Pool, out: map<nat, nat>, x: nat)
    requires PoolOk(s) && Serves(s, out) && x in out
    ensures NotFreeTwice(s, x) && (exists p | p in s.pages :: InPage(s.pages[p], x))
    ensures forall s', r :: KfreeAnswer(s, x, s', r) && !r.NotSubpage? ==> r.Done?
  {
    hide Off, Count, InUse, Serves, PoolOk;
    var p, i := LiveBlock(s, out, x);
    UsedInRange(s, p, i);
    BlockInPage(s, p, i);
    SizePositive(s.pages[p].kind);
    TwiceIff(s, x, p, i);
    OnePage(s, x, p);
    assert (x - s.pages[p].addr) % SizeOf(s.pages[p].kind) == 0;
  }

  lemma UsedInRange(s: Pool, p: nat, i: nat)
    requires Used(s, p, i)
    ensures i < Count(s.pages[p].kind)
  {
  }

  // ------------------------------------------------------------ the holders' own writes

  lemma {:induction false} WriteKeepsPages(m: seq<nat>, prs: seq<Pageref>, s: Pool, out: map<nat, nat>, x: nat, c: nat, v: nat)
    requires PoolOk(s) && PagesHeld(m, prs, s) && Serves(s, out) && x in out && out[x] < NSIZES && x <= c < x + SizeOf(out[x]) && c < |m|
    ensures PagesHeld(m[c := v], prs, s)
  {
    hide Off, Count, InUse, Serves;
    var p, i := LiveBlock(s, out, x);
    forall q | q in s.pages ensures PageHeld(m[c := v], prs[q], s.pages[q]) {
      assert PageHeld(m, prs[q], s.pages[q]);
      WriteKeepsPage(m, prs[q], s, p, i, q, c, v);
    }
  }

  lemma {:induction false} WriteKeepsPage(m: seq<nat>, r: Pageref, s: Pool, p: nat, i: nat, q: nat, c: nat, v: nat)
    requires PoolOk(s) && Used(s, p, i) && q in s.pages && PageHeld(m, r, s.pages[q])
    requires Ptr(s, p, i) <= c < Ptr(s, p, i) + SizeOf(s.pages[p].kind) && c < |m|
    ensures PageHeld(m[c := v], r, s.pages[q])
  {
    hide Off, Count, SizeOf, FreeAt, Describes;
    var g, m' := s.pages[q], m[c := v];
    forall k | 0 <= k < |g.free| ensures BlockWord(m', g, k) {
      assert BlockWord(m, g, k) && g.free[k] in g.free;
      FreeWordApart(s, p, i, q, g.free[k]);
    }
  }

  /** The first granule of a free block is not in a block in use. */
  lemma {:induction false} FreeWordApart(s: Pool, p: nat, i: nat, q: nat, j: nat)
    requires PoolOk(s) && Used(s, p, i) && q in s.pages && s.pages[q].kind < NSIZES && j in s.pages[q].free && j < Count(s.pages[q].kind)
    ensures !(Ptr(s, p, i) <= Ptr(s, q, j) < Ptr(s, p, i) + SizeOf(s.pages[p].kind))
  {
    hide Off, Count, SizeOf;
    BlockInPage(s, p, i);
    BlockBounds(s, q, j);
    SizePositive(s.pages[q].kind);
    if p == q {
      if i < j { OffApart(s.pages[p].kind, i, j); } else { OffApart(s.pages[p].kind, j, i); }
    } else {
      PoolAddr(s, p);
      PoolAddr(s, q);
      PagesApart(s.pages[p].addr, s.pages[q].addr);
    }
  }

  // ------------------------------------------------------------ contents

  /** The block at x is one of type b.kind and memory holds what was written to it. */
  ghost predicate At(m: seq<nat>, out: map<nat, nat>, b: Buffer, x: nat) {
    && x in out && out[x] == b.kind < NSIZES && x + SizeOf(b.kind) <= |m|
    && forall i | i in b.written :: i < SizeOf(b.kind) && m[x + i] == b.written[i]
  }

  ghost predicate AllAt(m: seq<nat>, out: map<nat, nat>, store: map<nat, Buffer>, at: map<nat, nat>) {
    && at.Keys == store.Keys
    && (forall id | id in store :: At(m, out, store[id], at[id]))
    && (forall id, jd | id in at && jd in at && at[id] == at[jd] :: id == jd)
  }

  /** m' is m on the block at x. */
  ghost predicate SameBlock(m: seq<nat>, m': seq<nat>, out: map<nat, nat>, x: nat) {
    x in out && out[x] < NSIZES && |m'| == |m| && forall c | x <= c < x + SizeOf(out[x]) && c < |m| :: m'[c] == m[c]
  }

  lemma AtSame(m: seq<nat>, m': seq<nat>, out: map<nat, nat>, out': map<nat, nat>, b: Buffer, x: nat)
    requires At(m, out, b, x) && SameBlock(m, m', out, x) && x in out' && out'[x] == out[x]
    ensures At(m', out', b, x)
  {
    hide SizeOf;
  }

  ghost predicate Running(sp: Subpages, w: World, out: map<nat, nat>, ptrs: map<nat, nat>)
    reads sp, sp.mem, sp.pagerefs, sp.inuse, sp.sizebases
  {
    sp.Valid() && sp.pool == w.pool && Serves(w.pool, out) && AllAt(sp.mem[..], out, w.store, w.at) && ptrs == w.at
  }

  method Obtain(sp: Subpages, ghost w: World, ghost out: map<nat, nat>, ptrs: map<nat, nat>, id: nat, sz: nat, page: nat)
      returns (ans: Answer, ptrs': map<nat, nat>, ghost out': map<nat, nat>)
    requires Running(sp, w, out, ptrs) && id !in w.store && Sane(w.pool, sp.mem.Length, New(id, sz, page))
    modifies sp`pool, sp`allbase, sp.mem, sp.pagerefs, sp.inuse, sp.sizebases
    ensures Running(sp, Act(w, sp.mem.Length, New(id, sz, page)), out', ptrs') && ans == Reply(w, sp.mem.Length, New(id, sz, page))
  {
    hide PoolOk, Serves, AllAt, PagesHeld, ListsHeld, BitsHeld, KmallocAnswer, KmallocSpec, TypeFor;
    ghost var m := sp.mem[..];
    var p, n := sp.Kmalloc(sz, page);
    AnswerIsSpec(w.pool, TypeFor(sz), page, sp.pool, p, n == 1);
    ans, ptrs', out' := if p == 0 then Null else Got(p), ptrs, out;
    TookOffered(w.pool, TypeFor(sz), page, sp.pool, p, n == 1);
    OldBlocksSame(m, sp.mem[..], w, out, page, n == 1);
    if p != 0 {
      NewServes(w.pool, TypeFor(sz), page, sp.pool, p, n == 1, out);
      out', ptrs' := out[p := TypeFor(sz)], ptrs[id := p];
      LiveInMemory(sp.mem[..], sp.pagerefs[..], sp.pool, out', p);
      AllAtNew(m, sp.mem[..], out, w, id, TypeFor(sz), p);
    } else {
      Refusal(w.pool, TypeFor(sz), page, sp.pool, n == 1);
      AllAtSame(m, sp.mem[..], out, w);
    }
  }

  lemma TookOffered(s: Pool, t: nat, a: nat, s': Pool, ptr: nat, took: bool)
    requires PoolOk(s) && t < NSIZES && KmallocAnswer(s, t, a, s', ptr, took)
    ensures took ==> a != 0
  {
    hide PoolOk;
  }

  lemma Refusal(s: Pool, t: nat, a: nat, s': Pool, took: bool)
    requires PoolOk(s) && t < NSIZES && KmallocAnswer(s, t, a, s', 0, took)
    ensures s' == s
  {
    hide Off, Count, Pop, AddPage;
    PoolLists(s, t);
    var k := FirstRoom(s, s.bySize[t]);
    if k < |s.bySize[t]| { assert s.bySize[t][k] in s.bySize[t]; PoolAddrPositive(s, s.bySize[t][k]); }
  }

  lemma {:induction false} OldBlocksSame(m: seq<nat>, m': seq<nat>, w: World, out: map<nat, nat>, page: nat, took: bool)
    requires PoolOk(w.pool) && Serves(w.pool, out) && PageOffered(w.pool, |m|, page) && AllAt(m, out, w.store, w.at) && |m'| == |m|
    requires forall x | 0 <= x < |m| && !(took && page <= x < page + PAGE) :: m'[x] == m[x]
    requires took ==> page != 0
    ensures forall id | id in w.store :: SameBlock(m, m', out, w.at[id])
  {
    hide PoolOk, Serves, SizeOf;
    forall id | id in w.store ensures SameBlock(m, m', out, w.at[id]) {
      assert At(m, out, w.store[id], w.at[id]);
      if took { LiveOffPage(w.pool, out, w.at[id], |m|, page); }
    }
  }

  lemma {:induction false} AllAtNew(m: seq<nat>, m': seq<nat>, out: map<nat, nat>, w: World, id: nat, t: nat, p: nat)
    requires AllAt(m, out, w.store, w.at) && id !in w.store && p !in out && t < NSIZES && p + SizeOf(t) <= |m'|
    requires forall j | j in w.store :: SameBlock(m, m', out, w.at[j])
    ensures AllAt(m', out[p := t], w.store[id := Buffer(t, map[])], w.at[id := p])
  {
    hide SameBlock, SizeOf;
    var w' := w.(store := w.store[id := Buffer(t, map[])], at := w.at[id := p]);
    forall j | j in w'.store ensures At(m', out[p := t], w'.store[j], w'.at[j]) {
      if j != id { assert At(m, out, w.store[j], w.at[j]); AtSame(m, m', out, out[p := t], w.store[j], w.at[j]); }
    }
    forall j | j in w.at ensures w.at[j] != p { assert At(m, out, w.store[j], w.at[j]); }
  }

  lemma {:induction false} AllAtSame(m: seq<nat>, m': seq<nat>, out: map<nat, nat>, w: World)
    requires AllAt(m, out, w.store, w.at) && forall j | j in w.store :: SameBlock(m, m', out, w.at[j])
    ensures AllAt(m', out, w.store, w.at)
  {
    hide SameBlock, At;
    forall j | j in w.store ensures At(m', out, w.store[j], w.at[j]) { InOut(m, out, w.store[j], w.at[j]); AtSame(m, m', out, out, w.store[j], w.at[j]); }
  }

  lemma InOut(m: seq<nat>, out: map<nat, nat>, b: Buffer, x: nat)
    requires At(m, out, b, x)
    ensures x in out && out[x] == b.kind < NSIZES
  {
  }

  method GiveBack(sp: Subpages, ghost w: World, ghost out: map<nat, nat>, ptrs: map<nat, nat>, id: nat)
      returns (ptrs': map<nat, nat>, ghost out': map<nat, nat>)
    requires Running(sp, w, out, ptrs) && id in w.store
    modifies sp`pool, sp`allbase, sp.mem, sp.pagerefs, sp.inuse, sp.sizebases
    ensures Running(sp, Act(w, sp.mem.Length, Drop(id)), out', ptrs')
  {
    hide PoolOk, Serves, AllAt, PagesHeld, ListsHeld, BitsHeld, KfreeAnswer, KfreeSpec, NotFreeTwice, InUse;
    ghost var m, s := sp.mem[..], sp.pool;
    BlockOf(m, out, w, id);
    DropIsFine(s, out, ptrs[id]);
    LiveInMemory(m, sp.pagerefs[..], s, out, ptrs[id]);
    var r := sp.Kfree(ptrs[id]);
    DropServes(s, ptrs[id], sp.pool, r.page, out);
    OthersSame(m, sp.mem[..], w, out, id);
    AllAtDrop(m, sp.mem[..], out, w, id);
    ptrs', out' := ptrs - {id}, out - {ptrs[id]};
  }

  lemma BlockOf(m: seq<nat>, out: map<nat, nat>, w: World, id: nat)
    requires AllAt(m, out, w.store, w.at) && id in w.store
    ensures id in w.at && w.at[id] in out && out[w.at[id]] == w.store[id].kind < NSIZES
    ensures forall j | j in w.store && j != id :: j in w.at && w.at[j] != w.at[id]
  {
    assert At(m, out, w.store[id], w.at[id]);
  }

  lemma {:induction false} OthersSame(m: seq<nat>, m': seq<nat>, w: World, out: map<nat, nat>, id: nat)
    requires PoolOk(w.pool) && Serves(w.pool, out) && AllAt(m, out, w.store, w.at) && id in w.store && |m'| == |m|
    requires w.at[id] in out && out[w.at[id]] < NSIZES
    requires forall p, x | p in w.pool.pages && w.pool.pages[p].kind < NSIZES && InPage(w.pool.pages[p], w.at[id])
                           && 0 <= x < |m| && !(w.at[id] <= x < w.at[id] + SizeOf(w.pool.pages[p].kind)) :: m'[x] == m[x]
    ensures forall j | j in w.store && j != id :: SameBlock(m, m', out, w.at[j])
  {
    hide PoolOk, SizeOf, Off, Count, InUse, Serves;
    var p, i := LiveBlock(w.pool, out, w.at[id]);
    BlockInPage(w.pool, p, i);
    SizePositive(w.pool.pages[p].kind);
    forall j | j in w.store && j != id ensures SameBlock(m, m', out, w.at[j]) {
      assert At(m, out, w.store[j], w.at[j]);
      LiveApart(w.pool, out, w.at[j], w.at[id]);
    }
  }

  lemma {:induction false} AllAtDrop(m: seq<nat>, m': seq<nat>, out: map<nat, nat>, w: World, id: nat)
    requires AllAt(m, out, w.store, w.at) && id in w.store && forall j | j in w.store && j != id :: SameBlock(m, m', out, w.at[j])
    ensures AllAt(m', out - {w.at[id]}, w.store - {id}, w.at - {id})
  {
    hide SameBlock, SizeOf;
    forall j | j in w.store && j != id ensures At(m', out - {w.at[id]}, w.store[j], w.at[j]) {
      assert At(m, out, w.store[j], w.at[j]);
      AtSame(m, m', out, out - {w.at[id]}, w.store[j], w.at[j]);
    }
  }

  lemma {:induction false} AllAtWrite(m: seq<nat>, out: map<nat, nat>, w: World, id: nat, i: nat, x: nat)
    requires PoolOk(w.pool) && Serves(w.pool, out) && AllAt(m, out, w.store, w.at) && id in w.store && w.store[id].kind < NSIZES
    requires i < SizeOf(w.store[id].kind) && w.at[id] + i < |m|
    ensures AllAt(m[w.at[id] + i := x], out, w.store[id := w.store[id].(written := w.store[id].written[i := x])], w.at)
  {
    hide PoolOk, SizeOf, Serves;
    var m', b := m[w.at[id] + i := x], w.store[id].(written := w.store[id].written[i := x]);
    var w' := w.(store := w.store[id := b]);
    forall j | j in w'.store ensures At(m', out, w'.store[j], w.at[j]) {
      assert At(m, out, w.store[j], w.at[j]);
      if j != id {
        assert At(m, out, w.store[id], w.at[id]);
        LiveApart(w.pool, out, w.at[j], w.at[id]);
        AtSame(m, m', out, out, w.store[j], w.at[j]);
      }
    }
  }

  // ------------------------------------------------------------ running a program

  method Exec(sp: Subpages, ghost w: World, ghost out: map<nat, nat>, ptrs: map<nat, nat>, op: Op)
      returns (ans: Answer, ptrs': map<nat, nat>, ghost out': map<nat, nat>)
    requires Running(sp, w, out, ptrs) && Sane(w.pool, sp.mem.Length, op) && Possible(w.store, op)
    modifies sp`pool, sp`allbase, sp.mem, sp.pagerefs, sp.inuse, sp.sizebases
    ensures Running(sp, Act(w, sp.mem.Length, op), out', ptrs') && ans == Reply(w, sp.mem.Length, op)
  {
    hide PoolOk, Serves, AllAt, PagesHeld, ListsHeld, BitsHeld, KmallocSpec, KfreeSpec, TypeFor, SizeOf;
    ans, ptrs', out' := Nothing, ptrs, out;
    match op
    case New(id, sz, page) => ans, ptrs', out' := Obtain(sp, w, out, ptrs, id, sz, page);
    case Write(id, i, x) =>
      ghost var m := sp.mem[..];
      BlockOf(m, out, w, id);
      LiveInMemory(m, sp.pagerefs[..], sp.pool, out, ptrs[id]);
      sp.mem[ptrs[id] + i] := x;
      assert sp.mem[..] == m[ptrs[id] + i := x];
      WriteKeepsPages(m, sp.pagerefs[..], sp.pool, out, ptrs[id], ptrs[id] + i, x);
      AllAtWrite(m, out, w, id, i, x);
    case Read(id, i) =>
      WrittenAt(sp.mem[..], out, w, id, i);
      ans := Value(sp.mem[ptrs[id] + i]);
    case Drop(id) => ptrs', out' := GiveBack(sp, w, out, ptrs, id);
  }

  lemma WrittenAt(m: seq<nat>, out: map<nat, nat>, w: World, id: nat, i: nat)
    requires AllAt(m, out, w.store, w.at) && id in w.store && i in w.store[id].written
    ensures id in w.at && w.at[id] + i < |m| && m[w.at[id] + i] == w.store[id].written[i]
  {
    hide SizeOf;
    assert At(m, out, w.store[id], w.at[id]);
  }

  /** The program's own record of its blocks and of what it wrote, from what it is told. */
  function Recorded(st: map<nat, Buffer>, op: Op, ans: Answer): map<nat, Buffer> {
    match op
    case New(id, sz, _) => if ans.Got? && sz <= 2048 then st[id := Buffer(TypeFor(sz), map[])] else st
    case Write(id, i, x) => if id in st then st[id := st[id].(written := st[id].written[i := x])] else st
    case Read(_, _) => st
    case Drop(id) => st - {id}
  }

  lemma RecordedIs(w: World, memory: nat, op: Op)
    requires PoolOk(w.pool) && Sane(w.pool, memory, op) && Possible(w.store, op)
    ensures Act(w, memory, op).store == Recorded(w.store, op, Reply(w, memory, op))
  {
    hide PoolOk, KmallocSpec, KfreeSpec, TypeFor;
  }

  lemma Skips(w: World, memory: nat, op: Op)
    requires PoolOk(w.pool) && Sane(w.pool, memory, op) && !Possible(w.store, op)
    ensures Act(w, memory, op) == w && Reply(w, memory, op) == Nothing
  {
    hide PoolOk, KmallocSpec, KfreeSpec, TypeFor;
  }

  /**
    Main result: run any program over kmalloc and kfree, beside whatever other blocks `out` are in use.
    All it is told is what the reference says: every granule it reads holds what it last wrote there.
   */
  method Run(sp: Subpages, ops: seq<Op>, ghost out: map<nat, nat>) returns (answers: seq<Answer>)
    requires sp.Valid() && Serves(sp.pool, out) && AllSane(World(sp.pool, map[], map[]), sp.mem.Length, ops)
    modifies sp`pool, sp`allbase, sp.mem, sp.pagerefs, sp.inuse, sp.sizebases
    ensures answers == Replies(World(old(sp.pool), map[], map[]), sp.mem.Length, ops)
    ensures sp.Valid() && sp.pool == Final(World(old(sp.pool), map[], map[]), sp.mem.Length, ops).pool
  {
    hide PoolOk, Serves, PagesHeld, ListsHeld, BitsHeld, Act, Reply, Sane, Possible, AllSane, Final, Replies;
    ghost var w, used := World(sp.pool, map[], map[]), out;
    ghost var w0 := w;
    var ptrs: map<nat, nat>, store: map<nat, Buffer> := map[], map[];
    answers := [];
    for k := 0 to |ops|
      invariant |answers| == k && Running(sp, w, used, ptrs) && store == w.store
      invariant AllSane(w, sp.mem.Length, ops[k..]) && Final(w0, sp.mem.Length, ops) == Final(w, sp.mem.Length, ops[k..])
      invariant Replies(w0, sp.mem.Length, ops) == answers + Replies(w, sp.mem.Length, ops[k..])
    {
      assert ops[k..][0] == ops[k] && ops[k..][1..] == ops[k + 1..];
      ghost var w1 := w;
      RunNext(w, sp.mem.Length, ops[k..]);
      var ans := Nothing;
      if Possible(store, ops[k]) {
        ans, ptrs, used := Exec(sp, w, used, ptrs, ops[k]);
        store := Recorded(store, ops[k], ans);
        RecordedIs(w, sp.mem.Length, ops[k]);
      } else {
        Skips(w, sp.mem.Length, ops[k]);
      }
      w := Act(w1, sp.mem.Length, ops[k]);
      answers := answers + [ans];
    }
    assert ops[|ops|..] == [];
    RunEnds(w, sp.mem.Length);
  }

  lemma RunNext(w: World, memory: nat, ops: seq<Op>)
    requires PoolOk(w.pool) && AllSane(w, memory, ops) && ops != []
    ensures Sane(w.pool, memory, ops[0]) && var w' := Act(w, memory, ops[0]);
            && PoolOk(w'.pool) && AllSane(w', memory, ops[1..])
            && Final(w, memory, ops) == Final(w', memory, ops[1..])
            && Replies(w, memory, ops) == [Reply(w, memory, ops[0])] + Replies(w', memory, ops[1..])
  {
    hide PoolOk, Act, Reply, Sane;
    ActKeepsPool(w, memory, ops[0]);
  }

  lemma RunEnds(w: World, memory: nat)
    requires PoolOk(w.pool)
    ensures AllSane(w, memory, []) && Final(w, memory, []) == w && Replies(w, memory, []) == []
  {
  }
}
