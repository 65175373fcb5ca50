/**
  What every run of kmalloc and kfree below 2048 bytes keeps, and how the two undo each other.
 */
module SubpageRuns {
  import opened SubpagePool

  // ------------------------------------------------------------ one operation keeps the pool

  lemma {:induction false} PopKeeps(s: Pool, p: nat)
    requires PoolOk(s) && p in s.pages && s.pages[p].free != []
    ensures PoolOk(Pop(s, p))
  {
    hide Count;
    var g := s.pages[p];
    assert PageOk(g);
    var f := g.free[1..];
    assert forall i | 0 <= i < |f| :: f[i] == g.free[i + 1];
    assert forall x | x in f :: x in g.free;
    assert PageOk(g.(free := f));
  }

  /** A fresh page enters the pool with one block already handed out. */
  lemma {:induction false} AddKeeps(s: Pool, p: nat, addr: nat, t: nat)
    requires PoolOk(s) && p !in s.pages && p < NPAGEREFS && t < NSIZES
    requires addr > 0 && addr % PAGE == 0 && forall q | q in s.pages :: s.pages[q].addr != addr
    ensures PoolOk(Pop(AddPage(s, p, addr, t), p))
  {
    hide Count, PageOk;
    var r := Pop(AddPage(s, p, addr, t), p);
    assert PageOk(r.pages[p]) by { FreshTail(addr, t); }
    assert p !in s.all && p !in s.bySize[t];
    ConsNoDup(p, s.all);
    ConsNoDup(p, s.bySize[t]);
    forall u | 0 <= u < NSIZES
      ensures NoDup(r.bySize[u]) && forall q :: q in r.bySize[u] <==> q in r.pages && r.pages[q].kind == u
    {
      assert NoDup(s.bySize[u]);
    }
  }

  lemma FreshTail(addr: nat, t: nat)
    requires t < NSIZES && addr > 0 && addr % PAGE == 0
    ensures PageOk(Page(addr, t, Fresh(Count(t))[1..]))
  {
  }

  lemma ConsNoDup(p: nat, ps: seq<nat>)
    requires NoDup(ps) && p !in ps
    ensures NoDup([p] + ps)
  {
  }

  lemma {:induction false} RemoveKeeps(s: Pool, p: nat)
    requires PoolOk(s) && p in s.pages
    ensures PoolOk(RemovePage(s, p))
  {
    hide Count, PageOk;
    assert s.pages[p].kind < NSIZES by { PageKind(s, p); }
    var t, r := s.pages[p].kind, RemovePage(s, p);
    WithoutNoDup(s.all, p);
    WithoutNoDup(s.bySize[t], p);
    forall u | 0 <= u < NSIZES
      ensures NoDup(r.bySize[u]) && forall q :: q in r.bySize[u] <==> q in r.pages && r.pages[q].kind == u
    {
      assert NoDup(s.bySize[u]);
    }
  }

  lemma PageKind(s: Pool, p: nat)
    requires PoolOk(s) && p in s.pages
    ensures s.pages[p].kind < NSIZES == |s.bySize|
  {
  }

  lemma {:induction false} PushKeeps(s: Pool, p: nat, i: nat)
    requires PoolOk(s) && p in s.pages && s.pages[p].kind < NSIZES && i in InUse(s.pages[p])
    ensures PoolOk(Push(s, p, i))
  {
    hide Count;
    var g := s.pages[p];
    assert PageOk(g);
    if |g.free| + 1 == Count(g.kind) {
      RemoveKeeps(s, p);
    } else {
      ConsNoDup(i, g.free);
      assert PageOk(g.(free := [i] + g.free));
    }
  }

  // ------------------------------------------------------------ kfree undoes kmalloc

  /** Freeing at once a block that an existing page supplied restores the pool exactly. */
  lemma {:induction false} PushUndoesPop(s: Pool, p: nat)
    requires PoolOk(s) && p in s.pages && s.pages[p].kind < NSIZES && s.pages[p].free != []
    ensures Push(Pop(s, p), p, s.pages[p].free[0]) == s
  {
    hide Count;
    var g := s.pages[p];
    assert PageOk(g);
    assert [g.free[0]] + g.free[1..] == g.free;
  }

  /** So does freeing at once the block for which a page had to be added: the page goes again. */
  lemma {:induction false} PushUndoesAdd(s: Pool, p: nat, addr: nat, t: nat)
    requires PoolOk(s) && p !in s.pages && t < NSIZES
    ensures Push(Pop(AddPage(s, p, addr, t), p), p, Count(t) - 1) == s
  {
    hide Count;
    var r := Pop(AddPage(s, p, addr, t), p);
    assert p !in s.all && p !in s.bySize[t];
    assert r.pages - {p} == s.pages;
    assert ([p] + s.all)[1..] == s.all;
    assert ([p] + s.bySize[t])[1..] == s.bySize[t];
    assert Without([p] + s.all, p) == s.all;
    assert Without([p] + s.bySize[t], p) == s.bySize[t];
    assert r.bySize[t := s.bySize[t]] == s.bySize;
  }

  /** A page leaves the pool exactly when its last block in use is freed. */
  lemma {:induction false} ReleasedIffLast(s: Pool, p: nat, i: nat)
    requires PoolOk(s) && p in s.pages && s.pages[p].kind < NSIZES && i in InUse(s.pages[p])
    ensures p !in Push(s, p, i).pages <==> InUse(s.pages[p]) == {i}
  {
    hide Count;
    var g := s.pages[p];
    assert PageOk(g);
    FreePlusUsed(g);
    if |g.free| + 1 == Count(g.kind) {
      assert |InUse(g) - {i}| == 0;
    }
  }

  // ------------------------------------------------------------ pointers in use

  /** Block i of page p is handed out. */
  ghost predicate Used(s: Pool, p: nat, i: nat) {
    p in s.pages && s.pages[p].kind < NSIZES && i in InUse(s.pages[p])
  }

  function Ptr(s: Pool, p: nat, i: nat): nat
    requires p in s.pages && s.pages[p].kind < NSIZES
  {
    s.pages[p].addr + Off(s.pages[p].kind, i)
  }

  lemma SplitAddress(a: nat, x: nat, b: nat, y: nat)
    requires a % PAGE == 0 && b % PAGE == 0 && x < PAGE && y < PAGE && a + x == b + y
    ensures a == b && x == y
  {
    assert a == PAGE * (a / PAGE) && b == PAGE * (b / PAGE);
  }

  /** A pointer determines its page and its block: live blocks never share an address. */
  lemma {:induction false} PtrInjective(s: Pool, p: nat, i: nat, q: nat, j: nat)
    requires PoolOk(s) && Used(s, p, i) && Used(s, q, j) && Ptr(s, p, i) == Ptr(s, q, j)
    ensures p == q && i == j
  {
    hide Off, Count;
    var g, h := s.pages[p], s.pages[q];
    assert PageOk(g) && PageOk(h);
    SplitAddress(g.addr, Off(g.kind, i), h.addr, Off(h.kind, j));
  }

  lemma {:induction false} UsedPop(s: Pool, p: nat)
    requires PoolOk(s) && p in s.pages && s.pages[p].kind < NSIZES && s.pages[p].free != []
    ensures forall q, j :: Used(Pop(s, p), q, j) <==> Used(s, q, j) || (q == p && j == s.pages[p].free[0])
    ensures !Used(s, p, s.pages[p].free[0]) && s.pages[p].free[0] < Count(s.pages[p].kind)
  {
    hide Count;
    var g, r := s.pages[p], Pop(s, p);
    assert PageOk(g);
    var f := g.free[1..];
    assert g.free == [g.free[0]] + f;
    assert g.free[0] !in f;
    assert forall x :: x in g.free <==> x == g.free[0] || x in f;
    assert forall j :: j in InUse(r.pages[p]) <==> j in InUse(g) || j == g.free[0];
  }

  lemma {:induction false} UsedAdd(s: Pool, p: nat, addr: nat, t: nat)
    requires |s.bySize| == NSIZES && p !in s.pages && t < NSIZES
    ensures var r := Pop(AddPage(s, p, addr, t), p);
            forall q, j :: Used(r, q, j) <==> Used(s, q, j) || (q == p && j == Count(t) - 1)
  {
    hide Count;
    var f := Fresh(Count(t));
    var r := Pop(AddPage(s, p, addr, t), p);
    forall j | 0 <= j < Count(t) - 1 ensures j in f[1..] {
      assert f[1..][Count(t) - 2 - j] == j;
    }
    assert forall j :: j in InUse(r.pages[p]) <==> j == Count(t) - 1;
  }

  lemma {:induction false} UsedPush(s: Pool, p: nat, i: nat)
    requires PoolOk(s) && p in s.pages && s.pages[p].kind < NSIZES && i in InUse(s.pages[p])
    ensures forall q, j :: Used(Push(s, p, i), q, j) <==> Used(s, q, j) && !(q == p && j == i)
  {
    hide Count;
    var g, r := s.pages[p], Push(s, p, i);
    ReleasedIffLast(s, p, i);
    if p in r.pages {
      assert forall j :: j in InUse(r.pages[p]) <==> j in InUse(g) && j != i;
    }
  }

  // ------------------------------------------------------------ every run

  /** What the kernel sees: a block of type t at x, no block, or the block at x given back. */
  datatype Event = Alloced(t: nat, x: nat) | Refused(t: nat) | Freed(x: nat)

  /** One call.  A page is added only when no page of the type has room; p and a are the pageref and page obtained. */
  ghost predicate Step(s: Pool, e: Event, s': Pool)
    requires PoolOk(s)
  {
    match e
    case Alloced(t, x) =>
      && t < NSIZES
      && if FirstRoom(s, s.bySize[t]) < |s.bySize[t]| then
           var p := s.bySize[t][FirstRoom(s, s.bySize[t])];
           s' == Pop(s, p) && x == Ptr(s, p, s.pages[p].free[0])
         else
           exists p, a :: AddStep(s, t, x, s', p, a)
    case Refused(t) => t < NSIZES && s' == s && FirstRoom(s, s.bySize[t]) == |s.bySize[t]|
    case Freed(x) => exists p, i :: Used(s, p, i) && x == Ptr(s, p, i) && s' == Push(s, p, i)
  }

  ghost predicate AddStep(s: Pool, t: nat, x: nat, s': Pool, p: nat, a: nat) {
    && t < NSIZES == |s.bySize| && p !in s.pages && p < NPAGEREFS
    && a > 0 && a % PAGE == 0 && (forall q | q in s.pages :: s.pages[q].addr != a)
    && s' == Pop(AddPage(s, p, a, t), p) && x == a + Off(t, Count(t) - 1)
  }

  /** The blocks outstanding, with their types, from the caller's side alone. */
  function Outstanding(es: seq<Event>): (r: map<nat, nat>)
  {
    if es == [] then map[]
    else
      var m := Outstanding(es[..|es| - 1]);
      match es[|es| - 1]
      case Alloced(t, x) => m[x := t]
      case Refused(_) => m
      case Freed(x) => m - {x}
  }

  ghost predicate Serves(s: Pool, m: map<nat, nat>) {
    && (forall p, i | Used(s, p, i) :: Ptr(s, p, i) in m && m[Ptr(s, p, i)] == s.pages[p].kind)
    && (forall x | x in m :: exists p, i :: Used(s, p, i) && Ptr(s, p, i) == x)
  }

  /** Handing out one more block (p, i) serves one more request. */
  lemma {:induction false} ServesAdd(s: Pool, s': Pool, m: map<nat, nat>, p: nat, i: nat)
    requires PoolOk(s') && Serves(s, m) && Used(s', p, i)
    requires forall q, j :: Used(s', q, j) <==> Used(s, q, j) || (q == p && j == i)
    requires !Used(s, p, i)
    requires forall q | q in s.pages :: q in s'.pages && s'.pages[q].addr == s.pages[q].addr && s'.pages[q].kind == s.pages[q].kind
    ensures Serves(s', m[Ptr(s', p, i) := s'.pages[p].kind])
  {
    hide Off, Count, InUse, PoolOk;
    var x, m' := Ptr(s', p, i), m[Ptr(s', p, i) := s'.pages[p].kind];
    forall q, j | Used(s', q, j) ensures Ptr(s', q, j) in m' && m'[Ptr(s', q, j)] == s'.pages[q].kind {
      if q != p || j != i {
        assert Used(s, q, j);
        if Ptr(s', q, j) == x { PtrInjective(s', q, j, p, i); }
      }
    }
    forall y | y in m' ensures exists q, j :: Used(s', q, j) && Ptr(s', q, j) == y {
      if y != x {
        var q, j :| Used(s, q, j) && Ptr(s, q, j) == y;
        assert Used(s', q, j) && Ptr(s', q, j) == y;
      }
    }
  }

  lemma {:induction false} ServesRemove(s: Pool, s': Pool, m: map<nat, nat>, p: nat, i: nat)
    requires PoolOk(s) && Serves(s, m) && Used(s, p, i)
    requires forall q, j :: Used(s', q, j) <==> Used(s, q, j) && !(q == p && j == i)
    requires forall q | q in s'.pages :: q in s.pages && s'.pages[q].addr == s.pages[q].addr && s'.pages[q].kind == s.pages[q].kind
    ensures Serves(s', m - {Ptr(s, p, i)})
  {
    hide Off, Count, InUse, PoolOk;
    var x, m' := Ptr(s, p, i), m - {Ptr(s, p, i)};
    forall q, j | Used(s', q, j) ensures Ptr(s', q, j) in m' && m'[Ptr(s', q, j)] == s'.pages[q].kind {
      assert Used(s, q, j);
      if Ptr(s, q, j) == x { PtrInjective(s, q, j, p, i); }
    }
    forall y | y in m' ensures exists q, j :: Used(s', q, j) && Ptr(s', q, j) == y {
      var q, j :| Used(s, q, j) && Ptr(s, q, j) == y;
      assert Used(s', q, j);
    }
  }

  lemma {:induction false} PopStepKeeps(s: Pool, p: nat, m: map<nat, nat>)
    requires PoolOk(s) && Serves(s, m) && p in s.pages && s.pages[p].kind < NSIZES && s.pages[p].free != []
    ensures PoolOk(Pop(s, p)) && Serves(Pop(s, p), m[Ptr(s, p, s.pages[p].free[0]) := s.pages[p].kind])
  {
    hide Off, Count, InUse, PoolOk, Serves;
    PopKeeps(s, p);
    UsedPop(s, p);
    ServesAdd(s, Pop(s, p), m, p, s.pages[p].free[0]);
  }

  lemma {:induction false} AddStepKeeps(s: Pool, t: nat, x: nat, s': Pool, m: map<nat, nat>, p: nat, a: nat)
    requires PoolOk(s) && Serves(s, m) && AddStep(s, t, x, s', p, a)
    ensures PoolOk(s') && Serves(s', m[x := t])
  {
    hide Off, Count, InUse, PoolOk, Serves;
    AddKeeps(s, p, a, t);
    UsedAdd(s, p, a, t);
    ServesAdd(s, s', m, p, Count(t) - 1);
  }

  lemma {:induction false} AllocStepKeeps(s: Pool, t: nat, x: nat, s': Pool, m: map<nat, nat>)
    requires PoolOk(s) && Serves(s, m) && Step(s, Alloced(t, x), s')
    ensures PoolOk(s') && Serves(s', m[x := t])
  {
    hide Off, Count, InUse, PageOk, Serves;
    var k := FirstRoom(s, s.bySize[t]);
    if k < |s.bySize[t]| {
      var p := s.bySize[t][k];
      assert p in s.bySize[t];
      PopStepKeeps(s, p, m);
    } else {
      var p, a :| AddStep(s, t, x, s', p, a);
      AddStepKeeps(s, t, x, s', m, p, a);
    }
  }

  lemma {:induction false} FreeStepKeeps(s: Pool, x: nat, s': Pool, m: map<nat, nat>)
    requires PoolOk(s) && Serves(s, m) && Step(s, Freed(x), s')
    ensures PoolOk(s') && Serves(s', m - {x})
  {
    hide Off, Count, InUse, PageOk;
    var p, i :| Used(s, p, i) && x == Ptr(s, p, i) && s' == Push(s, p, i);
    PushKeeps(s, p, i);
    UsedPush(s, p, i);
    ServesRemove(s, s', m, p, i);
  }

  ghost predicate IsRun(ss: seq<Pool>, es: seq<Event>) {
    && |ss| == |es| + 1
    && ss[0] == EMPTY
    && forall i | 0 <= i < |es| && PoolOk(ss[i]) :: Step(ss[i], es[i], ss[i + 1])
  }

  /**
    Main result: in every run of kmalloc and kfree below 2048 bytes each page's freelist is
    acyclic and block-aligned with one block at least in use, the lists by size and the list of
    all pages hold the same pagerefs once each, and the blocks in use are exactly the
    outstanding ones.
   */
  lemma {:induction false} EveryRunKeepsPool(ss: seq<Pool>, es: seq<Event>)
    requires IsRun(ss, es)
    ensures PoolOk(ss[|es|]) && Serves(ss[|es|], Outstanding(es))
  {
    if es != [] {
      var n := |es| - 1;
      EveryRunKeepsPool(ss[..n + 1], es[..n]);
      assert Step(ss[n], es[n], ss[n + 1]);
      match es[n]
      case Alloced(t, x) => AllocStepKeeps(ss[n], t, x, ss[n + 1], Outstanding(es[..n]));
      case Refused(_) =>
      case Freed(x) => FreeStepKeeps(ss[n], x, ss[n + 1], Outstanding(es[..n]));
    }
  }
}
