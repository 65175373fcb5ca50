/**
  The frame allocator of kern/vm/vm.c: a table with one entry per physical page, searched for
  runs of free entries.
 */
module Coremap {
  import opened Basics

  const PAGE_SIZE: int := 4096
  const KSEG0: int := 0x8000_0000
  const ENTRY_SIZE: int := 20  // sizeof(struct coremap_entry)

  datatype Entry = Entry(phyaddr: nat, taken: bool, npage: nat)

  /** The n frames from s on are all free. */
  ghost predicate FreeWindow(es: seq<Entry>, s: nat, n: nat) {
    s + n <= |es| && forall i | s <= i < s + n :: !es[i].taken
  }

  /** s starts the lowest window of n free frames. */
  ghost predicate LowestWindow(es: seq<Entry>, s: nat, n: nat) {
    FreeWindow(es, s, n) && forall r | 0 <= r < s :: !FreeWindow(es, r, n)
  }

  function CountFree(es: seq<Entry>): (r: nat)
    ensures r <= |es|
  {
    if es == [] then 0 else CountFree(es[..|es| - 1]) + (if es[|es| - 1].taken then 0 else 1)
  }

  /** es with the n frames from s on marked; the first remembers the length when they are taken. */
  function Mark(es: seq<Entry>, s: nat, n: nat, taken: bool): (r: seq<Entry>)
    requires s + n <= |es|
    ensures |r| == |es|
    ensures forall i | 0 <= i < |es| ::
              r[i] == if s <= i < s + n then es[i].(taken := taken, npage := if taken && i == s then n else es[i].npage)
                      else es[i]
  {
    seq(|es|, i requires 0 <= i < |es| =>
      if s <= i < s + n then es[i].(taken := taken, npage := if taken && i == s then n else es[i].npage) else es[i])
  }

  // ------------------------------------------------------------ counting

  lemma {:induction false} CountSame(es: seq<Entry>, fs: seq<Entry>)
    requires |es| == |fs| && forall i | 0 <= i < |es| :: es[i].taken == fs[i].taken
    ensures CountFree(es) == CountFree(fs)
  {
    if es != [] {
      var n := |es| - 1;
      assert forall i | 0 <= i < n :: es[..n][i] == es[i] && fs[..n][i] == fs[i];
      CountSame(es[..n], fs[..n]);
    }
  }

  /** Taking a window of n free frames lowers the count by n; freeing n taken ones raises it by n. */
  lemma {:induction false} CountMark(es: seq<Entry>, s: nat, n: nat, taken: bool)
    requires s + n <= |es| && forall i | s <= i < s + n :: es[i].taken == !taken
    ensures taken ==> CountFree(Mark(es, s, n, taken)) + n == CountFree(es)
    ensures !taken ==> CountFree(Mark(es, s, n, taken)) == CountFree(es) + n
  {
    hide Mark, CountFree;
    var m, k := Mark(es, s, n, taken), |es| - 1;
    if n == 0 {
      CountSame(es, m);
    } else {
      CountLast(es);
      CountLast(m);
      if s + n <= k {
        CountMark(es[..k], s, n, taken);
        assert m[..k] == Mark(es[..k], s, n, taken);
      } else {
        CountMark(es[..k], s, n - 1, taken);
        CountSame(m[..k], Mark(es[..k], s, n - 1, taken));
      }
    }
  }

  lemma CountLast(es: seq<Entry>)
    requires es != []
    ensures CountFree(es) == CountFree(es[..|es| - 1]) + (if es[|es| - 1].taken then 0 else 1)
  {
  }

  /** A window of n free frames needs n free frames. */
  lemma {:induction false} WindowCounts(es: seq<Entry>, s: nat, n: nat)
    requires FreeWindow(es, s, n)
    ensures n <= CountFree(es)
  {
    CountMark(es, s, n, true);
  }

  // ------------------------------------------------------------ live runs

  ghost predicate InRun(runs: map<nat, nat>, s: nat, i: nat) {
    s in runs && s <= i < s + runs[s]
  }

  /** The live runs (start to length) are disjoint and are exactly the frames marked taken. */
  ghost predicate CoreOk(es: seq<Entry>, runs: map<nat, nat>) {
    && (forall s | s in runs :: 1 <= runs[s] && s + runs[s] <= |es| && es[s].npage == runs[s])
    && (forall s, r, i | InRun(runs, s, i) && InRun(runs, r, i) :: s == r)
    && (forall i | 0 <= i < |es| :: es[i].taken <==> exists s :: InRun(runs, s, i))
  }

  lemma {:induction false} GrabKeeps(es: seq<Entry>, runs: map<nat, nat>, s: nat, n: nat)
    requires CoreOk(es, runs) && FreeWindow(es, s, n) && n >= 1
    ensures CoreOk(Mark(es, s, n, true), runs[s := n]) && s !in runs
  {
    hide Mark;
    var fs, rs := Mark(es, s, n, true), runs[s := n];
    assert !InRun(runs, s, s);
    forall r: nat, i: nat | InRun(runs, r, i) ensures !(s <= i < s + n) {
      assert es[i].taken;
    }
    assert forall r: nat, i: nat :: InRun(rs, r, i) <==> InRun(runs, r, i) || (r == s && s <= i < s + n);
    forall i | 0 <= i < |fs| ensures fs[i].taken <==> exists r :: InRun(rs, r, i) {
      if s <= i < s + n { assert InRun(rs, s, i); }
    }
    forall r: nat | r in rs ensures 1 <= rs[r] && r + rs[r] <= |fs| && fs[r].npage == rs[r] {
      if r != s { assert InRun(runs, r, r); }
    }
  }

  lemma {:induction false} DropKeeps(es: seq<Entry>, runs: map<nat, nat>, s: nat)
    requires CoreOk(es, runs) && s in runs
    ensures forall i | s <= i < s + runs[s] :: i < |es| && es[i].taken
    ensures CoreOk(Mark(es, s, runs[s], false), runs - {s})
  {
    hide Mark;
    var fs, rs := Mark(es, s, runs[s], false), runs - {s};
    forall i | s <= i < s + runs[s] ensures i < |es| && es[i].taken {
      assert InRun(runs, s, i);
    }
    assert forall r: nat, i: nat :: InRun(rs, r, i) <==> InRun(runs, r, i) && r != s;
    forall i | 0 <= i < |fs| ensures fs[i].taken <==> exists r :: InRun(rs, r, i) {
      if s <= i < s + runs[s] { assert InRun(runs, s, i); }
    }
    forall r: nat | r in rs ensures 1 <= rs[r] && r + rs[r] <= |fs| && fs[r].npage == rs[r] {
      assert r in runs;
    }
  }

  /** Freeing at once what getppages handed out restores every taken flag and every run. */
  lemma {:induction false} DropUndoesGrab(es: seq<Entry>, runs: map<nat, nat>, s: nat, n: nat)
    requires CoreOk(es, runs) && FreeWindow(es, s, n) && n >= 1
    ensures var back := Mark(Mark(es, s, n, true), s, n, false);
            && (forall i | 0 <= i < |es| :: back[i].taken == es[i].taken && back[i].phyaddr == es[i].phyaddr)
            && runs[s := n] - {s} == runs
  {
    hide Mark;
    GrabKeeps(es, runs, s, n);
  }

  class CoreMap {
    const entries: array<Entry>
    const base: nat     // physical address of the first frame
    const table: nat    // physical address of the coremap itself
    var pageleft: nat
    var spl: nat        // the processor's interrupt level
    ghost var runs: map<nat, nat>

    ghost predicate Valid()
      reads this, entries
    {
      && table < base
      && (forall i | 0 <= i < entries.Length :: entries[i].phyaddr == base + PAGE_SIZE * i)
      && CoreOk(entries[..], runs)
      && pageleft == CountFree(entries[..])
    }

    /** vm_bootstrap: every frame free. */
    constructor (pages: nat, table: nat, base: nat)
      requires table < base
      ensures Valid() && runs == map[] && pageleft == pages == entries.Length && spl == SPL_HIGH && fresh(entries)
      ensures this.base == base && this.table == table
    {
      entries := new Entry[pages](i requires 0 <= i => Entry(base + PAGE_SIZE * i, false, 0));
      this.base, this.table, pageleft, spl, runs := base, table, pages, SPL_HIGH, map[];
      new;
      AllFree(entries[..]);
    }

    /** The inner loop of getppages: walk back from frame i over the n free frames, marking them. */
    method TakeRun(i: nat, n: nat) returns (paddr: nat)
      requires Valid() && 1 <= n <= i + 1 <= entries.Length && FreeWindow(entries[..], i + 1 - n, n)
      modifies this`pageleft, this`runs, entries
      ensures Valid() && paddr == base + PAGE_SIZE * (i + 1 - n) > table
      ensures entries[..] == Mark(old(entries[..]), i + 1 - n, n, true) && runs == old(runs)[i + 1 - n := n]
    {
      hide Mark, CoreOk, CountFree;
      ghost var es := entries[..];
      var ptr := i;
      for j := 0 to n
        invariant ptr == if j == 0 then i else i + 1 - j
        invariant forall x | 0 <= x < entries.Length ::
                    entries[x] == if i + 1 - j <= x <= i then es[x].(taken := true) else es[x]
        modifies entries
      {
        if j > 0 { ptr := ptr - 1; }
        entries[ptr] := entries[ptr].(taken := true);
      }
      entries[ptr] := entries[ptr].(npage := n);
      paddr := entries[ptr].phyaddr;
      assert paddr > table;
      GrabKeeps(es, runs, ptr, n);
      CountMark(es, ptr, n, true);
      assert entries[..] == Mark(es, ptr, n, true);
      pageleft := pageleft - n;
      runs := runs[ptr := n];
    }

    /** free_kpages, for the start of a live run: look its frame up and free the run. */
    method FreeKpages(addr: nat, ghost s: nat)
      requires Valid() && s in runs && addr == KSEG0 + base + PAGE_SIZE * s
      modifies this, entries
      ensures Valid() && spl == old(spl)
      ensures runs == old(runs) - {s} && pageleft == old(pageleft) + old(runs)[s]
      ensures s + old(runs)[s] <= entries.Length
      ensures entries[..] == Mark(old(entries[..]), s, old(runs)[s], false)
    {
      hide Mark, CountFree, CoreOk;
      RunFacts(entries[..], runs, s);
      assert addr >= KSEG0;
      var interrupt := spl;
      spl := SPL_HIGH;
      ghost var es := entries[..];
      DropKeeps(es, runs, s);
      CountMark(es, s, runs[s], false);
      var ptr := 0;
      while entries[ptr].phyaddr + KSEG0 != addr
        invariant 0 <= ptr <= s
        decreases s - ptr
      {
        ptr := ptr + 1;
      }
      assert ptr == s;
      var npages := entries[ptr].npage;
      for i := 0 to npages
        invariant ptr == s + i && pageleft == old(pageleft) + i
        invariant forall x | 0 <= x < entries.Length :: entries[x] == if s <= x < s + i then es[x].(taken := false) else es[x]
        modifies entries, this`pageleft
      {
        entries[ptr] := entries[ptr].(taken := false);
        ptr := ptr + 1;
        pageleft := pageleft + 1;
      }
      assert entries[..] == Mark(es, s, npages, false);
      runs := runs - {s};
      spl := interrupt;
    }

    /**
      getppages: the lowest run of npages free frames, as a physical address, or 0.  The early
      return leaves interrupts off.
     */
    method GetPpages(npages: nat) returns (paddr: nat)
      requires Valid()
      modifies this, entries
      ensures Valid()
      ensures paddr == 0 ==> npages == 0 || forall s: nat :: !FreeWindow(old(entries[..]), s, npages)
      ensures paddr == 0 ==> entries[..] == old(entries[..]) && runs == old(runs)
      ensures paddr != 0 ==>
                npages >= 1 && exists s: nat ::
                  && LowestWindow(old(entries[..]), s, npages) && paddr == base + PAGE_SIZE * s
                  && entries[..] == Mark(old(entries[..]), s, npages, true) && runs == old(runs)[s := npages]
      ensures spl == if npages > old(pageleft) then SPL_HIGH else old(spl)
    {
      hide Mark, CoreOk, CountFree;
      ghost var es := entries[..];
      var interrupt := spl;
      spl := SPL_HIGH;
      if npages > pageleft {
        forall s: nat ensures !FreeWindow(es, s, npages) {
          if FreeWindow(es, s, npages) { WindowCounts(es, s, npages); }
        }
        return 0;
      }
      var count, i := 0, 0;
      while i < entries.Length
        invariant 0 <= i <= entries.Length && 0 <= count <= i && (npages > 0 ==> count < npages)
        invariant entries[..] == es && spl == SPL_HIGH && pageleft == old(pageleft) && runs == old(runs)
        invariant forall j | i - count <= j < i :: !es[j].taken
        invariant i > count ==> es[i - count - 1].taken
        invariant npages > 0 ==> forall s: nat | s + npages <= i :: !FreeWindow(es, s, npages)
      {
        if !entries[i].taken {
          count := count + 1;
          if count == npages {
            paddr := TakeRun(i, npages);
            spl := interrupt;
            return;
          }
        } else {
          count := 0;
        }
        i := i + 1;
        if npages > 0 { NoneSoFar(es, i, count, npages); }
      }
      spl := interrupt;
      paddr := 0;
    }
  }

  lemma RunFacts(es: seq<Entry>, runs: map<nat, nat>, s: nat)
    requires CoreOk(es, runs) && s in runs
    ensures 1 <= runs[s] && s + runs[s] <= |es| && es[s].npage == runs[s]
  {
  }

  lemma {:induction false} AllFree(es: seq<Entry>)
    requires forall i | 0 <= i < |es| :: !es[i].taken
    ensures CountFree(es) == |es|
  {
    if es != [] {
      assert forall i | 0 <= i < |es| - 1 :: es[..|es| - 1][i] == es[i];
      AllFree(es[..|es| - 1]);
    }
  }

  /** A window that ends at frame i would need more free frames than the current stretch has. */
  lemma NoneSoFar(es: seq<Entry>, i: nat, count: nat, n: nat)
    requires 0 < i <= |es| && count <= i && count < n
    requires i > count ==> es[i - count - 1].taken
    requires forall s: nat | s + n <= i - 1 :: !FreeWindow(es, s, n)
    ensures forall s: nat | s + n <= i :: !FreeWindow(es, s, n)
  {
    forall s: nat | s + n == i ensures !FreeWindow(es, s, n) {
      assert es[i - count - 1].taken;
    }
  }

  // ------------------------------------------------------------ where the frames lie

  /** The layout vm_bootstrap computes from the RAM it was given: the frame count and the first frame's address. */
  function BootFrames(lowest: nat, highest: nat): (r: int)
  {
    (highest - lowest) / PAGE_SIZE - 1
  }

  function BootBase(lowest: nat, highest: nat): (r: int)
  {
    (lowest + BootFrames(lowest, highest) * ENTRY_SIZE + ENTRY_SIZE) / PAGE_SIZE * PAGE_SIZE + PAGE_SIZE
  }

  /**
    Exact condition: the frames handed out all lie in RAM iff there are at most 204 pages of it.
    The frame count sets one page aside for the coremap, whose size grows with the RAM.
   */
  lemma FramesInRamIff(lowest: nat, highest: nat)
    requires lowest % PAGE_SIZE == 0 && highest % PAGE_SIZE == 0 && lowest + PAGE_SIZE <= highest
    ensures BootBase(lowest, highest) > lowest
    ensures BootBase(lowest, highest) + BootFrames(lowest, highest) * PAGE_SIZE <= highest
            <==> (highest - lowest) / PAGE_SIZE <= 204
  {
    var n, a := (highest - lowest) / PAGE_SIZE, lowest / PAGE_SIZE;
    assert lowest == PAGE_SIZE * a && highest == lowest + PAGE_SIZE * n;
    assert (lowest + n * ENTRY_SIZE) / PAGE_SIZE == a + n * ENTRY_SIZE / PAGE_SIZE;
  }
}
