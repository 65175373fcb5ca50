/**
  Programs that run to their end: what a program demands of the frames and of the TLB, read off
  its operations alone, and that with so much to hand no operation of it fails.
 */
module VmProgress {
  import opened Basics
  import opened Coremap
  import opened PageTables
  import opened Frames
  import opened Vm
  import opened VmRuns

  // ------------------------------------------------------------ demand, from the program alone

  /**
    The pages each space has touched and the frames it has been given, the current space, and
    the pages touched since the last switch.
   */
  datatype Usage = Usage(pages: map<nat, set<nat>>, frames: map<nat, nat>, cur: Option<nat>, seen: set<nat>)

  function PagesOf(u: Usage, a: nat): set<nat> { if a in u.pages then u.pages[a] else {} }
  function FramesOf(u: Usage, a: nat): nat { if a in u.frames then u.frames[a] else 0 }

  /** The first touch of a page takes a frame, and the first touch of its table four more. */
  ghost function TouchCost(ps: set<nat>, v: nat): nat {
    (if v in ps then 0 else 1) + (if exists w :: w in ps && w / LEAF == v / LEAF then 0 else TABLE_FRAMES)
  }

  ghost function Cost(u: Usage, op: Op): nat {
    match op
    case DoLoad(addr) => if u.cur.Some? then TouchCost(PagesOf(u, u.cur.value), addr / PAGE_SIZE) else 0
    case DoStore(addr, _) => if u.cur.Some? then TouchCost(PagesOf(u, u.cur.value), addr / PAGE_SIZE) else 0
    case DoSwitch(_) => 0
    case DoCreate(_) => SPACE_FRAMES
    case DoFork(a, _) => FramesOf(u, a)
    case DoDestroy(_) => 0
  }

  ghost function Touched(u: Usage, v: nat): Usage {
    if u.cur.None? then u
    else
      var a := u.cur.value;
      u.(pages := u.pages[a := PagesOf(u, a) + {v}], frames := u.frames[a := FramesOf(u, a) + TouchCost(PagesOf(u, a), v)],
         seen := u.seen + {v})
  }

  ghost function After(u: Usage, op: Op): Usage {
    match op
    case DoLoad(addr) => Touched(u, addr / PAGE_SIZE)
    case DoStore(addr, _) => Touched(u, addr / PAGE_SIZE)
    case DoSwitch(next) => u.(cur := next, seen := if next.Some? then {} else u.seen)
    case DoCreate(b) => u.(pages := u.pages[b := {}], frames := u.frames[b := SPACE_FRAMES])
    case DoFork(a, b) => u.(pages := u.pages[b := PagesOf(u, a)], frames := u.frames[b := FramesOf(u, a)])
    case DoDestroy(a) => u.(pages := u.pages - {a}, frames := u.frames - {a})
  }

  ghost function UsageEnd(u: Usage, ops: seq<Op>): Usage {
    if ops == [] then u else After(UsageEnd(u, ops[..|ops| - 1]), ops[|ops| - 1])
  }

  /** All the frames the program asks for. */
  ghost function Total(u: Usage, ops: seq<Op>): nat {
    if ops == [] then 0
    else var n := |ops| - 1; Total(u, ops[..n]) + Cost(UsageEnd(u, ops[..n]), ops[n])
  }

  /** At most 64 distinct pages are touched between two switches, and address 0 never. */
  ghost predicate FewPages(u: Usage, ops: seq<Op>) {
    ops == [] || (var n := |ops| - 1;
                  FewPages(u, ops[..n]) && |UsageEnd(u, ops).seen| <= NUM_TLB && Nonzero(ops[n]))
  }

  predicate Nonzero(op: Op) { (op.DoLoad? || op.DoStore?) ==> op.addr != 0 }

  // ------------------------------------------------------------ sums of demands

  lemma {:induction false} PageSumSet(sp: Space, sp': Space, i: nat, j: nat, x: nat)
    requires i in sp.tables && i in sp'.tables && x < LEAF && x !in sp.tables[i].entry
    requires sp'.tables[i].entry.Keys == sp.tables[i].entry.Keys + {x}
    ensures Sum(PageDemands(sp', i, j)) == Sum(PageDemands(sp, i, j)) + if j <= x then 1 else 0
    decreases LEAF - j
  {
    if j < LEAF {
      PageSumSet(sp, sp', i, j + 1, x);
      SumAppend(if j in sp.tables[i].entry then [1] else [], PageDemands(sp, i, j + 1));
      SumAppend(if j in sp'.tables[i].entry then [1] else [], PageDemands(sp', i, j + 1));
    }
  }

  lemma {:induction false} PageSumSame(sp: Space, sp': Space, i: nat, j: nat)
    requires i in sp.tables && i in sp'.tables && sp'.tables[i].entry.Keys == sp.tables[i].entry.Keys
    ensures PageDemands(sp', i, j) == PageDemands(sp, i, j)
    decreases LEAF - j
  {
    if j < LEAF { PageSumSame(sp, sp', i, j + 1); }
  }

  lemma {:induction false} PageSumNone(sp: Space, i: nat, j: nat)
    requires i in sp.tables && sp.tables[i].entry == map[]
    ensures PageDemands(sp, i, j) == []
    decreases LEAF - j
  {
    if j < LEAF { PageSumNone(sp, i, j + 1); }
  }

  /** What table i asks for. */
  function OneTable(sp: Space, i: nat): seq<nat> {
    if i in sp.tables then [TABLE_FRAMES] + PageDemands(sp, i, 0) else []
  }

  /** If only table k changes, the total changes by what it asks for. */
  lemma {:induction false} TableSum(sp: Space, sp': Space, i: nat, k: nat)
    requires k < DIR && forall t | t != k :: OneTable(sp', t) == OneTable(sp, t)
    ensures Sum(TableDemands(sp', i)) - Sum(TableDemands(sp, i)) ==
            if i <= k then Sum(OneTable(sp', k)) - Sum(OneTable(sp, k)) else 0
    decreases DIR - i
  {
    hide OneTable;
    if i < DIR {
      TableSum(sp, sp', i + 1, k);
      NextDemands(sp, i);
      NextDemands(sp', i);
      SumAppend(OneTable(sp, i), TableDemands(sp, i + 1));
      SumAppend(OneTable(sp', i), TableDemands(sp', i + 1));
    }
  }

  lemma NextDemands(sp: Space, i: nat)
    requires i < DIR
    ensures TableDemands(sp, i) == OneTable(sp, i) + TableDemands(sp, i + 1)
  {
  }

  /** The frames a copy of sp takes: as many as sp has. */
  function Size(sp: Space): nat { Sum(Demands(sp)) }

  lemma SizeIs(sp: Space)
    ensures Size(sp) == SPACE_FRAMES + Sum(TableDemands(sp, 0))
  {
    hide TableDemands;
    assert Demands(sp)[1..] == TableDemands(sp, 0);
  }

  lemma {:induction false} SizeNewTable(sp: Space, i: nat, f: nat)
    requires i < DIR && i !in sp.tables
    ensures Size(NewTable(sp, i, f)) == Size(sp) + TABLE_FRAMES
  {
    hide Size, TableDemands, PageDemands;
    var sp' := NewTable(sp, i, f);
    forall t | t != i ensures OneTable(sp', t) == OneTable(sp, t) {
      if t in sp.tables { PageSumSame(sp, sp', t, 0); }
    }
    PageSumNone(sp', i, 0);
    assert OneTable(sp', i) == [TABLE_FRAMES];
    TableSum(sp, sp', 0, i);
    SizeIs(sp);
    SizeIs(sp');
  }

  lemma {:induction false} SizeSetEntry(sp: Space, i: nat, j: nat, f: nat)
    requires i < DIR && j < LEAF && i in sp.tables && j !in sp.tables[i].entry
    ensures Size(SetEntry(sp, i, j, f)) == Size(sp) + 1
  {
    hide Size, TableDemands, PageDemands;
    var sp' := SetEntry(sp, i, j, f);
    forall t | t != i ensures OneTable(sp', t) == OneTable(sp, t) {
      if t in sp.tables { PageSumSame(sp, sp', t, 0); }
    }
    PageSumSet(sp, sp', i, 0, j);
    SumAppend([TABLE_FRAMES], PageDemands(sp, i, 0));
    SumAppend([TABLE_FRAMES], PageDemands(sp', i, 0));
    TableSum(sp, sp', 0, i);
    SizeIs(sp);
    SizeIs(sp');
  }

  lemma {:induction false} SameDemands(sp: Space, sp': Space, i: nat)
    requires sp'.tables.Keys == sp.tables.Keys
    requires forall t | t in sp.tables :: sp'.tables[t].entry.Keys == sp.tables[t].entry.Keys
    ensures TableDemands(sp', i) == TableDemands(sp, i)
    decreases DIR - i
  {
    if i < DIR {
      SameDemands(sp, sp', i + 1);
      if i in sp.tables { PageSumSame(sp, sp', i, 0); }
    }
  }

  // ------------------------------------------------------------ a space and what is recorded of it

  /** Space sp has the pages ps, no empty table, and n frames. */
  ghost predicate SpaceUses(sp: Space, ps: set<nat>, n: nat) {
    && ShapeOk(sp) && (forall v: nat :: v in ps <==> Mapped(sp, v))
    && (forall i | i in sp.tables :: exists v: nat :: v in ps && v / LEAF == i)
    && Size(sp) == n
  }

  lemma FreshUses(f: nat)
    ensures SpaceUses(Space(f, map[]), {}, SPACE_FRAMES)
  {
    var sp := Space(f, map[]);
    SizeIs(sp);
    NoTables(sp, 0);
  }

  lemma {:induction false} NoTables(sp: Space, i: nat)
    requires sp.tables == map[]
    ensures TableDemands(sp, i) == []
    decreases DIR - i
  {
    if i < DIR { NoTables(sp, i + 1); }
  }

  lemma TableTouched(sp: Space, ps: set<nat>, n: nat, v: nat)
    requires SpaceUses(sp, ps, n)
    ensures v / LEAF in sp.tables <==> exists w :: w in ps && w / LEAF == v / LEAF
  {
    if v / LEAF in sp.tables { var w: nat :| w in ps && w / LEAF == v / LEAF; }
  }

  /** A touch with frames to spare succeeds, and takes what it costs. */
  lemma {:induction false} TouchWorks(sp: Space, ps: set<nat>, n: nat, runs: Runs, frames: nat, h: nat, v: nat)
    requires SpaceUses(sp, ps, n) && v < PAGES && Below(runs, h) && h + TouchCost(ps, v) <= frames
    ensures Touch(sp, runs, frames, v).Some?
    ensures var t := Touch(sp, runs, frames, v).value;
            SpaceUses(t.0, ps + {v}, n + TouchCost(ps, v)) && Below(t.1, h + TouchCost(ps, v))
            && forall w: nat :: Mapped(sp, w) ==> Mapped(t.0, w) && Frame(t.0, w) == Frame(sp, w)
  {
    hide Size, Lowest, Below;
    TableTouched(sp, ps, n, v);
    if v / LEAF in sp.tables {
      if v in ps {
        assert ps + {v} == ps;
      } else {
        GrabOne(runs, frames, h, 1);
        EntryUses(sp, ps, n, v, Lowest(runs, frames, 1).value);
      }
    } else {
      assert v !in ps;
      GrabOne(runs, frames, h, TABLE_FRAMES);
      var f := Lowest(runs, frames, TABLE_FRAMES).value;
      GrabOne(runs[f := TABLE_FRAMES], frames, h + TABLE_FRAMES, 1);
      NewTableUses(sp, ps, n, v, f, Lowest(runs[f := TABLE_FRAMES], frames, 1).value);
    }
  }

  lemma {:induction false} EntryUses(sp: Space, ps: set<nat>, n: nat, v: nat, f: nat)
    requires SpaceUses(sp, ps, n) && v < PAGES && v / LEAF in sp.tables && v !in ps
    ensures var sp' := SetEntry(sp, v / LEAF, v % LEAF, f);
            SpaceUses(sp', ps + {v}, n + 1) && forall w: nat :: Mapped(sp, w) ==> Mapped(sp', w) && Frame(sp', w) == Frame(sp, w)
  {
    hide Size;
    var sp' := SetEntry(sp, v / LEAF, v % LEAF, f);
    SizeSetEntry(sp, v / LEAF, v % LEAF, f);
    forall w: nat ensures w in ps + {v} <==> Mapped(sp', w) { if w != v { PageIndex(w, v); } }
    forall w: nat | Mapped(sp, w) ensures Mapped(sp', w) && Frame(sp', w) == Frame(sp, w) { PageIndex(w, v); }
    forall i | i in sp'.tables ensures exists w: nat :: w in ps + {v} && w / LEAF == i {
      var w: nat :| w in ps && w / LEAF == i;
      assert w in ps + {v};
    }
  }

  lemma {:induction false} NewTableUses(sp: Space, ps: set<nat>, n: nat, v: nat, f: nat, g: nat)
    requires SpaceUses(sp, ps, n) && v < PAGES && v / LEAF !in sp.tables && v !in ps
    ensures var sp' := SetEntry(NewTable(sp, v / LEAF, f), v / LEAF, v % LEAF, g);
            && SpaceUses(sp', ps + {v}, n + TABLE_FRAMES + 1)
            && forall w: nat :: Mapped(sp, w) ==> Mapped(sp', w) && Frame(sp', w) == Frame(sp, w)
  {
    hide Size;
    var sp1 := NewTable(sp, v / LEAF, f);
    var sp' := SetEntry(sp1, v / LEAF, v % LEAF, g);
    SizeNewTable(sp, v / LEAF, f);
    SizeSetEntry(sp1, v / LEAF, v % LEAF, g);
    forall w: nat ensures w in ps + {v} <==> Mapped(sp', w) { if w != v { PageIndex(w, v); } }
    forall i | i in sp'.tables ensures exists w: nat :: w in ps + {v} && w / LEAF == i {
      if i == v / LEAF { assert v in ps + {v}; } else { var w: nat :| w in ps && w / LEAF == i; assert w in ps + {v}; }
    }
  }

  // ------------------------------------------------------------ a copy has the pages of the original

  lemma {:induction false} PagesCopied(sp: Space, nb: Space, runs: Runs, frames: nat, i: nat, j: nat)
    requires i in sp.tables && i in nb.tables && CopyPages(sp, nb, runs, frames, i, j).Some?
    ensures var nb' := CopyPages(sp, nb, runs, frames, i, j).value.0;
            && nb'.tables.Keys == nb.tables.Keys
            && (forall k | k in nb.tables && k != i :: nb'.tables[k] == nb.tables[k])
            && forall x: nat :: x in nb'.tables[i].entry <==>
                                x in nb.tables[i].entry || (j <= x < LEAF && x in sp.tables[i].entry)
    decreases LEAF - j
  {
    hide Lowest;
    if j < LEAF {
      if j !in sp.tables[i].entry {
        PagesCopied(sp, nb, runs, frames, i, j + 1);
      } else {
        var f := Lowest(runs, frames, 1).value;
        PagesCopied(sp, SetEntry(nb, i, j, f), runs[f := 1], frames, i, j + 1);
      }
    }
  }

  /** Tables below i of nb are copies of those of sp. */
  ghost predicate CopiedBelow(sp: Space, nb: Space, i: nat) {
    && (forall k: nat :: k in nb.tables <==> k < i && k in sp.tables)
    && (forall k, x: nat | k in nb.tables :: x in nb.tables[k].entry <==> x in sp.tables[k].entry)
  }

  lemma {:induction false} TableCopied(sp: Space, nb: Space, runs: Runs, frames: nat, i: nat)
    requires ShapeOk(sp) && CopiedBelow(sp, nb, i) && i < DIR && CopyOneTable(sp, nb, runs, frames, i).Some?
    ensures CopiedBelow(sp, CopyOneTable(sp, nb, runs, frames, i).value.0, i + 1)
  {
    hide Lowest, CopyPages;
    if i in sp.tables {
      var f := Lowest(runs, frames, TABLE_FRAMES).value;
      PagesCopied(sp, NewTable(nb, i, f), runs[f := TABLE_FRAMES], frames, i, 0);
    }
  }

  lemma {:induction false} TablesCopied(sp: Space, nb: Space, runs: Runs, frames: nat, i: nat)
    requires ShapeOk(sp) && CopiedBelow(sp, nb, i) && i <= DIR && CopyTables(sp, nb, runs, frames, i).Some?
    ensures CopiedBelow(sp, CopyTables(sp, nb, runs, frames, i).value.0, DIR)
    decreases DIR - i
  {
    hide CopyOneTable, CopiedBelow, ShapeOk;
    if i < DIR {
      TableCopied(sp, nb, runs, frames, i);
      var t := CopyOneTable(sp, nb, runs, frames, i).value;
      TablesCopied(sp, t.0, t.1, frames, i + 1);
    }
  }

  lemma {:induction false} CopyWorks(sp: Space, ps: set<nat>, n: nat, runs: Runs, frames: nat, h: nat)
    requires SpaceUses(sp, ps, n) && Below(runs, h) && h + n <= frames
    ensures CopySpace(sp, runs, frames).Some?
    ensures var t := CopySpace(sp, runs, frames).value; SpaceUses(t.0, ps, n) && Below(t.1, h + n)
  {
    hide Lowest, CopyTables, GrabAll, Below, Demands;
    CopyIsGrab(sp, runs, frames);
    GrabBelow(runs, frames, h, Demands(sp));
    var f := Lowest(runs, frames, SPACE_FRAMES).value;
    TablesCopied(sp, Space(f, map[]), runs[f := SPACE_FRAMES], frames, 0);
    CopyUses(sp, CopySpace(sp, runs, frames).value.0, ps, n);
  }

  lemma {:induction false} CopyUses(sp: Space, nb: Space, ps: set<nat>, n: nat)
    requires SpaceUses(sp, ps, n) && CopiedBelow(sp, nb, DIR)
    ensures SpaceUses(nb, ps, n)
  {
    hide TableDemands;
    assert nb.tables.Keys == sp.tables.Keys;
    assert forall t | t in sp.tables :: nb.tables[t].entry.Keys == sp.tables[t].entry.Keys;
    SameDemands(sp, nb, 0);
    SizeIs(sp);
    SizeIs(nb);
  }

  // ------------------------------------------------------------ the TLB

  function CountValid(tlb: seq<Slot>): nat {
    if tlb == [] then 0 else CountValid(tlb[..|tlb| - 1]) + if tlb[|tlb| - 1].valid then 1 else 0
  }

  lemma {:induction false} AllValidCount(tlb: seq<Slot>)
    requires forall i | 0 <= i < |tlb| :: tlb[i].valid
    ensures CountValid(tlb) == |tlb|
  {
    if tlb != [] {
      var n := |tlb| - 1;
      assert forall i | 0 <= i < n :: tlb[..n][i] == tlb[i];
      AllValidCount(tlb[..n]);
    }
  }

  lemma {:induction false} FillCount(tlb: seq<Slot>, i: nat, e: Slot)
    requires i < |tlb| && !tlb[i].valid && e.valid
    ensures CountValid(tlb[i := e]) == CountValid(tlb) + 1
  {
    var n := |tlb| - 1;
    if i == n {
      assert tlb[i := e][..n] == tlb[..n];
    } else {
      assert tlb[i := e][..n] == tlb[..n][i := e];
      FillCount(tlb[..n], i, e);
    }
  }

  lemma {:induction false} NoneValidCount(tlb: seq<Slot>)
    requires forall i | 0 <= i < |tlb| :: !tlb[i].valid
    ensures CountValid(tlb) == 0
  {
    if tlb != [] {
      var n := |tlb| - 1;
      assert forall i | 0 <= i < n :: tlb[..n][i] == tlb[i];
      NoneValidCount(tlb[..n]);
    }
  }

  /** The TLB holds exactly the pages seen, one slot each. */
  ghost predicate TlbHolds(tlb: seq<Slot>, seen: set<nat>) {
    && |tlb| == NUM_TLB && CountValid(tlb) == |seen|
    && (forall v: nat :: v in seen <==> Probe(tlb, v) != -1)
  }

  lemma {:induction false} EmptyHolds(tlb: seq<Slot>)
    requires |tlb| == NUM_TLB && forall i | 0 <= i < |tlb| :: !tlb[i].valid
    ensures TlbHolds(tlb, {})
  {
    NoneValidCount(tlb);
  }

  lemma {:induction false} FillHolds(tlb: seq<Slot>, seen: set<nat>, v: nat, frame: nat)
    requires TlbHolds(tlb, seen) && v !in seen && |seen| < NUM_TLB
    ensures Filled(tlb, v, frame).Some? && TlbHolds(Filled(tlb, v, frame).value, seen + {v})
  {
    hide Probe, FirstInvalid;
    var i := FirstInvalid(tlb);
    if i == |tlb| { AllValidCount(tlb); assert false; }
    var e := Slot(true, v, frame, true);
    var tlb' := tlb[i := e];
    FillCount(tlb, i, e);
    forall w: nat ensures w in seen + {v} <==> Probe(tlb', w) != -1 { ProbeFilled(tlb, i, e, w); }
  }

  lemma {:induction false} ProbeFilled(tlb: seq<Slot>, i: nat, e: Slot, w: nat)
    requires i < |tlb| && !tlb[i].valid && e.valid
    ensures Probe(tlb[i := e], w) != -1 <==> Probe(tlb, w) != -1 || w == e.vpage
  {
    hide Probe;
    var tlb' := tlb[i := e];
    assert forall j | 0 <= j < |tlb| && j != i :: Hit(tlb', j, w) <==> Hit(tlb, j, w);
    assert !Hit(tlb, i, w) && (Hit(tlb', i, w) <==> w == e.vpage);
  }

  // ------------------------------------------------------------ every operation

  /** u records what c has. */
  ghost predicate Records(u: Usage, c: Core) {
    && u.pages.Keys == u.frames.Keys == c.spaces.Keys && u.cur == c.cur && CoreGood(c)
    && (forall a | a in c.spaces :: SpaceUses(c.spaces[a], u.pages[a], u.frames[a]))
    && TlbHolds(c.tlb, u.seen)
    && (c.cur.Some? ==> u.seen <= u.pages[c.cur.value])
  }

  lemma {:induction false} AccessWorks(u: Usage, c: Core, addr: nat, h: nat)
    requires Records(u, c) && c.cur.Some? && 0 < addr < KSEG0 && Below(c.runs, h)
    requires h + TouchCost(u.pages[c.cur.value], addr / PAGE_SIZE) <= c.frames && |u.seen + {addr / PAGE_SIZE}| <= NUM_TLB
    ensures AccessStep(c, addr).Some?
    ensures var c' := AccessStep(c, addr).value;
            Records(Touched(u, addr / PAGE_SIZE), c') && Below(c'.runs, h + TouchCost(u.pages[c.cur.value], addr / PAGE_SIZE))
  {
    hide Lowest, Below, SpaceUses, TlbHolds, Touch, Filled, TouchCost, Probe;
    var a, v := c.cur.value, addr / PAGE_SIZE;
    var sp, ps, n := c.spaces[a], u.pages[a], u.frames[a];
    SeenProbe(c.tlb, u.seen, v);
    if v in u.seen {
      TouchedAgain(sp, ps, n, v);
      BelowZero(c.runs, h, TouchCost(ps, v));
      assert u.seen + {v} == u.seen && ps + {v} == ps;
      assert u.pages[a := ps] == u.pages && u.frames[a := n] == u.frames;
    } else {
      TouchWorks(sp, ps, n, c.runs, c.frames, h, v);
      var t := Touch(sp, c.runs, c.frames, v).value;
      SmallerSeen(u.seen, v);
      FillHolds(c.tlb, u.seen, v, Frame(t.0, v));
    }
  }

  lemma SeenProbe(tlb: seq<Slot>, seen: set<nat>, v: nat)
    requires TlbHolds(tlb, seen)
    ensures v in seen <==> Probe(tlb, v) != -1
  {
  }

  lemma SmallerSeen(seen: set<nat>, v: nat)
    requires v !in seen && |seen + {v}| <= NUM_TLB
    ensures |seen| < NUM_TLB
  {
  }

  lemma TouchedAgain(sp: Space, ps: set<nat>, n: nat, v: nat)
    requires SpaceUses(sp, ps, n) && v in ps
    ensures TouchCost(ps, v) == 0
  {
  }

  lemma BelowZero(runs: Runs, h: nat, n: nat)
    requires Below(runs, h) && n == 0
    ensures Below(runs, h + n)
  {
  }

  lemma {:induction false} StepWorks(u: Usage, c: Core, op: Op, h: nat)
    requires Records(u, c) && LegalFor(c.spaces.Keys, c.cur, op) && Below(c.runs, h) && h + Cost(u, op) <= c.frames
    requires |After(u, op).seen| <= NUM_TLB && Nonzero(op)
    ensures CoreStep(c, op).Some?
    ensures Records(After(u, op), CoreStep(c, op).value) && Below(CoreStep(c, op).value.runs, h + Cost(u, op))
    ensures CoreStep(c, op).value.frames == c.frames
  {
    hide Lowest, SpaceUses, TlbHolds, AccessStep, TouchCost, CopySpace, Held, GrabAll;
    match op
    case DoLoad(addr) => AccessWorks(u, c, addr, h); AccessFrames(c, addr);
    case DoStore(addr, _) => AccessWorks(u, c, addr, h); AccessFrames(c, addr);
    case DoSwitch(next) => EmptyHolds(Emptied());
    case DoCreate(b) =>
      GrabOne(c.runs, c.frames, h, SPACE_FRAMES);
      FreshUses(Lowest(c.runs, c.frames, SPACE_FRAMES).value);
    case DoFork(a, b) => CopyWorks(c.spaces[a], u.pages[a], u.frames[a], c.runs, c.frames, h);
    case DoDestroy(a) =>
  }

  lemma AccessFrames(c: Core, addr: nat)
    requires CoreGood(c) && c.cur.Some?
    ensures AccessStep(c, addr).Some? ==> AccessStep(c, addr).value.frames == c.frames
  {
    hide Touch, Filled, Probe;
  }

  /**
    Main result: if no live run reaches beyond frame h, the frames the program asks for fit between
    h and the end, and at most 64 pages are touched between two switches, then it runs to its end.
   */
  lemma {:induction false} EnoughCompletes(u: Usage, c: Core, st: FlatState, ops: seq<Op>, h: nat)
    requires Goes(c, st) && LegalRun(st, ops) && Records(u, c) && Below(c.runs, h)
    requires h + Total(u, ops) <= c.frames && FewPages(u, ops)
    ensures CoreEnd(c, st, ops).Some?
    ensures var d := CoreEnd(c, st, ops).value; Records(UsageEnd(u, ops), d) && Below(d.runs, h + Total(u, ops)) && d.frames == c.frames
    decreases |ops|
  {
    hide CoreStep, Records, Below, Cost, After;
    if ops != [] {
      var n := |ops| - 1;
      EnoughCompletes(u, c, st, ops[..n], h);
      var d := CoreEnd(c, st, ops[..n]).value;
      StepWorks(UsageEnd(u, ops[..n]), d, ops[n], h + Total(u, ops[..n]));
    }
  }

  const NO_USE := Usage(map[], map[], None, {})

  /** From boot, with no frame taken yet: the frames asked for need only be as many as there are. */
  lemma {:induction false} BootCompletes(frames: nat, tlb: seq<Slot>, ops: seq<Op>)
    requires |tlb| == NUM_TLB && forall i | 0 <= i < |tlb| :: !tlb[i].valid
    requires LegalRun(FlatState(map[], None), ops) && Total(NO_USE, ops) <= frames && FewPages(NO_USE, ops)
    ensures CoreEnd(Core(map[], map[], frames, tlb, None), FlatState(map[], None), ops).Some?
  {
    hide CoreEnd, Total, FewPages, LegalRun;
    EmptyHolds(tlb);
    EnoughCompletes(NO_USE, Core(map[], map[], frames, tlb, None), FlatState(map[], None), ops, 0);
  }

  /** The whole on the machine: a program that asks for no more than there is reads, to its end, what flat memory gives. */
  method RunWithin(m: Machine, ops: seq<Op>) returns (outs: seq<nat>)
    requires m.Valid() && m.spaces == map[] && m.cm.runs == map[] && m.cur == None && forall i | 0 <= i < NUM_TLB :: !m.tlb[i].valid
    requires LegalRun(FlatState(map[], None), ops) && Total(NO_USE, ops) <= m.cm.entries.Length && FewPages(NO_USE, ops)
    modifies m`spaces, m`cur, m.cm, m.cm.entries, m.phys, m.tlb
    ensures outs == FlatOuts(FlatState(map[], None), ops) && m.Valid() && StateOf(m) == FlatEnd(FlatState(map[], None), ops)
  {
    hide CoreOk, CountFree, OwnedOk, Caches, LegalRun, FewPages, Total, CoreEnd, FlatOuts, FlatEnd;
    assert StateOf(m) == FlatState(map[], None);
    BootCompletes(m.cm.entries.Length, m.tlb[..], ops);
    outs := Run(m, ops);
    assert ops[..|ops|] == ops;
  }
}
