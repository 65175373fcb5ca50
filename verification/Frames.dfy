/**
  Which frames kern/vm/vm.c takes, as a function of the frames taken before: getppages always
  takes the lowest run that fits, so what a fault or a fork gets, and whether it gets it, can be
  told beforehand.
 */
module Frames {
  import opened Basics
  import opened Coremap
  import opened PageTables

  type Runs = map<nat, nat>

  /** The n frames from s on are in no live run. */
  ghost predicate Open(runs: Runs, frames: nat, s: nat, n: nat) {
    s + n <= frames && forall r: nat, i: nat | InRun(runs, r, i) :: !(s <= i < s + n)
  }

  ghost predicate LowestOpen(runs: Runs, frames: nat, s: nat, n: nat) {
    Open(runs, frames, s, n) && forall r: nat | r < s :: !Open(runs, frames, r, n)
  }

  /** Where getppages takes n frames, if it can. */
  ghost function Lowest(runs: Runs, frames: nat, n: nat): Option<nat> {
    if exists s: nat :: LowestOpen(runs, frames, s, n)
    then (var s: nat :| LowestOpen(runs, frames, s, n); Some(s))
    else None
  }

  lemma LowestIs(runs: Runs, frames: nat, n: nat, s: nat)
    requires LowestOpen(runs, frames, s, n)
    ensures Lowest(runs, frames, n) == Some(s)
  {
  }

  lemma {:induction false} LowestBelow(runs: Runs, frames: nat, n: nat, s: nat)
    requires Open(runs, frames, s, n)
    ensures Lowest(runs, frames, n).Some? && Lowest(runs, frames, n).value <= s
    decreases s
  {
    if r: nat :| r < s && Open(runs, frames, r, n) {
      LowestBelow(runs, frames, n, r);
    } else {
      assert LowestOpen(runs, frames, s, n);
    }
  }

  lemma LowestSome(runs: Runs, frames: nat, n: nat)
    requires Lowest(runs, frames, n).Some?
    ensures Open(runs, frames, Lowest(runs, frames, n).value, n)
    ensures n >= 1 ==> Lowest(runs, frames, n).value !in runs || runs[Lowest(runs, frames, n).value] == 0
  {
    var s := Lowest(runs, frames, n).value;
    if s in runs && runs[s] > 0 { assert InRun(runs, s, s); }
  }

  /** A free window of the coremap is one that no live run touches. */
  lemma {:induction false} WindowIsOpen(es: seq<Entry>, runs: Runs, s: nat, n: nat)
    requires CoreOk(es, runs)
    ensures FreeWindow(es, s, n) <==> Open(runs, |es|, s, n)
  {
    assert forall r: nat, i: nat | InRun(runs, r, i) && i < |es| :: es[i].taken;
    assert forall i: nat | i < |es| && es[i].taken :: exists r: nat :: InRun(runs, r, i);
  }

  lemma {:induction false} LowestWindowIs(es: seq<Entry>, runs: Runs, s: nat, n: nat)
    requires CoreOk(es, runs) && LowestWindow(es, s, n)
    ensures Lowest(runs, |es|, n) == Some(s)
  {
    hide CoreOk, Open, FreeWindow;
    WindowIsOpen(es, runs, s, n);
    forall r: nat | r < s ensures !Open(runs, |es|, r, n) { WindowIsOpen(es, runs, r, n); }
    LowestIs(runs, |es|, n, s);
  }

  lemma {:induction false} NoWindowIs(es: seq<Entry>, runs: Runs, n: nat)
    requires CoreOk(es, runs)
    ensures Lowest(runs, |es|, n).None? <==> forall s: nat :: !FreeWindow(es, s, n)
  {
    hide CoreOk, Open, FreeWindow;
    forall s: nat ensures FreeWindow(es, s, n) <==> Open(runs, |es|, s, n) { WindowIsOpen(es, runs, s, n); }
    if s: nat :| Open(runs, |es|, s, n) { LowestBelow(runs, |es|, n, s); }
    if Lowest(runs, |es|, n).Some? { LowestSome(runs, |es|, n); }
  }

  // ------------------------------------------------------------ a sequence of demands

  /** Take runs of the lengths ds one after the other, each where getppages takes it. */
  ghost function GrabAll(runs: Runs, frames: nat, ds: seq<nat>): Option<Runs>
    decreases |ds|
  {
    if ds == [] then Some(runs)
    else match Lowest(runs, frames, ds[0])
      case None => None
      case Some(f) => GrabAll(runs[f := ds[0]], frames, ds[1..])
  }

  function Sum(ds: seq<nat>): nat { if ds == [] then 0 else ds[0] + Sum(ds[1..]) }

  lemma {:induction false} SumAppend(ds: seq<nat>, es: seq<nat>)
    ensures Sum(ds + es) == Sum(ds) + Sum(es)
  {
    if ds == [] {
      assert ds + es == es;
    } else {
      assert (ds + es)[1..] == ds[1..] + es;
      SumAppend(ds[1..], es);
    }
  }

  lemma {:induction false} GrabAppend(runs: Runs, frames: nat, ds: seq<nat>, es: seq<nat>)
    ensures GrabAll(runs, frames, ds + es) ==
            match GrabAll(runs, frames, ds) case None => None case Some(rs) => GrabAll(rs, frames, es)
    decreases |ds|
  {
    if ds == [] {
      assert ds + es == es;
    } else {
      assert (ds + es)[1..] == ds[1..] + es;
      if Lowest(runs, frames, ds[0]).Some? { GrabAppend(runs[Lowest(runs, frames, ds[0]).value := ds[0]], frames, ds[1..], es); }
    }
  }

  /** After taking the lowest run of d frames, a window of n is left where there was one of d + n. */
  lemma {:induction false} WindowLeft(runs: Runs, frames: nat, s: nat, d: nat, n: nat) returns (t: nat)
    requires Open(runs, frames, s, d + n)
    ensures Lowest(runs, frames, d).Some? && Open(runs[Lowest(runs, frames, d).value := d], frames, t, n)
  {
    assert Open(runs, frames, s, d);
    LowestBelow(runs, frames, d, s);
    var f := Lowest(runs, frames, d).value;
    t := if f + d <= s then s else f + d;
    var runs' := runs[f := d];
    forall r: nat, i: nat | InRun(runs', r, i) ensures !(t <= i < t + n) {
      if r != f { assert InRun(runs, r, i); }
    }
  }

  /** One free window of the total size suffices for any demands. */
  lemma {:induction false} WindowSuffices(runs: Runs, frames: nat, s: nat, ds: seq<nat>)
    requires Open(runs, frames, s, Sum(ds))
    ensures GrabAll(runs, frames, ds).Some?
    decreases |ds|
  {
    if ds != [] {
      var t := WindowLeft(runs, frames, s, ds[0], Sum(ds[1..]));
      WindowSuffices(runs[Lowest(runs, frames, ds[0]).value := ds[0]], frames, t, ds[1..]);
    }
  }

  /** No live run reaches beyond frame h. */
  ghost predicate Below(runs: Runs, h: nat) {
    forall r | r in runs :: r + runs[r] <= h
  }

  lemma {:induction false} GrabOne(runs: Runs, frames: nat, h: nat, d: nat)
    requires Below(runs, h) && h + d <= frames
    ensures Lowest(runs, frames, d).Some? && Below(runs[Lowest(runs, frames, d).value := d], h + d)
  {
    assert Open(runs, frames, h, d);
    LowestBelow(runs, frames, d, h);
  }

  /** The highest frame in use rises by no more than what is demanded. */
  lemma {:induction false} GrabBelow(runs: Runs, frames: nat, h: nat, ds: seq<nat>)
    requires Below(runs, h) && h + Sum(ds) <= frames
    ensures GrabAll(runs, frames, ds).Some? && Below(GrabAll(runs, frames, ds).value, h + Sum(ds))
    decreases |ds|
  {
    if ds != [] {
      GrabOne(runs, frames, h, ds[0]);
      GrabBelow(runs[Lowest(runs, frames, ds[0]).value := ds[0]], frames, h + ds[0], ds[1..]);
    }
  }

  // ------------------------------------------------------------ what a fault takes

  /** The second-level table for slot i. */
  ghost function TableStep(sp: Space, runs: Runs, frames: nat, i: nat): Option<(Space, Runs)> {
    if i in sp.tables then Some((sp, runs))
    else match Lowest(runs, frames, TABLE_FRAMES)
      case None => None
      case Some(f) => Some((NewTable(sp, i, f), runs[f := TABLE_FRAMES]))
  }

  /** The frame for page v, whose table exists. */
  ghost function PageStep(sp: Space, runs: Runs, frames: nat, v: nat): Option<(Space, Runs)>
    requires v / LEAF in sp.tables
  {
    if Mapped(sp, v) then Some((sp, runs))
    else match Lowest(runs, frames, 1)
      case None => None
      case Some(f) => Some((SetEntry(sp, v / LEAF, v % LEAF, f), runs[f := 1]))
  }

  /** Table and frame for the first touch of page v. */
  ghost function Touch(sp: Space, runs: Runs, frames: nat, v: nat): (r: Option<(Space, Runs)>)
    ensures r.Some? ==> Mapped(r.value.0, v)
  {
    match TableStep(sp, runs, frames, v / LEAF)
    case None => None
    case Some(t) => PageStep(t.0, t.1, frames, v)
  }

  // ------------------------------------------------------------ what a fork takes

  /** The frames for the pages of table i from page j on. */
  ghost function CopyPages(sp: Space, nb: Space, runs: Runs, frames: nat, i: nat, j: nat): (r: Option<(Space, Runs)>)
    requires i in sp.tables && i in nb.tables
    ensures r.Some? ==> i in r.value.0.tables
    decreases LEAF - j
  {
    if j >= LEAF then Some((nb, runs))
    else if j !in sp.tables[i].entry then CopyPages(sp, nb, runs, frames, i, j + 1)
    else match Lowest(runs, frames, 1)
      case None => None
      case Some(f) => CopyPages(sp, SetEntry(nb, i, j, f), runs[f := 1], frames, i, j + 1)
  }

  /** The tables from i on, each with its pages. */
  ghost function CopyTables(sp: Space, nb: Space, runs: Runs, frames: nat, i: nat): Option<(Space, Runs)>
    decreases DIR - i
  {
    if i >= DIR then Some((nb, runs))
    else match CopyOneTable(sp, nb, runs, frames, i)
      case None => None
      case Some(t) => CopyTables(sp, t.0, t.1, frames, i + 1)
  }

  ghost function CopyOneTable(sp: Space, nb: Space, runs: Runs, frames: nat, i: nat): Option<(Space, Runs)> {
    if i !in sp.tables then Some((nb, runs))
    else match TableStep(nb, runs, frames, i)
      case None => None
      case Some(t) => CopyPages(sp, t.0, t.1, frames, i, 0)
  }

  /** The copy of sp, and the live runs after it. */
  ghost function CopySpace(sp: Space, runs: Runs, frames: nat): Option<(Space, Runs)> {
    match Lowest(runs, frames, SPACE_FRAMES)
    case None => None
    case Some(f) => CopyTables(sp, Space(f, map[]), runs[f := SPACE_FRAMES], frames, 0)
  }

  function PageDemands(sp: Space, i: nat, j: nat): seq<nat>
    requires i in sp.tables
    decreases LEAF - j
  {
    if j >= LEAF then [] else (if j in sp.tables[i].entry then [1] else []) + PageDemands(sp, i, j + 1)
  }

  function TableDemands(sp: Space, i: nat): seq<nat>
    decreases DIR - i
  {
    if i >= DIR then []
    else (if i in sp.tables then [TABLE_FRAMES] + PageDemands(sp, i, 0) else []) + TableDemands(sp, i + 1)
  }

  /** The runs a copy of sp asks for, in order: the space, and per table the table and a frame for each page. */
  function Demands(sp: Space): seq<nat> { [SPACE_FRAMES] + TableDemands(sp, 0) }

  ghost function RunsOf(r: Option<(Space, Runs)>): Option<Runs> {
    match r case None => None case Some(t) => Some(t.1)
  }

  lemma {:induction false} PagesGrab(sp: Space, nb: Space, runs: Runs, frames: nat, i: nat, j: nat)
    requires i in sp.tables && i in nb.tables
    ensures RunsOf(CopyPages(sp, nb, runs, frames, i, j)) == GrabAll(runs, frames, PageDemands(sp, i, j))
    decreases LEAF - j
  {
    if j < LEAF {
      var rest := PageDemands(sp, i, j + 1);
      if j !in sp.tables[i].entry {
        assert [] + rest == rest;
        PagesGrab(sp, nb, runs, frames, i, j + 1);
      } else {
        assert ([1] + rest)[0] == 1 && ([1] + rest)[1..] == rest;
        if Lowest(runs, frames, 1).Some? {
          var f := Lowest(runs, frames, 1).value;
          PagesGrab(sp, SetEntry(nb, i, j, f), runs[f := 1], frames, i, j + 1);
        }
      }
    }
  }

  lemma {:induction false} TableGrab(sp: Space, nb: Space, runs: Runs, frames: nat, i: nat)
    requires i in sp.tables && i !in nb.tables
    ensures RunsOf(CopyOneTable(sp, nb, runs, frames, i)) == GrabAll(runs, frames, [TABLE_FRAMES] + PageDemands(sp, i, 0))
  {
    hide CopyPages, PageDemands;
    var ds := [TABLE_FRAMES] + PageDemands(sp, i, 0);
    assert ds[0] == TABLE_FRAMES && ds[1..] == PageDemands(sp, i, 0);
    if Lowest(runs, frames, TABLE_FRAMES).Some? {
      var f := Lowest(runs, frames, TABLE_FRAMES).value;
      PagesGrab(sp, NewTable(nb, i, f), runs[f := TABLE_FRAMES], frames, i, 0);
    }
  }

  lemma {:induction false} PagesKeepTables(sp: Space, nb: Space, runs: Runs, frames: nat, i: nat, j: nat)
    requires i in sp.tables && i in nb.tables
    ensures CopyPages(sp, nb, runs, frames, i, j).Some? ==>
              CopyPages(sp, nb, runs, frames, i, j).value.0.tables.Keys == nb.tables.Keys
    decreases LEAF - j
  {
    if j < LEAF {
      if j !in sp.tables[i].entry {
        PagesKeepTables(sp, nb, runs, frames, i, j + 1);
      } else if Lowest(runs, frames, 1).Some? {
        var f := Lowest(runs, frames, 1).value;
        PagesKeepTables(sp, SetEntry(nb, i, j, f), runs[f := 1], frames, i, j + 1);
      }
    }
  }

  lemma {:induction false} TablesGrab(sp: Space, nb: Space, runs: Runs, frames: nat, i: nat)
    requires forall k | k in nb.tables :: k < i
    ensures RunsOf(CopyTables(sp, nb, runs, frames, i)) == GrabAll(runs, frames, TableDemands(sp, i))
    decreases DIR - i
  {
    hide CopyPages, PageDemands;
    if i < DIR {
      var rest := TableDemands(sp, i + 1);
      if i !in sp.tables {
        assert [] + rest == rest;
        TablesGrab(sp, nb, runs, frames, i + 1);
      } else {
        var mine := [TABLE_FRAMES] + PageDemands(sp, i, 0);
        TableGrab(sp, nb, runs, frames, i);
        GrabAppend(runs, frames, mine, rest);
        var t := CopyOneTable(sp, nb, runs, frames, i);
        if t.Some? {
          var f := Lowest(runs, frames, TABLE_FRAMES).value;
          PagesKeepTables(sp, NewTable(nb, i, f), runs[f := TABLE_FRAMES], frames, i, 0);
          TablesGrab(sp, t.value.0, t.value.1, frames, i + 1);
        }
      }
    }
  }

  /** Whether a copy succeeds, and which frames it takes, is what its demands grab one after the other. */
  lemma {:induction false} CopyIsGrab(sp: Space, runs: Runs, frames: nat)
    ensures RunsOf(CopySpace(sp, runs, frames)) == GrabAll(runs, frames, Demands(sp))
  {
    hide CopyTables, TableDemands;
    var ds := Demands(sp);
    assert ds[0] == SPACE_FRAMES && ds[1..] == TableDemands(sp, 0);
    if Lowest(runs, frames, SPACE_FRAMES).Some? {
      var f := Lowest(runs, frames, SPACE_FRAMES).value;
      TablesGrab(sp, Space(f, map[]), runs[f := SPACE_FRAMES], frames, 0);
    }
  }
}
