/**
  Two-level page tables over physical frames, as values: what a space sees through its tables,
  and who owns which frames.  Physical addresses are kept as frame numbers.
 */
module PageTables {

  const DIR := 512             // first-level slots
  const LEAF := 1024           // entries of a second-level table
  const PAGES := 0x8_0000      // user pages, DIR * LEAF
  const WORDS := 1024          // words of a page
  const SPACE_FRAMES := 1      // sizeof(struct addrspace), in pages
  const TABLE_FRAMES := 4      // sizeof(struct pagetable2), in pages

  /** The words of one page. */
  type Data = d: seq<nat> | |d| == 1024 witness Zeros()

  function Zeros(): (r: seq<nat>)
    ensures |r| == 1024 && forall i | 0 <= i < 1024 :: r[i] == 0
  {
    seq(1024, i => 0)
  }

  const ZERO: Data := Zeros()

  /** A second-level table: its own first frame, and the frame of each valid entry. */
  datatype Table = Table(run: nat, entry: map<nat, nat>)

  /** struct addrspace: its own frame and its first-level table. */
  datatype Space = Space(run: nat, tables: map<nat, Table>)

  predicate Mapped(sp: Space, v: nat) {
    v / LEAF in sp.tables && v % LEAF in sp.tables[v / LEAF].entry
  }

  function Frame(sp: Space, v: nat): nat
    requires Mapped(sp, v)
  {
    sp.tables[v / LEAF].entry[v % LEAF]
  }

  ghost predicate ShapeOk(sp: Space) {
    && (forall i | i in sp.tables :: i < DIR)
    && (forall i, j | i in sp.tables && j in sp.tables[i].entry :: j < LEAF)
  }

  /** What page v of a space holds: the frame's contents, or zeros if it has none yet. */
  function View(sp: Space, phys: seq<Data>, v: nat): Data
  {
    if Mapped(sp, v) && Frame(sp, v) < |phys| then phys[Frame(sp, v)] else ZERO
  }

  /** A space as flat memory. */
  function Flat(sp: Space, phys: seq<Data>): (r: seq<Data>)
    ensures |r| == PAGES && forall v | 0 <= v < PAGES :: r[v] == View(sp, phys, v)
  {
    seq(PAGES, v requires 0 <= v < PAGES => View(sp, phys, v))
  }

  function FlatAll(spaces: map<nat, Space>, phys: seq<Data>): map<nat, seq<Data>>
  {
    map a | a in spaces :: Flat(spaces[a], phys)
  }

  // ------------------------------------------------------------ ownership

  datatype Owner = OfSpace(a: nat) | OfTable(a: nat, i: nat) | OfPage(a: nat, v: nat)

  function Length(o: Owner): nat {
    match o
    case OfSpace(_) => SPACE_FRAMES
    case OfTable(_, _) => TABLE_FRAMES
    case OfPage(_, _) => 1
  }

  /** Owner o has the run of frames that starts at f. */
  ghost predicate Claims(spaces: map<nat, Space>, o: Owner, f: nat) {
    match o
    case OfSpace(a) => a in spaces && spaces[a].run == f
    case OfTable(a, i) => a in spaces && i in spaces[a].tables && spaces[a].tables[i].run == f
    case OfPage(a, v) => a in spaces && Mapped(spaces[a], v) && Frame(spaces[a], v) == f
  }

  /** Every owner's run is live with the right length, and no run has two owners. */
  ghost predicate OwnedOk(spaces: map<nat, Space>, runs: map<nat, nat>, frames: nat) {
    && (forall a | a in spaces :: ShapeOk(spaces[a]))
    && (forall o: Owner, f: nat | Claims(spaces, o, f) :: f in runs && runs[f] == Length(o) && f < frames)
    && (forall o: Owner, q: Owner, f: nat | Claims(spaces, o, f) && Claims(spaces, q, f) :: o == q)
  }

  /** spaces' adds the single claim of o to f; everything else is claimed as before. */
  ghost predicate AddsClaim(spaces: map<nat, Space>, spaces': map<nat, Space>, o: Owner, f: nat) {
    forall q: Owner, g: nat :: Claims(spaces', q, g) <==> Claims(spaces, q, g) || (q == o && g == f)
  }

  lemma {:induction false} AddKeepsOwned(spaces: map<nat, Space>, spaces': map<nat, Space>, runs: map<nat, nat>, frames: nat, o: Owner, f: nat)
    requires OwnedOk(spaces, runs, frames) && AddsClaim(spaces, spaces', o, f)
    requires f !in runs && f < frames && forall a | a in spaces' :: ShapeOk(spaces'[a])
    ensures OwnedOk(spaces', runs[f := Length(o)], frames)
  {
    hide Claims, ShapeOk;
  }

  // ------------------------------------------------------------ the edits

  function NewTable(sp: Space, i: nat, run: nat): Space {
    sp.(tables := sp.tables[i := Table(run, map[])])
  }

  function SetEntry(sp: Space, i: nat, j: nat, f: nat): Space
    requires i in sp.tables
  {
    sp.(tables := sp.tables[i := sp.tables[i].(entry := sp.tables[i].entry[j := f])])
  }

  /** A new empty table changes no view and adds one claim. */
  lemma {:induction false} NewTableFacts(spaces: map<nat, Space>, a: nat, i: nat, run: nat, phys: seq<Data>)
    requires a in spaces && i !in spaces[a].tables && i < DIR && ShapeOk(spaces[a])
    ensures var spaces' := spaces[a := NewTable(spaces[a], i, run)];
            && AddsClaim(spaces, spaces', OfTable(a, i), run) && ShapeOk(spaces'[a])
            && FlatAll(spaces', phys) == FlatAll(spaces, phys)
  {
    var sp := spaces[a];
    var sp' := NewTable(sp, i, run);
    assert forall v: nat :: Mapped(sp', v) <==> Mapped(sp, v);
    assert forall v: nat | Mapped(sp, v) :: Frame(sp', v) == Frame(sp, v);
    assert Flat(sp', phys) == Flat(sp, phys);
  }

  /** Mapping page v to frame f adds one claim. */
  lemma {:induction false} SetEntryFacts(spaces: map<nat, Space>, a: nat, v: nat, f: nat)
    requires a in spaces && v / LEAF in spaces[a].tables && !Mapped(spaces[a], v) && ShapeOk(spaces[a])
    ensures var sp' := SetEntry(spaces[a], v / LEAF, v % LEAF, f);
            && AddsClaim(spaces, spaces[a := sp'], OfPage(a, v), f) && ShapeOk(sp')
            && Mapped(sp', v) && Frame(sp', v) == f
            && (forall u: nat | u != v :: Mapped(sp', u) <==> Mapped(spaces[a], u))
            && (forall u: nat | u != v && Mapped(sp', u) :: Frame(sp', u) == Frame(spaces[a], u))
  {
    var sp := spaces[a];
    var sp' := SetEntry(sp, v / LEAF, v % LEAF, f);
    forall u: nat | u != v
      ensures (Mapped(sp', u) <==> Mapped(sp, u)) && (Mapped(sp', u) ==> Frame(sp', u) == Frame(sp, u))
    {
      PageIndex(u, v);
    }
  }

  lemma PageIndex(u: nat, v: nat)
    requires u != v
    ensures u / LEAF != v / LEAF || u % LEAF != v % LEAF
  {
  }

  /** A new space with no tables adds the claim to its own frame and sees zeros everywhere. */
  lemma {:induction false} NewSpaceFacts(spaces: map<nat, Space>, a: nat, run: nat, phys: seq<Data>)
    requires a !in spaces
    ensures var sp := Space(run, map[]);
            && AddsClaim(spaces, spaces[a := sp], OfSpace(a), run) && ShapeOk(sp)
            && FlatAll(spaces[a := sp], phys) == FlatAll(spaces, phys)[a := Flat(sp, phys)]
            && forall v | 0 <= v < PAGES :: Flat(sp, phys)[v] == ZERO
  {
  }

  /** Changing a frame no one has mapped, or mapping a zeroed one, leaves every view alone. */
  lemma {:induction false} ZeroMapKeepsViews(spaces: map<nat, Space>, a: nat, v: nat, f: nat, phys: seq<Data>, phys': seq<Data>)
    requires a in spaces && v < PAGES && v / LEAF in spaces[a].tables && !Mapped(spaces[a], v) && ShapeOk(spaces[a])
    requires f < |phys| && phys' == phys[f := ZERO] && forall o: Owner :: !Claims(spaces, o, f)
    ensures FlatAll(spaces[a := SetEntry(spaces[a], v / LEAF, v % LEAF, f)], phys') == FlatAll(spaces, phys)
  {
    var sp := spaces[a];
    var sp' := SetEntry(sp, v / LEAF, v % LEAF, f);
    SetEntryFacts(spaces, a, v, f);
    forall b | b in spaces ensures Flat(spaces[a := sp'][b], phys') == Flat(spaces[b], phys) {
      forall u: nat | u < PAGES ensures View(spaces[a := sp'][b], phys', u) == View(spaces[b], phys, u) {
        if Mapped(spaces[b], u) { assert !Claims(spaces, OfPage(b, u), f); }
      }
      FlatEqual(spaces[a := sp'][b], phys', spaces[b], phys);
    }
  }

  lemma FlatEqual(sp: Space, phys: seq<Data>, sp': Space, phys': seq<Data>)
    requires forall v: nat | v < PAGES :: View(sp, phys, v) == View(sp', phys', v)
    ensures Flat(sp, phys) == Flat(sp', phys')
  {
  }

  /** The flat memories after page v of space a became d. */
  function PutPage(flat: map<nat, seq<Data>>, a: nat, v: nat, d: Data): map<nat, seq<Data>>
    requires a in flat && v < |flat[a]|
  {
    var s: seq<Data> := flat[a][v := d];
    flat[a := s]
  }

  /** If the views differ in page v of space b alone, the flat memories do. */
  lemma {:induction false} FlatAllPut(spaces: map<nat, Space>, phys: seq<Data>, spaces': map<nat, Space>, phys': seq<Data>, b: nat, v: nat, d: Data)
    requires spaces'.Keys == spaces.Keys && b in spaces && v < PAGES
    requires forall c, u: nat | c in spaces && u < PAGES ::
               View(spaces'[c], phys', u) == if c == b && u == v then d else View(spaces[c], phys, u)
    ensures FlatAll(spaces', phys') == PutPage(FlatAll(spaces, phys), b, v, d)
  {
    forall c | c in spaces
      ensures Flat(spaces'[c], phys') == if c == b then Flat(spaces[c], phys)[v := d] else Flat(spaces[c], phys)
    {
    }
  }

  lemma FlatAllAt(spaces: map<nat, Space>, phys: seq<Data>, a: nat, v: nat)
    requires a in spaces && v < PAGES
    ensures a in FlatAll(spaces, phys) && |FlatAll(spaces, phys)[a]| == PAGES
    ensures FlatAll(spaces, phys)[a][v] == View(spaces[a], phys, v)
  {
  }

  /** Writing frame f, which page v of space a has, changes that page of that space and nothing else. */
  lemma {:induction false} WriteChangesOne(spaces: map<nat, Space>, runs: map<nat, nat>, a: nat, v: nat, d: Data, phys: seq<Data>)
    requires OwnedOk(spaces, runs, |phys|) && a in spaces && v < PAGES && Mapped(spaces[a], v)
    ensures Frame(spaces[a], v) < |phys|
    ensures FlatAll(spaces, phys[Frame(spaces[a], v) := d]) == PutPage(FlatAll(spaces, phys), a, v, d)
  {
    var f := Frame(spaces[a], v);
    assert Claims(spaces, OfPage(a, v), f);
    var phys' := phys[f := d];
    forall b, u: nat | b in spaces && u < PAGES
      ensures View(spaces[b], phys', u) == if b == a && u == v then d else View(spaces[b], phys, u)
    {
      if Mapped(spaces[b], u) && Frame(spaces[b], u) == f { assert Claims(spaces, OfPage(b, u), f); }
    }
    FlatAllPut(spaces, phys, spaces, phys', a, v, d);
  }
}
