/**
  Demand paging, fork copy and the TLB of kern/vm/vm.c, over the coremap.

  `spaces` holds the address spaces by number, `cur` is the space of the current thread.
 */
module Vm {
  import opened Basics
  import opened PageTables
  import opened Coremap
  import opened Frames

  const NUM_TLB := 64
  const VM_FAULT_READ := 0
  const VM_FAULT_WRITE := 1
  const VM_FAULT_READONLY := 2

  /** A TLB entry: a page-aligned user page and frame, and the VALID and DIRTY (writable) bits. */
  datatype Slot = Slot(valid: bool, vpage: nat, frame: nat, dirty: bool)

  ghost predicate Hit(tlb: seq<Slot>, i: nat, v: nat) {
    i < |tlb| && tlb[i].valid && tlb[i].vpage == v
  }

  ghost predicate Miss(tlb: seq<Slot>, v: nat) {
    forall i | 0 <= i < |tlb| :: !Hit(tlb, i, v)
  }

  /** Every valid entry is the page-table entry of its page in space sp, writable, and no page has two. */
  ghost predicate Caches(tlb: seq<Slot>, sp: Space) {
    && (forall i | 0 <= i < |tlb| && tlb[i].valid ::
          tlb[i].vpage < PAGES && Mapped(sp, tlb[i].vpage) && tlb[i].frame == Frame(sp, tlb[i].vpage) && tlb[i].dirty)
    && (forall i, j | 0 <= i < j < |tlb| && tlb[i].valid && tlb[j].valid :: tlb[i].vpage != tlb[j].vpage)
  }

  ghost predicate TlbOk(tlb: seq<Slot>, spaces: map<nat, Space>, cur: Option<nat>) {
    cur.Some? ==> cur.value in spaces && Caches(tlb, spaces[cur.value])
  }

  /** sp' maps every page of sp to the same frame. */
  ghost predicate Extends(sp: Space, sp': Space) {
    forall v: nat | Mapped(sp, v) :: Mapped(sp', v) && Frame(sp', v) == Frame(sp, v)
  }

  lemma CachesExtend(tlb: seq<Slot>, sp: Space, sp': Space)
    requires Caches(tlb, sp) && Extends(sp, sp')
    ensures Caches(tlb, sp')
  {
  }

  /** Writing a correct entry for an absent page into slot i. */
  lemma CachesFill(tlb: seq<Slot>, i: nat, sp: Space, v: nat)
    requires Caches(tlb, sp) && i < |tlb| && !tlb[i].valid && Miss(tlb, v) && v < PAGES && Mapped(sp, v)
    ensures Caches(tlb[i := Slot(true, v, Frame(sp, v), true)], sp)
  {
    forall j | 0 <= j < |tlb| && tlb[j].valid ensures tlb[j].vpage != v { assert !Hit(tlb, j, v); }
  }

  /** Why vm_fault returned, or did not. */
  datatype Fault = Served | Efault | Einval | Panicked | OutOfBounds | Crashed

  /** The coremap can supply what the first touch of page v needs: a table of four frames and a frame. */
  ghost predicate Enough(sp: Space, es: seq<Entry>, v: nat) {
    || Mapped(sp, v)
    || (v / LEAF in sp.tables && CountFree(es) >= 1)
    || ((exists s: nat :: FreeWindow(es, s, TABLE_FRAMES)) && CountFree(es) >= TABLE_FRAMES + 1)
  }

  /** What vm_fault answers, from what can be seen before the call. */
  ghost function FaultAnswer(faulttype: int, addr: nat, cur: Option<nat>, spaces: map<nat, Space>, es: seq<Entry>, tlb: seq<Slot>): Fault
    requires cur.Some? ==> cur.value in spaces
  {
    if addr > KSEG0 || addr == 0 || addr % 4 != 0 then Efault
    else if faulttype == VM_FAULT_READONLY then Panicked
    else if faulttype != VM_FAULT_READ && faulttype != VM_FAULT_WRITE then Einval
    else if cur.None? then Efault
    else if addr == KSEG0 then OutOfBounds
    else if !Enough(spaces[cur.value], es, addr / PAGE_SIZE) then Crashed
    else if forall i | 0 <= i < |tlb| :: tlb[i].valid then Efault
    else Served
  }

  /** The processor's lookup: the slot that matches page v, or -1. */
  function Probe(tlb: seq<Slot>, v: nat, k: nat := 0): (r: int)
    requires k <= |tlb|
    ensures r == -1 || (k <= r < |tlb| && tlb[r].valid && tlb[r].vpage == v)
    ensures r == -1 <==> forall i | k <= i < |tlb| :: !Hit(tlb, i, v)
    decreases |tlb| - k
  {
    if k == |tlb| then -1 else if tlb[k].valid && tlb[k].vpage == v then (assert Hit(tlb, k, v); k) else Probe(tlb, v, k + 1)
  }

  /** The first invalid slot from k on, or |tlb|. */
  function FirstInvalid(tlb: seq<Slot>, k: nat := 0): (r: nat)
    requires k <= |tlb|
    ensures k <= r <= |tlb| && (r < |tlb| ==> !tlb[r].valid) && forall i | k <= i < r :: tlb[i].valid
    decreases |tlb| - k
  {
    if k == |tlb| || !tlb[k].valid then k else FirstInvalid(tlb, k + 1)
  }

  /** The TLB with an entry for page v in its first invalid slot, if it has one. */
  function Filled(tlb: seq<Slot>, v: nat, frame: nat): Option<seq<Slot>> {
    var i := FirstInvalid(tlb);
    if i < |tlb| then Some(tlb[i := Slot(true, v, frame, true)]) else None
  }

  /** What as_activate leaves in the TLB. */
  function Emptied(): seq<Slot> { seq(NUM_TLB, i requires 0 <= i => Slot(false, 0x80000 + i, 0, false)) }

  /** A word of flat memory. */
  function WordAt(flat: seq<Data>, addr: nat): nat
    requires |flat| == PAGES && addr < KSEG0
  {
    flat[addr / PAGE_SIZE][addr % PAGE_SIZE / 4]
  }

  function PutWord(d: Data, addr: nat, x: nat): Data
  {
    d[addr % PAGE_SIZE / 4 := x]
  }

  datatype CopyResult = Copied | Enomem | CopyCrashed

  /** The first n pages of s, then zeros. */
  ghost function Prefix(s: seq<Data>, n: nat): (r: seq<Data>)
    requires |s| == PAGES
    ensures |r| == PAGES && forall v | 0 <= v < PAGES :: r[v] == if v < n then s[v] else ZERO
  {
    seq(PAGES, v requires 0 <= v < PAGES => if v < n then s[v] else ZERO)
  }

  /** sp has no page mapped from n on. */
  ghost predicate UnmappedFrom(sp: Space, n: nat) {
    forall v: nat | v >= n :: !Mapped(sp, v)
  }

  /** Everything that decides whether an operation succeeds: tables, live runs, TLB and current space. */
  datatype Core = Core(spaces: map<nat, Space>, runs: Runs, frames: nat, tlb: seq<Slot>, cur: Option<nat>)

  /** A fault on page v of the current space: table, frame and TLB slot, or None if one of them is not to be had. */
  ghost function Visit(c: Core, v: nat): Option<Core>
    requires c.cur.Some? && c.cur.value in c.spaces
  {
    match Touch(c.spaces[c.cur.value], c.runs, c.frames, v)
    case None => None
    case Some(t) =>
      match Filled(c.tlb, v, Frame(t.0, v))
      case None => None
      case Some(tlb) => Some(c.(spaces := c.spaces[c.cur.value := t.0], runs := t.1, tlb := tlb))
  }

  /** A user access to addr. */
  ghost function AccessStep(c: Core, addr: nat): Option<Core>
    requires c.cur.Some? && c.cur.value in c.spaces
  {
    if Probe(c.tlb, addr / PAGE_SIZE) != -1 then Some(c) else if addr == 0 then None else Visit(c, addr / PAGE_SIZE)
  }

  class Machine {
    const cm: CoreMap
    const ramtop: nat   // end of physical memory
    const phys: array<Data>
    const tlb: array<Slot>
    var spaces: map<nat, Space>
    var cur: Option<nat>

    /** All frames of the coremap are memory, every frame has at most one owner, and the TLB caches the current tables. */
    ghost predicate Valid()
      reads this, cm, cm.entries, phys, tlb
    {
      && cm.base + PAGE_SIZE * cm.entries.Length <= ramtop
      && cm.Valid() && phys.Length == cm.entries.Length && tlb.Length == NUM_TLB
      && phys as object != tlb && phys as object != cm.entries && tlb as object != cm.entries
      && OwnedOk(spaces, cm.runs, phys.Length)
      && TlbOk(tlb[..], spaces, cur)
    }

    /** The machine after boot: no space, an empty TLB. */
    constructor (cm: CoreMap, ramtop: nat, ram: array<Data>)
      requires cm.Valid() && ram.Length == cm.entries.Length && ram as object != cm.entries
      requires cm.base + PAGE_SIZE * cm.entries.Length <= ramtop
      ensures Valid() && spaces == map[] && cur == None && this.cm == cm && this.ramtop == ramtop && phys == ram && fresh(tlb)
      ensures forall i | 0 <= i < NUM_TLB :: !tlb[i].valid
    {
      this.cm, this.ramtop, phys := cm, ramtop, ram;
      tlb := new Slot[NUM_TLB](_ => Slot(false, 0, 0, false));
      spaces, cur := map[], None;
    }

    ghost function Flats(): map<nat, seq<Data>>
      reads this, phys
    {
      FlatAll(spaces, phys[..])
    }

    ghost function State(): Core
      reads this, cm, tlb
    {
      Core(spaces, cm.runs, cm.entries.Length, tlb[..], cur)
    }

    /** alloc_kpages: the first frame of a run of n, or -1. */
    method AllocKpages(n: nat) returns (f: int)
      requires cm.Valid() && n >= 1
      modifies cm, cm.entries
      ensures cm.Valid()
      ensures f == -1 ==> cm.entries[..] == old(cm.entries[..]) && cm.runs == old(cm.runs)
                          && forall s: nat :: !FreeWindow(cm.entries[..], s, n)
      ensures f != -1 ==> f >= 0 && FreeWindow(old(cm.entries[..]), f, n) && f !in old(cm.runs)
                          && cm.runs == old(cm.runs)[f := n] && cm.pageleft == old(cm.pageleft) - n
      ensures Lowest(old(cm.runs), cm.entries.Length, n) == if f == -1 then None else Some(f)
      ensures cm.spl == if n > old(cm.pageleft) then SPL_HIGH else old(cm.spl)
      ensures f != -1 ==> n <= old(cm.pageleft)
    {
      hide CoreOk, CountFree, Mark, Lowest;
      ghost var es, rs := cm.entries[..], cm.runs;
      NoWindowIs(es, rs, n);
      var paddr := cm.GetPpages(n);
      if paddr == 0 { return -1; }
      ghost var s: nat :| LowestWindow(es, s, n) && paddr == cm.base + PAGE_SIZE * s
                          && cm.entries[..] == Mark(es, s, n, true) && cm.runs == rs[s := n];
      GrabKeeps(es, rs, s, n);
      CountMark(es, s, n, true);
      WindowCounts(es, s, n);
      LowestWindowIs(es, rs, s, n);
      f := (paddr - cm.base) / PAGE_SIZE;
    }
  
    /** vm_fault, first part: make sure the second-level table for page v exists. */
    method EnsureTable(a: nat, i: nat) returns (ok: bool)
      requires Valid() && a in spaces && i < DIR
      modifies this`spaces, cm, cm.entries
      ensures ok <==> i in old(spaces)[a].tables || exists s: nat :: FreeWindow(old(cm.entries[..]), s, TABLE_FRAMES)
      ensures !ok ==> cm.entries[..] == old(cm.entries[..])
      ensures ok ==> Valid() && Flats() == old(Flats()) && cm.spl == old(cm.spl)
      ensures ok ==> a in spaces && i in spaces[a].tables && Extends(old(spaces)[a], spaces[a]) && Extends(spaces[a], old(spaces)[a])
      ensures ok ==> spaces == old(spaces)[a := spaces[a]] && spaces[a].tables.Keys == old(spaces)[a].tables.Keys + {i}
      ensures ok ==> cm.pageleft == old(cm.pageleft) - (if i in old(spaces)[a].tables then 0 else TABLE_FRAMES)
      ensures ok <==> TableStep(old(spaces)[a], old(cm.runs), cm.entries.Length, i).Some?
      ensures ok ==> (spaces[a], cm.runs) == TableStep(old(spaces)[a], old(cm.runs), cm.entries.Length, i).value
    {
      hide CoreOk, CountFree, OwnedOk, AddsClaim, FlatAll, Caches, Lowest;
      if i in spaces[a].tables {
        assert spaces == spaces[a := spaces[a]];
        return true;
      }
      ghost var sps := spaces;
      SpaceShape(spaces, cm.runs, phys.Length, a);
      var f := AllocKpages(TABLE_FRAMES);
      if f == -1 { return false; }
      NewTableFacts(spaces, a, i, f, phys[..]);
      spaces := spaces[a := NewTable(spaces[a], i, f)];
      Keep(sps, spaces, old(cm.runs), phys.Length, OfTable(a, i), f, a, tlb[..], cur);
      ok := true;
    }

    /** vm_fault, second part: make sure page v has a frame; a new one is zeroed. */
    method EnsurePage(a: nat, v: nat) returns (ok: bool)
      requires Valid() && a in spaces && v < PAGES && v / LEAF in spaces[a].tables
      modifies this`spaces, cm, cm.entries, phys
      ensures ok <==> Mapped(old(spaces)[a], v) || old(cm.pageleft) >= 1
      ensures ok ==> Valid() && Flats() == old(Flats()) && cm.spl == old(cm.spl)
      ensures ok ==> a in spaces && Mapped(spaces[a], v) && Extends(old(spaces)[a], spaces[a])
      ensures ok ==> spaces == old(spaces)[a := spaces[a]]
      ensures ok <==> PageStep(old(spaces)[a], old(cm.runs), cm.entries.Length, v).Some?
      ensures ok ==> (spaces[a], cm.runs) == PageStep(old(spaces)[a], old(cm.runs), cm.entries.Length, v).value
    {
      hide CoreOk, CountFree, OwnedOk, AddsClaim, FlatAll, Caches, SetEntry, Lowest;
      if Mapped(spaces[a], v) {
        assert spaces == spaces[a := spaces[a]];
        return true;
      }
      ghost var sps, ph, es := spaces, phys[..], cm.entries[..];
      SpaceShape(spaces, cm.runs, phys.Length, a);
      OneFrame(es);
      var f := AllocKpages(1);
      if f == -1 { return false; }
      WindowCounts(es, f, 1);
      Unclaimed(sps, old(cm.runs), phys.Length, f);
      SetEntryFacts(spaces, a, v, f);
      ZeroMapKeepsViews(spaces, a, v, f, ph, ph[f := ZERO]);
      spaces := spaces[a := SetEntry(spaces[a], v / LEAF, v % LEAF, f)];
      phys[f] := ZERO;
      assert phys[..] == ph[f := ZERO];
      Keep(sps, spaces, old(cm.runs), phys.Length, OfPage(a, v), f, a, tlb[..], cur);
      ok := true;
    }

    /** vm_fault, last part: write the entry for page v into the first invalid slot. */
    method FillTlb(a: nat, v: nat) returns (ok: bool)
      requires Valid() && cur == Some(a) && a in spaces && v < PAGES && Mapped(spaces[a], v) && Miss(tlb[..], v)
      modifies tlb
      ensures Valid()
      ensures ok <==> exists i | 0 <= i < NUM_TLB :: !old(tlb[i].valid)
      ensures ok ==> exists i | 0 <= i < NUM_TLB :: Hit(tlb[..], i, v)
      ensures !ok ==> tlb[..] == old(tlb[..])
      ensures ok <==> Filled(old(tlb[..]), v, Frame(spaces[a], v)).Some?
      ensures ok ==> Filled(old(tlb[..]), v, Frame(spaces[a], v)) == Some(tlb[..])
    {
      hide OwnedOk, Caches, CoreOk, CountFree;
      for i := 0 to NUM_TLB
        invariant forall j | 0 <= j < i :: tlb[j].valid
        invariant tlb[..] == old(tlb[..]) && FirstInvalid(tlb[..]) == FirstInvalid(tlb[..], i)
      {
        if !tlb[i].valid {
          CachesFill(tlb[..], i, spaces[a], v);
          ghost var t := tlb[..];
          tlb[i] := Slot(true, v, Frame(spaces[a], v), true);
          assert tlb[..] == t[i := Slot(true, v, Frame(spaces[a], v), true)];
          assert Hit(tlb[..], i, v);
          return true;
        }
      }
      ok := false;
    }

    /** vm_fault once its checks have passed: table, frame and TLB entry for page v. */
    method ServePage(a: nat, v: nat) returns (r: Fault)
      requires Valid() && cur == Some(a) && a in spaces && v < PAGES && Miss(tlb[..], v)
      modifies this`spaces, cm, cm.entries, phys, tlb
      ensures r == if !old(Enough(spaces[a], cm.entries[..], v)) then Crashed
                   else if forall i | 0 <= i < NUM_TLB :: old(tlb[i].valid) then Efault else Served
      ensures r != Crashed ==> Valid() && Flats() == old(Flats()) && spaces.Keys == old(spaces.Keys) && cm.spl == old(cm.spl)
      ensures r == Served ==> exists i | 0 <= i < NUM_TLB :: Hit(tlb[..], i, v)
      ensures Visit(old(State()), v) == if r == Served then Some(State()) else None
    {
      hide CoreOk, CountFree, OwnedOk, FlatAll, Caches, TableStep, PageStep, Filled;
      ghost var sps, es, c := spaces, cm.entries[..], State();
      FourNeedsFour(es);
      var ok := EnsureTable(a, v / LEAF);
      if !ok {
        assert !Enough(sps[a], es, v) && Touch(sps[a], c.runs, c.frames, v).None?;
        return Crashed;
      }
      SameMapped(sps[a], spaces[a], v);
      ok := EnsurePage(a, v);
      if !ok {
        assert !Enough(sps[a], es, v);
        return Crashed;
      }
      assert Enough(sps[a], es, v);
      assert Touch(sps[a], c.runs, c.frames, v) == Some((spaces[a], cm.runs)) && spaces == sps[a := spaces[a]];
      ok := FillTlb(a, v);
      r := if ok then Served else Efault;
    }

    /**
      vm_fault, called for a page that no TLB entry matches.  Its answer is fixed by what holds
      before the call; whatever it does, no space sees its memory change.
     */
    method VmFault(faulttype: int, faultaddress: nat) returns (r: Fault)
      requires Valid() && Miss(tlb[..], faultaddress / PAGE_SIZE)
      modifies this`spaces, cm, cm.entries, phys, tlb
      ensures r == old(FaultAnswer(faulttype, faultaddress, cur, spaces, cm.entries[..], tlb[..]))
      ensures if faultaddress > 0x8000_0000 || faultaddress == 0 || faultaddress % 4 != 0 then r == Efault
              else if faulttype == 2 then r == Panicked
              else if faulttype != 0 && faulttype != 1 then r == Einval
              else if cur.None? then r == Efault
              else (r == OutOfBounds <==> faultaddress == 0x8000_0000) && r != Panicked && r != Einval
      ensures r != Crashed ==> Valid() && Flats() == old(Flats()) && spaces.Keys == old(spaces.Keys)
      ensures r == Served ==> exists i | 0 <= i < NUM_TLB :: Hit(tlb[..], i, faultaddress / PAGE_SIZE)
      ensures cur.Some? && 0 < faultaddress < KSEG0 && faultaddress % 4 == 0 && faulttype in {VM_FAULT_READ, VM_FAULT_WRITE} ==>
                Visit(old(State()), faultaddress / PAGE_SIZE) == if r == Served then Some(State()) else None
      ensures r in {Served, Efault, Einval} ==>
                cm.spl == if cur.None? && 0 < faultaddress <= KSEG0 && faultaddress % 4 == 0
                             && faulttype in {VM_FAULT_READ, VM_FAULT_WRITE} then SPL_HIGH else old(cm.spl)
    {
      hide CoreOk, CountFree, OwnedOk, FlatAll, Caches, Visit, Enough;
      if faultaddress > KSEG0 { return Efault; }
      if faultaddress == 0 { return Efault; }
      if faultaddress % 4 != 0 { return Efault; }
      var spl := cm.spl;
      cm.spl := SPL_HIGH;
      var v := faultaddress / PAGE_SIZE;
      if faulttype == VM_FAULT_READONLY { return Panicked; }
      if faulttype != VM_FAULT_READ && faulttype != VM_FAULT_WRITE {
        cm.spl := spl;
        return Einval;
      }
      if cur == None { return Efault; }
      var a := cur.value;
      if v / LEAF >= DIR { return OutOfBounds; }
      r := ServePage(a, v);
      cm.spl := spl;
    }

    /** A user access to an aligned address below USERTOP: translate it, taking a fault on a miss. */
    method Access(faulttype: int, addr: nat) returns (r: Option<nat>)
      requires Valid() && cur.Some? && addr % 4 == 0 && addr < KSEG0 && faulttype in {VM_FAULT_READ, VM_FAULT_WRITE}
      modifies this`spaces, cm, cm.entries, phys, tlb
      ensures r.None? <==> old(Probe(tlb[..], addr / PAGE_SIZE) == -1
                               && FaultAnswer(faulttype, addr, cur, spaces, cm.entries[..], tlb[..]) != Served)
      ensures r.Some? ==> Valid() && Flats() == old(Flats()) && cur.value in spaces && spaces.Keys == old(spaces.Keys)
      ensures r.Some? ==> Mapped(spaces[cur.value], addr / PAGE_SIZE) && r.value == Frame(spaces[cur.value], addr / PAGE_SIZE)
      ensures AccessStep(old(State()), addr) == if r.Some? then Some(State()) else None
    {
      hide CoreOk, CountFree, OwnedOk, FlatAll, Visit;
      var v := addr / PAGE_SIZE;
      var i := Probe(tlb[..], v);
      if i == -1 {
        var f := VmFault(faulttype, addr);
        if f != Served { return None; }
        i := Probe(tlb[..], v);
      }
      assert tlb[i].dirty;  // so no VM_FAULT_READONLY
      r := Some(tlb[i].frame);
    }

    /** A load completes with the word that flat memory holds. */
    method Load(addr: nat) returns (r: Option<nat>)
      requires Valid() && cur.Some? && addr % 4 == 0 && addr < KSEG0
      modifies this`spaces, cm, cm.entries, phys, tlb
      ensures r.Some? ==> Valid() && Flats() == old(Flats()) && cur.value in Flats()
      ensures r.Some? ==> r.value == WordAt(old(Flats())[cur.value], addr)
      ensures r.None? <==> old(Probe(tlb[..], addr / PAGE_SIZE) == -1
                               && FaultAnswer(VM_FAULT_READ, addr, cur, spaces, cm.entries[..], tlb[..]) != Served)
      ensures AccessStep(old(State()), addr) == if r.Some? then Some(State()) else None
    {
      hide CoreOk, CountFree, OwnedOk, Caches, AccessStep;
      var f := Access(VM_FAULT_READ, addr);
      if f == None { return None; }
      FrameInRam(spaces, cm.runs, phys.Length, cur.value, addr / PAGE_SIZE);
      assert Flats()[cur.value] == Flat(spaces[cur.value], phys[..]);
      r := Some(phys[f.value][addr % PAGE_SIZE / 4]);
    }

    /** A store changes one word of the current space and nothing that any other space sees. */
    method Store(addr: nat, x: nat) returns (ok: bool)
      requires Valid() && cur.Some? && addr % 4 == 0 && addr < KSEG0
      modifies this`spaces, cm, cm.entries, phys, tlb
      ensures ok ==> Valid() && cur.value in old(Flats())
      ensures ok ==> Flats() == PutPage(old(Flats()), cur.value, addr / PAGE_SIZE,
                                        PutWord(old(Flats())[cur.value][addr / PAGE_SIZE], addr, x))
      ensures !ok <==> old(Probe(tlb[..], addr / PAGE_SIZE) == -1
                           && FaultAnswer(VM_FAULT_WRITE, addr, cur, spaces, cm.entries[..], tlb[..]) != Served)
      ensures AccessStep(old(State()), addr) == if ok then Some(State()) else None
    {
      hide CoreOk, CountFree, OwnedOk, Caches, AccessStep;
      var f := Access(VM_FAULT_WRITE, addr);
      if f == None { return false; }
      ghost var a, v, ph := cur.value, addr / PAGE_SIZE, phys[..];
      FrameInRam(spaces, cm.runs, phys.Length, a, v);
      WriteChangesOne(spaces, cm.runs, a, v, PutWord(phys[f.value], addr, x), ph);
      assert Flats()[a] == Flat(spaces[a], phys[..]);
      phys[f.value] := PutWord(phys[f.value], addr, x);
      assert phys[..] == ph[f.value := PutWord(ph[f.value], addr, x)];
      ok := true;
    }

    /** as_create, as space number b: fails iff no frame is free. */
    method AsCreate(b: nat) returns (ok: bool)
      requires Valid() && b !in spaces
      modifies this`spaces, cm, cm.entries
      ensures Valid()
      ensures ok <==> old(cm.pageleft) >= 1
      ensures !ok ==> spaces == old(spaces) && Flats() == old(Flats()) && cm.runs == old(cm.runs)
      ensures cm.spl == if ok then old(cm.spl) else SPL_HIGH
      ensures ok <==> Lowest(old(cm.runs), cm.entries.Length, SPACE_FRAMES).Some?
      ensures ok ==> var f := Lowest(old(cm.runs), cm.entries.Length, SPACE_FRAMES).value;
                     spaces == old(spaces)[b := Space(f, map[])] && cm.runs == old(cm.runs)[f := SPACE_FRAMES]
      ensures ok ==> exists z: seq<Data> :: |z| == PAGES && (forall v | 0 <= v < PAGES :: z[v] == ZERO)
                                            && Flats() == old(Flats())[b := z]
    {
      hide CoreOk, CountFree, OwnedOk, AddsClaim, FlatAll, Caches, Lowest;
      ghost var sps, es := spaces, cm.entries[..];
      OneFrame(es);
      var f := AllocKpages(SPACE_FRAMES);
      if f == -1 { return false; }
      WindowCounts(es, f, 1);
      NewSpaceFacts(spaces, b, f, phys[..]);
      spaces := spaces[b := Space(f, map[])];
      KeepNew(sps, spaces, old(cm.runs), phys.Length, b, f, tlb[..], cur);
      assert Flats() == old(Flats())[b := Flat(Space(f, map[]), phys[..])];
      ok := true;
    }

    /** Context switch: the next thread's space becomes current; as_activate empties the TLB if there is one. */
    method Switch(next: Option<nat>)
      requires Valid() && (next.Some? ==> next.value in spaces)
      modifies this`cur, tlb
      ensures Valid() && cur == next && Flats() == old(Flats())
      ensures next.Some? ==> tlb[..] == Emptied()
      ensures next.None? ==> tlb[..] == old(tlb[..])
    {
      hide CoreOk, CountFree, OwnedOk, FlatAll;
      cur := next;
      if next.None? { return; }
      for i := 0 to NUM_TLB
        invariant forall j | 0 <= j < i :: tlb[j] == Slot(false, 0x80000 + j, 0, false)
        modifies tlb
      {
        tlb[i] := Slot(false, 0x80000 + i, 0, false);
      }
    }

    /** The body of as_copy's inner loop: give page v of space b its own frame with a copy of a's page. */
    method CopyPage(a: nat, b: nat, v: nat) returns (ok: bool)
      requires Valid() && a in spaces && b in spaces && a != b && v < PAGES
      requires Mapped(spaces[a], v) && v / LEAF in spaces[b].tables && !Mapped(spaces[b], v)
      modifies this`spaces, cm, cm.entries, phys
      ensures ok <==> old(cm.pageleft) >= 1
      ensures !ok ==> forall s: nat :: !FreeWindow(cm.entries[..], s, 1)
      ensures ok ==> Valid() && a in old(Flats()) && b in old(Flats())
      ensures ok ==> Flats() == PutPage(old(Flats()), b, v, old(Flats())[a][v])
      ensures ok <==> Lowest(old(cm.runs), cm.entries.Length, 1).Some?
      ensures ok ==> var f := Lowest(old(cm.runs), cm.entries.Length, 1).value;
                     spaces == old(spaces)[b := SetEntry(old(spaces)[b], v / LEAF, v % LEAF, f)] && cm.runs == old(cm.runs)[f := 1]
      ensures ok ==> cm.spl == old(cm.spl)
    {
      hide CoreOk, CountFree, OwnedOk, AddsClaim, Caches, SetEntry, Lowest;
      ghost var sps, ph, es := spaces, phys[..], cm.entries[..];
      SpaceShape(spaces, cm.runs, phys.Length, b);
      OneFrame(es);
      FrameInRam(spaces, cm.runs, phys.Length, a, v);
      var f := AllocKpages(1);
      if f == -1 { return false; }
      WindowCounts(es, f, 1);
      Unclaimed(sps, old(cm.runs), phys.Length, f);
      SetEntryFacts(spaces, b, v, f);
      ghost var d := phys[Frame(spaces[a], v)];
      CopyMapPutsPage(sps, a, b, v, f, ph);
      phys[f] := phys[Frame(spaces[a], v)];
      spaces := spaces[b := SetEntry(spaces[b], v / LEAF, v % LEAF, f)];
      assert phys[..] == ph[f := d];
      Keep(sps, spaces, old(cm.runs), phys.Length, OfPage(b, v), f, b, tlb[..], cur);
      ok := true;
    }

    /** One round of as_copy's outer loop: table i of space b, and a frame for each page that a has there. */
    method CopyTable(a: nat, b: nat, i: nat, ghost flats0: map<nat, seq<Data>>) returns (ok: bool)
      requires Valid() && a in spaces && b in spaces && a != b && i < DIR
      requires i in spaces[a].tables && i !in spaces[b].tables && UnmappedFrom(spaces[b], i * LEAF)
      requires CopyAt(flats0, Flats(), a, b, i * LEAF)
      modifies this`spaces, cm, cm.entries, phys
      ensures ok ==> Valid() && a in spaces && b in spaces && spaces[a] == old(spaces)[a] && spaces.Keys == old(spaces).Keys
      ensures ok ==> CopyAt(flats0, Flats(), a, b, (i + 1) * LEAF) && UnmappedFrom(spaces[b], (i + 1) * LEAF)
      ensures ok ==> spaces[b].tables.Keys == old(spaces)[b].tables.Keys + {i}
      ensures ok ==> spaces == old(spaces)[b := spaces[b]] && cm.spl == old(cm.spl)
      ensures CopyOneTable(old(spaces)[a], old(spaces)[b], old(cm.runs), cm.entries.Length, i) ==
              if ok then Some((spaces[b], cm.runs)) else None
    {
      hide CoreOk, CountFree, OwnedOk, FlatAll, Caches, Prefix, Lowest, TableStep, CopyPages, SetEntry;
      ok := EnsureTable(b, i);
      if !ok { return; }
      ghost var keys, nb, runs := spaces[b].tables.Keys, spaces[b], cm.runs;
      for j := 0 to LEAF
        invariant Valid() && a in spaces && b in spaces && spaces[a] == old(spaces)[a] && spaces.Keys == old(spaces).Keys
        invariant i in spaces[b].tables && spaces[b].tables.Keys == keys && spaces == old(spaces)[b := spaces[b]] && cm.spl == old(cm.spl)
        invariant CopyPages(spaces[a], spaces[b], cm.runs, cm.entries.Length, i, j) == CopyPages(spaces[a], nb, runs, cm.entries.Length, i, 0)
        invariant CopyAt(flats0, Flats(), a, b, i * LEAF + j) && UnmappedFrom(spaces[b], i * LEAF + j)
      {
        ghost var v := i * LEAF + j;
        Indices(i, j);
        NextCopied(spaces[a], spaces[b], cm.runs, cm.entries.Length, i, j);
        if j in spaces[a].tables[i].entry {
          ghost var sb, f := spaces[b], Lowest(cm.runs, cm.entries.Length, 1);
          SpaceShape(spaces, cm.runs, phys.Length, b);
          ghost var sps := spaces;
          ok := CopyPage(a, b, i * LEAF + j);
          if !ok { return; }
          SetEntryFacts(sps, b, v, f.value);
          EntryKeepsTables(sb, i, j, f.value);
          CopyNext(flats0, a, b, v);
        } else {
          UnmappedIsZero(spaces, phys[..], a, v);
          CopySkip(flats0, Flats(), a, b, v);
        }
      }
      AllCopied(spaces[a], spaces[b], cm.runs, cm.entries.Length, i);
      ok := true;
    }

    /** as_copy: a new space b that sees exactly what a sees, in frames of its own. */
    method AsCopy(a: nat, b: nat) returns (r: CopyResult)
      requires Valid() && a in spaces && b !in spaces
      modifies this`spaces, cm, cm.entries, phys
      ensures r == Enomem <==> old(cm.pageleft) == 0
      ensures r == Enomem ==> Valid() && Flats() == old(Flats())
      ensures r == Copied ==> b in spaces
      ensures r == Copied <==> GrabAll(old(cm.runs), cm.entries.Length, Demands(old(spaces)[a])).Some?
      ensures CopySpace(old(spaces)[a], old(cm.runs), cm.entries.Length) == if r == Copied then Some((spaces[b], cm.runs)) else None
      ensures r == Copied ==> spaces == old(spaces)[b := spaces[b]]
      ensures r == Copied ==> cm.spl == old(cm.spl)
      ensures r == Enomem ==> cm.spl == SPL_HIGH && spaces == old(spaces) && cm.runs == old(cm.runs)
      ensures r == Copied ==> Valid() && a in old(Flats()) && Flats() == old(Flats())[b := old(Flats())[a]]
      ensures r == Copied ==> forall u: nat, v: nat | Mapped(spaces[b], v) && a in spaces && Mapped(spaces[a], u) ::
                Frame(spaces[b], v) != Frame(spaces[a], u)
    {
      hide CoreOk, CountFree, OwnedOk, FlatAll, Caches, Prefix, Lowest, CopyTables, CopyOneTable, GrabAll, Demands;
      CopyIsGrab(spaces[a], cm.runs, cm.entries.Length);
      ghost var flats0 := Flats();
      FlatAllAt(spaces, phys[..], a, 0);
      var ok := AsCreate(b);
      if !ok { return Enomem; }
      CopyStart(flats0, Flats(), a, b);
      for i := 0 to DIR
        invariant Valid() && a in spaces && b in spaces && spaces[a] == old(spaces)[a]
        invariant CopyAt(flats0, Flats(), a, b, i * LEAF) && UnmappedFrom(spaces[b], i * LEAF)
        invariant forall k | k in spaces[b].tables :: k < i
        invariant spaces == old(spaces)[b := spaces[b]] && cm.spl == old(cm.spl)
        invariant CopyTables(spaces[a], spaces[b], cm.runs, cm.entries.Length, i) == CopySpace(spaces[a], old(cm.runs), cm.entries.Length)
      {
        NextTable(spaces[a], spaces[b], cm.runs, cm.entries.Length, i);
        if i in spaces[a].tables {
          ok := CopyTable(a, b, i, flats0);
          if !ok { return CopyCrashed; }
        } else {
          EmptyTableIsZero(spaces, phys[..], a, i);
          CopySkipTable(flats0, Flats(), a, b, i);
        }
      }
      AllTables(spaces[a], spaces[b], cm.runs, cm.entries.Length);
      CopyEnd(flats0, Flats(), a, b);
      FramesDiffer(spaces, cm.runs, phys.Length, a, b);
      r := Copied;
    }

    /** free_kpages for the run that starts at frame f. */
    method FreeRun(f: nat)
      requires cm.Valid() && f in cm.runs
      modifies cm, cm.entries
      ensures cm.Valid() && cm.runs == old(cm.runs) - {f} && cm.spl == old(cm.spl)
      ensures cm.pageleft == old(cm.pageleft) + old(cm.runs)[f]
    {
      cm.FreeKpages(KSEG0 + cm.base + PAGE_SIZE * f, f);
    }

    /** One round of freepagetable: the frames of the pages of table i, then the table. */
    method FreeTable(sp: Space, i: nat, ghost sps: map<nat, Space>, ghost a: nat, ghost runs0: map<nat, nat>)
      requires cm.Valid() && i < DIR && a in sps && sps[a] == sp && OwnedOk(sps, runs0, phys.Length)
      requires cm.runs == runs0 - Held(sp, i * LEAF, i) && i in sp.tables
      modifies cm, cm.entries
      ensures cm.Valid() && cm.spl == old(cm.spl)
      ensures cm.runs == runs0 - Held(sp, (i + 1) * LEAF, i + 1)
    {
      hide OwnedOk, CoreOk, CountFree;
      for j := 0 to LEAF
        invariant cm.Valid() && cm.spl == old(cm.spl)
        invariant cm.runs == runs0 - Held(sp, i * LEAF + j, i)
      {
        ghost var v := i * LEAF + j;
        Indices(i, j);
        if j in sp.tables[i].entry {
          PageStillHeld(sps, a, runs0, phys.Length, v, i);
          FreeRun(sp.tables[i].entry[j]);
          HeldNextPage(sp, v, i);
        } else {
          HeldNextPage(sp, v, i);
        }
      }
      TableStillHeld(sps, a, runs0, phys.Length, (i + 1) * LEAF, i);
      FreeRun(sp.tables[i].run);
      HeldNextTable(sp, (i + 1) * LEAF, i);
    }

    /** as_destroy: gives back exactly the frames that the space, its tables and its pages held. */
    method AsDestroy(a: nat)
      requires Valid() && a in spaces && cur != Some(a)
      modifies this`spaces, cm, cm.entries
      ensures Valid() && spaces == old(spaces) - {a} && cm.spl == old(cm.spl)
      ensures Flats() == old(Flats()) - {a}
      ensures forall f: nat :: f in cm.runs <==> f in old(cm.runs) && !ClaimedBy(old(spaces), a, f)
      ensures cm.runs == old(cm.runs) - Held(old(spaces)[a], PAGES, DIR) - {old(spaces)[a].run}
    {
      hide OwnedOk, CoreOk, CountFree, FlatAll, Caches;
      ghost var sps, runs0 := spaces, cm.runs;
      var sp := spaces[a];
      assert Held(sp, 0, 0) == {};
      for i := 0 to DIR
        invariant cm.Valid() && cm.spl == old(cm.spl) && spaces == sps
        invariant cm.runs == runs0 - Held(sp, i * LEAF, i)
      {
        if i in sp.tables {
          FreeTable(sp, i, sps, a, runs0);
        } else {
          HeldSkip(sp, i);
        }
      }
      SpaceStillHeld(sps, a, runs0, phys.Length);
      FreeRun(sp.run);
      spaces := spaces - {a};
      HeldIsClaimed(sps, runs0, phys.Length, a);
      DropSpace(sps, runs0, phys.Length, a, phys[..]);
    }
  }

  /** as_copy succeeds if one window of the coremap is as large as all that the copy asks for. */
  lemma {:induction false} WindowCopies(es: seq<Entry>, runs: Runs, sp: Space, s: nat)
    requires CoreOk(es, runs) && FreeWindow(es, s, Sum(Demands(sp)))
    ensures GrabAll(runs, |es|, Demands(sp)).Some?
  {
    hide CoreOk, Demands;
    WindowIsOpen(es, runs, s, Sum(Demands(sp)));
    WindowSuffices(runs, |es|, s, Demands(sp));
  }

  /** vm_bootstrap on the RAM in [lowest, highest): at most 204 pages, so that every frame it lays out is memory. */
  method Boot(lowest: nat, highest: nat) returns (m: Machine)
    requires lowest % PAGE_SIZE == 0 && highest % PAGE_SIZE == 0 && lowest + PAGE_SIZE <= highest
    requires (highest - lowest) / PAGE_SIZE <= 204
    ensures m.Valid() && m.ramtop == highest && m.spaces == map[] && m.cur == None && m.cm.runs == map[]
    ensures m.cm.entries.Length == BootFrames(lowest, highest) && m.cm.base == BootBase(lowest, highest)
    ensures forall i | 0 <= i < NUM_TLB :: !m.tlb[i].valid
  {
    hide CoreOk, CountFree;
    FramesInRamIff(lowest, highest);
    var cm := new CoreMap(BootFrames(lowest, highest), lowest, BootBase(lowest, highest));
    var ram := new Data[BootFrames(lowest, highest)](_ => ZERO);
    m := new Machine(cm, highest, ram);
  }

  /** Space a, one of its tables or one of its pages has the run at f. */
  ghost predicate ClaimedBy(sps: map<nat, Space>, a: nat, f: nat) {
    exists o: Owner :: o.a == a && Claims(sps, o, f)
  }

  /** The runs of the pages below n and of the tables below i. */
  ghost function Held(sp: Space, n: nat, i: nat): set<nat> {
    (set v | 0 <= v < n && Mapped(sp, v) :: Frame(sp, v)) + (set k | 0 <= k < i && k in sp.tables :: sp.tables[k].run)
  }

  lemma PageStillHeld(sps: map<nat, Space>, a: nat, runs: map<nat, nat>, frames: nat, v: nat, i: nat)
    requires OwnedOk(sps, runs, frames) && a in sps && Mapped(sps[a], v)
    ensures Frame(sps[a], v) in runs - Held(sps[a], v, i)
  {
    var sp, f := sps[a], Frame(sps[a], v);
    assert Claims(sps, OfPage(a, v), f);
    forall u: nat | u < v && Mapped(sp, u) ensures Frame(sp, u) != f { assert Claims(sps, OfPage(a, u), Frame(sp, u)); }
    forall k: nat | k in sp.tables ensures sp.tables[k].run != f { assert Claims(sps, OfTable(a, k), sp.tables[k].run); }
  }

  lemma TableStillHeld(sps: map<nat, Space>, a: nat, runs: map<nat, nat>, frames: nat, n: nat, i: nat)
    requires OwnedOk(sps, runs, frames) && a in sps && i in sps[a].tables
    ensures sps[a].tables[i].run in runs - Held(sps[a], n, i)
  {
    var sp, f := sps[a], sps[a].tables[i].run;
    assert Claims(sps, OfTable(a, i), f);
    forall u: nat | Mapped(sp, u) ensures Frame(sp, u) != f { assert Claims(sps, OfPage(a, u), Frame(sp, u)); }
    forall k: nat | k < i && k in sp.tables ensures sp.tables[k].run != f { assert Claims(sps, OfTable(a, k), sp.tables[k].run); }
  }

  lemma SpaceStillHeld(sps: map<nat, Space>, a: nat, runs: map<nat, nat>, frames: nat)
    requires OwnedOk(sps, runs, frames) && a in sps
    ensures sps[a].run in runs - Held(sps[a], PAGES, DIR)
  {
    var sp, f := sps[a], sps[a].run;
    assert Claims(sps, OfSpace(a), f);
    forall u: nat | Mapped(sp, u) ensures Frame(sp, u) != f { assert Claims(sps, OfPage(a, u), Frame(sp, u)); }
    forall k: nat | k in sp.tables ensures sp.tables[k].run != f { assert Claims(sps, OfTable(a, k), sp.tables[k].run); }
  }

  lemma HeldNextPage(sp: Space, v: nat, i: nat)
    ensures Held(sp, v + 1, i) == Held(sp, v, i) + (if Mapped(sp, v) then {Frame(sp, v)} else {})
  {
  }

  lemma HeldNextTable(sp: Space, n: nat, i: nat)
    requires i in sp.tables
    ensures Held(sp, n, i + 1) == Held(sp, n, i) + {sp.tables[i].run}
  {
  }

  lemma HeldSkip(sp: Space, i: nat)
    requires i !in sp.tables && i < DIR
    ensures Held(sp, (i + 1) * LEAF, i + 1) == Held(sp, i * LEAF, i)
  {
    assert forall v: nat | i * LEAF <= v < (i + 1) * LEAF :: !Mapped(sp, v);
  }

  /** What as_destroy gives back is what owners of space a claim. */
  lemma {:induction false} HeldIsClaimed(sps: map<nat, Space>, runs: map<nat, nat>, frames: nat, a: nat)
    requires OwnedOk(sps, runs, frames) && a in sps
    ensures forall f: nat :: ClaimedBy(sps, a, f) <==> f in Held(sps[a], PAGES, DIR) || f == sps[a].run
  {
    var sp := sps[a];
    assert ShapeOk(sp);
    forall f: nat | f in Held(sp, PAGES, DIR) || f == sp.run ensures ClaimedBy(sps, a, f) {
      if f == sp.run { assert Claims(sps, OfSpace(a), f); }
      else if v: nat :| Mapped(sp, v) && Frame(sp, v) == f { assert Claims(sps, OfPage(a, v), f); }
      else { var k: nat :| k in sp.tables && sp.tables[k].run == f; assert Claims(sps, OfTable(a, k), f); }
    }
    forall o: Owner, f: nat | o.a == a && Claims(sps, o, f) ensures f in Held(sp, PAGES, DIR) || f == sp.run {
      match o
      case OfSpace(_) =>
      case OfTable(_, k) => assert k in sp.tables && k < DIR;
      case OfPage(_, v) =>
        assert v / LEAF in sp.tables && v / LEAF < DIR;
        assert v < PAGES;
    }
  }

  /** The other spaces own what they owned and see what they saw. */
  lemma {:induction false} DropSpace(sps: map<nat, Space>, runs: map<nat, nat>, frames: nat, a: nat, phys: seq<Data>)
    requires OwnedOk(sps, runs, frames) && a in sps
    requires forall f: nat :: ClaimedBy(sps, a, f) <==> f in Held(sps[a], PAGES, DIR) || f == sps[a].run
    ensures OwnedOk(sps - {a}, runs - Held(sps[a], PAGES, DIR) - {sps[a].run}, frames)
    ensures FlatAll(sps - {a}, phys) == FlatAll(sps, phys) - {a}
  {
    hide Held;
    var sps', runs' := sps - {a}, runs - Held(sps[a], PAGES, DIR) - {sps[a].run};
    assert forall o: Owner, f: nat :: Claims(sps', o, f) <==> Claims(sps, o, f) && o.a != a;
    forall o: Owner, f: nat | Claims(sps', o, f) ensures f in runs' && runs'[f] == Length(o) && f < frames {
      assert Claims(sps, o, f);
      assert !ClaimedBy(sps, a, f);
    }
  }

  /** Space b sees the first n pages that a saw at first, then zeros; every other space is as at first. */
  ghost predicate CopyAt(flats0: map<nat, seq<Data>>, flats: map<nat, seq<Data>>, a: nat, b: nat, n: nat) {
    a in flats0 && |flats0[a]| == PAGES && flats == flats0[b := Prefix(flats0[a], n)]
  }

  lemma CopyStart(flats0: map<nat, seq<Data>>, flats: map<nat, seq<Data>>, a: nat, b: nat)
    requires a in flats0 && |flats0[a]| == PAGES
    requires exists z: seq<Data> :: |z| == PAGES && (forall v | 0 <= v < PAGES :: z[v] == ZERO) && flats == flats0[b := z]
    ensures CopyAt(flats0, flats, a, b, 0)
  {
    var z: seq<Data> :| |z| == PAGES && (forall v | 0 <= v < PAGES :: z[v] == ZERO) && flats == flats0[b := z];
    assert z == Prefix(flats0[a], 0);
  }

  lemma CopyNext(flats0: map<nat, seq<Data>>, a: nat, b: nat, v: nat)
    requires a in flats0 && |flats0[a]| == PAGES && v < PAGES && a != b
    ensures var flats := flats0[b := Prefix(flats0[a], v)];
            CopyAt(flats0, PutPage(flats, b, v, flats[a][v]), a, b, v + 1)
  {
    var p, q := Prefix(flats0[a], v), Prefix(flats0[a], v + 1);
    assert p[v := flats0[a][v]] == q;
  }

  lemma CopySkip(flats0: map<nat, seq<Data>>, flats: map<nat, seq<Data>>, a: nat, b: nat, v: nat)
    requires CopyAt(flats0, flats, a, b, v) && v < PAGES && a != b && flats[a][v] == ZERO
    ensures CopyAt(flats0, flats, a, b, v + 1)
  {
    assert Prefix(flats0[a], v) == Prefix(flats0[a], v + 1);
  }

  lemma CopySkipTable(flats0: map<nat, seq<Data>>, flats: map<nat, seq<Data>>, a: nat, b: nat, i: nat)
    requires CopyAt(flats0, flats, a, b, i * LEAF) && i < DIR && a != b
    requires forall v: nat | i * LEAF <= v < (i + 1) * LEAF :: flats[a][v] == ZERO
    ensures CopyAt(flats0, flats, a, b, (i + 1) * LEAF)
  {
    var p, q := Prefix(flats0[a], i * LEAF), Prefix(flats0[a], (i + 1) * LEAF);
    forall v: nat | v < PAGES ensures p[v] == q[v] {
      if i * LEAF <= v < (i + 1) * LEAF { assert flats[a][v] == ZERO; }
    }
    assert p == q;
  }

  lemma CopyEnd(flats0: map<nat, seq<Data>>, flats: map<nat, seq<Data>>, a: nat, b: nat)
    requires CopyAt(flats0, flats, a, b, PAGES)
    ensures flats == flats0[b := flats0[a]]
  {
    assert Prefix(flats0[a], PAGES) == flats0[a];
  }

  lemma Indices(i: nat, j: nat)
    requires i < DIR && j < LEAF
    ensures (i * LEAF + j) / LEAF == i && (i * LEAF + j) % LEAF == j && i * LEAF + j < PAGES
  {
  }

  lemma UnmappedIsZero(spaces: map<nat, Space>, phys: seq<Data>, a: nat, v: nat)
    requires a in spaces && v < PAGES && !Mapped(spaces[a], v)
    ensures a in FlatAll(spaces, phys) && FlatAll(spaces, phys)[a][v] == ZERO
  {
  }

  lemma EmptyTableIsZero(spaces: map<nat, Space>, phys: seq<Data>, a: nat, i: nat)
    requires a in spaces && i < DIR && i !in spaces[a].tables
    ensures a in FlatAll(spaces, phys)
    ensures forall v: nat | i * LEAF <= v < (i + 1) * LEAF :: FlatAll(spaces, phys)[a][v] == ZERO
  {
    forall v: nat | i * LEAF <= v < (i + 1) * LEAF ensures FlatAll(spaces, phys)[a][v] == ZERO {
      Indices(i, v - i * LEAF);
      UnmappedIsZero(spaces, phys, a, v);
    }
  }

  /** One step of the page loop of a copy. */
  lemma NextCopied(sp: Space, nb: Space, runs: Runs, frames: nat, i: nat, j: nat)
    requires i in sp.tables && i in nb.tables && j < LEAF
    ensures CopyPages(sp, nb, runs, frames, i, j) ==
            if j !in sp.tables[i].entry then CopyPages(sp, nb, runs, frames, i, j + 1)
            else match Lowest(runs, frames, 1)
              case None => None
              case Some(f) => CopyPages(sp, SetEntry(nb, i, j, f), runs[f := 1], frames, i, j + 1)
  {
  }

  lemma AllCopied(sp: Space, nb: Space, runs: Runs, frames: nat, i: nat)
    requires i in sp.tables && i in nb.tables
    ensures CopyPages(sp, nb, runs, frames, i, LEAF) == Some((nb, runs))
  {
  }

  lemma NextTable(sp: Space, nb: Space, runs: Runs, frames: nat, i: nat)
    requires i < DIR
    ensures CopyTables(sp, nb, runs, frames, i) ==
            if i !in sp.tables then CopyTables(sp, nb, runs, frames, i + 1)
            else match CopyOneTable(sp, nb, runs, frames, i)
              case None => None
              case Some(t) => CopyTables(sp, t.0, t.1, frames, i + 1)
  {
  }

  lemma AllTables(sp: Space, nb: Space, runs: Runs, frames: nat)
    ensures CopyTables(sp, nb, runs, frames, DIR) == Some((nb, runs))
  {
  }

  lemma EntryKeepsTables(sp: Space, i: nat, j: nat, f: nat)
    requires i in sp.tables
    ensures SetEntry(sp, i, j, f).tables.Keys == sp.tables.Keys
  {
  }

  lemma {:induction false} FramesDiffer(spaces: map<nat, Space>, runs: map<nat, nat>, frames: nat, a: nat, b: nat)
    requires OwnedOk(spaces, runs, frames) && a in spaces && b in spaces && a != b
    ensures forall u: nat, v: nat | Mapped(spaces[b], v) && Mapped(spaces[a], u) :: Frame(spaces[b], v) != Frame(spaces[a], u)
  {
    forall u: nat, v: nat | Mapped(spaces[b], v) && Mapped(spaces[a], u)
      ensures Frame(spaces[b], v) != Frame(spaces[a], u)
    {
      assert Claims(spaces, OfPage(b, v), Frame(spaces[b], v)) && Claims(spaces, OfPage(a, u), Frame(spaces[a], u));
    }
  }

  lemma {:induction false} KeepNew(sps: map<nat, Space>, sps': map<nat, Space>, runs: map<nat, nat>, frames: nat, b: nat, f: nat, tlb: seq<Slot>, cur: Option<nat>)
    requires OwnedOk(sps, runs, frames) && AddsClaim(sps, sps', OfSpace(b), f) && f !in runs && f < frames
    requires b !in sps && b in sps' && sps' == sps[b := sps'[b]] && ShapeOk(sps'[b])
    requires TlbOk(tlb, sps, cur)
    ensures OwnedOk(sps', runs[f := SPACE_FRAMES], frames) && TlbOk(tlb, sps', cur)
  {
    hide AddsClaim, Caches;
    forall c | c in sps' ensures ShapeOk(sps'[c]) { if c != b { SpaceShape(sps, runs, frames, c); } }
    AddKeepsOwned(sps, sps', runs, frames, OfSpace(b), f);
  }

  /** Mapping page v of b to a free frame that holds a copy of a's page v puts that page, and changes no other view. */
  lemma {:induction false} CopyMapPutsPage(spaces: map<nat, Space>, a: nat, b: nat, v: nat, f: nat, phys: seq<Data>)
    requires a in spaces && b in spaces && a != b && v < PAGES && Mapped(spaces[a], v) && Frame(spaces[a], v) < |phys|
    requires v / LEAF in spaces[b].tables && !Mapped(spaces[b], v) && ShapeOk(spaces[b])
    requires f < |phys| && forall o: Owner :: !Claims(spaces, o, f)
    ensures var phys' := phys[f := phys[Frame(spaces[a], v)]];
            FlatAll(spaces[b := SetEntry(spaces[b], v / LEAF, v % LEAF, f)], phys')
            == PutPage(FlatAll(spaces, phys), b, v, FlatAll(spaces, phys)[a][v])
  {
    var d := phys[Frame(spaces[a], v)];
    var phys' := phys[f := d];
    var sps' := spaces[b := SetEntry(spaces[b], v / LEAF, v % LEAF, f)];
    SetEntryFacts(spaces, b, v, f);
    hide SetEntry, FlatAll;
    forall c, u: nat | c in spaces && u < PAGES
      ensures View(sps'[c], phys', u) == if c == b && u == v then d else View(spaces[c], phys, u)
    {
      if Mapped(spaces[c], u) { assert !Claims(spaces, OfPage(c, u), f); }
    }
    FlatAllPut(spaces, phys, sps', phys', b, v, d);
    FlatAllAt(spaces, phys, a, v);
  }

  lemma FrameInRam(spaces: map<nat, Space>, runs: map<nat, nat>, frames: nat, a: nat, v: nat)
    requires OwnedOk(spaces, runs, frames) && a in spaces && Mapped(spaces[a], v)
    ensures Frame(spaces[a], v) < frames
  {
    assert Claims(spaces, OfPage(a, v), Frame(spaces[a], v));
  }

  /** Four free frames in a row are four free frames. */
  lemma FourNeedsFour(es: seq<Entry>)
    ensures (exists s: nat :: FreeWindow(es, s, TABLE_FRAMES)) ==> CountFree(es) >= TABLE_FRAMES
  {
    if s: nat :| FreeWindow(es, s, TABLE_FRAMES) { WindowCounts(es, s, TABLE_FRAMES); }
  }

  lemma SameMapped(sp: Space, sp': Space, v: nat)
    requires Extends(sp, sp') && Extends(sp', sp)
    ensures Mapped(sp, v) <==> Mapped(sp', v)
  {
  }

  lemma OneFrame(es: seq<Entry>)
    ensures CountFree(es) >= 1 <==> exists s: nat :: FreeWindow(es, s, 1)
  {
    if CountFree(es) >= 1 { var s := SomeFree(es); assert FreeWindow(es, s, 1); }
    if s: nat :| FreeWindow(es, s, 1) { WindowCounts(es, s, 1); }
  }

  lemma {:induction false} SomeFree(es: seq<Entry>) returns (i: nat)
    requires CountFree(es) >= 1
    ensures i < |es| && !es[i].taken
  {
    var n := |es| - 1;
    if es[n].taken { i := SomeFree(es[..n]); } else { i := n; }
  }

  lemma Unclaimed(spaces: map<nat, Space>, runs: map<nat, nat>, frames: nat, f: nat)
    requires OwnedOk(spaces, runs, frames) && f !in runs
    ensures forall o: Owner :: !Claims(spaces, o, f)
  {
  }

  lemma SpaceShape(spaces: map<nat, Space>, runs: map<nat, nat>, frames: nat, a: nat)
    requires OwnedOk(spaces, runs, frames) && a in spaces
    ensures ShapeOk(spaces[a])
  {
  }

  /** Adding one claim of space a, and otherwise only extending it, keeps ownership and the TLB. */
  lemma {:induction false} Keep(sps: map<nat, Space>, sps': map<nat, Space>, runs: map<nat, nat>, frames: nat, o: Owner, f: nat, a: nat, tlb: seq<Slot>, cur: Option<nat>)
    requires OwnedOk(sps, runs, frames) && AddsClaim(sps, sps', o, f) && f !in runs && f < frames
    requires a in sps && a in sps' && sps' == sps[a := sps'[a]] && ShapeOk(sps'[a]) && Extends(sps[a], sps'[a])
    requires TlbOk(tlb, sps, cur)
    ensures OwnedOk(sps', runs[f := Length(o)], frames) && TlbOk(tlb, sps', cur)
  {
    hide AddsClaim, Caches;
    assert forall b | b in sps' :: ShapeOk(sps'[b]) by {
      forall b | b in sps' ensures ShapeOk(sps'[b]) { if b != a { SpaceShape(sps, runs, frames, b); } }
    }
    AddKeepsOwned(sps, sps', runs, frames, o, f);
    if cur == Some(a) { CachesExtend(tlb, sps[a], sps'[a]); }
  }
}
