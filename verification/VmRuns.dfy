/**
  Paging refines flat memory: whatever a run of user accesses, context switches, forks and exits
  reads through the TLB and the page tables is what separate zero-filled flat memories would give.
 */
module VmRuns {
  import opened Basics
  import opened PageTables
  import opened Coremap
  import opened Frames
  import opened Vm

  datatype Op =
    | DoLoad(addr: nat)
    | DoStore(addr: nat, x: nat)
    | DoSwitch(next: Option<nat>)
    | DoCreate(b: nat)
    | DoFork(a: nat, b: nat)
    | DoDestroy(a: nat)

  /** The reference machine: one flat memory per space. */
  datatype FlatState = FlatState(mem: map<nat, seq<Data>>, cur: Option<nat>)

  ghost predicate FlatOk(st: FlatState) {
    && (forall a | a in st.mem :: |st.mem[a]| == PAGES)
    && (st.cur.Some? ==> st.cur.value in st.mem)
  }

  /** What a program may do next. */
  ghost predicate Legal(st: FlatState, op: Op) { LegalFor(st.mem.Keys, st.cur, op) }

  /** ... with the spaces in ids, cur being the current one. */
  predicate LegalFor(ids: set<nat>, cur: Option<nat>, op: Op) {
    match op
    case DoLoad(addr) => cur.Some? && addr % 4 == 0 && addr < KSEG0
    case DoStore(addr, _) => cur.Some? && addr % 4 == 0 && addr < KSEG0
    case DoSwitch(next) => next.Some? ==> next.value in ids
    case DoCreate(b) => b !in ids
    case DoFork(a, b) => a in ids && b !in ids
    case DoDestroy(a) => a in ids && cur != Some(a)
  }

  function ZeroMemory(): (r: seq<Data>)
    ensures |r| == PAGES && forall v | 0 <= v < PAGES :: r[v] == ZERO
  {
    seq(PAGES, v => ZERO)
  }

  ghost function FlatStep(st: FlatState, op: Op): (r: FlatState)
    requires FlatOk(st) && Legal(st, op)
    ensures FlatOk(r)
  {
    match op
    case DoLoad(_) => st
    case DoStore(addr, x) =>
      var v := addr / PAGE_SIZE;
      st.(mem := PutPage(st.mem, st.cur.value, v, PutWord(st.mem[st.cur.value][v], addr, x)))
    case DoSwitch(next) => st.(cur := next)
    case DoCreate(b) => st.(mem := st.mem[b := ZeroMemory()])
    case DoFork(a, b) => st.(mem := st.mem[b := st.mem[a]])
    case DoDestroy(a) => st.(mem := st.mem - {a})
  }

  /** The word a load reads; other operations answer 0. */
  ghost function FlatOut(st: FlatState, op: Op): nat
    requires FlatOk(st) && Legal(st, op)
  {
    if op.DoLoad? then WordAt(st.mem[st.cur.value], op.addr) else 0
  }

  /** ops is a run from st: each operation is legal where it is reached. */
  ghost predicate LegalRun(st: FlatState, ops: seq<Op>)
    decreases |ops|, 0
  {
    FlatOk(st) && (ops != [] ==>
      LegalRun(st, ops[..|ops| - 1]) && Legal(FlatEnd(st, ops[..|ops| - 1]), ops[|ops| - 1]))
  }

  ghost function FlatEnd(st: FlatState, ops: seq<Op>): (r: FlatState)
    requires LegalRun(st, ops)
    ensures FlatOk(r)
    decreases |ops|, 1
  {
    if ops == [] then st else FlatStep(FlatEnd(st, ops[..|ops| - 1]), ops[|ops| - 1])
  }

  ghost function FlatOuts(st: FlatState, ops: seq<Op>): (r: seq<nat>)
    requires LegalRun(st, ops)
    ensures |r| == |ops|
  {
    if ops == [] then []
    else FlatOuts(st, ops[..|ops| - 1]) + [FlatOut(FlatEnd(st, ops[..|ops| - 1]), ops[|ops| - 1])]
  }

  lemma {:induction false} LegalPrefix(st: FlatState, ops: seq<Op>, k: nat)
    requires LegalRun(st, ops) && k < |ops|
    ensures LegalRun(st, ops[..k]) && Legal(FlatEnd(st, ops[..k]), ops[k])
    ensures LegalRun(st, ops[..k + 1]) && FlatEnd(st, ops[..k + 1]) == FlatStep(FlatEnd(st, ops[..k]), ops[k])
    ensures FlatOuts(st, ops[..k + 1]) == FlatOuts(st, ops[..k]) + [FlatOut(FlatEnd(st, ops[..k]), ops[k])]
    decreases |ops|
  {
    var n := |ops| - 1;
    if k < n {
      LegalPrefix(st, ops[..n], k);
      assert ops[..n][..k] == ops[..k] && ops[..n][..k + 1] == ops[..k + 1];
    } else {
      assert ops[..k + 1] == ops;
    }
  }

  // ------------------------------------------------------------ when an operation succeeds

  ghost predicate CoreGood(c: Core) { c.cur.Some? ==> c.cur.value in c.spaces }

  /** Tables, frames and TLB after an operation, or None if it fails. */
  ghost function CoreStep(c: Core, op: Op): (r: Option<Core>)
    requires CoreGood(c) && LegalFor(c.spaces.Keys, c.cur, op)
    ensures r.Some? ==> CoreGood(r.value)
  {
    match op
    case DoLoad(addr) => AccessStep(c, addr)
    case DoStore(addr, _) => AccessStep(c, addr)
    case DoSwitch(next) => Some(c.(cur := next, tlb := if next.Some? then Emptied() else c.tlb))
    case DoCreate(b) =>
      (match Lowest(c.runs, c.frames, SPACE_FRAMES)
       case None => None
       case Some(f) => Some(c.(spaces := c.spaces[b := Space(f, map[])], runs := c.runs[f := SPACE_FRAMES])))
    case DoFork(a, b) =>
      (match CopySpace(c.spaces[a], c.runs, c.frames)
       case None => None
       case Some(t) => Some(c.(spaces := c.spaces[b := t.0], runs := t.1)))
    case DoDestroy(a) =>
      Some(c.(spaces := c.spaces - {a}, runs := c.runs - Held(c.spaces[a], PAGES, DIR) - {c.spaces[a].run}))
  }

  lemma AccessKeepsIds(c: Core, addr: nat)
    requires CoreGood(c) && c.cur.Some?
    ensures AccessStep(c, addr).Some? ==>
              AccessStep(c, addr).value.spaces.Keys == c.spaces.Keys && AccessStep(c, addr).value.cur == c.cur
  {
  }

  /** The flat state a machine stands for. */
  ghost function StateOf(m: Machine): FlatState
    reads m, m.phys
  {
    FlatState(m.Flats(), m.cur)
  }

  /** One operation on the machine: it does what flat memory does, or fails exactly when the frames or the TLB do not suffice. */
  method Exec(m: Machine, op: Op) returns (ok: bool, out: nat)
    requires m.Valid() && FlatOk(StateOf(m)) && Legal(StateOf(m), op)
    modifies m`spaces, m`cur, m.cm, m.cm.entries, m.phys, m.tlb
    ensures ok ==> m.Valid() && StateOf(m) == FlatStep(old(StateOf(m)), op) && out == FlatOut(old(StateOf(m)), op)
    ensures old(CoreGood(m.State()) && m.spaces.Keys == m.Flats().Keys)
    ensures CoreStep(old(m.State()), op) == if ok then Some(m.State()) else None
  {
    hide CoreOk, CountFree, OwnedOk, Caches, Enough, FaultAnswer, Lowest, CopySpace, GrabAll, AccessStep, Demands, Held;
    ghost var st := StateOf(m);
    assert m.spaces.Keys == st.mem.Keys;
    ok, out := true, 0;
    match op
    case DoLoad(addr) =>
      var r := m.Load(addr);
      ok, out := r.Some?, if r.Some? then r.value else 0;
    case DoStore(addr, x) => ok := m.Store(addr, x);
    case DoSwitch(next) => m.Switch(next);
    case DoCreate(b) =>
      ok := m.AsCreate(b);
      if ok {
        ghost var z: seq<Data> :| |z| == PAGES && (forall v | 0 <= v < PAGES :: z[v] == ZERO) && m.Flats() == st.mem[b := z];
        assert z == ZeroMemory();
      }
    case DoFork(a, b) =>
      var r := m.AsCopy(a, b);
      ok := r == Copied;
    case DoDestroy(a) => m.AsDestroy(a);
  }

  // ------------------------------------------------------------ whole programs

  /** c goes with st: the same spaces, the same one current. */
  ghost predicate Goes(c: Core, st: FlatState) {
    CoreGood(c) && c.spaces.Keys == st.mem.Keys && c.cur == st.cur
  }

  lemma {:induction false} StepGoes(c: Core, st: FlatState, op: Op)
    requires Goes(c, st) && FlatOk(st) && Legal(st, op)
    ensures CoreStep(c, op).Some? ==> Goes(CoreStep(c, op).value, FlatStep(st, op))
  {
    hide Lowest, CopySpace, AccessStep, Held;
    if op.DoLoad? || op.DoStore? { AccessKeepsIds(c, op.addr); }
  }

  /** Tables, frames and TLB after the whole program, or None if some operation fails. */
  ghost function CoreEnd(c: Core, st: FlatState, ops: seq<Op>): (r: Option<Core>)
    requires Goes(c, st) && LegalRun(st, ops)
    ensures r.Some? ==> Goes(r.value, FlatEnd(st, ops))
  {
    if ops == [] then Some(c)
    else
      var n := |ops| - 1;
      match CoreEnd(c, st, ops[..n])
      case None => None
      case Some(d) =>
        StepGoes(d, FlatEnd(st, ops[..n]), ops[n]);
        CoreStep(d, ops[n])
  }

  lemma {:induction false} CorePrefix(c: Core, st: FlatState, ops: seq<Op>, k: nat)
    requires Goes(c, st) && LegalRun(st, ops) && k < |ops|
    ensures LegalRun(st, ops[..k]) && LegalRun(st, ops[..k + 1]) && Legal(FlatEnd(st, ops[..k]), ops[k])
    ensures CoreEnd(c, st, ops[..k + 1]) ==
            match CoreEnd(c, st, ops[..k]) case None => None case Some(d) => CoreStep(d, ops[k])
  {
    hide CoreStep, FlatOuts;
    LegalPrefix(st, ops, k);
    assert ops[..k + 1][..k] == ops[..k];
  }

  /** A program that gets to its end has failed nowhere on the way. */
  lemma {:induction false} EndNeedsPrefix(c: Core, st: FlatState, ops: seq<Op>, k: nat)
    requires Goes(c, st) && LegalRun(st, ops) && k <= |ops|
    ensures LegalRun(st, ops[..k])
    ensures CoreEnd(c, st, ops).Some? ==> CoreEnd(c, st, ops[..k]).Some?
    decreases |ops| - k
  {
    hide CoreStep;
    if k == |ops| {
      assert ops[..k] == ops;
    } else {
      CorePrefix(c, st, ops, k);
      EndNeedsPrefix(c, st, ops, k + 1);
    }
  }

  /**
    Main result: run any legal program.  Every word it reads is the one flat memory gives, and it
    stops exactly at the first operation for which the frames or the TLB do not suffice; what they
    are then is fixed by the start and the program.
   */
  method Run(m: Machine, ops: seq<Op>) returns (outs: seq<nat>)
    requires m.Valid() && LegalRun(StateOf(m), ops)
    modifies m`spaces, m`cur, m.cm, m.cm.entries, m.phys, m.tlb
    ensures |outs| <= |ops| && LegalRun(old(StateOf(m)), ops[..|outs|])
    ensures outs == FlatOuts(old(StateOf(m)), ops[..|outs|])
    ensures old(Goes(m.State(), StateOf(m)))
    ensures CoreEnd(old(m.State()), old(StateOf(m)), ops[..|outs|]).Some?
    ensures |outs| < |ops| ==> LegalRun(old(StateOf(m)), ops[..|outs| + 1])
                               && CoreEnd(old(m.State()), old(StateOf(m)), ops[..|outs| + 1]).None?
    ensures |outs| == |ops| <==> CoreEnd(old(m.State()), old(StateOf(m)), ops).Some?
    ensures |outs| == |ops| ==> m.Valid() && StateOf(m) == FlatEnd(old(StateOf(m)), ops)
                                && CoreEnd(old(m.State()), old(StateOf(m)), ops) == Some(m.State())
  {
    hide CoreOk, CountFree, OwnedOk, Caches, FlatOuts, FlatOut, FlatStep, LegalRun, Legal, FlatOk, CoreStep, CoreEnd;
    ghost var st, c := StateOf(m), m.State();
    EmptyRun(st, ops);
    MachineGoes(m);
    NothingDone(c, st, ops);
    outs := [];
    for k := 0 to |ops|
      invariant |outs| == k && LegalRun(st, ops[..k]) && outs == FlatOuts(st, ops[..k])
      invariant m.Valid() && StateOf(m) == FlatEnd(st, ops[..k]) && CoreEnd(c, st, ops[..k]) == Some(m.State())
    {
      LegalPrefix(st, ops, k);
      CorePrefix(c, st, ops, k);
      EndNeedsPrefix(c, st, ops, k + 1);
      var ok, out := Exec(m, ops[k]);
      if !ok { return; }
      outs := outs + [out];
    }
    assert ops[..|ops|] == ops;
  }

  lemma MachineGoes(m: Machine)
    requires m.Valid()
    ensures Goes(m.State(), StateOf(m))
  {
    hide CoreOk, CountFree, OwnedOk, Caches;
  }

  lemma NothingDone(c: Core, st: FlatState, ops: seq<Op>)
    requires Goes(c, st) && LegalRun(st, ops[..0])
    ensures CoreEnd(c, st, ops[..0]) == Some(c)
  {
  }

  lemma {:induction false} EmptyRun(st: FlatState, ops: seq<Op>)
    requires LegalRun(st, ops)
    ensures LegalRun(st, ops[..0]) && FlatEnd(st, ops[..0]) == st && FlatOuts(st, ops[..0]) == []
  {
  }
}
