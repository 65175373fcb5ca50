/**
  Whole programs over malloc and free: as far as the program can tell, its buffers are
  independent stores, although headers and payloads share one memory.
 */
module MallocClients {
  import opened Basics
  import opened HeapBlocks
  import opened HeapRuns
  import opened Malloc
  import opened MallocTheorems

  /** What a program does, with buffers by name: obtain one, write or read cell i of one, give one back. */
  datatype Op = New(id: nat, size: nat) | Write(id: nat, i: nat, x: Cell) | Read(id: nat, i: nat) | Drop(id: nat)

  /** The reference: buffers with nothing in common, each with the cells written to it. */
  datatype Buffer = Buffer(cells: nat, written: map<nat, Cell>)

  type Store = map<nat, Buffer>

  /** Heap, buffers and the header cell of each buffer. */
  datatype World = World(heap: Heap, store: Store, at: map<nat, nat>)

  /** What the program is told: a pointer, that there is no memory, a cell, what free made of its pointer, or nothing. */
  datatype Answer = Got(p: nat) | Null | Value(x: Cell) | Outcome(r: FreeOutcome) | Nothing

  /** Sizes for which malloc's rounding does not wrap; size 0 is left to MallocTheorems. */
  predicate Sane(op: Op) { op.New? ==> 1 <= op.size <= TWO_32 - 16 }

  /**
    The program tests its pointers before it reads or writes: it leaves out what it has no buffer for,
    and what lies beyond the buffer or was never written.  It frees without a test: where it was
    refused a buffer, or has freed it, its pointer is NULL.
   */
  predicate Possible(st: Store, op: Op) {
    match op
    case New(id, _) => id !in st
    case Write(id, i, _) => id in st && i < st[id].cells
    case Read(id, i) => id in st && i in st[id].written
    case Drop(_) => true
  }

  function Act(w: World, limit: nat, op: Op): World
    requires Sane(op)
  {
    if !Possible(w.store, op) then w
    else match op
      case New(id, size) =>
        var (h, p) := MallocSpec(w.heap, limit, size);
        if p == 0 then w else World(h, w.store[id := Buffer(Units(size), map[])], w.at[id := if p >= 8 then p / 8 - 1 else 0])
      case Write(id, i, x) =>
        w.(store := w.store[id := w.store[id].(written := w.store[id].written[i := x])])
      case Read(_, _) => w
      case Drop(id) => World(if id in w.at then Freed(w.heap, w.at[id]) else w.heap, w.store - {id}, w.at - {id})
  }

  /** The heap after free of the block whose header is at cell c. */
  function Freed(h: Heap, c: nat): Heap {
    var k := LiveIndex(h.blocks, c);
    if k < |h.blocks| then h.(blocks := Release(h.blocks, k)) else h
  }

  function Reply(w: World, limit: nat, op: Op): Answer
    requires Sane(op)
  {
    if !Possible(w.store, op) then Nothing
    else match op
      case New(_, size) => var p := MallocSpec(w.heap, limit, size).1; if p == 0 then Null else Got(p)
      case Read(id, i) => Value(w.store[id].written[i])
      case Drop(_) => Outcome(Accepted)
      case Write(_, _, _) => Nothing
  }

  ghost predicate AllSane(ops: seq<Op>) { forall op | op in ops :: Sane(op) }

  ghost function Final(w: World, limit: nat, ops: seq<Op>): World
    requires AllSane(ops)
    decreases |ops|
  {
    if ops == [] then w else Final(Act(w, limit, ops[0]), limit, ops[1..])
  }

  ghost function Replies(w: World, limit: nat, ops: seq<Op>): (r: seq<Answer>)
    requires AllSane(ops)
    ensures |r| == |ops|
    decreases |ops|
  {
    if ops == [] then [] else [Reply(w, limit, ops[0])] + Replies(Act(w, limit, ops[0]), limit, ops[1..])
  }

  // ------------------------------------------------------------ enough memory

  /** The cells all requests of the program take, headers included. */
  ghost function Demand(ops: seq<Op>): nat
    requires AllSane(ops)
  {
    if ops == [] then 0
    else
      assert ops[0] in ops;
      (if ops[0].New? then Units(ops[0].size) + 1 else 0) + Demand(ops[1..])
  }

  /** Exactly when malloc answers NULL: nothing fits and the heap cannot grow by what is asked. */
  lemma RefusedIff(h: Heap, limit: nat, size: nat)
    requires 1 <= size <= TWO_32 - 16
    ensures MallocSpec(h, limit, size).1 == 0 <==>
            && (forall k | 0 <= k < |h.blocks| :: h.blocks[k].used || 8 * (h.blocks[k].units - 1) < size)
            && (8 * Units(size) + 8 >= 0x8000_0000 || h.top + Units(size) + 1 > limit)
  {
    RoundsUp(size);
  }

  lemma TopMoves(w: World, limit: nat, op: Op)
    requires Sane(op)
    ensures Act(w, limit, op).heap.top <= w.heap.top + if op.New? then Units(op.size) + 1 else 0
  {
    if op.New? { RoundsUp(op.size); }
  }

  /**
    Main result: a program whose requests, each below 2^31 bytes, all together fit between the top
    of the heap and its limit is never refused: first fit grows the heap only when nothing fits.
   */
  lemma {:induction false} EnoughNeverRefused(w: World, limit: nat, ops: seq<Op>)
    requires AllSane(ops) && w.heap.top + Demand(ops) <= limit
    requires forall op | op in ops && op.New? :: 8 * Units(op.size) + 8 < 0x8000_0000
    ensures Null !in Replies(w, limit, ops)
    decreases |ops|
  {
    hide Act, Units;
    if ops != [] {
      assert ops[0] in ops && forall op | op in ops[1..] :: op in ops;
      TopMoves(w, limit, ops[0]);
      EnoughNeverRefused(Act(w, limit, ops[0]), limit, ops[1..]);
      if ops[0].New? { RefusedIff(w.heap, limit, ops[0].size); }
    }
  }

  // ------------------------------------------------------------ where the buffers are

  /** The block of a buffer: the cell of its header, and its length. */
  datatype Place = Place(start: nat, units: nat)

  /** Buffer b lies in the block at p and the memory holds what was written to it. */
  ghost predicate At(m: seq<Cell>, bs: seq<Block>, b: Buffer, p: Place) {
    && (p.start, p.units) in Live(bs) && 1 <= b.cells < p.units && p.start + p.units <= |m|
    && forall i | i in b.written :: i < b.cells && m[p.start + 1 + i] == b.written[i]
  }

  ghost predicate AllAt(m: seq<Cell>, bs: seq<Block>, st: Store, ps: map<nat, Place>) {
    && ps.Keys == st.Keys
    && (forall id | id in st :: At(m, bs, st[id], ps[id]))
    && (forall id, jd | id in ps && jd in ps && ps[id].start == ps[jd].start :: id == jd)
  }

  /** The index of a live block. */
  lemma LiveAt(bs: seq<Block>, p: Place) returns (k: nat)
    requires (p.start, p.units) in Live(bs)
    ensures k < |bs| && bs[k].used && bs[k].start == p.start && bs[k].units == p.units
  {
    k :| 0 <= k < |bs| && bs[k].used && (bs[k].start, bs[k].units) == (p.start, p.units);
  }

  /** A call that keeps the payloads of the others, and their blocks in use, keeps the buffer. */
  lemma {:induction false} AtKept(m: seq<Cell>, m': seq<Cell>, h: Heap, bs': seq<Block>, b: Buffer, p: Place, except: int)
    requires At(m, h.blocks, b, p) && OthersKept(m, m', h, except) && (p.start, p.units) in Live(bs')
    requires 0 <= except < |h.blocks| ==> h.blocks[except].start != p.start
    ensures At(m', bs', b, p)
  {
    var k := LiveAt(h.blocks, p);
    forall i | i in b.written ensures m'[p.start + 1 + i] == b.written[i] {
      assert h.blocks[k].start < p.start + 1 + i < h.blocks[k].End();
    }
  }

  // ------------------------------------------------------------ malloc

  /** A served request puts one more block into use, large enough and at an address none of the others has. */
  lemma {:induction false} NewPlace(h: Heap, limit: nat, size: nat) returns (p: Place)
    requires WellFormed(h) && 1 <= size <= TWO_32 - 16 && MallocSpec(h, limit, size).1 != 0
    ensures var (h', ptr) := MallocSpec(h, limit, size);
            && ptr == 8 * (p.start + 1) && 1 <= Units(size) < p.units
            && Live(h'.blocks) == Live(h.blocks) + {(p.start, p.units)}
            && forall x | x in Live(h.blocks) :: x.0 != p.start
  {
    hide Units, GrowBytes, Take, Live;
    RoundsUp(size);
    var n := Units(size);
    var k := FirstFit(h.blocks, n);
    if k < |h.blocks| {
      var u := LiveTake(h, k, n);
      FreeStartNotLive(h, k);
      p := Place(h.blocks[k].start, u);
    } else {
      LiveGrow(h, n);
      TopNotLive(h);
      p := Place(h.top, n + 1);
    }
  }

  lemma TopNotLive(h: Heap)
    requires Tiled(h)
    ensures forall x | x in Live(h.blocks) :: x.0 != h.top
  {
    TiledIsOrdered(h);
  }

  lemma {:induction false} AllAtNew(m: seq<Cell>, m': seq<Cell>, h: Heap, h': Heap, st: Store, ps: map<nat, Place>, id: nat, n: nat, p: Place)
    requires AllAt(m, h.blocks, st, ps) && OthersKept(m, m', h, -1) && id !in st
    requires Live(h'.blocks) == Live(h.blocks) + {(p.start, p.units)} && 1 <= n < p.units && p.start + p.units <= |m'|
    requires forall x | x in Live(h.blocks) :: x.0 != p.start
    ensures AllAt(m', h'.blocks, st[id := Buffer(n, map[])], ps[id := p])
  {
    hide Live, OthersKept, At;
    var st', ps' := st[id := Buffer(n, map[])], ps[id := p];
    forall j | j in st' ensures At(m', h'.blocks, st'[j], ps'[j]) {
      if j == id { AtFresh(m', h'.blocks, n, p); } else { AtLive(m, h.blocks, st[j], ps[j]); AtKept(m, m', h, h'.blocks, st[j], ps[j], -1); }
    }
    forall j | j in ps ensures ps[j].start != p.start { AtLive(m, h.blocks, st[j], ps[j]); }
  }

  lemma AtFresh(m: seq<Cell>, bs: seq<Block>, n: nat, p: Place)
    requires (p.start, p.units) in Live(bs) && 1 <= n < p.units && p.start + p.units <= |m|
    ensures At(m, bs, Buffer(n, map[]), p)
  {
  }

  lemma AtLive(m: seq<Cell>, bs: seq<Block>, b: Buffer, p: Place)
    requires At(m, bs, b, p)
    ensures (p.start, p.units) in Live(bs) && 1 <= b.cells < p.units
  {
  }

  lemma {:induction false} PlaceFits(m: seq<Cell>, h: Heap, p: Place)
    requires Laid(m, h) && (p.start, p.units) in Live(h.blocks)
    ensures p.start + p.units <= h.top <= USER_CELLS < |m| == CELLS && h.base <= p.start
  {
    hide HeaderIs;
    var k := LiveAt(h.blocks, p);
    Neighbourhood(m, h, k);
  }

  // ------------------------------------------------------------ free

  lemma {:induction false} AllAtDrop(m: seq<Cell>, m': seq<Cell>, h: Heap, h': Heap, st: Store, ps: map<nat, Place>, id: nat, k: nat)
    requires AllAt(m, h.blocks, st, ps) && Tiled(h) && id in st && k < |h.blocks| && h.blocks[k].used && h.blocks[k].start == ps[id].start
    requires OthersKept(m, m', h, k) && h'.blocks == Release(h.blocks, k)
    ensures AllAt(m', h'.blocks, st - {id}, ps - {id})
  {
    hide Live, OthersKept, At, Release;
    LiveRelease(h, k);
    forall j | j in st - {id} ensures At(m', h'.blocks, st[j], ps[j]) {
      AtLive(m, h.blocks, st[j], ps[j]);
      AtKept(m, m', h, h'.blocks, st[j], ps[j], k);
    }
  }

  /** free accepts the pointer of every buffer. */
  lemma {:induction false} DropAccepted(m: seq<Cell>, h: Heap, p: Place)
    requires Laid(m, h) && h.base > 0 && (p.start, p.units) in Live(h.blocks) && p.units > 1
    ensures FreeAnswer(true, m, h, 8 * (p.start + 1)) == Accepted && LiveIndex(h.blocks, p.start) < |h.blocks|
  {
    hide FreeAnswer, Laid;
    var k := LiveAt(h.blocks, p);
    FreeAcceptsIff(m, h, k);
  }

  // ------------------------------------------------------------ the program's own writes

  lemma {:induction false} WriteKeepsHeap(m: seq<Cell>, h: Heap, p: Place, c: nat, x: Cell)
    requires Laid(m, h) && (p.start, p.units) in Live(h.blocks) && p.start < c < p.start + p.units && c < |m|
    ensures Laid(m[c := x], h)
  {
    hide HeaderIs;
    var k := LiveAt(h.blocks, p);
    assert Holds(m, h.blocks[k]);
    assert h.blocks[k].(used := true) == h.blocks[k] && h.blocks[k := h.blocks[k]] == h.blocks;
    LaidRemark(m, h, k, true, m[c := x]);
  }

  lemma {:induction false} WriteKeepsOthers(m: seq<Cell>, h: Heap, b: Buffer, p: Place, q: Place, c: nat, x: Cell)
    requires At(m, h.blocks, b, q) && Tiled(h) && (p.start, p.units) in Live(h.blocks) && p.start != q.start
    requires p.start < c < p.start + p.units && c < |m|
    ensures At(m[c := x], h.blocks, b, q)
  {
    var j := LiveAt(h.blocks, q);
    var k := LiveAt(h.blocks, p);
    if j < k { TiledPair(h, j, k); } else { TiledPair(h, k, j); }
  }

  lemma {:induction false} AllAtWrite(m: seq<Cell>, h: Heap, st: Store, ps: map<nat, Place>, id: nat, i: nat, x: Cell)
    requires AllAt(m, h.blocks, st, ps) && Tiled(h) && id in st && i < st[id].cells
    requires ps[id].start + 1 + i < |m|
    ensures AllAt(m[ps[id].start + 1 + i := x], h.blocks, st[id := st[id].(written := st[id].written[i := x])], ps)
  {
    hide Live, Tiled;
    var c, b := ps[id].start + 1 + i, st[id].(written := st[id].written[i := x]);
    var m', st' := m[c := x], st[id := b];
    AtLive(m, h.blocks, st[id], ps[id]);
    forall j | j in st' ensures At(m', h.blocks, st'[j], ps[j]) {
      if j != id { WriteKeepsOthers(m, h, st[j], ps[id], ps[j], c, x); }
    }
  }

  // ------------------------------------------------------------ running a program

  /** The allocator and its memory are as the world says, with the buffers in the places ps. */
  ghost predicate Running(al: Allocator, w: World, ptrs: map<nat, nat>, ps: map<nat, Place>)
    reads al, al.mem
  {
    && al.Valid() && al.Abs() == w.heap && AllAt(al.mem[..], w.heap.blocks, w.store, ps)
    && ptrs.Keys == ps.Keys == w.at.Keys && forall id | id in ps :: w.at[id] == ps[id].start && ptrs[id] == 8 * (ps[id].start + 1)
  }

  /** One operation; ptrs are the program's pointers. */
  method Exec(al: Allocator, ghost w: World, ptrs: map<nat, nat>, ghost ps: map<nat, Place>, op: Op)
      returns (ans: Answer, ptrs': map<nat, nat>, ghost ps': map<nat, Place>)
    requires Running(al, w, ptrs, ps) && Sane(op) && Possible(w.store, op)
    modifies al, al.mem
    ensures Running(al, Act(w, al.limit, op), ptrs', ps') && ans == Reply(w, al.limit, op)
  {
    hide AllAt, At, Live, Laid, Coalesced, Tiled, OthersKept, MallocSpec, Release, FreeAnswer;
    ans, ptrs', ps' := Nothing, ptrs, ps;
    match op
    case New(id, size) => ans, ptrs', ps' := Obtain(al, w, ptrs, ps, id, size);
    case Write(id, i, x) =>
      InPayload(al.mem[..], al.Abs(), w.store, ps, id, i);
      ghost var m := al.mem[..];
      al.mem[ptrs[id] / 8 + i] := x;
      WriteKeepsHeap(m, al.Abs(), ps[id], ps[id].start + 1 + i, x);
      AllAtWrite(m, al.Abs(), w.store, ps, id, i, x);
    case Read(id, i) =>
      WrittenAt(al.mem[..], al.Abs().blocks, w.store, ps, id, i);
      ans := Value(al.mem[ptrs[id] / 8 + i]);
    case Drop(id) =>
      var r;
      SameNames(al.mem[..], al.Abs().blocks, w.store, ps);
      if id in ptrs {
        r, ptrs', ps' := GiveBack(al, w, ptrs, ps, id);
      } else {
        r := al.Free(0);
        assert w.store - {id} == w.store && w.at - {id} == w.at;
      }
      ans := Outcome(r);
  }

  method Obtain(al: Allocator, ghost w: World, ptrs: map<nat, nat>, ghost ps: map<nat, Place>, id: nat, size: nat)
      returns (ans: Answer, ptrs': map<nat, nat>, ghost ps': map<nat, Place>)
    requires Running(al, w, ptrs, ps) && id !in w.store && Sane(New(id, size))
    modifies al, al.mem
    ensures Running(al, Act(w, al.limit, New(id, size)), ptrs', ps') && ans == Reply(w, al.limit, New(id, size))
  {
    hide AllAt, At, Live, Laid, Tiled, OthersKept, MallocSpec, Units;
    ghost var h, m := al.Abs(), al.mem[..];
    LaidTiled(m, h);
    var x := al.Malloc(size);
    ans, ptrs', ps' := if x == 0 then Null else Got(x), ptrs, ps;
    if x != 0 {
      ghost var p := NewPlace(h, al.limit, size);
      InLive(al.Abs().blocks, h.blocks, p);
      PlaceFits(al.mem[..], al.Abs(), p);
      AllAtNew(m, al.mem[..], h, al.Abs(), w.store, ps, id, Units(size), p);
      ptrs', ps' := ptrs[id := x], ps[id := p];
    } else {
      Refusal(h, al.limit, size);
      AllAtSame(m, al.mem[..], h, w.store, ps);
    }
  }

  method GiveBack(al: Allocator, ghost w: World, ptrs: map<nat, nat>, ghost ps: map<nat, Place>, id: nat)
      returns (r: FreeOutcome, ptrs': map<nat, nat>, ghost ps': map<nat, Place>)
    requires Running(al, w, ptrs, ps) && id in w.store
    modifies al, al.mem
    ensures Running(al, Act(w, al.limit, Drop(id)), ptrs', ps') && r == Accepted
  {
    hide AllAt, At, Live, Laid, Coalesced, Tiled, OthersKept, Release, FreeAnswer;
    ghost var h, m := al.Abs(), al.mem[..];
    LaidTiled(m, h);
    PlaceOf(m, h.blocks, w.store, ps, id);
    NotEmpty(h.blocks, ps[id]);
    DropAccepted(m, h, ps[id]);
    r := al.Free(ptrs[id]);
    AllAtDrop(m, al.mem[..], h, al.Abs(), w.store, ps, id, LiveIndex(h.blocks, ps[id].start));
    ptrs', ps' := ptrs - {id}, ps - {id};
  }

  lemma SameNames(m: seq<Cell>, bs: seq<Block>, st: Store, ps: map<nat, Place>)
    requires AllAt(m, bs, st, ps)
    ensures ps.Keys == st.Keys
  {
  }

  lemma LaidTiled(m: seq<Cell>, h: Heap)
    requires Laid(m, h)
    ensures Tiled(h)
  {
  }

  lemma InLive(bs': seq<Block>, bs: seq<Block>, p: Place)
    requires Live(bs') == Live(bs) + {(p.start, p.units)}
    ensures (p.start, p.units) in Live(bs')
  {
  }

  lemma NotEmpty(bs: seq<Block>, p: Place)
    requires (p.start, p.units) in Live(bs)
    ensures bs != []
  {
  }

  lemma PlaceOf(m: seq<Cell>, bs: seq<Block>, st: Store, ps: map<nat, Place>, id: nat)
    requires AllAt(m, bs, st, ps) && id in st
    ensures id in ps && (ps[id].start, ps[id].units) in Live(bs) && 1 <= st[id].cells < ps[id].units
  {
  }

  lemma {:induction false} InPayload(m: seq<Cell>, h: Heap, st: Store, ps: map<nat, Place>, id: nat, i: nat)
    requires Laid(m, h) && AllAt(m, h.blocks, st, ps) && id in st && i < st[id].cells
    ensures id in ps && Tiled(h) && (ps[id].start, ps[id].units) in Live(h.blocks)
    ensures ps[id].start + 1 + i < ps[id].start + ps[id].units <= |m|
  {
    PlaceOf(m, h.blocks, st, ps, id);
    PlaceFits(m, h, ps[id]);
  }

  lemma WrittenAt(m: seq<Cell>, bs: seq<Block>, st: Store, ps: map<nat, Place>, id: nat, i: nat)
    requires AllAt(m, bs, st, ps) && id in st && i in st[id].written
    ensures id in ps && ps[id].start + 1 + i < |m| && m[ps[id].start + 1 + i] == st[id].written[i]
  {
    assert At(m, bs, st[id], ps[id]);
  }

  lemma Refusal(h: Heap, limit: nat, size: nat)
    requires size < TWO_32 && MallocSpec(h, limit, size).1 == 0
    ensures MallocSpec(h, limit, size).0 == h
  {
  }

  lemma {:induction false} AllAtSame(m: seq<Cell>, m': seq<Cell>, h: Heap, st: Store, ps: map<nat, Place>)
    requires AllAt(m, h.blocks, st, ps) && OthersKept(m, m', h, -1)
    ensures AllAt(m', h.blocks, st, ps)
  {
    hide Live, OthersKept, At;
    forall id | id in st ensures At(m', h.blocks, st[id], ps[id]) {
      AtLive(m, h.blocks, st[id], ps[id]);
      AtKept(m, m', h, h.blocks, st[id], ps[id], -1);
    }
  }

  /**
    Main result: run any program.  All it is told, pointers, refusals and cells, is what the reference
    says: every cell it reads holds what it last wrote there, whatever was allocated, refused, freed,
    split and merged in between, and the heap at the end is that of the reference.
   */
  method Run(al: Allocator, ops: seq<Op>) returns (answers: seq<Answer>)
    requires al.Valid() && Live(al.Abs().blocks) == {} && AllSane(ops)
    modifies al, al.mem
    ensures answers == Replies(World(old(al.Abs()), map[], map[]), al.limit, ops)
    ensures al.Valid() && al.Abs() == Final(World(old(al.Abs()), map[], map[]), al.limit, ops).heap
  {
    hide Live, Laid, Act, Reply, AllAt, Allocator.Valid, Final, Replies, Sane;
    ghost var w, ps := World(al.Abs(), map[], map[]), map[];
    ghost var w0 := w;
    var ptrs: map<nat, nat> := map[];
    var cells: map<nat, Buffer> := map[];
    answers := [];
    NothingAt(al.mem[..], al.Abs().blocks);
    RunStart(w, al.limit, ops);
    for k := 0 to |ops|
      invariant |answers| == k && Running(al, w, ptrs, ps) && cells == w.store
      invariant AllSane(ops[..k]) && w == Final(w0, al.limit, ops[..k]) && answers == Replies(w0, al.limit, ops[..k])
    {
      RunNext(w0, al.limit, ops, k);
      ghost var w1 := w;
      var ans := Nothing;
      if Possible(cells, ops[k]) {
        ans, ptrs, ps := Exec(al, w, ptrs, ps, ops[k]);
        cells := Recorded(cells, ops[k], ans);
        RecordedIs(w, al.limit, ops[k]);
      } else {
        Skips(w, al.limit, ops[k]);
      }
      w := Act(w1, al.limit, ops[k]);
      answers := answers + [ans];
    }
    assert ops[..|ops|] == ops;
  }

  /** The program's own record of its buffers and of what it wrote, from what it is told. */
  function Recorded(st: Store, op: Op, ans: Answer): Store
    requires Sane(op)
  {
    match op
    case New(id, size) => if ans.Got? then st[id := Buffer(Units(size), map[])] else st
    case Write(id, i, x) => if id in st then st[id := st[id].(written := st[id].written[i := x])] else st
    case Read(_, _) => st
    case Drop(id) => st - {id}
  }

  lemma RecordedIs(w: World, limit: nat, op: Op)
    requires Sane(op) && Possible(w.store, op)
    ensures Act(w, limit, op).store == Recorded(w.store, op, Reply(w, limit, op))
  {
  }

  lemma Skips(w: World, limit: nat, op: Op)
    requires Sane(op) && !Possible(w.store, op)
    ensures Act(w, limit, op) == w && Reply(w, limit, op) == Nothing
  {
  }

  lemma NothingAt(m: seq<Cell>, bs: seq<Block>)
    ensures AllAt(m, bs, map[], map[])
  {
  }

  lemma RunStart(w: World, limit: nat, ops: seq<Op>)
    ensures ops[..0] == [] && AllSane(ops[..0]) && Final(w, limit, ops[..0]) == w && Replies(w, limit, ops[..0]) == []
  {
  }

  lemma {:induction false} RunNext(w: World, limit: nat, ops: seq<Op>, k: nat)
    requires k < |ops| && AllSane(ops)
    ensures AllSane(ops[..k]) && AllSane(ops[..k + 1]) && Sane(ops[k])
    ensures var s := Final(w, limit, ops[..k]);
            && Final(w, limit, ops[..k + 1]) == Act(s, limit, ops[k])
            && Replies(w, limit, ops[..k + 1]) == Replies(w, limit, ops[..k]) + [Reply(s, limit, ops[k])]
  {
    hide Act, Reply, Sane;
    assert ops[k] in ops && forall op | op in ops[..k] || op in ops[..k + 1] :: op in ops;
    Snoc(w, limit, ops[..k], ops[k]);
    assert ops[..k + 1] == ops[..k] + [ops[k]];
  }

  lemma {:induction false} Snoc(w: World, limit: nat, ops: seq<Op>, op: Op)
    requires AllSane(ops) && Sane(op)
    ensures AllSane(ops + [op]) && Final(w, limit, ops + [op]) == Act(Final(w, limit, ops), limit, op)
    ensures Replies(w, limit, ops + [op]) == Replies(w, limit, ops) + [Reply(Final(w, limit, ops), limit, op)]
    decreases |ops|
  {
    hide Act, Reply, Sane;
    if ops == [] {
      assert ([] + [op])[1..] == [];
    } else {
      assert (ops + [op])[1..] == ops[1..] + [op];
      Snoc(Act(w, limit, ops[0]), limit, ops[1..], op);
    }
  }
}
