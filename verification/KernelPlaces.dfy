/**
  Where the threads are, in every run: each live thread is in exactly one place, the counts
  agree, going to sleep needs no memory, and the run queue is first come first served.
 */
module KernelPlaces {
  import opened Basics
  import opened SleepLists
  import opened Kernel
  import Queue
  import PtrArray

  function CurSeq(k: K): seq<nat> { if k.cur.Some? then [k.cur.value] else [] }

  /** All places, with multiplicity: running, in the run queue, asleep. */
  function Where(k: K): multiset<nat> {
    multiset(CurSeq(k)) + multiset(k.lists.runq) + multiset(k.lists.sleepers)
  }

  /** Every live thread is in exactly one place, no zombie is live, and numthreads counts the live threads. */
  ghost predicate Places(k: K) {
    && (forall t :: Where(k)[t] == if t in k.threads then 1 else 0)
    && k.lists.numthreads == |CurSeq(k)| + |k.lists.runq| + |k.lists.sleepers|
    && (forall z | z in k.lists.zombies :: z !in k.threads)
  }

  lemma {:induction false} WokenPerm(ts: seq<nat>, at: map<nat, Addr>, a: Addr)
    ensures multiset(Woken(ts, at, a)) + multiset(Kept(ts, at, a)) == multiset(ts)
    ensures |Woken(ts, at, a)| + |Kept(ts, at, a)| == |ts|
  {
    if ts != [] {
      WokenPerm(ts[1..], at, a);
      assert ts == [ts[0]] + ts[1..];
    }
  }

  lemma DropPerm(ts: seq<nat>, i: nat)
    requires i < |ts|
    ensures multiset(Drop(ts, i)) + multiset{ts[i]} == multiset(ts) && |Drop(ts, i)| == |ts| - 1
  {
    assert ts == ts[..i] + [ts[i]] + ts[i + 1..];
  }

  /** The lists change, but not who is on them: cur0 and cur1 are the running threads before and after. */
  ghost predicate Moved(ls: Lists, cur0: seq<nat>, ls': Lists, cur1: seq<nat>) {
    && multiset(cur0) + multiset(ls.runq) + multiset(ls.sleepers) == multiset(cur1) + multiset(ls'.runq) + multiset(ls'.sleepers)
    && |cur0| + |ls.runq| + |ls.sleepers| == |cur1| + |ls'.runq| + |ls'.sleepers|
    && ls'.numthreads == ls.numthreads && ls'.zombies == ls.zombies
  }

  lemma {:induction false} ListsMove(ls: Lists, y: Sync, t: nat, i: Instr)
    ensures Moved(ls, [t], NextLists(ls, y, t, i), if i.Yield? || MustSleep(y, i).Some? then [] else [t])
  {
    hide Moved, WakeEvery, WakeOneOn, Enqueue, Park;
    match i
    case WakeAll(a) => WakeEveryMoves(ls, t, a);
    case WakeFirst(a) => WakeOneMoves(ls, t, a);
    case Yield => YieldMoves(ls, t);
    case _ => SleepMoves(ls, t, MustSleep(y, i));
  }

  lemma {:induction false} WakeEveryMoves(ls: Lists, t: nat, a: Addr)
    ensures Moved(ls, [t], WakeEvery(ls, a), [t])
  {
    hide Woken, Kept;
    WokenPerm(ls.sleepers, ls.at, a);
  }

  lemma {:induction false} WakeOneMoves(ls: Lists, t: nat, a: Addr)
    ensures Moved(ls, [t], WakeOneOn(ls, a), [t])
  {
    hide Drop;
    var j := FirstOn(ls.sleepers, ls.at, a);
    if j < |ls.sleepers| { DropPerm(ls.sleepers, j); }
  }

  lemma YieldMoves(ls: Lists, t: nat)
    ensures Moved(ls, [t], Enqueue(ls, [t]), [])
  {
  }

  lemma SleepMoves(ls: Lists, t: nat, a: Option<Addr>)
    ensures Moved(ls, [t], if a.Some? then Park(ls, t, a.value) else ls, if a.Some? then [] else [t])
  {
  }

  /** Moving threads between places keeps them all accounted for. */
  lemma {:induction false} MovedKeeps(k: K, k': K)
    requires Places(k) && Moved(k.lists, CurSeq(k), k'.lists, CurSeq(k')) && k'.threads.Keys == k.threads.Keys
    ensures Places(k')
  {
    assert Where(k') == Where(k);
  }

  lemma {:induction false} ExecPlaces(k: K)
    requires Places(k) && Enabled(k, Exec)
    ensures Places(ExecStep(k))
  {
    hide NextSync, NextThread, NextLists, MustSleep, At;
    var th := k.threads[k.cur.value];
    ListsMove(k.lists, k.sync, k.cur.value, At(th.op, th.pc));
    assert ExecStep(k).threads.Keys == k.threads.Keys;
    MovedKeeps(k, ExecStep(k));
  }

  lemma {:induction false} DispatchPlaces(k: K)
    requires Places(k) && Enabled(k, Dispatch)
    ensures Places(Step(k, Dispatch))
  {
    var k' := Step(k, Dispatch);
    var k1 := k'.(lists := k'.lists.(zombies := k.lists.zombies, zombMax := k.lists.zombMax));
    assert k.lists.runq == [k.lists.runq[0]] + k.lists.runq[1..];
    assert k1.threads.Keys == k.threads.Keys;
    MovedKeeps(k, k1);
    assert Where(k') == Where(k1);
  }

  lemma {:induction false} ForkPlaces(k: K, t: nat)
    requires Places(k) && Enabled(k, Fork(t))
    ensures Places(Step(k, Fork(t)))
  {
    var k' := Step(k, Fork(t));
    assert Where(k') == Where(k) + multiset{t};
  }

  lemma {:induction false} ExitPlaces(k: K)
    requires Places(k) && Enabled(k, Exit)
    ensures Places(Step(k, Exit))
  {
    var k' := Step(k, Exit);
    assert Where(k) == Where(k') + multiset{k.cur.value};
  }

  lemma {:induction false} TickPlaces(k: K, second: bool)
    requires Places(k) && Enabled(k, Tick(second))
    ensures Places(Step(k, Tick(second)))
  {
    hide Woken, Kept, Places;
    WokenPerm(k.lists.sleepers, k.lists.at, LboltA);
    assert Step(k, Tick(second)).threads.Keys == k.threads.Keys;
    MovedKeeps(k, Step(k, Tick(second)));
  }

  lemma {:induction false} StepPlaces(k: K, e: Event)
    requires Places(k) && Enabled(k, e)
    ensures Places(Step(k, e))
  {
    hide ExecStep, Places, Woken, Kept;
    match e
    case Exec => ExecPlaces(k);
    case Dispatch => DispatchPlaces(k);
    case Fork(t) => ForkPlaces(k, t);
    case Exit => ExitPlaces(k);
    case IrqV(s) =>
      WokenPerm(k.lists.sleepers, k.lists.at, SemA(s));
      MovedKeeps(k, Step(k, e));
    case Tick(second) => TickPlaces(k, second);
    case _ =>
      assert Step(k, e).threads.Keys == k.threads.Keys;
      MovedKeeps(k, Step(k, e));
  }

  // ------------------------------------------------------------ runs

  ghost predicate IsRun(ks: seq<K>, es: seq<Event>) {
    && |ks| == |es| + 1
    && forall i | 0 <= i < |es| :: Enabled(ks[i], es[i]) && ks[i + 1] == Step(ks[i], es[i])
  }

  /** Main result: in every run from boot each live thread is in exactly one place and numthreads counts them. */
  lemma {:induction false} EveryRunPlaces(ks: seq<K>, es: seq<Event>, t: nat, init: map<nat, nat>)
    requires IsRun(ks, es) && ks[0] == Boot(t, init)
    ensures Places(ks[|es|])
  {
    hide Step, Enabled;
    if es == [] {
      assert Where(ks[0]) == multiset{t};
    } else {
      var n := |es| - 1;
      EveryRunPlaces(ks[..n + 1], es[..n], t, init);
      assert Enabled(ks[n], es[n]) && ks[n + 1] == Step(ks[n], es[n]);
      StepPlaces(ks[n], es[n]);
    }
  }

  // ------------------------------------------------------------ memory

  /** The sleepers' buffer has a slot for every thread. */
  predicate SleepRoom(k: K) { k.lists.sleepMax >= k.lists.numthreads }

  /** A fork gives it one, and nothing takes it away again. */
  lemma {:induction false} SleepRoomKept(k: K, e: Event)
    requires Places(k) && Enabled(k, e)
    ensures e.Fork? || SleepRoom(k) ==> SleepRoom(Step(k, e))
  {
    hide Woken, Kept, NextSync, NextThread, NextSpl, At, Queue.Doubled, PtrArray.Grown, Where;
  }

  /** With it, putting the current thread to sleep does not grow the buffer: no memory is needed. */
  lemma SleepNeedsNoMemory(k: K, a: Addr)
    requires Places(k) && SleepRoom(k) && k.cur.Some?
    ensures Park(k.lists, k.cur.value, a).sleepMax == k.lists.sleepMax
  {
  }

  /** In every run with a fork in it, no later sleep needs memory. */
  lemma {:induction false} SleepsAfterFork(ks: seq<K>, es: seq<Event>, t: nat, init: map<nat, nat>, f: nat)
    requires IsRun(ks, es) && ks[0] == Boot(t, init) && f < |es| && es[f].Fork?
    ensures SleepRoom(ks[|es|])
    decreases |es|
  {
    hide Step, Enabled, Places;
    var n := |es| - 1;
    EveryRunPlaces(ks[..n + 1], es[..n], t, init);
    assert Enabled(ks[n], es[n]) && ks[n + 1] == Step(ks[n], es[n]);
    if f < n { SleepsAfterFork(ks[..n + 1], es[..n], t, init, f); }
    SleepRoomKept(ks[n], es[n]);
  }

  // ------------------------------------------------------------ bounded bypass

  function Dispatches(es: seq<Event>): nat {
    if es == [] then 0 else Dispatches(es[..|es| - 1]) + (if es[|es| - 1].Dispatch? then 1 else 0)
  }

  /** Only dispatch takes from the run queue, and it takes the head; everything else appends. */
  lemma {:induction false} QueueStep(k: K, e: Event)
    requires Enabled(k, e)
    ensures if e.Dispatch? then Step(k, e).lists.runq == k.lists.runq[1..] && Step(k, e).cur == Some(k.lists.runq[0])
            else k.lists.runq <= Step(k, e).lists.runq
  {
    hide Woken, Kept, NextSync, NextThread, At, Queue.Doubled;
  }

  /**
    Main result: whatever happens in between, a thread at position p of the run queue is at
    position p - d after d <= p dispatches ...
   */
  lemma {:induction false} Bypass(ks: seq<K>, es: seq<Event>, p: nat)
    requires IsRun(ks, es) && p < |ks[0].lists.runq| && Dispatches(es) <= p
    ensures var d := Dispatches(es);
            p - d < |ks[|es|].lists.runq| && ks[|es|].lists.runq[p - d] == ks[0].lists.runq[p]
  {
    hide Step, Enabled;
    if es != [] {
      var n := |es| - 1;
      Bypass(ks[..n + 1], es[..n], p);
      assert Enabled(ks[n], es[n]) && ks[n + 1] == Step(ks[n], es[n]);
      QueueStep(ks[n], es[n]);
    }
  }

  /** ... and is the one that the next dispatch, number p + 1, runs. */
  lemma {:induction false} DispatchedInTurn(ks: seq<K>, es: seq<Event>, p: nat)
    requires IsRun(ks, es) && p < |ks[0].lists.runq|
    requires es != [] && es[|es| - 1] == Dispatch && Dispatches(es[..|es| - 1]) == p
    ensures ks[|es|].cur == Some(ks[0].lists.runq[p])
  {
    hide Step, Enabled;
    var n := |es| - 1;
    Bypass(ks[..n + 1], es[..n], p);
    assert Enabled(ks[n], es[n]) && ks[n + 1] == Step(ks[n], es[n]);
    QueueStep(ks[n], es[n]);
  }
}
