/**
  When stashing a thread needs memory.  mi_switch and thread_wakeup must not fail, and thread_fork
  preallocates so that they do not.  But the ring of n slots it reserves holds n - 1 threads, and
  the buffer it reserves for the zombies is given back by exorcise and does not count the zombies
  that are already in it.
 */
module KernelMemory {
  import opened Basics
  import opened SleepLists
  import opened Kernel
  import opened KernelPlaces
  import Queue
  import PtrArray

  /** The ring always has room for all threads but perhaps one. */
  ghost predicate RingOk(k: K) {
    |k.lists.runq| < k.lists.ring && k.lists.numthreads <= k.lists.ring
  }

  /** ring has room for the run queue of ls', and ls' no more threads than that. */
  predicate Roomier(ls: Lists, ls': Lists) {
    ls.ring <= ls'.ring && |ls'.runq| < ls'.ring && ls'.numthreads <= ls'.ring
  }

  /** Queueing grows the ring iff as many threads would then be queued as it has slots. */
  lemma EnqueueRoom(ls: Lists, ts: seq<nat>)
    requires |ls.runq| < ls.ring && ls.numthreads <= ls.ring
    ensures Roomier(ls, Enqueue(ls, ts))
    ensures Enqueue(ls, ts).ring != ls.ring <==> |ls.runq| + |ts| >= ls.ring
  {
    hide Queue.Doubled;
  }

  /** The threads that statement i of the current thread t queues. */
  function Queues(ls: Lists, t: nat, i: Instr): seq<nat> {
    match i
    case WakeAll(a) => Woken(ls.sleepers, ls.at, a)
    case WakeFirst(a) => if FirstOn(ls.sleepers, ls.at, a) < |ls.sleepers| then [ls.sleepers[FirstOn(ls.sleepers, ls.at, a)]] else []
    case Yield => [t]
    case _ => []
  }

  lemma {:induction false} ExecRoom(ls: Lists, y: Sync, t: nat, i: Instr)
    requires |ls.runq| < ls.ring && ls.numthreads <= ls.ring
    ensures Roomier(ls, NextLists(ls, y, t, i))
    ensures NextLists(ls, y, t, i).ring == Enqueue(ls, Queues(ls, t, i)).ring
  {
    hide Enqueue, Woken, Kept;
    EnqueueRoom(ls, Queues(ls, t, i));
    NothingQueued(ls);
  }

  lemma NothingQueued(ls: Lists)
    requires |ls.runq| < ls.ring
    ensures Enqueue(ls, []).ring == ls.ring && Enqueue(ls, []).runq == ls.runq
  {
  }

  /** What the clock puts on the run queue, and when that grows the ring. */
  lemma {:induction false} ClockRoom(ls: Lists, second: bool)
    requires |ls.runq| < ls.ring && ls.numthreads <= ls.ring
    ensures var ls' := Clock(ls, second);
            && Roomier(ls, ls') && |ls'.runq| + |ls'.sleepers| == |ls.runq| + |ls.sleepers|
            && (ls'.ring != ls.ring <==> |ls'.runq| >= ls.ring)
            && ls'.sleepers == if second then Kept(ls.sleepers, ls.at, LboltA) else ls.sleepers
  {
    hide Woken, Kept, Enqueue;
    EnqueueRoom(ls, Woken(ls.sleepers, ls.at, LboltA));
    WokenPerm(ls.sleepers, ls.at, LboltA);
    EnqueuedLists(ls, Woken(ls.sleepers, ls.at, LboltA));
  }

  lemma EnqueuedLists(ls: Lists, ts: seq<nat>)
    ensures var ls' := Enqueue(ls, ts); ls'.runq == ls.runq + ts && ls'.sleepers == ls.sleepers && ls'.at == ls.at
  {
  }

  lemma {:induction false} ForkRoom(k: K, t: nat)
    requires RingOk(k) && Enabled(k, Fork(t))
    ensures Roomier(k.lists, Step(k, Fork(t)).lists)
  {
    hide Queue.Doubled, Enqueue;
    EnqueueRoom(Reserved(k.lists), [t]);
  }

  lemma {:induction false} RingKept(k: K, e: Event)
    requires RingOk(k) && Enabled(k, e)
    ensures RingOk(Step(k, e)) && k.lists.ring <= Step(k, e).lists.ring
  {
    hide Woken, Kept, NextSync, NextThread, NextSpl, At, Queue.Doubled, Enqueue, NextLists;
    var ls := k.lists;
    match e
    case Exec =>
      var th := k.threads[k.cur.value];
      ExecRoom(ls, k.sync, k.cur.value, At(th.op, th.pc));
    case Tick(second) =>
      ClockRoom(ls, second);
      if k.cur.Some? { EnqueueRoom(Clock(ls, second), [k.cur.value]); }
    case IrqV(s) => EnqueueRoom(ls, Woken(ls.sleepers, ls.at, SemA(s)));
    case Fork(t) => ForkRoom(k, t);
    case _ =>
  }

  /** In every run from boot the ring has room for all threads but perhaps one. */
  lemma {:induction false} EveryRunRing(ks: seq<K>, es: seq<Event>, t: nat, init: map<nat, nat>)
    requires IsRun(ks, es) && ks[0] == Boot(t, init)
    ensures RingOk(ks[|es|])
  {
    hide Step, Enabled;
    if es != [] {
      var n := |es| - 1;
      EveryRunRing(ks[..n + 1], es[..n], t, init);
      assert Enabled(ks[n], es[n]) && ks[n + 1] == Step(ks[n], es[n]);
      RingKept(ks[n], es[n]);
    }
  }

  // ------------------------------------------------------------ when it grows

  /**
    The states in which an event other than a fork grows the ring: there are as many threads as
    slots and the event makes the last of them runnable.  A yield or a timer tick does if no thread
    is asleep, but for those that the tick wakes; a V in an interrupt handler or a tick, while no
    thread runs, if all sleepers wait for it.
   */
  ghost predicate Grows(k: K, e: Event)
    requires Enabled(k, e)
  {
    k.lists.numthreads == k.lists.ring &&
    match e
    case Exec => At(k.threads[k.cur.value].op, k.threads[k.cur.value].pc) == Yield && k.lists.sleepers == []
    case Tick(second) => (k.cur.Some? || second) && Clock(k.lists, second).sleepers == []
    case IrqV(s) => k.cur.None? && Kept(k.lists.sleepers, k.lists.at, SemA(s)) == []
    case _ => false
  }

  lemma {:induction false} QueuedCount(k: K, i: Instr)
    requires Places(k) && RingOk(k) && k.cur.Some?
    ensures |k.lists.runq| + |Queues(k.lists, k.cur.value, i)| >= k.lists.ring
            <==> k.lists.numthreads == k.lists.ring && i == Yield && k.lists.sleepers == []
  {
    hide Woken, Kept;
    if i.WakeAll? { WokenPerm(k.lists.sleepers, k.lists.at, i.a); }
  }

  /** Apart from a fork's preallocation, exactly these events grow the ring ... */
  lemma {:induction false} GrowsIff(k: K, e: Event)
    requires Places(k) && RingOk(k) && Enabled(k, e)
    ensures !e.Fork? ==> (Step(k, e).lists.ring != k.lists.ring <==> Grows(k, e))
    ensures !e.Fork? ==> (Grows(k, e) <==> |Step(k, e).lists.runq| >= k.lists.ring)
    ensures e.Fork? ==> (Step(k, e).lists.ring != k.lists.ring <==> k.lists.numthreads == k.lists.ring)
  {
    hide Woken, Kept, NextSync, NextThread, NextSpl, At, Queue.Doubled, NextLists, Places;
    var ls := k.lists;
    PlacesCount(k);
    match e
    case Exec =>
      var th := k.threads[k.cur.value];
      var i := At(th.op, th.pc);
      ExecRoom(ls, k.sync, k.cur.value, i);
      EnqueueRoom(ls, Queues(ls, k.cur.value, i));
      ExecQueued(ls, k.sync, k.cur.value, i);
      QueuedCount(k, i);
    case Tick(second) =>
      ClockRoom(ls, second);
      if k.cur.Some? { EnqueueRoom(Clock(ls, second), [k.cur.value]); }
    case IrqV(s) =>
      WokenPerm(ls.sleepers, ls.at, SemA(s));
      EnqueueRoom(ls, Woken(ls.sleepers, ls.at, SemA(s)));
    case _ =>
  }

  lemma PlacesCount(k: K)
    requires Places(k)
    ensures k.lists.numthreads == |CurSeq(k)| + |k.lists.runq| + |k.lists.sleepers|
  {
  }

  lemma ExecQueued(ls: Lists, y: Sync, t: nat, i: Instr)
    ensures NextLists(ls, y, t, i).runq == ls.runq + Queues(ls, t, i)
  {
    hide Woken, Kept, Queue.Doubled;
  }

  /** ... in every run from boot. */
  lemma {:induction false} EveryRunGrowsIff(ks: seq<K>, es: seq<Event>, t: nat, init: map<nat, nat>, n: nat)
    requires IsRun(ks, es) && ks[0] == Boot(t, init) && n < |es|
    ensures Enabled(ks[n], es[n])
    ensures ks[n + 1].lists.ring != ks[n].lists.ring
            <==> if es[n].Fork? then ks[n].lists.numthreads == ks[n].lists.ring else Grows(ks[n], es[n])
  {
    hide Step, Enabled, Grows, Places, RingOk;
    EveryRunPlaces(ks[..n + 1], es[..n], t, init);
    EveryRunRing(ks[..n + 1], es[..n], t, init);
    assert Enabled(ks[n], es[n]) && ks[n + 1] == Step(ks[n], es[n]);
    GrowsIff(ks[n], es[n]);
  }

  // ------------------------------------------------------------ the buffers of sleepers and zombies

  ghost predicate BuffersOk(k: K) {
    |k.lists.sleepers| <= k.lists.sleepMax && |k.lists.zombies| <= k.lists.zombMax
  }

  /** The event puts the current thread to sleep. */
  predicate Sleeps(k: K, e: Event)
    requires Enabled(k, e)
  {
    e == Exec && MustSleep(k.sync, At(k.threads[k.cur.value].op, k.threads[k.cur.value].pc)).Some?
  }

  lemma {:induction false} ExecSleepers(ls: Lists, y: Sync, t: nat, i: Instr)
    ensures var ls', sleeps := NextLists(ls, y, t, i), MustSleep(y, i).Some?;
            && |ls'.sleepers| <= |ls.sleepers| + (if sleeps then 1 else 0)
            && ls'.sleepMax == (if sleeps then PtrArray.Grown(ls.sleepMax, |ls.sleepers| + 1) else ls.sleepMax)
            && ls'.zombies == ls.zombies && ls'.zombMax == ls.zombMax
  {
    hide Woken, Kept, Queue.Doubled;
    if i.WakeAll? { WokenPerm(ls.sleepers, ls.at, i.a); }
  }

  /** What each event does to the two buffers. */
  lemma {:induction false} Buffers(k: K, e: Event)
    requires Enabled(k, e)
    ensures var ls, ls' := k.lists, Step(k, e).lists;
            && |ls'.sleepers| <= |ls.sleepers| + (if Sleeps(k, e) then 1 else 0)
            && ls'.sleepMax == (if e.Fork? then PtrArray.Grown(ls.sleepMax, ls.numthreads + 1)
                                else if Sleeps(k, e) then PtrArray.Grown(ls.sleepMax, |ls.sleepers| + 1) else ls.sleepMax)
            && (if e.Exit? then |ls'.zombies| == |ls.zombies| + 1 && ls'.zombMax == PtrArray.Grown(ls.zombMax, |ls.zombies| + 1)
                else if e.Fork? then ls'.zombies == ls.zombies && ls'.zombMax == PtrArray.Grown(ls.zombMax, ls.numthreads + 1)
                else if e.Dispatch? && !k.threads[ls.runq[0]].isNew
                then ls'.zombies == [] && ls'.zombMax == (if ls.zombMax > 16 then 0 else ls.zombMax)
                else ls'.zombies == ls.zombies && ls'.zombMax == ls.zombMax)
  {
    hide Woken, Kept, NextSync, NextThread, NextSpl, NextLists, At, MustSleep, Queue.Doubled, PtrArray.Grown;
    var ls := k.lists;
    match e
    case Exec =>
      var th := k.threads[k.cur.value];
      ExecSleepers(ls, k.sync, k.cur.value, At(th.op, th.pc));
    case Tick(_) => WokenPerm(ls.sleepers, ls.at, LboltA);
    case IrqV(s) => WokenPerm(ls.sleepers, ls.at, SemA(s));
    case _ =>
  }

  lemma {:induction false} BuffersKept(k: K, e: Event)
    requires BuffersOk(k) && Enabled(k, e)
    ensures BuffersOk(Step(k, e))
  {
    hide Step, Enabled, MustSleep, At, PtrArray.Grown;
    Buffers(k, e);
  }

  lemma {:induction false} EveryRunBuffers(ks: seq<K>, es: seq<Event>, t: nat, init: map<nat, nat>)
    requires IsRun(ks, es) && ks[0] == Boot(t, init)
    ensures BuffersOk(ks[|es|])
  {
    hide Step, Enabled;
    if es != [] {
      var n := |es| - 1;
      EveryRunBuffers(ks[..n + 1], es[..n], t, init);
      assert Enabled(ks[n], es[n]) && ks[n + 1] == Step(ks[n], es[n]);
      BuffersKept(ks[n], es[n]);
    }
  }

  // ------------------------------------------------------------ when an event needs memory

  /** One of the three buffers was replaced by a larger one. */
  predicate Allocates(ls: Lists, ls': Lists) {
    ls'.ring > ls.ring || ls'.sleepMax > ls.sleepMax || ls'.zombMax > ls.zombMax
  }

  /** The ring grows, or a sleep finds the sleepers' buffer full, or an exit the zombies'. */
  ghost predicate NeedsMemory(k: K, e: Event)
    requires Enabled(k, e)
  {
    || Grows(k, e)
    || (Sleeps(k, e) && |k.lists.sleepers| == k.lists.sleepMax)
    || (e == Exit && |k.lists.zombies| == k.lists.zombMax)
  }

  /** Main result: apart from a fork, which allocates and reports a failure, exactly these events need memory ... */
  lemma {:induction false} NeedsMemoryIff(k: K, e: Event)
    requires Places(k) && RingOk(k) && BuffersOk(k) && Enabled(k, e)
    ensures !e.Fork? ==> (Allocates(k.lists, Step(k, e).lists) <==> NeedsMemory(k, e))
  {
    hide Step, Enabled, Sleeps, Grows, Places, RingOk, PtrArray.Grown;
    Buffers(k, e);
    GrowsIff(k, e);
    RingKept(k, e);
  }

  /** ... in every run from boot. */
  lemma {:induction false} EveryRunNeedsMemoryIff(ks: seq<K>, es: seq<Event>, t: nat, init: map<nat, nat>, n: nat)
    requires IsRun(ks, es) && ks[0] == Boot(t, init) && n < |es| && !es[n].Fork?
    ensures Enabled(ks[n], es[n]) && (Allocates(ks[n].lists, ks[n + 1].lists) <==> NeedsMemory(ks[n], es[n]))
  {
    hide Step, Enabled, NeedsMemory, Allocates, Places, RingOk, BuffersOk;
    EveryRunPlaces(ks[..n + 1], es[..n], t, init);
    EveryRunRing(ks[..n + 1], es[..n], t, init);
    EveryRunBuffers(ks[..n + 1], es[..n], t, init);
    assert Enabled(ks[n], es[n]) && ks[n + 1] == Step(ks[n], es[n]);
    NeedsMemoryIff(ks[n], es[n]);
  }

  // ------------------------------------------------------------ runs that get there

  /** The kernel after threads 1 to n have been forked. */
  ghost function Forked(n: nat): (k: K)
    requires n <= 31
    ensures k.cur == Some(0) && k.spl == 0 && k.lists.sleepers == [] && k.lists.zombies == []
    ensures k.lists.ring == 32 && k.lists.numthreads == n + 1 && |k.lists.runq| == n && k.sync == Boot(0, map[]).sync
    ensures (forall i | 0 <= i < n :: k.lists.runq[i] == i + 1) && forall t: nat :: t in k.threads <==> t <= n
    ensures k.threads[0] == Thread(Nop, 0, [], false, false)
    ensures forall t: nat | 0 < t <= n :: k.threads[t] == Thread(Nop, 0, [], false, true)
  {
    if n == 0 then Boot(0, map[]) else assert Enabled(Forked(n - 1), Fork(n)); Step(Forked(n - 1), Fork(n))
  }

  function Forks(n: nat): seq<Event> { seq(n, i requires 0 <= i => Fork(i + 1)) }

  ghost function ForkedAll(n: nat): seq<K>
    requires n <= 31
  {
    seq(n + 1, i requires 0 <= i <= n => Forked(i))
  }

  lemma ForkStep(n: nat)
    requires n < 31
    ensures Enabled(Forked(n), Fork(n + 1)) && Forked(n + 1) == Step(Forked(n), Fork(n + 1))
  {
    hide Step;
    var m := n + 1;
    assert Forked(m) == Step(Forked(m - 1), Fork(m));
  }

  lemma {:induction false} ForksRun(n: nat)
    requires n <= 31
    ensures IsRun(ForkedAll(n), Forks(n)) && ForkedAll(n)[0] == Boot(0, map[])
  {
    hide Forked, Step, Enabled;
    forall i | 0 <= i < n ensures Enabled(Forked(i), Fork(i + 1)) && Forked(i + 1) == Step(Forked(i), Fork(i + 1)) {
      ForkStep(i);
    }
    NoneForked();
  }

  lemma NoneForked()
    ensures Forked(0) == Boot(0, map[])
  {
  }

  /** One more event at the end of a run. */
  lemma RunOn(ks: seq<K>, es: seq<Event>, e: Event)
    requires IsRun(ks, es) && Enabled(ks[|es|], e)
    ensures IsRun(ks + [Step(ks[|es|], e)], es + [e])
  {
  }

  /** From boot, 31 forks and a yield: with 32 threads, all runnable, the yield needs memory. */
  lemma {:induction false} YieldNeedsMemory() returns (ks: seq<K>, es: seq<Event>)
    ensures IsRun(ks, es) && ks[0] == Boot(0, map[]) && es == Forks(31) + [Start(GiveUp), Exec, Exec]
    ensures ks[33].lists.ring == 32 && ks[34].lists.ring == 64
  {
    hide Forked;
    ForksRun(31);
    ks, es := ForkedAll(31), Forks(31);
    var k := ks[31];
    RunOn(ks, es, Start(GiveUp));
    ks, es := ks + [Step(k, Start(GiveUp))], es + [Start(GiveUp)];
    RunOn(ks, es, Exec);
    ks, es := ks + [Step(ks[32], Exec)], es + [Exec];
    RunOn(ks, es, Exec);
    ks, es := ks + [Step(ks[33], Exec)], es + [Exec];
    assert es == Forks(31) + [Start(GiveUp), Exec, Exec];
  }

  /** Of 32 threads those below j are asleep on semaphore 0 and thread j runs. */
  ghost predicate Sleeping(k: K, j: nat) {
    && j <= 31 && k.cur == Some(j) && k.spl == 0 && k.lists.ring == 32 && k.lists.numthreads == 32 && Get(k.sync.count, 0) == 0
    && |k.lists.sleepers| == j && (forall i | 0 <= i < j :: k.lists.sleepers[i] == i && SleepsOn(k.lists.at, i, SemA(0)))
    && |k.lists.runq| == 31 - j && (forall i | 0 <= i < 31 - j :: k.lists.runq[i] == j + 1 + i)
    && (forall t: nat :: t in k.threads <==> t <= 31)
    && (forall t: nat | j <= t <= 31 :: k.threads[t] == Thread(Nop, 0, [], false, t > j))
  }

  /** P(0) up to the sleep. */
  function Down(k: K): K
    requires Enabled(k, Start(P(0))) && Enabled(Step(k, Start(P(0))), Exec)
             && Enabled(Step(Step(k, Start(P(0))), Exec), Exec)
  {
    Step(Step(Step(k, Start(P(0))), Exec), Exec)
  }

  /** Thread j goes to sleep: no thread runs, j + 1 of them sleep. */
  ghost predicate Slept(k: K, j: nat) {
    && j <= 31 && k.cur == None && k.idle == (k.lists.runq == []) && k.lists.ring == 32 && k.lists.numthreads == 32 && Get(k.sync.count, 0) == 0
    && |k.lists.sleepers| == j + 1 && (forall i | 0 <= i <= j :: k.lists.sleepers[i] == i && SleepsOn(k.lists.at, i, SemA(0)))
    && |k.lists.runq| == 31 - j && (forall i | 0 <= i < 31 - j :: k.lists.runq[i] == j + 1 + i)
    && (forall t: nat :: t in k.threads <==> t <= 31)
    && (forall t: nat | j < t <= 31 :: k.threads[t] == Thread(Nop, 0, [], false, true))
  }

  lemma {:induction false} DownSleeps(k: K, j: nat)
    requires Sleeping(k, j)
    ensures Enabled(k, Start(P(0))) && Enabled(Step(k, Start(P(0))), Exec)
            && Enabled(Step(Step(k, Start(P(0))), Exec), Exec) && Slept(Down(k), j)
  {
    var k1 := Step(k, Start(P(0)));
    var k2 := Step(k1, Exec);
    assert k2.threads[j].op == P(0) && k2.threads[j].pc == 1 && k2.sync == k.sync && k2.lists == k.lists;
    var k3 := Step(k2, Exec);
    assert k3.lists == Park(k.lists, j, SemA(0)) && k3.cur == None && k3.sync == k.sync;
  }

  lemma {:induction false} NextRuns(k: K, j: nat)
    requires Slept(k, j) && j < 31
    ensures Enabled(k, Dispatch) && Sleeping(Step(k, Dispatch), j + 1)
  {
    var k' := Step(k, Dispatch);
    assert k.lists.runq[0] == j + 1;
    assert forall i | 0 <= i < 30 - j :: k'.lists.runq[i] == k.lists.runq[i + 1];
  }

  lemma {:induction false} SleepRun(j: nat) returns (ks: seq<K>, es: seq<Event>)
    requires j <= 31
    ensures IsRun(ks, es) && ks[0] == Boot(0, map[]) && Slept(ks[|es|], j)
  {
    hide Step, Enabled, Slept, Sleeping, Forked;
    if j == 0 {
      ForksRun(31);
      ks, es := ForkedAll(31), Forks(31);
      ForkedSleeping();
    } else {
      ks, es := SleepRun(j - 1);
      var k := ks[|es|];
      NextRuns(k, j - 1);
      RunOn(ks, es, Dispatch);
      ks, es := ks + [Step(k, Dispatch)], es + [Dispatch];
    }
    var k := ks[|es|];
    DownSleeps(k, j);
    RunOn(ks, es, Start(P(0)));
    ks, es := ks + [Step(k, Start(P(0)))], es + [Start(P(0))];
    RunOn(ks, es, Exec);
    ks, es := ks + [Step(ks[|es|], Exec)], es + [Exec];
    RunOn(ks, es, Exec);
    ks, es := ks + [Step(ks[|es|], Exec)], es + [Exec];
  }

  lemma ForkedSleeping()
    ensures Sleeping(Forked(31), 0)
  {
    hide Forked;
  }

  /** From boot: 32 threads go to sleep on one semaphore, and the V of an interrupt handler needs memory. */
  lemma {:induction false} WakeupNeedsMemory() returns (ks: seq<K>, es: seq<Event>)
    ensures IsRun(ks, es) && ks[0] == Boot(0, map[]) && es != [] && es[|es| - 1] == IrqV(0)
    ensures ks[|es| - 1].lists.ring == 32 && ks[|es|].lists.ring > 32
  {
    hide Step, Enabled, Woken, Kept;
    ks, es := SleepRun(31);
    var k := ks[|es|];
    EveryRunPlaces(ks, es, 0, map[]);
    EveryRunRing(ks, es, 0, map[]);
    IdleGrows(k);
    RunOn(ks, es, IrqV(0));
    GrowsIff(k, IrqV(0));
    RingKept(k, IrqV(0));
    ks, es := ks + [Step(k, IrqV(0))], es + [IrqV(0)];
  }

  lemma {:induction false} IdleGrows(k: K)
    requires Slept(k, 31)
    ensures Enabled(k, IrqV(0)) && Grows(k, IrqV(0))
  {
    hide Kept;
    WokenMembers(k.lists.sleepers, k.lists.at, SemA(0));
    HeadIn(Kept(k.lists.sleepers, k.lists.at, SemA(0)));
  }

  lemma HeadIn(ts: seq<nat>)
    ensures ts != [] ==> ts[0] in ts
  {
  }

  /** Of 15 threads, thread j runs; those below j wait for their second turn and those above for their first. */
  ghost predicate Rotating(k: K, j: nat) {
    && j <= 14 && k.cur == Some(j) && k.spl == 0 && k.lists.zombies == [] && k.lists.zombMax == 30
    && |k.lists.runq| == 14 && (forall i | 0 <= i < 14 :: k.lists.runq[i] == if i < 14 - j then j + 1 + i else i + j - 14)
    && (forall t: nat :: t in k.threads <==> t <= 14)
    && (forall t: nat | t <= 14 :: k.threads[t] == Thread(Nop, 0, [], t < j, t > j))
  }

  /** Thread 0 is back, and exorcise has dropped the zombies' buffer. */
  ghost predicate Spent(k: K) {
    && k.cur == Some(0) && k.lists.zombies == [] && k.lists.zombMax == 0
    && 0 in k.threads && k.threads[0] == Thread(Nop, 0, [], false, false)
  }

  lemma {:induction false} NextTurn(k: K, j: nat)
    requires Rotating(k, j)
    ensures Enabled(k, Tick(false)) && Enabled(Step(k, Tick(false)), Dispatch)
    ensures var k' := Step(Step(k, Tick(false)), Dispatch); if j < 14 then Rotating(k', j + 1) else Spent(k')
  {
    hide Queue.Doubled;
    var k1 := Step(k, Tick(false));
    assert k1.lists.runq == k.lists.runq + [j];
    assert k1.lists.runq[0] == if j < 14 then j + 1 else 0;
  }

  /** The size of the zombies' buffer after n forks. */
  function Size(n: nat): nat { if n == 0 then 0 else if n == 1 then 2 else if n <= 5 then 6 else if n <= 13 then 14 else 30 }

  lemma {:induction false} ForkedSize(n: nat)
    requires n <= 14
    ensures Forked(n).lists.zombMax == Size(n)
  {
    hide Forked, Enqueue, PtrArray.Grown, Size;
    NoneForked();
    GrownSize(n);
    if n > 0 {
      ForkedSize(n - 1);
      ForkStep(n - 1);
      EnqueuedZombies(Reserved(Forked(n - 1).lists), [n]);
    }
  }

  lemma EnqueuedZombies(ls: Lists, ts: seq<nat>)
    ensures Enqueue(ls, ts).zombMax == ls.zombMax
  {
  }

  lemma GrownSize(n: nat)
    requires n <= 14
    ensures if n == 0 then Size(n) == 0 else PtrArray.Grown(Size(n - 1), n + 1) == Size(n)
  {
  }

  lemma {:induction false} TurnsRun(j: nat) returns (ks: seq<K>, es: seq<Event>)
    requires j <= 14
    ensures IsRun(ks, es) && ks[0] == Boot(0, map[]) && Rotating(ks[|es|], j)
  {
    hide Step, Enabled, Rotating, Forked;
    if j == 0 {
      ForksRun(14);
      ks, es := ForkedAll(14), Forks(14);
      ForkedRotating();
    } else {
      ks, es := TurnsRun(j - 1);
      ks, es := TurnOn(ks, es, j - 1);
    }
  }

  lemma {:induction false} TurnOn(ks: seq<K>, es: seq<Event>, j: nat) returns (ks': seq<K>, es': seq<Event>)
    requires IsRun(ks, es) && Rotating(ks[|es|], j)
    ensures IsRun(ks', es') && ks'[0] == ks[0] && if j < 14 then Rotating(ks'[|es'|], j + 1) else Spent(ks'[|es'|])
  {
    hide Step, Enabled, Rotating, Spent;
    var k := ks[|es|];
    NextTurn(k, j);
    RunOn(ks, es, Tick(false));
    ks', es' := ks + [Step(k, Tick(false))], es + [Tick(false)];
    RunOn(ks', es', Dispatch);
    ks', es' := ks' + [Step(ks'[|es'|], Dispatch)], es' + [Dispatch];
  }

  lemma ForkedRotating()
    ensures Rotating(Forked(14), 0)
  {
    hide Forked;
    ForkedSize(14);
  }

  /** From boot: 14 forks reserve 30 slots, the first return of a thread drops them, and its exit needs memory. */
  lemma {:induction false} ExitNeedsMemory() returns (ks: seq<K>, es: seq<Event>)
    ensures IsRun(ks, es) && ks[0] == Boot(0, map[]) && es != [] && es[|es| - 1] == Exit
    ensures ks[|es| - 1].lists.zombies == [] && ks[|es| - 1].lists.zombMax == 0 && ks[|es|].lists.zombMax > 0
  {
    hide Rotating;
    ks, es := TurnsRun(14);
    ks, es := TurnOn(ks, es, 14);
    RunOn(ks, es, Exit);
    ks, es := ks + [Step(ks[|es|], Exit)], es + [Exit];
  }

  /** From boot, without the buffer being dropped: each thread forks one and exits, and new threads leave the zombies. */
  lemma {:induction false} ZombiesNeedMemory() returns (ks: seq<K>, es: seq<Event>)
    ensures IsRun(ks, es) && ks[0] == Boot(0, map[]) && es == [Fork(1), Exit, Dispatch, Fork(2), Exit, Dispatch, Exit]
    ensures ks[6].lists.zombies == [0, 1] && ks[6].lists.zombMax == 2 && ks[7].lists.zombMax == 6
  {
    hide Step, Enabled;
    var k := Boot(0, map[]);
    ForkExit(k, 0, 1);
    var k1 := Step(k, Fork(1));
    var k2 := Step(k1, Exit);
    var k3 := Step(k2, Dispatch);
    ForkExit(k3, 1, 2);
    var k4 := Step(k3, Fork(2));
    var k5 := Step(k4, Exit);
    var k6 := Step(k5, Dispatch);
    ExitFull(k6);
    ks, es := [k, k1, k2, k3, k4, k5, k6, Step(k6, Exit)], [Fork(1), Exit, Dispatch, Fork(2), Exit, Dispatch, Exit];
  }

  lemma ExitFull(k: K)
    requires Busy(k) && Done(k.threads[k.cur.value]) && |k.lists.zombies| == 2 && k.lists.zombMax == 2
    ensures Enabled(k, Exit) && Step(k, Exit).lists.zombMax == 6
  {
  }

  /** The only thread t forks u and exits, and u runs. */
  lemma {:induction false} ForkExit(k: K, t: nat, u: nat)
    requires t != u && u !in k.lists.zombies && k.cur == Some(t) && k.threads == map[t := Thread(Nop, 0, [], false, false)]
    requires k.lists.runq == [] && k.lists.ring > 2 && k.lists.numthreads == 1
    ensures Enabled(k, Fork(u)) && Enabled(Step(k, Fork(u)), Exit) && Enabled(Step(Step(k, Fork(u)), Exit), Dispatch)
    ensures var k' := Step(Step(Step(k, Fork(u)), Exit), Dispatch);
            && k'.cur == Some(u) && k'.threads == map[u := Thread(Nop, 0, [], false, false)]
            && k'.lists.runq == [] && k'.lists.ring == k.lists.ring && k'.lists.numthreads == 1
            && k'.lists.zombies == k.lists.zombies + [t]
            && k'.lists.zombMax == PtrArray.Grown(PtrArray.Grown(k.lists.zombMax, 2), |k.lists.zombies| + 1)
  {
  }
}
