/**
  What every run of the synchronisation primitives keeps, over all interleavings: interrupts stay
  off inside a primitive, no wakeup is lost, locks exclude, and cv_wait releases and sleeps
  atomically.
 */
module KernelSync {
  import opened Basics
  import opened SleepLists
  import opened Kernel
  import opened KernelPlaces
  import Queue
  import PtrArray

  // ------------------------------------------------------------ interrupt levels and resting points

  /** The statements at which a thread can be switched out inside a primitive. */
  predicate Resume(op: Op, pc: nat) {
    match op
    case P(_) => pc == 1
    case Acquire(_) => pc == 1
    case Wait(_, _) => pc == 7 || pc == 8
    case GiveUp => pc == 2
    case ClockSleep(n) => 2 <= pc <= n + 1
    case _ => false
  }

  /** What a thread asleep at pc sleeps on. */
  function SleepAddr(op: Op, pc: nat): Option<Addr> {
    match op
    case P(s) => if pc == 1 then Some(SemA(s)) else None
    case Acquire(l) => if pc == 1 then Some(LockA(l)) else None
    case Wait(c, l) => if pc == 7 then Some(CvA(c)) else if pc == 8 then Some(LockA(l)) else None
    case ClockSleep(n) => if 2 <= pc <= n + 1 then Some(LboltA) else None
    case _ => None
  }

  /** The saved levels on a thread's stack are those of the splhigh calls it has open. */
  predicate ThreadOk(th: Thread) {
    th.pc <= Len(th.op) && th.saves == Saves(Depth(th.op, th.pc))
  }

  /** A runnable thread was stopped by the timer outside every primitive, is new, or waits at a resting point. */
  predicate Parked(th: Thread) {
    if th.irq then !th.isNew && Depth(th.op, th.pc) == 0
    else if th.isNew then th.op == Nop && th.pc == 0
    else Resume(th.op, th.pc)
  }

  predicate Asleep(th: Thread, a: Addr) {
    !th.irq && !th.isNew && SleepAddr(th.op, th.pc) == Some(a)
  }

  /** Interrupts are off exactly while the current thread has a splhigh open, and while the scheduler idles. */
  ghost predicate Levels(k: K) {
    && (forall t | t in k.threads :: ThreadOk(k.threads[t]))
    && (if k.cur.None? then k.spl == SPL_HIGH
        else k.cur.value in k.threads && var th := k.threads[k.cur.value];
             k.spl == Level(Depth(th.op, th.pc)) && !th.irq && !th.isNew)
    && ListsOk(k.lists, k.threads)
  }

  ghost predicate ListsOk(ls: Lists, threads: map<nat, Thread>) {
    && (forall t | t in ls.runq :: t in threads && Parked(threads[t]))
    && (forall t | t in ls.sleepers :: t in threads && t in ls.at && Asleep(threads[t], ls.at[t]))
  }

  /** The threads on the lists are distinct. */
  lemma {:induction false} Distinct(k: K)
    requires Places(k)
    ensures k.cur.Some? ==> k.cur.value !in k.lists.runq && k.cur.value !in k.lists.sleepers
    ensures forall t | t in k.lists.runq :: t !in k.lists.sleepers
    ensures k.lists.runq != [] ==> k.lists.runq[0] !in k.lists.runq[1..]
    ensures forall t | t in k.lists.runq || t in k.lists.sleepers || Some(t) == k.cur :: t in k.threads
  {
    var w := Where(k);
    if k.cur.Some? { assert w[k.cur.value] >= 1; }
    if k.lists.runq != [] {
      assert k.lists.runq == [k.lists.runq[0]] + k.lists.runq[1..];
      assert w[k.lists.runq[0]] <= 1;
    }
    forall t | t in k.lists.runq ensures t !in k.lists.sleepers { assert w[t] <= 1; }
    forall t | t in k.lists.runq || t in k.lists.sleepers || Some(t) == k.cur ensures t in k.threads { assert w[t] >= 1; }
  }

  /** splhigh and splx move between the levels of the nesting depth. */
  lemma NestedSpl(op: Op, pc: nat)
    requires pc < Len(op)
    ensures var d, i := Depth(op, pc), At(op, pc);
            var d' := Depth(op, pc + 1);
            && (i == High ==> d' == d + 1 && Saves(d) + [Level(d)] == Saves(d'))
            && (i == Restore ==> d == d' + 1 && Saves(d)[..|Saves(d)| - 1] == Saves(d') && Saves(d)[|Saves(d)| - 1] == Level(d'))
            && (i != High && i != Restore ==> d' == d)
            && (i.Block? ==> SleepAddr(op, pc + 1) == Some(i.a) && Resume(op, pc + 1))
            && (i.TestSem? ==> SleepAddr(op, pc) == Some(SemA(i.s)) && Resume(op, pc))
            && (i.TestLock? ==> SleepAddr(op, pc) == Some(LockA(i.l)) && Resume(op, pc))
            && (i.Yield? ==> Resume(op, pc + 1))
  {
  }

  /** A resting point lies inside a primitive: interrupts are off there. */
  lemma ResumeInside(op: Op, pc: nat)
    requires Resume(op, pc)
    ensures pc < Len(op) && Depth(op, pc) >= 1
    ensures SleepAddr(op, pc).Some? || op == GiveUp
  {
  }

  lemma {:induction false} NextThreadOk(th: Thread, spl: nat, y: Sync)
    requires ThreadOk(th) && th.pc < Len(th.op) && spl == Level(Depth(th.op, th.pc)) && !th.irq && !th.isNew
    ensures var i := At(th.op, th.pc);
            var th' := NextThread(th, spl, y, i);
            && ThreadOk(th') && th'.op == th.op && !th'.irq && !th'.isNew
            && NextSpl(th, spl, i) == Level(Depth(th'.op, th'.pc))
            && (MustSleep(y, i).Some? ==> Asleep(th', MustSleep(y, i).value) && NextSpl(th, spl, i) == SPL_HIGH)
            && (i.Yield? ==> Parked(th') && NextSpl(th, spl, i) == SPL_HIGH)
  {
    hide At, Depth, Len, SleepAddr, Resume;
    NestedSpl(th.op, th.pc);
    var th' := NextThread(th, spl, y, At(th.op, th.pc));
    if Resume(th'.op, th'.pc) { ResumeInside(th'.op, th'.pc); }
  }

  lemma ListsThread(ls: Lists, threads: map<nat, Thread>, t: nat, th: Thread)
    requires ListsOk(ls, threads) && t !in ls.runq && t !in ls.sleepers
    ensures ListsOk(ls, threads[t := th])
  {
  }

  lemma ListsEnqueue(ls: Lists, threads: map<nat, Thread>, t: nat)
    requires ListsOk(ls, threads) && t in threads && Parked(threads[t])
    ensures ListsOk(Enqueue(ls, [t]), threads)
  {
  }

  lemma ListsPark(ls: Lists, threads: map<nat, Thread>, t: nat, a: Addr)
    requires ListsOk(ls, threads) && t in threads && Asleep(threads[t], a) && t !in ls.sleepers
    ensures ListsOk(Park(ls, t, a), threads)
  {
  }

  lemma {:induction false} AsleepParked(th: Thread, a: Addr)
    requires Asleep(th, a)
    ensures Parked(th)
  {
  }

  lemma {:induction false} ListsWakeEvery(ls: Lists, threads: map<nat, Thread>, a: Addr)
    requires ListsOk(ls, threads)
    ensures ListsOk(WakeEvery(ls, a), threads)
  {
    hide Woken, Kept, Parked, Asleep;
    WokenMembers(ls.sleepers, ls.at, a);
    forall t | t in ls.sleepers ensures Parked(threads[t]) { AsleepParked(threads[t], ls.at[t]); }
  }

  lemma {:induction false} ListsWakeOne(ls: Lists, threads: map<nat, Thread>, a: Addr)
    requires ListsOk(ls, threads)
    ensures ListsOk(WakeOneOn(ls, a), threads)
  {
    hide Parked, Asleep;
    forall t | t in ls.sleepers ensures Parked(threads[t]) { AsleepParked(threads[t], ls.at[t]); }
  }

  lemma {:induction false} ExecLevels(k: K)
    requires Places(k) && Levels(k) && Enabled(k, Exec)
    ensures Levels(ExecStep(k))
  {
    hide At, Depth, NextSync, NextThread, NextSpl, WakeEvery, WakeOneOn, Enqueue, Park, ListsOk, ThreadOk, Places, MustSleep;
    var t := k.cur.value;
    var th := k.threads[t];
    var i := At(th.op, th.pc);
    var th' := NextThread(th, k.spl, k.sync, i);
    var threads' := k.threads[t := th'];
    Distinct(k);
    NextThreadOk(th, k.spl, k.sync);
    ListsThread(k.lists, k.threads, t, th');
    SleepKinds(k.sync, i);
    if i.WakeAll? { ListsWakeEvery(k.lists, threads', i.a); }
    else if i.WakeFirst? { ListsWakeOne(k.lists, threads', i.a); }
    else if i.Yield? { ListsEnqueue(k.lists, threads', t); }
    else if MustSleep(k.sync, i).Some? { ListsPark(k.lists, threads', t, MustSleep(k.sync, i).value); }
  }

  lemma SleepKinds(y: Sync, i: Instr)
    ensures MustSleep(y, i).Some? ==> i.TestSem? || i.TestLock? || i.Block?
  {
  }

  lemma {:induction false} StepLevels(k: K, e: Event)
    requires Places(k) && Levels(k) && Enabled(k, e)
    ensures Levels(Step(k, e))
  {
    hide ExecStep, Places, WakeEvery, Enqueue;
    Distinct(k);
    match e
    case Start(op) => ListsThread(k.lists, k.threads, k.cur.value, Step(k, e).threads[k.cur.value]);
    case Exec => ExecLevels(k);
    case Tick(second) => TickLevels(k, second);
    case Dispatch => DispatchLevels(k);
    case IrqV(s) => ListsWakeEvery(k.lists, k.threads, SemA(s));
    case Fork(t) => ForkLevels(k, t);
    case Exit =>
  }

  lemma {:induction false} TickLevels(k: K, second: bool)
    requires Places(k) && Levels(k) && Enabled(k, Tick(second))
    ensures Levels(Step(k, Tick(second)))
  {
    hide Places, WakeEvery, Enqueue, ListsOk;
    Distinct(k);
    var ls := Clock(k.lists, second);
    ListsWakeEvery(k.lists, k.threads, LboltA);
    ClockSleepers(k.lists, second);
    if k.cur.Some? {
      var t := k.cur.value;
      ListsThread(ls, k.threads, t, k.threads[t].(irq := true));
      ListsEnqueue(ls, k.threads[t := k.threads[t].(irq := true)], t);
    }
  }

  /** The clock moves sleepers to the run queue: it changes neither what they sleep on nor who is on the lists. */
  lemma {:induction false} ClockSleepers(ls: Lists, second: bool)
    ensures var ls' := Clock(ls, second);
            && ls'.at == ls.at && (forall t | t in ls'.sleepers :: t in ls.sleepers)
            && (forall t | t in ls'.runq :: t in ls.runq || t in ls.sleepers)
  {
    hide Woken, Kept;
    WokenMembers(ls.sleepers, ls.at, LboltA);
  }

  lemma {:induction false} DispatchLevels(k: K)
    requires Places(k) && Levels(k) && Enabled(k, Dispatch)
    ensures Levels(Step(k, Dispatch))
  {
    hide Places, Depth, Resume, ListsOk, Exorcised;
    Distinct(k);
    HeadParked(k.lists, k.threads);
    var t := k.lists.runq[0];
    var th := k.threads[t];
    if !th.irq && !th.isNew { ResumeInside(th.op, th.pc); }
    NopDepth();
    ListsDispatch(k.lists, k.threads, th.(irq := false, isNew := false), th.isNew);
  }

  lemma HeadParked(ls: Lists, threads: map<nat, Thread>)
    requires ListsOk(ls, threads)
    ensures ls.runq != [] ==> ls.runq[0] in threads && Parked(threads[ls.runq[0]])
  {
  }

  lemma ListsDispatch(ls: Lists, threads: map<nat, Thread>, th: Thread, isNew: bool)
    requires ListsOk(ls, threads) && ls.runq != [] && ls.runq[0] !in ls.runq[1..] && ls.runq[0] !in ls.sleepers
    ensures var t := ls.runq[0];
            ListsOk(Exorcised(ls.(runq := ls.runq[1..], at := ls.at - {t}), isNew), threads[t := th])
  {
    hide Parked, Asleep;
    assert forall u | u in ls.runq[1..] :: u in ls.runq;
  }

  lemma NopDepth()
    ensures Depth(Nop, 0) == 0
  {
  }

  lemma {:induction false} ForkLevels(k: K, t: nat)
    requires Places(k) && Levels(k) && Enabled(k, Fork(t))
    ensures Levels(Step(k, Fork(t)))
  {
    hide Places, Depth, Resume, Queue.Doubled, PtrArray.Grown, ListsOk, Enqueue, Reserved;
    Distinct(k);
    NopDepth();
    ListsThread(k.lists, k.threads, t, Step(k, Fork(t)).threads[t]);
    ListsReserve(k.lists, Step(k, Fork(t)).threads);
    ListsEnqueue(Reserved(k.lists), Step(k, Fork(t)).threads, t);
  }

  lemma ListsReserve(ls: Lists, threads: map<nat, Thread>)
    requires ListsOk(ls, threads)
    ensures ListsOk(Reserved(ls), threads)
  {
  }

  // ------------------------------------------------------------ no lost wakeup

  /** The statement the processor executes next, if a thread is inside a primitive. */
  function Next(k: K): Option<Instr> {
    if Busy(k) && !Done(k.threads[k.cur.value])
    then Some(At(k.threads[k.cur.value].op, k.threads[k.cur.value].pc)) else None
  }

  /**
    A thread asleep on a semaphore has nothing to take, and one asleep on a lock finds it owned,
    but for the moment between V's increment (or the release) and the wakeup that follows it.
    A decrement finds something to take and an acquisition finds the lock free.
   */
  ghost predicate NoLost(ls: Lists, y: Sync, next: Option<Instr>) {
    && (forall t, s | t in ls.sleepers && SleepsOn(ls.at, t, SemA(s)) :: Get(y.count, s) == 0 || next == Some(WakeAll(SemA(s))))
    && (forall t, l | t in ls.sleepers && SleepsOn(ls.at, t, LockA(l)) :: l in y.own || next == Some(WakeAll(LockA(l))))
    && (next.Some? && next.value.Dec? ==> Get(y.count, next.value.s) > 0)
    && (next.Some? && next.value.Take? ==> next.value.l !in y.own)
  }

  ghost predicate NoLostWakeup(k: K) {
    NoLost(k.lists, k.sync, Next(k))
  }

  /** The wakeup follows the increment and the release; a decrement and a take follow their test. */
  lemma Follows(op: Op, pc: nat)
    requires pc + 1 < Len(op)
    ensures At(op, pc).Inc? ==> At(op, pc + 1) == WakeAll(SemA(At(op, pc).s))
    ensures At(op, pc).Clear? ==> At(op, pc + 1) == WakeAll(LockA(At(op, pc).l))
    ensures At(op, pc + 1).Dec? ==> At(op, pc) == TestSem(At(op, pc + 1).s)
    ensures At(op, pc + 1).Take? ==> At(op, pc) == TestLock(At(op, pc + 1).l)
  {
  }

  lemma EndsAndStarts(op: Op)
    requires op != Nop || Len(op) > 0
    ensures Len(op) > 0 && (At(op, 0) == High || At(op, 0).CheckHold?)
    ensures At(op, Len(op) - 1) == Restore
  {
  }

  /** Outside every primitive, no wakeup is pending. */
  lemma {:induction false} DepthZero(op: Op, pc: nat)
    requires pc < Len(op) && Depth(op, pc) == 0
    ensures At(op, pc) == High || At(op, pc).CheckHold?
  {
  }

  /** If no wakeup comes next, it holds without the exceptions. */
  lemma Calm(ls: Lists, y: Sync, next: Option<Instr>, next': Option<Instr>)
    requires NoLost(ls, y, next) && !(next.Some? && next.value.WakeAll?)
    requires !(next'.Some? && (next'.value.Dec? || next'.value.Take?))
    ensures NoLost(ls, y, next')
  {
  }

  lemma {:induction false} WakeCalms(ls: Lists, y: Sync, a: Addr, next: Option<Instr>)
    requires NoLost(ls, y, Some(WakeAll(a))) && !(next.Some? && (next.value.Dec? || next.value.Take?))
    ensures NoLost(WakeEvery(ls, a), y, next)
  {
    hide Woken, Kept;
    WokenMembers(ls.sleepers, ls.at, a);
  }

  /** Without sleeping, the next statement is the one after. */
  lemma {:induction false} NextAfter(k: K)
    requires Enabled(k, Exec)
    ensures var th := k.threads[k.cur.value];
            var i := At(th.op, th.pc);
            Next(ExecStep(k)) == if i.Yield? || MustSleep(k.sync, i).Some? || th.pc + 1 >= Len(th.op) then None
                                 else Some(At(th.op, th.pc + 1))
  {
    hide At, Len, NextLists, NextSync, NextSpl;
  }

  /** What next may be after statement i. */
  predicate MayFollow(y: Sync, i: Instr, next: Option<Instr>) {
    && (i.Inc? ==> next == Some(WakeAll(SemA(i.s))))
    && (i.Clear? ==> next == Some(WakeAll(LockA(i.l))))
    && (next.Some? && next.value.Dec? ==> i == TestSem(next.value.s) && Get(y.count, i.s) > 0)
    && (next.Some? && next.value.Take? ==> i == TestLock(next.value.l) && i.l !in y.own)
    && (i.Block? ==> i.a.CvA? || i.a.LboltA?)
  }

  /** Any statement but a wakeup. */
  lemma {:induction false} ExecCalm(ls: Lists, y: Sync, t: nat, th: Thread, i: Instr, next: Option<Instr>)
    requires NoLost(ls, y, Some(i)) && !i.WakeAll? && t !in ls.sleepers && MayFollow(y, i, next)
    ensures NoLost(NextLists(ls, y, t, i), NextSync(y, t, th, i), next)
  {
    hide NextLists, NextSync, MustSleep;
    SleepersAfter(ls, y, t, i);
    SyncAfter(y, t, th, i);
    WhySleep(y, i);
    TestsPass(y, t, th, i);
  }

  /** Who sleeps, and on what, after statement i: the old sleepers or some of them, and perhaps the current thread. */
  lemma {:induction false} SleepersAfter(ls: Lists, y: Sync, t: nat, i: Instr)
    requires !i.WakeAll? && t !in ls.sleepers
    ensures var ls' := NextLists(ls, y, t, i);
            forall u, a | u in ls'.sleepers && SleepsOn(ls'.at, u, a) ::
              (u in ls.sleepers && SleepsOn(ls.at, u, a)) || MustSleep(y, i) == Some(a)
  {
  }

  lemma SyncAfter(y: Sync, t: nat, th: Thread, i: Instr)
    ensures var y' := NextSync(y, t, th, i);
            && (forall s :: i != Inc(s) && i != Dec(s) ==> Get(y'.count, s) == Get(y.count, s))
            && (forall l :: i != Clear(l) && l in y.own ==> l in y'.own)
  {
  }

  lemma WhySleep(y: Sync, i: Instr)
    ensures forall s :: MustSleep(y, i) == Some(SemA(s)) ==> (Get(y.count, s) == 0 && i == TestSem(s)) || i.Block?
    ensures forall l :: MustSleep(y, i) == Some(LockA(l)) ==> (l in y.own && i == TestLock(l)) || i.Block?
    ensures i.Block? ==> MustSleep(y, i) == Some(i.a)
  {
  }

  lemma {:induction false} ExecNoLost(k: K)
    requires Places(k) && NoLostWakeup(k) && Enabled(k, Exec)
    ensures NoLostWakeup(ExecStep(k))
  {
    hide At, Len, Places, NoLost, NextLists, NextSync, NextSpl, NextThread, MustSleep;
    Distinct(k);
    var t := k.cur.value;
    var th := k.threads[t];
    var i := At(th.op, th.pc);
    var next := Next(ExecStep(k));
    NextAfter(k);
    EndsAndStarts(th.op);
    if th.pc + 1 < Len(th.op) { Follows(th.op, th.pc); }
    BlocksOn(th.op, th.pc);
    TestsPass(k.sync, t, th, i);
    if i.WakeAll? {
      WakeAllEffect(k.lists, k.sync, t, th, i.a, next);
      WakeCalms(k.lists, k.sync, i.a, next);
    } else {
      ExecCalm(k.lists, k.sync, t, th, i, next);
    }
  }

  lemma WakeAllEffect(ls: Lists, y: Sync, t: nat, th: Thread, a: Addr, next: Option<Instr>)
    ensures NextLists(ls, y, t, WakeAll(a)) == WakeEvery(ls, a)
    ensures NoLost(WakeEvery(ls, a), y, next) <==> NoLost(WakeEvery(ls, a), NextSync(y, t, th, WakeAll(a)), next)
  {
    hide WakeEvery;
  }

  lemma TestsPass(y: Sync, t: nat, th: Thread, i: Instr)
    ensures i.TestSem? && MustSleep(y, i).None? ==> Get(y.count, i.s) > 0
    ensures i.TestLock? && MustSleep(y, i).None? ==> i.l !in y.own
    ensures i.TestSem? || i.TestLock? ==> NextSync(y, t, th, i) == y
    ensures i.Inc? || i.Clear? ==> MustSleep(y, i).None?
  {
  }

  lemma BlocksOn(op: Op, pc: nat)
    requires pc < Len(op)
    ensures At(op, pc).Block? ==> At(op, pc).a.CvA? || At(op, pc).a.LboltA?
  {
  }

  /** In the other events nothing is about to be woken, before or after. */
  lemma {:induction false} StepNoLost(k: K, e: Event)
    requires Places(k) && Levels(k) && NoLostWakeup(k) && Enabled(k, e)
    ensures NoLostWakeup(Step(k, e))
  {
    hide At, Len, Depth, Places, ExecStep, WakeEvery, ThreadOk, ListsOk, NoLost;
    var k' := Step(k, e);
    if e == Exec {
      ExecNoLost(k);
    } else {
      NothingPending(k, e);
      Calm(k.lists, k.sync, Next(k), Next(k'));
      if e.IrqV? {
        Calm(k.lists, k.sync, Next(k), None);
        IrqCalm(k.lists, k.sync, k'.sync, e.s, Next(k'));
      } else {
        FewerSleepers(k, e, Next(k'));
      }
    }
  }

  /** An interrupt handler's V, increment and wakeup in one. */
  lemma {:induction false} IrqCalm(ls: Lists, y: Sync, y': Sync, s: nat, next: Option<Instr>)
    requires NoLost(ls, y, None) && y' == y.(count := y.count[s := Get(y.count, s) + 1])
    requires !(next.Some? && (next.value.Dec? || next.value.Take?))
    ensures NoLost(WakeEvery(ls, SemA(s)), y', next)
  {
    assert NoLost(ls, y', Some(WakeAll(SemA(s))));
    WakeCalms(ls, y', SemA(s), next);
  }

  lemma {:induction false} FewerSleepers(k: K, e: Event, next: Option<Instr>)
    requires Enabled(k, e) && e != Exec && !e.IrqV? && NoLost(k.lists, k.sync, next)
    ensures NoLost(Step(k, e).lists, Step(k, e).sync, next)
  {
    hide ExecStep, WakeEvery, Clock;
    if e.Tick? { ClockSleepers(k.lists, e.second); }
  }

  lemma {:induction false} NothingPending(k: K, e: Event)
    requires Levels(k) && Enabled(k, e) && e != Exec
    ensures Next(k).Some? ==> !Next(k).value.WakeAll?
    ensures Next(Step(k, e)).Some? ==> var i := Next(Step(k, e)).value; !i.Dec? && !i.Take? && !i.WakeAll?
  {
    hide At, Len, Depth, ExecStep, WakeEvery, ThreadOk;
    if Busy(k) && !Done(k.threads[k.cur.value]) && k.spl == 0 {
      DepthZero(k.threads[k.cur.value].op, k.threads[k.cur.value].pc);
    }
    if e.Start? { EndsAndStarts(e.op); }
    if e.Dispatch? {
      var th := k.threads[k.lists.runq[0]];
      assert k.lists.runq[0] in k.lists.runq;
      if th.pc < Len(th.op) { RestingNext(th); }
    }
  }

  /** A thread that can be dispatched next runs a test, a splhigh, a splx or an assertion. */
  lemma {:induction false} RestingNext(th: Thread)
    requires Parked(th) && th.pc < Len(th.op)
    ensures var i := At(th.op, th.pc); !i.Dec? && !i.Take? && !i.WakeAll?
  {
  }
}
