/**
  Threads, scheduler, clock, semaphores, locks and condition variables of kern/thread as one step machine.

  Each primitive is the list of the C statements it executes, with splhigh and splx among them.
  The timer can interrupt between any two statements at interrupt level 0; nothing else makes
  the processor leave a thread but the statements that sleep, yield or exit.
 */
module Kernel {
  import opened Basics
  import opened SleepLists
  import Queue
  import PtrArray

  datatype Instr =
    | High                  // s = splhigh()
    | Restore               // splx(s)
    | TestSem(s: nat)       // while (sem->count == 0) thread_sleep(sem)
    | Dec(s: nat)           // assert(sem->count > 0); sem->count--
    | Inc(s: nat)           // sem->count++
    | TestLock(l: nat)      // while (lock->own != NULL) thread_sleep(lock)
    | Take(l: nat)          // lock->own = curthread
    | CheckHold(l: nat)     // assert(lock_do_i_hold(lock))
    | Clear(l: nat)         // lock->own = NULL
    | WakeAll(a: Addr)      // thread_wakeup(a)
    | WakeFirst(a: Addr)    // thread_wakeone(a)
    | Block(a: Addr)        // thread_sleep(a)
    | Yield                 // mi_switch(S_READY)

  datatype Op = Nop | P(s: nat) | V(s: nat) | Acquire(l: nat) | Release(l: nat)
              | Wait(c: nat, l: nat) | Signal(c: nat) | Broadcast(c: nat) | GiveUp | ClockSleep(n: nat)

  /** The statements of each primitive, as the source nests them. */
  function Code(op: Op): seq<Instr>
    decreases op.Wait?
  {
    match op
    case Nop => []
    case P(s) => [High, TestSem(s), Dec(s), Restore]
    case V(s) => [High, Inc(s), WakeAll(SemA(s)), Restore]
    case Acquire(l) => [High, TestLock(l), Take(l), Restore]
    case Release(l) => [CheckHold(l), High, Clear(l), WakeAll(LockA(l)), Restore]
    case Wait(c, l) => [High] + Code(Release(l)) + [Block(CvA(c))] + Code(Acquire(l)) + [Restore]
    case Signal(c) => [High, WakeFirst(CvA(c)), Restore]
    case Broadcast(c) => [High, WakeAll(CvA(c)), Restore]
    case GiveUp => [High, Yield, Restore]
    case ClockSleep(n) => [High] + seq(n, _ => Block(LboltA)) + [Restore]
  }

  function Len(op: Op): nat {
    match op
    case Nop => 0
    case Release(_) => 5
    case Wait(_, _) => 12
    case Signal(_) => 3
    case Broadcast(_) => 3
    case GiveUp => 3
    case ClockSleep(n) => n + 2
    case _ => 4
  }

  /** Statement number pc of op. */
  function At(op: Op, pc: nat): Instr
    requires pc < Len(op)
  {
    match op
    case P(s) => if pc == 0 then High else if pc == 1 then TestSem(s) else if pc == 2 then Dec(s) else Restore
    case V(s) => if pc == 0 then High else if pc == 1 then Inc(s) else if pc == 2 then WakeAll(SemA(s)) else Restore
    case Acquire(l) => if pc == 0 then High else if pc == 1 then TestLock(l) else if pc == 2 then Take(l) else Restore
    case Release(l) =>
      if pc == 0 then CheckHold(l) else if pc == 1 then High else if pc == 2 then Clear(l)
      else if pc == 3 then WakeAll(LockA(l)) else Restore
    case Wait(c, l) =>
      if pc == 0 || pc == 2 || pc == 7 then High
      else if pc == 1 then CheckHold(l) else if pc == 3 then Clear(l) else if pc == 4 then WakeAll(LockA(l))
      else if pc == 6 then Block(CvA(c)) else if pc == 8 then TestLock(l) else if pc == 9 then Take(l) else Restore
    case Signal(c) => if pc == 0 then High else if pc == 1 then WakeFirst(CvA(c)) else Restore
    case Broadcast(c) => if pc == 0 then High else if pc == 1 then WakeAll(CvA(c)) else Restore
    case GiveUp => if pc == 0 then High else if pc == 1 then Yield else Restore
    case ClockSleep(n) => if pc == 0 then High else if pc <= n then Block(LboltA) else Restore
  }

  lemma AtIsCode(op: Op)
    ensures |Code(op)| == Len(op) && forall pc | 0 <= pc < Len(op) :: Code(op)[pc] == At(op, pc)
  {
    if op.Wait? {
      assert Code(Release(op.l)) == [CheckHold(op.l), High, Clear(op.l), WakeAll(LockA(op.l)), Restore];
      assert Code(Acquire(op.l)) == [High, TestLock(op.l), Take(op.l), Restore];
    }
  }

  /** How many splhigh are open at pc. */
  function Depth(op: Op, pc: nat): (d: nat)
    ensures d <= 2
  {
    match op
    case Nop => 0
    case Release(_) => if 2 <= pc <= 4 then 1 else 0
    case Wait(_, _) => if pc == 0 || pc >= 12 then 0 else if 3 <= pc <= 5 || 8 <= pc <= 10 then 2 else 1
    case _ => if 1 <= pc < Len(op) then 1 else 0
  }

  function Level(d: nat): nat { if d == 0 then 0 else SPL_HIGH }

  /** The interrupt levels saved on the thread's stack. */
  function Saves(d: nat): seq<nat>
    requires d <= 2
  {
    if d == 0 then [] else if d == 1 then [0] else [0, SPL_HIGH]
  }

  /** A thread: its primitive and statement, its saved levels; irq: it was stopped by the timer; isNew: it has not run yet. */
  datatype Thread = Thread(op: Op, pc: nat, saves: seq<nat>, irq: bool, isNew: bool)

  /** Where the threads are: run queue, sleepers and their addresses, zombies, and the sizes of the three buffers. */
  datatype Lists = Lists(runq: seq<nat>, sleepers: seq<nat>, at: map<nat, Addr>, zombies: seq<nat>,
                         numthreads: nat, sleepMax: nat, zombMax: nat, ring: nat)

  /**
    Semaphore counts and lock owners, and some history: the threads between acquire and release of
    each lock as those threads see it, and each condition variable's waiters in the order in which
    they released the lock.
   */
  datatype Sync = Sync(count: map<nat, nat>, own: map<nat, nat>,
                       inside: map<nat, set<nat>>, waitq: map<nat, seq<nat>>)

  /** idle: the scheduler found the run queue empty and is in cpu_idle, where interrupts are let in. */
  datatype K = K(spl: nat, cur: Option<nat>, idle: bool, lists: Lists, threads: map<nat, Thread>, sync: Sync)

  function Get(m: map<nat, nat>, i: nat): nat { if i in m then m[i] else 0 }
  function Inside(y: Sync, l: nat): set<nat> { if l in y.inside then y.inside[l] else {} }
  function WaitQ(y: Sync, c: nat): seq<nat> { if c in y.waitq then y.waitq[c] else [] }

  predicate Done(th: Thread) { th.pc >= Len(th.op) }

  // ------------------------------------------------------------ the lists

  /** mi_switch(S_SLEEP) up to the scheduler. */
  function Park(ls: Lists, t: nat, a: Addr): Lists {
    ls.(sleepers := ls.sleepers + [t], at := ls.at[t := a], sleepMax := PtrArray.Grown(ls.sleepMax, |ls.sleepers| + 1))
  }

  /** make_runnable for each of ts; the ring doubles when it would fill up. */
  function Enqueue(ls: Lists, ts: seq<nat>): Lists {
    ls.(runq := ls.runq + ts, ring := if ls.ring > 0 then Queue.Doubled(ls.ring, |ls.runq| + |ts| + 1) else 0)
  }

  function WakeEvery(ls: Lists, a: Addr): Lists {
    Enqueue(ls, Woken(ls.sleepers, ls.at, a)).(sleepers := Kept(ls.sleepers, ls.at, a))
  }

  function WakeOneOn(ls: Lists, a: Addr): Lists {
    var i := FirstOn(ls.sleepers, ls.at, a);
    if i < |ls.sleepers| then Enqueue(ls, [ls.sleepers[i]]).(sleepers := Drop(ls.sleepers, i)) else ls
  }

  /** exorcise, which a new thread skips: shrinking the array to nothing drops a buffer of more than 16. */
  function Exorcised(ls: Lists, isNew: bool): Lists {
    if isNew then ls else ls.(zombies := [], zombMax := if ls.zombMax > 16 then 0 else ls.zombMax)
  }

  /** thread_fork's preallocations, and the thread counted. */
  function Reserved(ls: Lists): Lists {
    var n := ls.numthreads + 1;
    ls.(numthreads := n, sleepMax := PtrArray.Grown(ls.sleepMax, n), zombMax := PtrArray.Grown(ls.zombMax, n),
        ring := if ls.ring > 0 then Queue.Doubled(ls.ring, n) else 0)
  }

  /** The first half of hardclock: once a second it wakes the sleepers on lbolt. */
  function Clock(ls: Lists, second: bool): Lists {
    if second then WakeEvery(ls, LboltA) else ls
  }

  // ------------------------------------------------------------ one statement of the current thread

  /** The address on which statement i puts the thread to sleep now, if any. */
  function MustSleep(y: Sync, i: Instr): Option<Addr> {
    match i
    case TestSem(s) => if Get(y.count, s) == 0 then Some(SemA(s)) else None
    case TestLock(l) => if l in y.own then Some(LockA(l)) else None
    case Block(a) => Some(a)
    case _ => None
  }

  function NextThread(th: Thread, spl: nat, y: Sync, i: Instr): Thread {
    match i
    case High => th.(saves := th.saves + [spl], pc := th.pc + 1)
    case Restore => th.(saves := if th.saves == [] then [] else th.saves[..|th.saves| - 1], pc := th.pc + 1)
    case Block(_) => th.(pc := th.pc + 1)
    case _ => if MustSleep(y, i).Some? then th else th.(pc := th.pc + 1)
  }

  function NextSpl(th: Thread, spl: nat, i: Instr): nat {
    match i
    case High => SPL_HIGH
    case Restore => if th.saves == [] then spl else th.saves[|th.saves| - 1]
    case _ => spl
  }

  function NextLists(ls: Lists, y: Sync, t: nat, i: Instr): Lists {
    match i
    case WakeAll(a) => WakeEvery(ls, a)
    case WakeFirst(a) => WakeOneOn(ls, a)
    case Yield => Enqueue(ls, [t])
    case _ => if MustSleep(y, i).Some? then Park(ls, t, MustSleep(y, i).value) else ls
  }

  /** Counts and owners, and what the statement adds to the history. */
  function NextSync(y: Sync, t: nat, th: Thread, i: Instr): Sync {
    match i
    case Dec(s) =>
      var c := Get(y.count, s);
      y.(count := y.count[s := if c > 0 then c - 1 else 0])
    case Inc(s) => y.(count := y.count[s := Get(y.count, s) + 1])
    case Take(l) => y.(own := y.own[l := t])
    case Clear(l) =>
      var y1 := y.(own := y.own - {l});
      if th.op.Wait? then y1.(waitq := y.waitq[th.op.c := WaitQ(y, th.op.c) + [t]]) else y1
    case WakeAll(a) => if a.CvA? then y.(waitq := y.waitq[a.c := []]) else y
    case WakeFirst(a) =>
      if a.CvA? && WaitQ(y, a.c) != [] then y.(waitq := y.waitq[a.c := WaitQ(y, a.c)[1..]]) else y
    case Restore =>
      if th.pc + 1 == Len(th.op) && (th.op.Acquire? || th.op.Wait?)
      then y.(inside := y.inside[th.op.l := Inside(y, th.op.l) + {t}])
      else y
    case _ => y
  }

  function ExecStep(k: K): K
    requires Enabled(k, Exec)
  {
    var t := k.cur.value;
    var th := k.threads[t];
    var i := At(th.op, th.pc);
    var switch := i.Yield? || MustSleep(k.sync, i).Some?;
    var ls := NextLists(k.lists, k.sync, t, i);
    K(NextSpl(th, k.spl, i),
      if switch then None else k.cur,
      switch && ls.runq == [],
      ls,
      k.threads[t := NextThread(th, k.spl, k.sync, i)],
      NextSync(k.sync, t, th, i))
  }

  // ------------------------------------------------------------ the steps

  datatype Event = Start(op: Op) | Exec | Tick(second: bool) | Dispatch | IrqV(s: nat) | Fork(t: nat) | Exit

  /** A thread is running. */
  predicate Busy(k: K) {
    k.cur.Some? && k.cur.value in k.threads
  }

  /**
    When an event can happen.  A thread releases, or waits with, only locks it is inside of.  Interrupts
    come in at level 0 or from cpu_idle: any number of them before the scheduler looks at the queue again.
   */
  predicate Enabled(k: K, e: Event) {
    match e
    case Start(op) =>
      Busy(k) && Done(k.threads[k.cur.value]) && op != Nop && (op.Release? || op.Wait? ==> k.cur.value in Inside(k.sync, op.l))
    case Exec => Busy(k) && !Done(k.threads[k.cur.value])
    case Tick(_) => (Busy(k) && k.spl == 0) || (k.cur.None? && k.idle)
    case Dispatch => k.cur.None? && k.lists.runq != [] && k.lists.runq[0] in k.threads
    case IrqV(_) => k.spl == 0 || (k.cur.None? && k.idle)
    case Fork(t) => Busy(k) && Done(k.threads[k.cur.value]) && t !in k.threads && t !in k.lists.zombies
    case Exit => Busy(k) && Done(k.threads[k.cur.value])
  }

  function Step(k: K, e: Event): K
    requires Enabled(k, e)
  {
    match e
    case Start(op) =>
      var t := k.cur.value;
      var y := k.sync;
      k.(threads := k.threads[t := k.threads[t].(op := op, pc := 0)],
         sync := if op.Release? || op.Wait? then y.(inside := y.inside[op.l := Inside(y, op.l) - {t}]) else y)
    case Exec => ExecStep(k)
    case Tick(second) =>
      var ls := Clock(k.lists, second);
      if k.cur.None? then k.(lists := ls)
      else
        var t := k.cur.value;
        k.(threads := k.threads[t := k.threads[t].(irq := true)], lists := Enqueue(ls, [t]), cur := None, idle := false, spl := SPL_HIGH)
    case Dispatch =>
      var ls := k.lists;
      var t := ls.runq[0];
      var th := k.threads[t];
      k.(threads := k.threads[t := th.(irq := false, isNew := false)],
         cur := Some(t), idle := false, spl := if th.irq || th.isNew then 0 else k.spl,
         lists := Exorcised(ls.(runq := ls.runq[1..], at := ls.at - {t}), th.isNew))
    case IrqV(s) =>
      var y := k.sync;
      k.(sync := y.(count := y.count[s := Get(y.count, s) + 1]),
         lists := WakeEvery(k.lists, SemA(s)))
    case Fork(t) =>
      k.(threads := k.threads[t := Thread(Nop, 0, [], false, true)], lists := Enqueue(Reserved(k.lists), [t]))
    case Exit =>
      var t := k.cur.value;
      var ls := k.lists;
      k.(cur := None, idle := ls.runq == [], threads := k.threads - {t}, spl := SPL_HIGH,
         lists := ls.(zombies := ls.zombies + [t], zombMax := PtrArray.Grown(ls.zombMax, |ls.zombies| + 1),
                      numthreads := if ls.numthreads > 0 then ls.numthreads - 1 else 0))
  }

  /** After thread_bootstrap and scheduler_bootstrap: one thread, running, and a ring of 32. */
  function Boot(t: nat, init: map<nat, nat>): K {
    K(0, Some(t), false, Lists([], [], map[], [], 1, 0, 0, 32), map[t := Thread(Nop, 0, [], false, false)],
      Sync(init, map[], map[], map[]))
  }
}
