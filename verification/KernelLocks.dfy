/**
  Mutual exclusion and condition variables, in every run.
 */
module KernelLocks {
  import opened Basics
  import opened SleepLists
  import opened Kernel
  import opened KernelPlaces
  import opened KernelSync

  // ------------------------------------------------------------ mutual exclusion

  /** A thread at pc has taken lock l and not yet cleared it, within its present primitive. */
  predicate OwnsAt(op: Op, pc: nat, l: nat) {
    match op
    case Acquire(m) => m == l && pc == 3
    case Release(m) => m == l && pc <= 2
    case Wait(_, m) => m == l && (pc <= 3 || pc == 10 || pc == 11)
    case _ => false
  }

  /** It is on its way out of lock l (and, in cv_wait, back in). */
  predicate Leaving(th: Thread, l: nat) {
    (th.op.Release? || th.op.Wait?) && th.op.l == l && th.pc < Len(th.op)
  }

  /** Whoever is inside a lock, or has taken it, owns it. */
  ghost predicate Locks(threads: map<nat, Thread>, y: Sync) {
    && (forall t, l | t in threads && OwnsAt(threads[t].op, threads[t].pc, l) :: l in y.own && y.own[l] == t)
    && (forall t, l | t in Inside(y, l) :: l in y.own && y.own[l] == t)
    && (forall t, l | t in threads && Leaving(threads[t], l) :: t !in Inside(y, l))
  }

  /** At most one thread is between acquire and release of a lock. */
  lemma MutualExclusion(threads: map<nat, Thread>, y: Sync, l: nat, t: nat, u: nat)
    requires Locks(threads, y) && t in Inside(y, l) && u in Inside(y, l)
    ensures t == u
  {
  }

  lemma OwnsMoves(op: Op, pc: nat, l: nat)
    requires pc < Len(op)
    ensures OwnsAt(op, pc + 1, l) ==> OwnsAt(op, pc, l) || At(op, pc) == Take(l)
    ensures At(op, pc) == Clear(l) ==> OwnsAt(op, pc, l) && !OwnsAt(op, pc + 1, l) && (op.Release? || op.Wait?) && op.l == l
    ensures At(op, pc) == CheckHold(l) ==> OwnsAt(op, pc, l)
    ensures pc + 1 == Len(op) && (op.Acquire? || op.Wait?) ==> OwnsAt(op, pc, op.l) && At(op, pc) == Restore
    ensures At(op, pc) == Take(l) ==> pc + 1 < Len(op)
  {
  }

  /** The assertion in lock_release never fails. */
  lemma HoldAsserted(k: K, l: nat)
    requires Locks(k.threads, k.sync) && Next(k) == Some(CheckHold(l))
    ensures l in k.sync.own && k.sync.own[l] == k.cur.value
  {
    OwnsMoves(k.threads[k.cur.value].op, k.threads[k.cur.value].pc, l);
  }

  /** Statements other than take, clear and a final splx leave owners and insiders alone. */
  lemma OwnersAfter(y: Sync, t: nat, th: Thread, i: Instr)
    ensures NextSync(y, t, th, i).own == if i.Take? then y.own[i.l := t] else if i.Clear? then y.own - {i.l} else y.own
  {
    hide WaitQ, Inside, Get, Len;
  }

  lemma InsideAfter(y: Sync, t: nat, th: Thread, i: Instr)
    ensures NextSync(y, t, th, i).inside ==
            if i == Restore && th.pc + 1 == Len(th.op) && (th.op.Acquire? || th.op.Wait?)
            then y.inside[th.op.l := Inside(y, th.op.l) + {t}] else y.inside
  {
    hide WaitQ, Inside, Get, Len;
  }

  lemma ThreadAfter(th: Thread, spl: nat, y: Sync, i: Instr)
    ensures var th' := NextThread(th, spl, y, i);
            th'.op == th.op && (th'.pc == th.pc + 1 || (th' == th && (i.TestSem? || i.TestLock?)))
  {
  }

  /** A statement of thread t at a splhigh, test, wakeup or middle splx. */
  lemma {:induction false} PlainLocks(threads: map<nat, Thread>, y: Sync, t: nat, th': Thread, y': Sync)
    requires Locks(threads, y) && t in threads && y'.own == y.own && y'.inside == y.inside
    requires forall l | OwnsAt(th'.op, th'.pc, l) :: OwnsAt(threads[t].op, threads[t].pc, l)
    requires forall l | Leaving(th', l) :: Leaving(threads[t], l)
    ensures Locks(threads[t := th'], y')
  {
    hide OwnsAt, Leaving;
    assert forall l :: Inside(y', l) == Inside(y, l);
  }

  lemma {:induction false} TakeLocks(threads: map<nat, Thread>, y: Sync, t: nat, th': Thread, y': Sync, m: nat)
    requires Locks(threads, y) && t in threads && m !in y.own && y'.own == y.own[m := t] && y'.inside == y.inside
    requires forall l | OwnsAt(th'.op, th'.pc, l) && l != m :: OwnsAt(threads[t].op, threads[t].pc, l)
    requires forall l | Leaving(th', l) :: Leaving(threads[t], l)
    ensures Locks(threads[t := th'], y')
  {
    hide OwnsAt, Leaving;
    assert forall l :: Inside(y', l) == Inside(y, l);
  }

  lemma {:induction false} ClearLocks(threads: map<nat, Thread>, y: Sync, t: nat, th': Thread, y': Sync, m: nat)
    requires Locks(threads, y) && t in threads && y'.own == y.own - {m} && y'.inside == y.inside
    requires OwnsAt(threads[t].op, threads[t].pc, m) && Leaving(threads[t], m) && !OwnsAt(th'.op, th'.pc, m)
    requires forall l | OwnsAt(th'.op, th'.pc, l) :: OwnsAt(threads[t].op, threads[t].pc, l)
    requires forall l | Leaving(th', l) :: Leaving(threads[t], l)
    ensures Locks(threads[t := th'], y')
  {
    hide OwnsAt, Leaving;
    assert forall l :: Inside(y', l) == Inside(y, l);
    assert y.own[m] == t && t !in Inside(y, m);
    forall u, l | u in Inside(y', l) ensures l in y'.own && y'.own[l] == u { assert u in Inside(y, l); }
    var ts := threads[t := th'];
    forall u, l | u in ts && OwnsAt(ts[u].op, ts[u].pc, l) ensures l in y'.own && y'.own[l] == u {
      assert OwnsAt(threads[u].op, threads[u].pc, l);
      assert y.own[l] == u;
    }
  }

  lemma {:induction false} EnterLocks(threads: map<nat, Thread>, y: Sync, t: nat, th': Thread, y': Sync, m: nat)
    requires Locks(threads, y) && t in threads && y'.own == y.own && y'.inside == y.inside[m := Inside(y, m) + {t}]
    requires OwnsAt(threads[t].op, threads[t].pc, m)
    requires forall l | OwnsAt(th'.op, th'.pc, l) :: OwnsAt(threads[t].op, threads[t].pc, l)
    requires forall l :: !Leaving(th', l)
    ensures Locks(threads[t := th'], y')
  {
    hide OwnsAt, Leaving;
    assert forall l :: Inside(y', l) == Inside(y, l) + if l == m then {t} else {};
  }

  lemma {:induction false} ExecLocks(k: K)
    requires NoLostWakeup(k) && Locks(k.threads, k.sync) && Enabled(k, Exec)
    ensures Locks(ExecStep(k).threads, ExecStep(k).sync)
  {
    hide At, Len, OwnsAt, NextLists, NextSync, NextSpl, NextThread, Locks;
    var t := k.cur.value;
    var th := k.threads[t];
    var i := At(th.op, th.pc);
    var th', y' := NextThread(th, k.spl, k.sync, i), NextSync(k.sync, t, th, i);
    ThreadAfter(th, k.spl, k.sync, i);
    OwnersAfter(k.sync, t, th, i);
    InsideAfter(k.sync, t, th, i);
    forall l ensures OwnsAt(th'.op, th'.pc, l) ==> OwnsAt(th.op, th.pc, l) || i == Take(l) { OwnsMoves(th.op, th.pc, l); }
    if i.Take? {
      TakeLocks(k.threads, k.sync, t, th', y', i.l);
    } else if i.Clear? {
      OwnsMoves(th.op, th.pc, i.l);
      ClearLocks(k.threads, k.sync, t, th', y', i.l);
    } else if i == Restore && th.pc + 1 == Len(th.op) && (th.op.Acquire? || th.op.Wait?) {
      OwnsMoves(th.op, th.pc, th.op.l);
      EnterLocks(k.threads, k.sync, t, th', y', th.op.l);
    } else {
      PlainLocks(k.threads, k.sync, t, th', y');
    }
  }

  /** Entering release or wait, a thread stops being inside. */
  lemma {:induction false} StartLocks(threads: map<nat, Thread>, y: Sync, t: nat, op: Op, y': Sync)
    requires Locks(threads, y) && t in threads && (op.Release? || op.Wait? ==> t in Inside(y, op.l))
    requires y' == if op.Release? || op.Wait? then y.(inside := y.inside[op.l := Inside(y, op.l) - {t}]) else y
    ensures Locks(threads[t := threads[t].(op := op, pc := 0)], y')
  {
    assert forall l :: Inside(y', l) == Inside(y, l) - if (op.Release? || op.Wait?) && l == op.l then {t} else {};
  }

  /** No thread moves on; new ones are outside every primitive. */
  lemma {:induction false} SameLocks(threads: map<nat, Thread>, y: Sync, threads': map<nat, Thread>, y': Sync)
    requires Locks(threads, y) && y'.own == y.own && y'.inside == y.inside
    requires forall t | t in threads' :: threads'[t].op == Nop
                                         || (t in threads && threads'[t].op == threads[t].op && threads'[t].pc == threads[t].pc)
    ensures Locks(threads', y')
  {
    assert forall l :: Inside(y', l) == Inside(y, l);
  }

  lemma {:induction false} StepLocks(k: K, e: Event)
    requires NoLostWakeup(k) && Locks(k.threads, k.sync) && Enabled(k, e)
    ensures Locks(Step(k, e).threads, Step(k, e).sync)
  {
    hide ExecStep, NoLostWakeup, Locks, Clock, WakeEvery, Enqueue, Exorcised, Reserved, Len;
    if e == Exec {
      ExecLocks(k);
    } else if e.Start? {
      StartLocks(k.threads, k.sync, k.cur.value, e.op, Step(k, e).sync);
    } else {
      SameLocks(k.threads, k.sync, Step(k, e).threads, Step(k, e).sync);
    }
  }

  // ------------------------------------------------------------ condition variables

  /** In cv_wait(c), between releasing the lock and falling asleep. */
  predicate PendingAt(op: Op, pc: nat, c: nat) {
    op.Wait? && op.c == c && 4 <= pc <= 6
  }

  function Pending(k: K, c: nat): seq<nat> {
    if Busy(k) && PendingAt(k.threads[k.cur.value].op, k.threads[k.cur.value].pc, c) then [k.cur.value] else []
  }

  /**
    Each condition variable's waiters, in the order in which they released the lock, are exactly
    its sleepers in order, and at most one more: the current thread, on its way to sleep.
   */
  ghost predicate CvQueues(k: K) {
    forall c :: WaitQ(k.sync, c) == Woken(k.lists.sleepers, k.lists.at, CvA(c)) + Pending(k, c)
  }

  /** Whenever another thread runs, or none does, a thread that has released the lock in cv_wait is asleep: a signal finds it. */
  lemma {:induction false} WaitersAsleep(k: K, c: nat, t: nat)
    requires CvQueues(k) && t in WaitQ(k.sync, c) && k.cur != Some(t)
    ensures t in k.lists.sleepers && SleepsOn(k.lists.at, t, CvA(c))
  {
    hide Woken;
    WokenMembers(k.lists.sleepers, k.lists.at, CvA(c));
    assert WaitQ(k.sync, c) == Woken(k.lists.sleepers, k.lists.at, CvA(c)) + Pending(k, c);
  }

  lemma PendingMoves(op: Op, pc: nat, c: nat)
    requires pc < Len(op)
    ensures var i := At(op, pc);
            && (PendingAt(op, pc + 1, c) <==> (PendingAt(op, pc, c) && i != Block(CvA(c))) || (i.Clear? && op.Wait? && op.c == c))
            && (i.Block? && i.a.CvA? ==> op.Wait? && i.a == CvA(op.c) && PendingAt(op, pc, op.c))
            && (i.Clear? || i.TestSem? || i.TestLock? || i.Yield? || i.WakeFirst? || (i.WakeAll? && i.a.CvA?) ==> !PendingAt(op, pc, c))
            && (i.Block? && i.a != CvA(c) ==> !PendingAt(op, pc, c))
            && (i.WakeFirst? ==> i.a.CvA?)
  {
  }

  /** The waiters after statement i. */
  lemma WaitQAfter(y: Sync, t: nat, th: Thread, i: Instr, c: nat)
    ensures WaitQ(NextSync(y, t, th, i), c) ==
            if i.Clear? && th.op.Wait? && th.op.c == c then WaitQ(y, c) + [t]
            else if i == WakeAll(CvA(c)) then []
            else if i == WakeFirst(CvA(c)) && WaitQ(y, c) != [] then WaitQ(y, c)[1..]
            else WaitQ(y, c)
  {
  }

  /** The sleepers on b after statement i. */
  lemma {:induction false} SleepersOnAfter(ls: Lists, y: Sync, t: nat, i: Instr, b: Addr)
    requires t !in ls.sleepers
    ensures var q, ls' := Woken(ls.sleepers, ls.at, b), NextLists(ls, y, t, i);
            Woken(ls'.sleepers, ls'.at, b) ==
            if i == WakeAll(b) then []
            else if i == WakeFirst(b) then (if q == [] then [] else q[1..])
            else if MustSleep(y, i) == Some(b) then q + [t]
            else q
  {
    hide Woken, Kept, MustSleep;
    SleepKinds(y, i);
    if i.WakeAll? {
      WokenOfKept(ls.sleepers, ls.at, i.a, b);
    } else if i.WakeFirst? {
      WakeOneOthers(ls, i.a, b);
    } else if MustSleep(y, i).Some? {
      ParkWoken(ls, t, MustSleep(y, i).value, b);
    }
  }

  lemma {:induction false} WakeOneOthers(ls: Lists, a: Addr, b: Addr)
    ensures var q, ls' := Woken(ls.sleepers, ls.at, b), WakeOneOn(ls, a);
            Woken(ls'.sleepers, ls'.at, b) == if a == b && q != [] then q[1..] else q
  {
    hide Woken, Drop;
    FirstIsHead(ls.sleepers, ls.at, a);
  }

  lemma {:induction false} ParkWoken(ls: Lists, t: nat, a: Addr, b: Addr)
    requires t !in ls.sleepers
    ensures var ls' := Park(ls, t, a);
            Woken(ls'.sleepers, ls'.at, b) == Woken(ls.sleepers, ls.at, b) + if a == b then [t] else []
  {
    var ls' := Park(ls, t, a);
    WokenAppend(ls.sleepers, [t], ls'.at, b);
    WokenFrame(ls.sleepers, ls.at, ls'.at, b);
    assert Woken([t], ls'.at, b) == if a == b then [t] else [];
  }

  lemma {:induction false} PendingAfter(k: K, c: nat)
    requires Enabled(k, Exec)
    ensures var th, k' := k.threads[k.cur.value], ExecStep(k);
            var i := At(th.op, th.pc);
            Pending(k', c) == if i == Block(CvA(c)) then [] else if i.Clear? && th.op.Wait? && th.op.c == c then [k.cur.value]
                              else Pending(k, c)
  {
    hide At, Len, NextLists, NextSync, NextSpl, MustSleep, PendingAt;
    var th := k.threads[k.cur.value];
    PendingMoves(th.op, th.pc, c);
    SleepKinds(k.sync, At(th.op, th.pc));
    ThreadAfter(th, k.spl, k.sync, At(th.op, th.pc));
    WhySleep(k.sync, At(th.op, th.pc));
    SleepsInPlace(th, k.spl, k.sync, At(th.op, th.pc));
  }

  lemma SleepsInPlace(th: Thread, spl: nat, y: Sync, i: Instr)
    ensures NextThread(th, spl, y, i).pc == if (i.TestSem? || i.TestLock?) && MustSleep(y, i).Some? then th.pc else th.pc + 1
  {
  }

  /** Every statement changes the waiters of c and its sleepers alike. */
  lemma {:induction false} ExecCv(k: K, c: nat)
    requires Places(k) && CvQueues(k) && Enabled(k, Exec)
    ensures var k' := ExecStep(k);
            WaitQ(k'.sync, c) == Woken(k'.lists.sleepers, k'.lists.at, CvA(c)) + Pending(k', c)
  {
    hide Places, At, Len, Woken, NextLists, NextSync, NextSpl, NextThread, MustSleep, Pending, PendingAt;
    var t := k.cur.value;
    var th := k.threads[t];
    var i := At(th.op, th.pc);
    Distinct(k);
    PendingMoves(th.op, th.pc, c);
    WaitQAfter(k.sync, t, th, i, c);
    SleepersOnAfter(k.lists, k.sync, t, i, CvA(c));
    PendingAfter(k, c);
    PendingIs(k, c);
    WhySleep(k.sync, i);
    TestsOnOwn(k.sync, i, c);
    assert WaitQ(k.sync, c) == Woken(k.lists.sleepers, k.lists.at, CvA(c)) + Pending(k, c);
  }

  lemma PendingIs(k: K, c: nat)
    requires Enabled(k, Exec)
    ensures Pending(k, c) == if PendingAt(k.threads[k.cur.value].op, k.threads[k.cur.value].pc, c) then [k.cur.value] else []
  {
  }

  lemma TestsOnOwn(y: Sync, i: Instr, c: nat)
    ensures MustSleep(y, i) == Some(CvA(c)) ==> i == Block(CvA(c))
  {
  }
}
