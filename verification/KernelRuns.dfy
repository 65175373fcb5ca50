/**
  The synchronisation theorems over whole runs from boot, for every interleaving.
 */
module KernelRuns {
  import opened Basics
  import opened SleepLists
  import opened Kernel
  import opened KernelPlaces
  import opened KernelSync
  import opened KernelLocks

  // ------------------------------------------------------------ condition variables, the other events

  /** A thread that is outside every primitive, done, or at a resting point is not between release and sleep. */
  lemma NotPending(th: Thread, c: nat)
    requires Done(th) || Depth(th.op, th.pc) == 0 || Parked(th)
    ensures !PendingAt(th.op, th.pc, c)
  {
  }

  lemma {:induction false} OthersPend(k: K, e: Event, c: nat)
    requires Levels(k) && Enabled(k, e) && e != Exec
    ensures Pending(Step(k, e), c) == Pending(k, c)
  {
    hide ExecStep, WakeEvery, Enqueue, Depth, Len, Parked, ThreadOk, Done;
    if Busy(k) && (Done(k.threads[k.cur.value]) || k.spl == 0) {
      NotPending(k.threads[k.cur.value], c);
    }
    if e.Dispatch? {
      assert k.lists.runq[0] in k.lists.runq;
      NotPending(k.threads[k.lists.runq[0]], c);
    }
  }

  lemma {:induction false} OthersSleep(k: K, e: Event, c: nat)
    requires Places(k) && Enabled(k, e) && e != Exec
    ensures var ls, ls' := k.lists, Step(k, e).lists;
            Woken(ls'.sleepers, ls'.at, CvA(c)) == Woken(ls.sleepers, ls.at, CvA(c))
            && WaitQ(Step(k, e).sync, c) == WaitQ(k.sync, c)
  {
    hide ExecStep, Woken, Kept, Places;
    Distinct(k);
    WokenOfKept(k.lists.sleepers, k.lists.at, if e.IrqV? then SemA(e.s) else LboltA, CvA(c));
    if e.Dispatch? {
      WokenFrame(k.lists.sleepers, k.lists.at, Step(k, e).lists.at, CvA(c));
    }
  }

  lemma {:induction false} StepCv(k: K, e: Event)
    requires Places(k) && Levels(k) && CvQueues(k) && Enabled(k, e)
    ensures CvQueues(Step(k, e))
  {
    hide ExecStep, Places, Levels, Enabled, Woken, Pending, WaitQ, CvQueues;
    var k' := Step(k, e);
    forall c ensures WaitQ(k'.sync, c) == Woken(k'.lists.sleepers, k'.lists.at, CvA(c)) + Pending(k', c) {
      CvQueue(k, c);
      if e == Exec {
        ExecCv(k, c);
      } else {
        OthersPend(k, e, c);
        OthersSleep(k, e, c);
      }
    }
    CvFold(k');
  }

  lemma CvQueue(k: K, c: nat)
    requires CvQueues(k)
    ensures WaitQ(k.sync, c) == Woken(k.lists.sleepers, k.lists.at, CvA(c)) + Pending(k, c)
  {
  }

  lemma CvFold(k: K)
    requires forall c :: WaitQ(k.sync, c) == Woken(k.lists.sleepers, k.lists.at, CvA(c)) + Pending(k, c)
    ensures CvQueues(k)
  {
  }

  // ------------------------------------------------------------ whole runs

  ghost predicate Synchronised(k: K) {
    Places(k) && Levels(k) && NoLostWakeup(k) && Locks(k.threads, k.sync) && CvQueues(k)
  }

  lemma {:induction false} StepSynchronised(k: K, e: Event)
    requires Synchronised(k) && Enabled(k, e)
    ensures Synchronised(Step(k, e))
  {
    hide Step, Enabled, Places, Levels, NoLostWakeup, Locks, CvQueues;
    StepPlaces(k, e);
    StepLevels(k, e);
    StepNoLost(k, e);
    StepLocks(k, e);
    StepCv(k, e);
  }

  lemma BootSynchronised(t: nat, init: map<nat, nat>)
    ensures Synchronised(Boot(t, init))
  {
    var k := Boot(t, init);
    assert Where(k) == multiset{t};
  }

  /** Main result: every run from boot keeps all of it, however threads, timer and interrupt handlers interleave. */
  lemma {:induction false} EveryRunSynchronised(ks: seq<K>, es: seq<Event>, t: nat, init: map<nat, nat>, n: nat)
    requires IsRun(ks, es) && ks[0] == Boot(t, init) && n <= |es|
    ensures Synchronised(ks[n])
  {
    hide Step, Enabled, Synchronised;
    if n == 0 {
      BootSynchronised(t, init);
    } else {
      EveryRunSynchronised(ks, es, t, init, n - 1);
      assert Enabled(ks[n - 1], es[n - 1]) && ks[n - 1 + 1] == Step(ks[n - 1], es[n - 1]);
      StepSynchronised(ks[n - 1], es[n - 1]);
    }
  }

  // ------------------------------------------------------------ what it means for the callers

  /** Outside every primitive the interrupt level is 0 again, so that the timer can preempt. */
  lemma {:induction false} LevelRestored(k: K)
    requires Synchronised(k) && Busy(k) && Done(k.threads[k.cur.value])
    ensures k.spl == 0
  {
    hide Places, NoLostWakeup, Locks, CvQueues;
  }

  /** Between the test of a semaphore or lock and what follows it, nothing else can happen. */
  lemma {:induction false} PrimitivesAtomic(k: K, e: Event)
    requires Synchronised(k) && Enabled(k, e) && Busy(k) && k.spl != 0
    ensures e == Exec
  {
    LevelRestoredUnless(k);
  }

  lemma {:induction false} LevelRestoredUnless(k: K)
    requires Synchronised(k) && Busy(k) && k.spl != 0
    ensures !Done(k.threads[k.cur.value])
  {
    if Done(k.threads[k.cur.value]) { LevelRestored(k); }
  }

  /** cv_wait returns inside the lock, and no other thread is inside it then. */
  lemma {:induction false} WaitReturnsHolding(k: K, c: nat, l: nat)
    requires Synchronised(k) && Busy(k) && k.threads[k.cur.value].op == Wait(c, l) && k.threads[k.cur.value].pc == 11
    ensures var k' := ExecStep(k);
            Done(k'.threads[k.cur.value]) && Inside(k'.sync, l) == {k.cur.value} && k'.sync.own == k.sync.own
  {
    hide Places, Levels, NoLostWakeup, CvQueues;
    forall u | u in Inside(k.sync, l) ensures u == k.cur.value {
      assert OwnsAt(Wait(c, l), 11, l);
    }
  }

  /** cv_signal makes the thread that has waited longest runnable, and no other. */
  lemma {:induction false} SignalWakesLongest(k: K, c: nat)
    requires Synchronised(k) && Busy(k) && k.threads[k.cur.value].op == Signal(c) && k.threads[k.cur.value].pc == 1
    ensures var q, k' := WaitQ(k.sync, c), ExecStep(k);
            if q == [] then k'.lists == k.lists
            else k'.lists.runq == k.lists.runq + [q[0]] && multiset(k'.lists.sleepers) == multiset(k.lists.sleepers) - multiset{q[0]}
                 && WaitQ(k'.sync, c) == q[1..]
  {
    hide Woken, Places, Levels, NoLostWakeup, Locks;
    var ls := k.lists;
    CvQueue(k, c);
    FirstIsHead(ls.sleepers, ls.at, CvA(c));
    var i := FirstOn(ls.sleepers, ls.at, CvA(c));
    if i < |ls.sleepers| { DropPerm(ls.sleepers, i); }
  }

  /** cv_broadcast makes all of them runnable, in order. */
  lemma {:induction false} BroadcastWakesAll(k: K, c: nat)
    requires Synchronised(k) && Busy(k) && k.threads[k.cur.value].op == Broadcast(c) && k.threads[k.cur.value].pc == 1
    ensures var k' := ExecStep(k);
            k'.lists.runq == k.lists.runq + WaitQ(k.sync, c) && WaitQ(k'.sync, c) == []
            && forall t | t in k'.lists.sleepers :: t in k.lists.sleepers && t !in WaitQ(k.sync, c)
  {
    hide Woken, Kept, Places, Levels, NoLostWakeup, Locks;
    CvQueue(k, c);
    WokenMembers(k.lists.sleepers, k.lists.at, CvA(c));
  }

  // ------------------------------------------------------------ semaphore counts

  /** Event e in state k is a V of semaphore s: the increment of a thread, or an interrupt handler's. */
  predicate Gives(k: K, e: Event, s: nat) { e == IrqV(s) || (e == Exec && Next(k) == Some(Inc(s))) }

  /** Event e in state k is the decrement of a P of semaphore s. */
  predicate Takes(k: K, e: Event, s: nat) { e == Exec && Next(k) == Some(Dec(s)) }

  /** How often semaphore s was given, and taken, in the first n events of a run. */
  function Vs(ks: seq<K>, es: seq<Event>, s: nat, n: nat): nat
    requires n <= |es| < |ks|
  {
    if n == 0 then 0 else Vs(ks, es, s, n - 1) + if Gives(ks[n - 1], es[n - 1], s) then 1 else 0
  }

  function Ps(ks: seq<K>, es: seq<Event>, s: nat, n: nat): nat
    requires n <= |es| < |ks|
  {
    if n == 0 then 0 else Ps(ks, es, s, n - 1) + if Takes(ks[n - 1], es[n - 1], s) then 1 else 0
  }

  lemma CountAfter(y: Sync, t: nat, th: Thread, i: Instr, s: nat)
    requires i.Dec? ==> Get(y.count, i.s) > 0
    ensures Get(NextSync(y, t, th, i).count, s) == Get(y.count, s) + (if i == Inc(s) then 1 else 0) - if i == Dec(s) then 1 else 0
  {
    hide WaitQ, Inside, Len;
  }

  /** Nothing but a V raises a count, by one, and nothing but a P that finds it positive lowers it. */
  lemma {:induction false} CountStep(k: K, e: Event, s: nat)
    requires NoLostWakeup(k) && Enabled(k, e)
    ensures Get(Step(k, e).sync.count, s) == Get(k.sync.count, s) + (if Gives(k, e, s) then 1 else 0) - if Takes(k, e, s) then 1 else 0
    ensures Takes(k, e, s) ==> Get(k.sync.count, s) > 0
  {
    hide NextSync, NextLists, NextThread, NextSpl, At, WakeEvery;
    if e == Exec {
      var th := k.threads[k.cur.value];
      CountAfter(k.sync, k.cur.value, th, At(th.op, th.pc), s);
    }
  }

  /** Main result: at every point of every run a semaphore holds its initial count, plus a unit for each V so far, minus one for each P. */
  lemma {:induction false} EveryRunCounts(ks: seq<K>, es: seq<Event>, t: nat, init: map<nat, nat>, s: nat, n: nat)
    requires IsRun(ks, es) && ks[0] == Boot(t, init) && n <= |es|
    ensures Get(ks[n].sync.count, s) + Ps(ks, es, s, n) == Get(init, s) + Vs(ks, es, s, n)
  {
    hide Step, Enabled, Gives, Takes, Synchronised;
    if n > 0 {
      EveryRunCounts(ks, es, t, init, s, n - 1);
      EveryRunSynchronised(ks, es, t, init, n - 1);
      SynchronisedCalm(ks[n - 1]);
      assert Enabled(ks[n - 1], es[n - 1]) && ks[n - 1 + 1] == Step(ks[n - 1], es[n - 1]);
      CountStep(ks[n - 1], es[n - 1], s);
    }
  }

  lemma SynchronisedCalm(k: K)
    requires Synchronised(k)
    ensures NoLostWakeup(k) && Levels(k)
  {
  }

  /** A thread asleep on a semaphore, whenever interrupts are on, finds the count at zero. */
  lemma {:induction false} SleeperCannotProceed(k: K, t: nat, s: nat)
    requires Synchronised(k) && k.spl == 0 && t in k.lists.sleepers && SleepsOn(k.lists.at, t, SemA(s))
    ensures Get(k.sync.count, s) == 0
  {
    hide Places, Locks, CvQueues, At, Depth, Len;
    if Next(k).Some? { DepthZero(k.threads[k.cur.value].op, k.threads[k.cur.value].pc); }
  }

  /** In every run: while a thread sleeps on a semaphore and interrupts are on, every unit it ever held has been taken. */
  lemma {:induction false} NoUnitWaits(ks: seq<K>, es: seq<Event>, t: nat, init: map<nat, nat>, u: nat, s: nat, n: nat)
    requires IsRun(ks, es) && ks[0] == Boot(t, init) && n <= |es|
    requires ks[n].spl == 0 && u in ks[n].lists.sleepers && SleepsOn(ks[n].lists.at, u, SemA(s))
    ensures Ps(ks, es, s, n) == Get(init, s) + Vs(ks, es, s, n)
  {
    hide Synchronised, Ps, Vs;
    EveryRunSynchronised(ks, es, t, init, n);
    SleeperCannotProceed(ks[n], u, s);
    EveryRunCounts(ks, es, t, init, s, n);
  }
}
