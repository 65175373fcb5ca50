/**
  What the callers of the primitives may count on: semaphores conserve units, call by call; a lock
  that is owned is owned by a thread that has not finished releasing it; and each primitive, run
  through, is one action on the whole state.
 */
module KernelCalls {
  import opened Basics
  import opened SleepLists
  import opened Kernel
  import opened KernelPlaces
  import opened KernelSync
  import opened KernelLocks
  import opened KernelRuns

  // ------------------------------------------------------------ units of a semaphore, by calls

  /** Event e in state k is the last statement of a call of op: the running thread has not returned before it, and has after it. */
  predicate Finishes(k: K, e: Event, op: Op) {
    && e == Exec && Enabled(k, e) && k.threads[k.cur.value].op == op
    && k.cur.value in Step(k, e).threads && Done(Step(k, e).threads[k.cur.value])
  }

  /** How many calls of op have returned in the first n events of a run. */
  function Finished(ks: seq<K>, es: seq<Event>, op: Op, n: nat): nat
    requires n <= |es| < |ks|
  {
    if n == 0 then 0 else Finished(ks, es, op, n - 1) + if Finishes(ks[n - 1], es[n - 1], op) then 1 else 0
  }

  /** How many V of semaphore s interrupt handlers have done. */
  function IrqVs(es: seq<Event>, s: nat, n: nat): nat
    requires n <= |es|
  {
    if n == 0 then 0 else IrqVs(es, s, n - 1) + if es[n - 1] == IrqV(s) then 1 else 0
  }

  /** What the current thread has done to the count in a call from which it has not returned. */
  function InFlight(th: Thread, s: nat): int {
    if th.op == V(s) && 2 <= th.pc <= 3 then 1 else if th.op == P(s) && th.pc == 3 then -1 else 0
  }

  function Owed(k: K, s: nat): int { if Busy(k) then InFlight(k.threads[k.cur.value], s) else 0 }

  /** At level 0, at a resting point or after its return a thread owes nothing. */
  lemma NothingInFlight(th: Thread, s: nat)
    requires Done(th) || Depth(th.op, th.pc) == 0 || Parked(th)
    ensures InFlight(th, s) == 0
  {
  }

  /** One statement: what it does to the count, the thread has in flight until it returns. */
  lemma FlightMoves(th: Thread, spl: nat, y: Sync, s: nat)
    requires th.pc < Len(th.op)
    ensures var i := At(th.op, th.pc);
            var th' := NextThread(th, spl, y, i);
            InFlight(th', s) == InFlight(th, s)
              + (if i == Inc(s) then 1 else 0) - (if i == Dec(s) then 1 else 0)
              - (if Done(th') && th.op == V(s) then 1 else 0) + (if Done(th') && th.op == P(s) then 1 else 0)
  {
  }

  /** A thread that goes to sleep or yields has nothing in flight. */
  lemma SwitchedOut(th: Thread, spl: nat, y: Sync, s: nat)
    requires th.pc < Len(th.op)
    ensures var i := At(th.op, th.pc);
            i.Yield? || MustSleep(y, i).Some? ==> InFlight(NextThread(th, spl, y, i), s) == 0
  {
  }

  lemma {:induction false} ExecOwed(k: K, s: nat)
    requires NoLostWakeup(k) && Enabled(k, Exec)
    ensures var k' := Step(k, Exec);
            Get(k'.sync.count, s) - Owed(k', s) + (if Finishes(k, Exec, P(s)) then 1 else 0)
            == Get(k.sync.count, s) - Owed(k, s) + if Finishes(k, Exec, V(s)) then 1 else 0
  {
    hide NextSync, NextLists, NextThread, NextSpl, At, Len, InFlight, NoLostWakeup, MustSleep;
    var th := k.threads[k.cur.value];
    FlightMoves(th, k.spl, k.sync, s);
    SwitchedOut(th, k.spl, k.sync, s);
    CountStep(k, Exec, s);
    CountAsStatement(k, s);
  }

  lemma CountAsStatement(k: K, s: nat)
    requires Enabled(k, Exec)
    ensures var i := At(k.threads[k.cur.value].op, k.threads[k.cur.value].pc);
            (Gives(k, Exec, s) <==> i == Inc(s)) && (Takes(k, Exec, s) <==> i == Dec(s))
  {
    hide At;
  }

  /** In the other events nobody owes anything, before or after. */
  lemma {:induction false} OthersOwe(k: K, e: Event, s: nat)
    requires Levels(k) && Enabled(k, e) && e != Exec
    ensures Owed(k, s) == Owed(Step(k, e), s) == 0
  {
    hide ExecStep, Clock, WakeEvery, Enqueue, Exorcised, Reserved, Depth, Len, Parked, ThreadOk, Done;
    if Busy(k) { NothingInFlight(k.threads[k.cur.value], s); }
    if e.Dispatch? {
      HeadParked(k.lists, k.threads);
      NothingInFlight(k.threads[k.lists.runq[0]], s);
    }
  }

  lemma {:induction false} OthersCount(k: K, e: Event, s: nat)
    requires Synchronised(k) && Enabled(k, e) && e != Exec
    ensures Get(Step(k, e).sync.count, s) - Owed(Step(k, e), s)
            == Get(k.sync.count, s) - Owed(k, s) + if e == IrqV(s) then 1 else 0
  {
    hide Step, Enabled, Synchronised, NoLostWakeup, Levels, Owed;
    SynchronisedCalm(k);
    OthersOwe(k, e, s);
    CountStep(k, e, s);
  }

  lemma {:induction false} CallsCounted(ks: seq<K>, es: seq<Event>, t: nat, init: map<nat, nat>, s: nat, n: nat)
    requires IsRun(ks, es) && ks[0] == Boot(t, init) && n <= |es|
    ensures Get(ks[n].sync.count, s) - Owed(ks[n], s) + Finished(ks, es, P(s), n)
            == Get(init, s) + Finished(ks, es, V(s), n) + IrqVs(es, s, n)
  {
    hide Step, Enabled, Finishes, Synchronised, NoLostWakeup, Levels, Owed;
    if n == 0 {
      BootOwes(t, init, s);
    } else {
      var k, e := ks[n - 1], es[n - 1];
      CallsCounted(ks, es, t, init, s, n - 1);
      EveryRunSynchronised(ks, es, t, init, n - 1);
      SynchronisedCalm(k);
      assert Enabled(k, e) && ks[n - 1 + 1] == Step(k, e);
      if e == Exec {
        ExecOwed(k, s);
      } else {
        OthersCount(k, e, s);
        OnlyExecFinishes(k, e, s);
      }
    }
  }

  lemma BootOwes(t: nat, init: map<nat, nat>, s: nat)
    ensures Owed(Boot(t, init), s) == 0
  {
  }

  lemma OnlyExecFinishes(k: K, e: Event, s: nat)
    ensures e != Exec ==> !Finishes(k, e, P(s)) && !Finishes(k, e, V(s))
  {
  }

  /**
    Main result: in every run, whenever interrupts are on, a semaphore holds its initial count, plus one
    for each call of V that has returned and each V of an interrupt handler, minus one for each call of P
    that has returned.
   */
  lemma {:induction false} EveryRunConserves(ks: seq<K>, es: seq<Event>, t: nat, init: map<nat, nat>, s: nat, n: nat)
    requires IsRun(ks, es) && ks[0] == Boot(t, init) && n <= |es| && ks[n].spl == 0
    ensures Get(ks[n].sync.count, s) + Finished(ks, es, P(s), n)
            == Get(init, s) + Finished(ks, es, V(s), n) + IrqVs(es, s, n)
  {
    hide Finished, IrqVs, Synchronised, Owed;
    CallsCounted(ks, es, t, init, s, n);
    EveryRunSynchronised(ks, es, t, init, n);
    SynchronisedCalm(ks[n]);
    CalmOwes(ks[n], s);
  }

  lemma {:induction false} CalmOwes(k: K, s: nat)
    requires Levels(k) && k.spl == 0
    ensures Owed(k, s) == 0
  {
    hide Depth, Len, InFlight, ListsOk, ThreadOk;
    if Busy(k) { NothingInFlight(k.threads[k.cur.value], s); }
  }

  // ------------------------------------------------------------ who owns a lock

  /** Every owner is inside the lock, or on its way in or out. */
  ghost predicate OwnersIn(threads: map<nat, Thread>, y: Sync) {
    forall l | l in y.own :: OwnerIn(threads, y, l)
  }

  ghost predicate OwnerIn(threads: map<nat, Thread>, y: Sync, l: nat)
    requires l in y.own
  {
    var t := y.own[l];
    t in Inside(y, l) || (t in threads && OwnsAt(threads[t].op, threads[t].pc, l))
  }

  /** Having taken a lock, a thread holds on to it until it clears the owner or is inside. */
  lemma HoldsOn(op: Op, pc: nat, l: nat)
    requires pc < Len(op)
    ensures At(op, pc) == Take(l) ==> OwnsAt(op, pc + 1, l)
    ensures OwnsAt(op, pc, l) ==> At(op, pc) == Clear(l) || OwnsAt(op, pc + 1, l)
                                  || (At(op, pc) == Restore && pc + 1 == Len(op) && (op.Acquire? || op.Wait?) && op.l == l)
    ensures OwnsAt(op, pc, l) ==> !At(op, pc).TestSem? && !At(op, pc).TestLock?
  {
  }

  lemma InsideGrows(y: Sync, y': Sync, l: nat, m: nat, t: nat)
    requires y'.inside == y.inside[m := Inside(y, m) + {t}] || y'.inside == y.inside
    ensures Inside(y, l) <= Inside(y', l) && (y'.inside == y.inside[m := Inside(y, m) + {t}] ==> t in Inside(y', m))
  {
  }

  lemma {:induction false} ExecOwners(k: K)
    requires OwnersIn(k.threads, k.sync) && Enabled(k, Exec)
    ensures OwnersIn(ExecStep(k).threads, ExecStep(k).sync)
  {
    hide At, Len, OwnsAt, NextLists, NextSync, NextSpl, NextThread, Inside;
    var t := k.cur.value;
    var th := k.threads[t];
    var i := At(th.op, th.pc);
    var th', y' := NextThread(th, k.spl, k.sync, i), NextSync(k.sync, t, th, i);
    ThreadAfter(th, k.spl, k.sync, i);
    OwnersAfter(k.sync, t, th, i);
    InsideAfter(k.sync, t, th, i);
    forall l | l in y'.own ensures OwnerIn(k.threads[t := th'], y', l) {
      HoldsOn(th.op, th.pc, l);
      InsideGrows(k.sync, y', l, if th.op.Acquire? || th.op.Wait? then th.op.l else 0, t);
      if i != Take(l) { assert OwnerIn(k.threads, k.sync, l); }
    }
  }

  lemma StartOwners(k: K, op: Op)
    requires OwnersIn(k.threads, k.sync) && Locks(k.threads, k.sync) && Enabled(k, Start(op))
    ensures OwnersIn(Step(k, Start(op)).threads, Step(k, Start(op)).sync)
  {
    var k', t := Step(k, Start(op)), k.cur.value;
    forall l | l in k'.sync.own ensures OwnerIn(k'.threads, k'.sync, l) {
      assert OwnerIn(k.threads, k.sync, l);
      DoneOwnsNot(k.threads[t], l);
    }
  }

  lemma DoneOwnsNot(th: Thread, l: nat)
    ensures Done(th) ==> !OwnsAt(th.op, th.pc, l)
  {
  }

  lemma {:induction false} StepOwners(k: K, e: Event)
    requires OwnersIn(k.threads, k.sync) && Locks(k.threads, k.sync) && Enabled(k, e)
    ensures OwnersIn(Step(k, e).threads, Step(k, e).sync)
  {
    hide ExecStep, Locks, Clock, WakeEvery, Enqueue, Exorcised, Reserved, Len, OwnsAt;
    if e == Exec {
      ExecOwners(k);
    } else if e.Start? {
      StartOwners(k, e.op);
    } else {
      var k' := Step(k, e);
      forall l | l in k'.sync.own ensures OwnerIn(k'.threads, k'.sync, l) {
        assert OwnerIn(k.threads, k.sync, l);
        if e == Exit { DoneOwnsNot(k.threads[k.cur.value], l); }
      }
    }
  }

  lemma {:induction false} EveryRunOwners(ks: seq<K>, es: seq<Event>, t: nat, init: map<nat, nat>, n: nat)
    requires IsRun(ks, es) && ks[0] == Boot(t, init) && n <= |es|
    ensures OwnersIn(ks[n].threads, ks[n].sync)
  {
    hide Step, Enabled, Synchronised, OwnersIn;
    if n == 0 {
      assert OwnersIn(ks[0].threads, ks[0].sync) by { BootOwners(t, init); }
    } else {
      EveryRunOwners(ks, es, t, init, n - 1);
      EveryRunSynchronised(ks, es, t, init, n - 1);
      SynchronisedLocks(ks[n - 1]);
      assert Enabled(ks[n - 1], es[n - 1]) && ks[n - 1 + 1] == Step(ks[n - 1], es[n - 1]);
      StepOwners(ks[n - 1], es[n - 1]);
    }
  }

  lemma BootOwners(t: nat, init: map<nat, nat>)
    ensures OwnersIn(Boot(t, init).threads, Boot(t, init).sync)
  {
  }

  lemma SynchronisedLocks(k: K)
    requires Synchronised(k)
    ensures Locks(k.threads, k.sync) && Places(k) && Levels(k)
  {
  }

  /** Thread th is in a call of lock_release or cv_wait on l from which it has not returned. */
  predicate GivingUp(th: Thread, l: nat) {
    (th.op == Release(l) || (th.op.Wait? && th.op.l == l)) && !Done(th)
  }

  /**
    Main result: in every run, whenever interrupts are on, the owner of a lock is between acquire and
    release of it, or in lock_release or cv_wait: once lock_release has returned, the lock is given up.
   */
  lemma {:induction false} EveryRunOwnedInside(ks: seq<K>, es: seq<Event>, b: nat, init: map<nat, nat>, l: nat, n: nat)
    requires IsRun(ks, es) && ks[0] == Boot(b, init) && n <= |es| && ks[n].spl == 0 && l in ks[n].sync.own
    ensures var t := ks[n].sync.own[l];
            t in Inside(ks[n].sync, l) || (t in ks[n].threads && GivingUp(ks[n].threads[t], l))
  {
    hide Synchronised, Places, Levels, OwnsAt, Inside, GivingUp;
    EveryRunOwners(ks, es, b, init, n);
    EveryRunSynchronised(ks, es, b, init, n);
    SynchronisedLocks(ks[n]);
    var k := ks[n];
    assert OwnerIn(k.threads, k.sync, l);
    if k.sync.own[l] in k.threads { OwnsGivingUp(k, k.sync.own[l], l); }
  }

  lemma {:induction false} OwnsGivingUp(k: K, t: nat, l: nat)
    requires Places(k) && Levels(k) && k.spl == 0 && t in k.threads
    ensures OwnsAt(k.threads[t].op, k.threads[t].pc, l) ==> GivingUp(k.threads[t], l)
  {
    hide Where, ThreadOk;
    SomewhereIs(k, t);
    if t in k.lists.sleepers { AsleepParked(k.threads[t], k.lists.at[t]); }
  }

  /** A live thread runs, is queued or is asleep. */
  lemma SomewhereIs(k: K, t: nat)
    requires Places(k) && t in k.threads
    ensures k.cur == Some(t) || t in k.lists.runq || t in k.lists.sleepers
  {
    assert Where(k)[t] == 1;
  }

  /** In lock_release(l), after the owner was cleared. */
  predicate Clearing(th: Thread, l: nat) { th.op == Release(l) && 3 <= th.pc < Len(th.op) }

  ghost predicate Vacant(k: K) {
    Busy(k) ==> forall l | Clearing(k.threads[k.cur.value], l) :: l !in k.sync.own
  }

  lemma NotClearing(th: Thread, l: nat)
    requires Done(th) || Depth(th.op, th.pc) == 0 || Parked(th)
    ensures !Clearing(th, l)
  {
  }

  lemma ClearingMoves(op: Op, pc: nat, l: nat)
    requires op == Release(l) && 3 <= pc + 1 <= Len(op) && pc < Len(op)
    ensures At(op, pc) == Clear(l) || (3 <= pc && !At(op, pc).Take?)
  {
  }

  lemma {:induction false} ExecVacant(k: K)
    requires Vacant(k) && Enabled(k, Exec)
    ensures Vacant(Step(k, Exec))
    ensures forall l | Finishes(k, Exec, Release(l)) :: l !in Step(k, Exec).sync.own
  {
    hide At, NextLists, NextSync, NextSpl, NextThread;
    var t := k.cur.value;
    var th := k.threads[t];
    var i := At(th.op, th.pc);
    OwnersAfter(k.sync, t, th, i);
    ThreadAfter(th, k.spl, k.sync, i);
    if th.op.Release? && 3 <= th.pc + 1 { ClearingMoves(th.op, th.pc, th.op.l); }
    TestsAreNoRelease(th.op, th.pc);
  }

  lemma TestsAreNoRelease(op: Op, pc: nat)
    requires pc < Len(op)
    ensures op.Release? ==> !At(op, pc).TestSem? && !At(op, pc).TestLock?
  {
  }

  lemma {:induction false} OthersVacant(k: K, e: Event)
    requires Levels(k) && Vacant(k) && Enabled(k, e) && e != Exec
    ensures Vacant(Step(k, e))
  {
    hide ExecStep, Clock, WakeEvery, Enqueue, Exorcised, Reserved, Depth, Len, Parked, ThreadOk, Done;
    var k' := Step(k, e);
    if Busy(k') {
      var th := k'.threads[k'.cur.value];
      forall l ensures !Clearing(th, l) {
        if Busy(k) { NotClearing(k.threads[k.cur.value], l); }
        if e.Dispatch? {
          HeadParked(k.lists, k.threads);
          NotClearing(k.threads[k.lists.runq[0]], l);
        }
      }
    }
  }

  lemma {:induction false} EveryRunVacant(ks: seq<K>, es: seq<Event>, t: nat, init: map<nat, nat>, n: nat)
    requires IsRun(ks, es) && ks[0] == Boot(t, init) && n <= |es|
    ensures Vacant(ks[n])
  {
    hide Step, Enabled, Synchronised, Levels, NoLostWakeup;
    if n > 0 {
      var k, e := ks[n - 1], es[n - 1];
      EveryRunVacant(ks, es, t, init, n - 1);
      EveryRunSynchronised(ks, es, t, init, n - 1);
      SynchronisedCalm(k);
      assert Enabled(k, e) && ks[n - 1 + 1] == Step(k, e);
      if e == Exec { ExecVacant(k); } else { OthersVacant(k, e); }
    }
  }

  /** In every run: when lock_release returns, the lock is free. */
  lemma {:induction false} EveryReleaseFrees(ks: seq<K>, es: seq<Event>, t: nat, init: map<nat, nat>, l: nat, n: nat)
    requires IsRun(ks, es) && ks[0] == Boot(t, init) && n < |es| && Finishes(ks[n], es[n], Release(l))
    ensures l !in ks[n + 1].sync.own
  {
    hide Step, Enabled;
    EveryRunVacant(ks, es, t, init, n);
    assert Enabled(ks[n], es[n]) && ks[n + 1] == Step(ks[n], es[n]);
    ExecVacant(ks[n]);
  }

  // ------------------------------------------------------------ each call as one action

  /** A thread runs, is in no primitive, and interrupts are on. */
  predicate Ready(k: K) {
    Busy(k) && Done(k.threads[k.cur.value]) && k.spl == 0 && k.threads[k.cur.value].saves == []
  }

  /** That is so whenever a thread runs outside every primitive. */
  lemma {:induction false} CallersReady(k: K)
    requires Synchronised(k) && Busy(k) && Done(k.threads[k.cur.value])
    ensures Ready(k)
  {
    hide Synchronised, Depth, ListsOk;
    SynchronisedCalm(k);
    DoneDepth(k.threads[k.cur.value]);
  }

  lemma DoneDepth(th: Thread)
    ensures Done(th) ==> Depth(th.op, th.pc) == 0
  {
  }

  /** n statements of the running thread. */
  function Execs(k: K, n: nat): K
    decreases n
  {
    if n == 0 || !Enabled(k, Exec) then k else Execs(Step(k, Exec), n - 1)
  }

  /** Compared with k0, the running thread is at statement pc of op with these levels saved, and lists, counts and owners are these. */
  ghost predicate Within(k0: K, k: K, op: Op, pc: nat, saves: seq<nat>, ls: Lists, count: map<nat, nat>, own: map<nat, nat>)
    requires Busy(k0)
  {
    && k.cur == k0.cur && k.spl == Level(|saves|) && k.lists == ls && k.sync.count == count && k.sync.own == own
    && k.threads == k0.threads[k0.cur.value := k0.threads[k0.cur.value].(op := op, pc := pc, saves := saves)]
  }

  /** It has returned. */
  ghost predicate Returned(k0: K, k: K, op: Op, ls: Lists, count: map<nat, nat>, own: map<nat, nat>)
    requires Busy(k0)
  {
    Within(k0, k, op, Len(op), [], ls, count, own)
  }

  /** It has given up the processor, at statement pc. */
  ghost predicate Gone(k0: K, k: K, op: Op, pc: nat, ls: Lists, count: map<nat, nat>, own: map<nat, nat>)
    requires Busy(k0)
  {
    && k.cur == None && k.spl == SPL_HIGH && k.lists == ls && k.sync.count == count && k.sync.own == own
    && k.threads == k0.threads[k0.cur.value := k0.threads[k0.cur.value].(op := op, pc := pc, saves := [0])]
  }

  lemma Called(k: K, op: Op)
    requires Ready(k) && Enabled(k, Start(op))
    ensures Within(k, Step(k, Start(op)), op, 0, [], k.lists, k.sync.count, k.sync.own)
  {
  }

  function Counted(count: map<nat, nat>, i: Instr): map<nat, nat> {
    match i
    case Inc(s) => count[s := Get(count, s) + 1]
    case Dec(s) => count[s := if Get(count, s) > 0 then Get(count, s) - 1 else 0]
    case _ => count
  }

  function Owned(own: map<nat, nat>, t: nat, i: Instr): map<nat, nat> {
    match i
    case Take(l) => own[l := t]
    case Clear(l) => own - {l}
    case _ => own
  }

  function Saved(saves: seq<nat>, i: Instr): seq<nat> {
    match i
    case High => saves + [Level(|saves|)]
    case Restore => if saves == [] then [] else saves[..|saves| - 1]
    case _ => saves
  }

  function Listed(ls: Lists, i: Instr): Lists {
    match i
    case WakeAll(a) => WakeEvery(ls, a)
    case WakeFirst(a) => WakeOneOn(ls, a)
    case _ => ls
  }

  /** The statement does not give up the processor. */
  predicate Stays(count: map<nat, nat>, own: map<nat, nat>, i: Instr) {
    match i
    case TestSem(s) => Get(count, s) > 0
    case TestLock(l) => l !in own
    case Block(_) => false
    case Yield => false
    case _ => true
  }

  lemma StaysIs(y: Sync, i: Instr)
    ensures Stays(y.count, y.own, i) <==> i != Yield && MustSleep(y, i).None?
  {
  }

  lemma GoesLists(ls: Lists, y: Sync, t: nat, i: Instr)
    requires Stays(y.count, y.own, i)
    ensures NextLists(ls, y, t, i) == Listed(ls, i)
  {
    hide WakeEvery, WakeOneOn;
  }

  lemma GoesSync(y: Sync, t: nat, th: Thread, i: Instr)
    ensures NextSync(y, t, th, i).count == Counted(y.count, i) && NextSync(y, t, th, i).own == Owned(y.own, t, i)
  {
  }

  lemma GoesThread(th: Thread, y: Sync, i: Instr)
    requires Stays(y.count, y.own, i) && (i == Restore ==> th.saves != [] && th.saves[|th.saves| - 1] == Level(|th.saves| - 1))
    ensures NextThread(th, Level(|th.saves|), y, i) == th.(pc := th.pc + 1, saves := Saved(th.saves, i))
    ensures NextSpl(th, Level(|th.saves|), i) == Level(|Saved(th.saves, i)|)
  {
  }

  /** One statement that does not give up the processor. */
  lemma {:induction false} Goes(k0: K, k: K, n: nat, op: Op, pc: nat, saves: seq<nat>, ls: Lists, count: map<nat, nat>, own: map<nat, nat>)
      returns (k': K)
    requires Busy(k0) && Within(k0, k, op, pc, saves, ls, count, own) && pc < Len(op)
    requires var i := At(op, pc);
             Stays(count, own, i) && (i == Restore ==> saves != [] && saves[|saves| - 1] == Level(|saves| - 1))
    ensures Execs(k, n + 1) == Execs(k', n)
    ensures var i := At(op, pc);
            Within(k0, k', op, pc + 1, Saved(saves, i), Listed(ls, i), Counted(count, i), Owned(own, k0.cur.value, i))
  {
    hide At, NextLists, NextThread, NextSync, NextSpl, Len, Stays, Saved, Listed, Counted, Owned;
    k' := Step(k, Exec);
    var t, i := k0.cur.value, At(op, pc);
    StaysIs(k.sync, i);
    GoesLists(ls, k.sync, t, i);
    GoesSync(k.sync, t, k.threads[t], i);
    GoesThread(k.threads[t], k.sync, i);
  }

  /** One statement that puts the thread to sleep, or at the end of the run queue. */
  lemma {:induction false} Leaves(k0: K, k: K, op: Op, pc: nat, ls: Lists, count: map<nat, nat>, own: map<nat, nat>)
    requires Busy(k0) && Within(k0, k, op, pc, [0], ls, count, own) && pc < Len(op)
    requires !Stays(count, own, At(op, pc))
    ensures var i := At(op, pc);
            Gone(k0, Execs(k, 1), op, if i.Block? || i == Yield then pc + 1 else pc,
                 if i == Yield then Enqueue(ls, [k0.cur.value]) else Park(ls, k0.cur.value, MustSleep(k.sync, i).value), count, own)
  {
    hide At, Len;
    assert Execs(k, 1) == Execs(Step(k, Exec), 0);
    StaysIs(k.sync, At(op, pc));
  }

  // ------------------------------------------------------------ semaphores

  /** V: one unit more, and everybody who waits for the semaphore becomes runnable, in order. */
  lemma {:induction false} VCall(k: K, s: nat)
    requires Ready(k)
    ensures Returned(k, Execs(Step(k, Start(V(s))), 4), V(s), WakeEvery(k.lists, SemA(s)),
                     k.sync.count[s := Get(k.sync.count, s) + 1], k.sync.own)
  {
    hide WakeEvery, Execs, Within, Step, Get;
    var op, c, o := V(s), k.sync.count, k.sync.own;
    SavedLevels();
    Called(k, op);
    var k1 := Goes(k, Step(k, Start(op)), 3, op, 0, [], k.lists, c, o);
    var k2 := Goes(k, k1, 2, op, 1, [0], k.lists, c, o);
    var k3 := Goes(k, k2, 1, op, 2, [0], k.lists, c[s := Get(c, s) + 1], o);
    var k4 := Goes(k, k3, 0, op, 3, [0], WakeEvery(k.lists, SemA(s)), c[s := Get(c, s) + 1], o);
    NoMore(k4);
  }

  lemma SavedLevels()
    ensures Saved([], High) == [0] && Saved([0], High) == [0, SPL_HIGH]
    ensures Saved([0], Restore) == [] && Saved([0, SPL_HIGH], Restore) == [0]
  {
  }

  lemma NoMore(k: K)
    ensures Execs(k, 0) == k
  {
  }

  /** P with a unit to take: it takes it and returns. */
  lemma {:induction false} PCall(k: K, s: nat)
    requires Ready(k) && Get(k.sync.count, s) > 0
    ensures Returned(k, Execs(Step(k, Start(P(s))), 4), P(s), k.lists, k.sync.count[s := Get(k.sync.count, s) - 1], k.sync.own)
  {
    hide Execs, Within, Step;
    var op, c, o := P(s), k.sync.count, k.sync.own;
    SavedLevels();
    Called(k, op);
    var k1 := Goes(k, Step(k, Start(op)), 3, op, 0, [], k.lists, c, o);
    var k2 := Goes(k, k1, 2, op, 1, [0], k.lists, c, o);
    var k3 := Goes(k, k2, 1, op, 2, [0], k.lists, c, o);
    var k4 := Goes(k, k3, 0, op, 3, [0], k.lists, c[s := Get(c, s) - 1], o);
    NoMore(k4);
  }

  /** P without one: the thread sleeps on the semaphore, and will test it again. */
  lemma {:induction false} PSleeps(k: K, s: nat)
    requires Ready(k) && Get(k.sync.count, s) == 0
    ensures Gone(k, Execs(Step(k, Start(P(s))), 2), P(s), 1, Park(k.lists, k.cur.value, SemA(s)), k.sync.count, k.sync.own)
  {
    hide Execs, Step, Park, Enqueue;
    var op, c, o := P(s), k.sync.count, k.sync.own;
    SavedLevels();
    Called(k, op);
    var k1 := Goes(k, Step(k, Start(op)), 1, op, 0, [], k.lists, c, o);
    Leaves(k, k1, op, 1, k.lists, c, o);
  }

  // ------------------------------------------------------------ locks

  /** lock_acquire of a free lock returns without sleeping, and the caller owns it. */
  lemma {:induction false} AcquireCall(k: K, l: nat)
    requires Ready(k) && l !in k.sync.own
    ensures Returned(k, Execs(Step(k, Start(Acquire(l))), 4), Acquire(l), k.lists, k.sync.count, k.sync.own[l := k.cur.value])
  {
    hide Execs, Within, Step;
    var op, c, o := Acquire(l), k.sync.count, k.sync.own;
    SavedLevels();
    Called(k, op);
    var k1 := Goes(k, Step(k, Start(op)), 3, op, 0, [], k.lists, c, o);
    var k2 := Goes(k, k1, 2, op, 1, [0], k.lists, c, o);
    var k3 := Goes(k, k2, 1, op, 2, [0], k.lists, c, o);
    var k4 := Goes(k, k3, 0, op, 3, [0], k.lists, c, o[l := k.cur.value]);
    NoMore(k4);
  }

  lemma {:induction false} AcquireSleeps(k: K, l: nat)
    requires Ready(k) && l in k.sync.own
    ensures Gone(k, Execs(Step(k, Start(Acquire(l))), 2), Acquire(l), 1, Park(k.lists, k.cur.value, LockA(l)), k.sync.count, k.sync.own)
  {
    hide Execs, Step, Park, Enqueue;
    var op, c, o := Acquire(l), k.sync.count, k.sync.own;
    SavedLevels();
    Called(k, op);
    var k1 := Goes(k, Step(k, Start(op)), 1, op, 0, [], k.lists, c, o);
    Leaves(k, k1, op, 1, k.lists, c, o);
  }

  /** lock_release: the lock has no owner, and everybody who waits for it becomes runnable, in order. */
  lemma {:induction false} ReleaseCall(k: K, l: nat)
    requires Ready(k) && k.cur.value in Inside(k.sync, l)
    ensures Returned(k, Execs(Step(k, Start(Release(l))), 5), Release(l), WakeEvery(k.lists, LockA(l)), k.sync.count, k.sync.own - {l})
  {
    hide WakeEvery, Execs, Within, Step;
    var op, c, o := Release(l), k.sync.count, k.sync.own;
    SavedLevels();
    Called(k, op);
    var k1 := Goes(k, Step(k, Start(op)), 4, op, 0, [], k.lists, c, o);
    var k2 := Goes(k, k1, 3, op, 1, [], k.lists, c, o);
    var k3 := Goes(k, k2, 2, op, 2, [0], k.lists, c, o);
    var k4 := Goes(k, k3, 1, op, 3, [0], k.lists, c, o - {l});
    var k5 := Goes(k, k4, 0, op, 4, [0], WakeEvery(k.lists, LockA(l)), c, o - {l});
    NoMore(k5);
  }

  lemma ReturnedReady(k0: K, k: K, op: Op, ls: Lists, count: map<nat, nat>, own: map<nat, nat>)
    requires Ready(k0) && Returned(k0, k, op, ls, count, own)
    ensures Ready(k) && k.cur == k0.cur && k.lists == ls && k.sync.count == count && k.sync.own == own
  {
    hide Len;
  }

  /** After lock_release the same thread can take the lock again at once: it does not sleep. */
  lemma {:induction false} ReleaseThenAcquire(k: K, l: nat)
    requires Ready(k) && k.cur.value in Inside(k.sync, l)
    ensures var k1 := Execs(Step(k, Start(Release(l))), 5);
            && Ready(k1) && var k2 := Execs(Step(k1, Start(Acquire(l))), 4);
            && Ready(k2) && k2.cur == k.cur && k2.sync.own == (k.sync.own - {l})[l := k.cur.value]
            && k2.lists == k1.lists == WakeEvery(k.lists, LockA(l))
  {
    hide WakeEvery, Execs, Step, Returned, Len;
    ReleaseCall(k, l);
    var k1 := Execs(Step(k, Start(Release(l))), 5);
    ReturnedReady(k, k1, Release(l), WakeEvery(k.lists, LockA(l)), k.sync.count, k.sync.own - {l});
    AcquireCall(k1, l);
    ReturnedReady(k1, Execs(Step(k1, Start(Acquire(l))), 4), Acquire(l), k1.lists, k1.sync.count, k1.sync.own[l := k.cur.value]);
  }

  // ------------------------------------------------------------ condition variables and thread_yield

  /** cv_signal: the longest asleep on the variable becomes runnable, and nobody else. */
  lemma {:induction false} SignalCall(k: K, c: nat)
    requires Ready(k)
    ensures Returned(k, Execs(Step(k, Start(Signal(c))), 3), Signal(c), WakeOneOn(k.lists, CvA(c)), k.sync.count, k.sync.own)
  {
    hide WakeOneOn, Execs, Within, Step;
    var op, n, o := Signal(c), k.sync.count, k.sync.own;
    SavedLevels();
    Called(k, op);
    var k1 := Goes(k, Step(k, Start(op)), 2, op, 0, [], k.lists, n, o);
    var k2 := Goes(k, k1, 1, op, 1, [0], k.lists, n, o);
    var k3 := Goes(k, k2, 0, op, 2, [0], WakeOneOn(k.lists, CvA(c)), n, o);
    NoMore(k3);
  }

  lemma {:induction false} BroadcastCall(k: K, c: nat)
    requires Ready(k)
    ensures Returned(k, Execs(Step(k, Start(Broadcast(c))), 3), Broadcast(c), WakeEvery(k.lists, CvA(c)), k.sync.count, k.sync.own)
  {
    hide WakeEvery, Execs, Within, Step;
    var op, n, o := Broadcast(c), k.sync.count, k.sync.own;
    SavedLevels();
    Called(k, op);
    var k1 := Goes(k, Step(k, Start(op)), 2, op, 0, [], k.lists, n, o);
    var k2 := Goes(k, k1, 1, op, 1, [0], k.lists, n, o);
    var k3 := Goes(k, k2, 0, op, 2, [0], WakeEvery(k.lists, CvA(c)), n, o);
    NoMore(k3);
  }

  /** cv_wait, up to the sleep: the lock is given up, its waiters become runnable, and the thread sleeps on the variable. */
  lemma {:induction false} WaitCall(k: K, c: nat, l: nat)
    requires Ready(k) && k.cur.value in Inside(k.sync, l)
    ensures Gone(k, Execs(Step(k, Start(Wait(c, l))), 7), Wait(c, l), 7, Park(WakeEvery(k.lists, LockA(l)), k.cur.value, CvA(c)),
                 k.sync.count, k.sync.own - {l})
  {
    hide WakeEvery, Execs, Step, Park, Enqueue, Within;
    var op, n, o, h := Wait(c, l), k.sync.count, k.sync.own, [0, SPL_HIGH];
    SavedLevels();
    Called(k, op);
    var ls := WakeEvery(k.lists, LockA(l));
    var k1 := Goes(k, Step(k, Start(op)), 6, op, 0, [], k.lists, n, o);
    var k2 := Goes(k, k1, 5, op, 1, [0], k.lists, n, o);
    var k3 := Goes(k, k2, 4, op, 2, [0], k.lists, n, o);
    var k4 := Goes(k, k3, 3, op, 3, h, k.lists, n, o);
    var k5 := Goes(k, k4, 2, op, 4, h, k.lists, n, o - {l});
    var k6 := Goes(k, k5, 1, op, 5, h, ls, n, o - {l});
    Leaves(k, k6, op, 6, ls, n, o - {l});
  }

  /** cv_wait, dispatched again after its sleep: with the lock free it takes the lock and returns. */
  lemma {:induction false} WaitResumes(k: K, c: nat, l: nat)
    requires Busy(k) && k.spl == SPL_HIGH && l !in k.sync.own
    requires var th := k.threads[k.cur.value]; th.op == Wait(c, l) && th.pc == 7 && th.saves == [0]
    ensures Returned(k, Execs(k, 5), Wait(c, l), k.lists, k.sync.count, k.sync.own[l := k.cur.value])
  {
    hide Execs, Step;
    var op, n, o, h := Wait(c, l), k.sync.count, k.sync.own, [0, SPL_HIGH];
    SavedLevels();
    assert Within(k, k, op, 7, [0], k.lists, n, o);
    hide Within;
    var k1 := Goes(k, k, 4, op, 7, [0], k.lists, n, o);
    var k2 := Goes(k, k1, 3, op, 8, h, k.lists, n, o);
    var k3 := Goes(k, k2, 2, op, 9, h, k.lists, n, o);
    var k4 := Goes(k, k3, 1, op, 10, h, k.lists, n, o[l := k.cur.value]);
    var k5 := Goes(k, k4, 0, op, 11, [0], k.lists, n, o[l := k.cur.value]);
    NoMore(k5);
  }

  /** thread_yield: the thread goes to the end of the run queue, and has one statement left. */
  lemma {:induction false} YieldCall(k: K)
    requires Ready(k)
    ensures Gone(k, Execs(Step(k, Start(GiveUp)), 2), GiveUp, 2, Enqueue(k.lists, [k.cur.value]), k.sync.count, k.sync.own)
    ensures Len(GiveUp) == 3 && At(GiveUp, 2) == Restore
  {
    hide Execs, Step, Park, Enqueue;
    var op, c, o := GiveUp, k.sync.count, k.sync.own;
    SavedLevels();
    Called(k, op);
    var k1 := Goes(k, Step(k, Start(op)), 1, op, 0, [], k.lists, c, o);
    Leaves(k, k1, op, 1, k.lists, c, o);
  }
}
