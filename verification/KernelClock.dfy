/**
  clocksleep: the hardware clock wakes lbolt once a second, and a thread that sleeps n seconds is
  back only after n of those wakeups.
 */
module KernelClock {
  import opened Basics
  import opened SleepLists
  import opened Kernel
  import opened KernelPlaces
  import opened KernelSync
  import opened KernelRuns

  /** The ticks that complete a second. */
  function Seconds(es: seq<Event>): nat {
    if es == [] then 0 else Seconds(es[..|es| - 1]) + if es[|es| - 1] == Tick(true) then 1 else 0
  }

  /** Thread t is in clocksleep(n), or has just returned from it. */
  predicate Dozing(k: K, t: nat, n: nat) {
    t in k.threads && k.threads[t].op == ClockSleep(n)
  }

  /** How many of its sleeps it has been woken from. */
  function Wakings(k: K, t: nat, n: nat): int
    requires Dozing(k, t, n)
  {
    var pc := k.threads[t].pc;
    (if pc == 0 then 0 else if pc > n then n else pc - 1) - if t in k.lists.sleepers then 1 else 0
  }

  /** Only the clock wakes lbolt. */
  lemma OtherWakes(op: Op, pc: nat)
    requires pc < Len(op)
    ensures var i := At(op, pc); i.WakeAll? || i.WakeFirst? ==> i.a != LboltA
  {
  }

  lemma {:induction false} StaysAsleep(ls: Lists, y: Sync, u: nat, i: Instr, t: nat)
    requires t in ls.sleepers && SleepsOn(ls.at, t, LboltA) && (i.WakeAll? || i.WakeFirst? ==> i.a != LboltA)
    ensures t in NextLists(ls, y, u, i).sleepers
  {
    hide Woken, Kept;
    if i.WakeAll? {
      WokenMembers(ls.sleepers, ls.at, i.a);
    } else if i.WakeFirst? {
      var j := FirstOn(ls.sleepers, ls.at, i.a);
      if j < |ls.sleepers| { InDropped(ls.sleepers, j, t); }
    }
  }

  lemma InDropped(ts: seq<nat>, j: nat, t: nat)
    requires j < |ts| && t in ts && t != ts[j]
    ensures t in Drop(ts, j)
  {
    var i :| 0 <= i < |ts| && ts[i] == t;
    assert Drop(ts, j)[if i < j then i else i - 1] == t;
  }

  /** A thread asleep in clocksleep stays asleep until the clock has counted a second. */
  lemma {:induction false} OnlySecondsWake(k: K, e: Event, t: nat)
    requires Enabled(k, e) && t in k.lists.sleepers && SleepsOn(k.lists.at, t, LboltA)
    ensures e != Tick(true) ==> t in Step(k, e).lists.sleepers
    ensures e == Tick(true) ==> t in Step(k, e).lists.runq
  {
    hide Woken, Kept, At, NextLists, NextSync, NextThread, NextSpl;
    match e
    case Exec =>
      var th := k.threads[k.cur.value];
      OtherWakes(th.op, th.pc);
      StaysAsleep(k.lists, k.sync, k.cur.value, At(th.op, th.pc), t);
    case Tick(_) => WokenMembers(k.lists.sleepers, k.lists.at, LboltA);
    case IrqV(s) => WokenMembers(k.lists.sleepers, k.lists.at, SemA(s));
    case _ =>
  }

  /** A statement of the dozing thread itself: at each sleep it falls asleep anew. */
  lemma {:induction false} OwnStep(k: K, t: nat, n: nat)
    requires Places(k) && Enabled(k, Exec) && k.cur == Some(t) && Dozing(k, t, n)
    ensures Dozing(ExecStep(k), t, n) && Wakings(ExecStep(k), t, n) == Wakings(k, t, n)
  {
    hide Places, WakeEvery, WakeOneOn, Enqueue, NextSync;
    Distinct(k);
  }

  lemma {:induction false} WakingStep(k: K, e: Event, t: nat, n: nat)
    requires Places(k) && Levels(k) && Enabled(k, e) && Dozing(k, t, n) && Dozing(Step(k, e), t, n)
    requires !(e.Start? && k.cur == Some(t))
    ensures Wakings(Step(k, e), t, n) <= Wakings(k, t, n) + if e == Tick(true) then 1 else 0
  {
    hide Places, ExecStep, Clock, WakeEvery, Enqueue, Exorcised, Reserved;
    if e == Exec && k.cur == Some(t) {
      OwnStep(k, t, n);
    } else {
      SamePlace(k, e, t);
      if t in k.lists.sleepers { OnlySecondsWake(k, e, t); }
    }
  }

  lemma {:induction false} SamePlace(k: K, e: Event, t: nat)
    requires Enabled(k, e) && t in k.threads && t in Step(k, e).threads && !((e.Start? || e == Exec) && k.cur == Some(t))
    ensures Step(k, e).threads[t].pc == k.threads[t].pc
  {
    hide NextLists, NextSync, NextSpl, NextThread, Clock, WakeEvery, Enqueue, Exorcised, Reserved;
  }

  /** Thread t calls clocksleep(n) in state number first, and is still in that call, or has only returned from it, in state number last. */
  ghost predicate InCall(ks: seq<K>, es: seq<Event>, t: nat, n: nat, first: nat, last: nat) {
    && first <= last <= |es| < |ks|
    && (forall i | first <= i <= last :: Dozing(ks[i], t, n)) && ks[first].threads[t].pc == 0
    && forall i | first <= i < last :: !(es[i].Start? && ks[i].cur == Some(t))
  }

  lemma {:induction false} WakingsCounted(ks: seq<K>, es: seq<Event>, b: nat, init: map<nat, nat>, t: nat, n: nat, first: nat, last: nat)
    requires IsRun(ks, es) && ks[0] == Boot(b, init) && InCall(ks, es, t, n, first, last)
    ensures Wakings(ks[last], t, n) <= Seconds(es[first..last])
    decreases last
  {
    hide Step, Enabled, Synchronised, Dozing, Places, Levels;
    if last > first {
      var m := last - 1;
      WakingsCounted(ks, es, b, init, t, n, first, m);
      EveryRunSynchronised(ks, es, b, init, m);
      SynchronisedPlaces(ks[m]);
      assert Dozing(ks[m], t, n) && Dozing(ks[m + 1], t, n);
      assert Enabled(ks[m], es[m]) && ks[m + 1] == Step(ks[m], es[m]);
      WakingStep(ks[m], es[m], t, n);
      var part := es[first..last];
      assert part[..|part| - 1] == es[first..m] && part[|part| - 1] == es[m];
    } else {
      CallStarts(ks[first], t, n);
    }
  }

  lemma CallStarts(k: K, t: nat, n: nat)
    requires Dozing(k, t, n) && k.threads[t].pc == 0
    ensures Wakings(k, t, n) <= 0
  {
  }

  lemma SynchronisedPlaces(k: K)
    requires Synchronised(k)
    ensures Places(k) && Levels(k)
  {
  }

  /** Main result: in every run, between the call of clocksleep(n) and its return the clock counts at least n seconds. */
  lemma {:induction false} ClockSleepLasts(ks: seq<K>, es: seq<Event>, b: nat, init: map<nat, nat>, t: nat, n: nat, first: nat, last: nat)
    requires IsRun(ks, es) && ks[0] == Boot(b, init) && InCall(ks, es, t, n, first, last) && Done(ks[last].threads[t])
    ensures Seconds(es[first..last]) >= n
  {
    hide Synchronised, Places, Seconds;
    WakingsCounted(ks, es, b, init, t, n, first, last);
    EveryRunSynchronised(ks, es, b, init, last);
    SynchronisedPlaces(ks[last]);
    DoneAwake(ks[last], t, n);
  }

  lemma DoneAwake(k: K, t: nat, n: nat)
    requires Levels(k) && Dozing(k, t, n) && Done(k.threads[t])
    ensures Wakings(k, t, n) == n
  {
  }

  // ------------------------------------------------------------ and no more than n sleeps

  /** Event number i of a run puts thread t to sleep. */
  predicate FallsAsleep(ks: seq<K>, t: nat, i: nat)
    requires i + 1 < |ks|
  {
    t !in ks[i].lists.sleepers && t in ks[i + 1].lists.sleepers
  }

  /** How often thread t falls asleep from state number first to state number last. */
  function Sleeps(ks: seq<K>, t: nat, first: nat, last: nat): nat
    requires first <= last < |ks|
    decreases last
  {
    if first == last then 0 else Sleeps(ks, t, first, last - 1) + if FallsAsleep(ks, t, last - 1) then 1 else 0
  }

  /** The sleeps it has begun. */
  function Begun(th: Thread, n: nat): nat { if th.pc == 0 then 0 else if th.pc > n then n else th.pc - 1 }

  lemma {:induction false} OwnBegun(k: K, t: nat, n: nat)
    requires Places(k) && Enabled(k, Exec) && k.cur == Some(t) && Dozing(k, t, n)
    ensures var k' := Step(k, Exec);
            t !in k.lists.sleepers && Begun(k'.threads[t], n) == Begun(k.threads[t], n) + if t in k'.lists.sleepers then 1 else 0
  {
    hide Places, WakeEvery, WakeOneOn, Enqueue, NextSync;
    Distinct(k);
  }

  /** Only the running thread can fall asleep. */
  lemma {:induction false} OthersAwake(k: K, e: Event, t: nat)
    requires Enabled(k, e) && t !in k.lists.sleepers && !(e == Exec && k.cur == Some(t))
    ensures t !in Step(k, e).lists.sleepers
  {
    hide Woken, Kept, At, NextSync, NextThread, NextSpl, MustSleep;
    match e
    case Exec =>
      var th := k.threads[k.cur.value];
      var i := At(th.op, th.pc);
      if i.WakeAll? { WokenMembers(k.lists.sleepers, k.lists.at, i.a); }
    case Tick(_) => WokenMembers(k.lists.sleepers, k.lists.at, LboltA);
    case IrqV(s) => WokenMembers(k.lists.sleepers, k.lists.at, SemA(s));
    case _ =>
  }

  lemma {:induction false} BegunStep(k: K, e: Event, t: nat, n: nat)
    requires Places(k) && Enabled(k, e) && Dozing(k, t, n) && Dozing(Step(k, e), t, n)
    requires !(e.Start? && k.cur == Some(t))
    ensures Begun(Step(k, e).threads[t], n)
            == Begun(k.threads[t], n) + if t !in k.lists.sleepers && t in Step(k, e).lists.sleepers then 1 else 0
  {
    hide Places, Step, Enabled;
    if e == Exec && k.cur == Some(t) {
      OwnBegun(k, t, n);
    } else {
      SamePlace(k, e, t);
      if t !in k.lists.sleepers { OthersAwake(k, e, t); }
    }
  }

  lemma {:induction false} SleepsCounted(ks: seq<K>, es: seq<Event>, b: nat, init: map<nat, nat>, t: nat, n: nat, first: nat, last: nat)
    requires IsRun(ks, es) && ks[0] == Boot(b, init) && InCall(ks, es, t, n, first, last)
    ensures Sleeps(ks, t, first, last) == Begun(ks[last].threads[t], n)
    decreases last
  {
    hide Step, Enabled, Synchronised, Dozing, Places, Levels;
    if last > first {
      var m := last - 1;
      SleepsCounted(ks, es, b, init, t, n, first, m);
      EveryRunSynchronised(ks, es, b, init, m);
      SynchronisedPlaces(ks[m]);
      assert Dozing(ks[m], t, n) && Dozing(ks[m + 1], t, n);
      assert Enabled(ks[m], es[m]) && ks[m + 1] == Step(ks[m], es[m]);
      BegunStep(ks[m], es[m], t, n);
    }
  }

  /** Main result: in every run, between its call of clocksleep(n) and its return a thread falls asleep exactly n times. */
  lemma {:induction false} ClockSleepSleeps(ks: seq<K>, es: seq<Event>, b: nat, init: map<nat, nat>, t: nat, n: nat, first: nat, last: nat)
    requires IsRun(ks, es) && ks[0] == Boot(b, init) && InCall(ks, es, t, n, first, last) && Done(ks[last].threads[t])
    ensures Sleeps(ks, t, first, last) == n
  {
    hide Sleeps;
    SleepsCounted(ks, es, b, init, t, n, first, last);
    assert Dozing(ks[last], t, n);
  }
}
