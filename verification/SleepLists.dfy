/**
  The sleepers array and the run queue of kern/thread, and the wakeup loops between them.
 */
module SleepLists {
  import opened PtrArray
  import opened Queue

  /** A sleep address: a semaphore, a lock, a condition variable or lbolt, which the clock wakes once a second. */
  datatype Addr = SemA(s: nat) | LockA(l: nat) | CvA(c: nat) | LboltA

  predicate SleepsOn(at: map<nat, Addr>, t: nat, a: Addr) {
    t in at && at[t] == a
  }

  /** The sleepers on address a, in order. */
  function Woken(ts: seq<nat>, at: map<nat, Addr>, a: Addr): (r: seq<nat>)
  {
    if ts == [] then []
    else if SleepsOn(at, ts[0], a) then [ts[0]] + Woken(ts[1..], at, a)
    else Woken(ts[1..], at, a)
  }

  /** The others, in order. */
  function Kept(ts: seq<nat>, at: map<nat, Addr>, a: Addr): (r: seq<nat>)
  {
    if ts == [] then []
    else if SleepsOn(at, ts[0], a) then Kept(ts[1..], at, a)
    else [ts[0]] + Kept(ts[1..], at, a)
  }

  /** The first sleeper on a, as an index, or |ts|. */
  function FirstOn(ts: seq<nat>, at: map<nat, Addr>, a: Addr, k: nat := 0): (r: nat)
    requires k <= |ts|
    ensures k <= r <= |ts|
    ensures r < |ts| ==> SleepsOn(at, ts[r], a)
    ensures forall j | k <= j < r :: !SleepsOn(at, ts[j], a)
    decreases |ts| - k
  {
    if k == |ts| || SleepsOn(at, ts[k], a) then k else FirstOn(ts, at, a, k + 1)
  }

  function Drop(ts: seq<nat>, k: nat): (r: seq<nat>)
    requires k < |ts|
  {
    ts[..k] + ts[k + 1..]
  }

  // ------------------------------------------------------------ properties

  lemma {:induction false} WokenAppend(ts: seq<nat>, us: seq<nat>, at: map<nat, Addr>, a: Addr)
    ensures Woken(ts + us, at, a) == Woken(ts, at, a) + Woken(us, at, a)
  {
    if ts == [] {
      assert ts + us == us;
    } else {
      WokenAppend(ts[1..], us, at, a);
      assert (ts + us)[1..] == ts[1..] + us && (ts + us)[0] == ts[0];
    }
  }

  lemma {:induction false} KeptAppend(ts: seq<nat>, us: seq<nat>, at: map<nat, Addr>, a: Addr)
    ensures Kept(ts + us, at, a) == Kept(ts, at, a) + Kept(us, at, a)
  {
    if ts == [] {
      assert ts + us == us;
    } else {
      KeptAppend(ts[1..], us, at, a);
      assert (ts + us)[1..] == ts[1..] + us && (ts + us)[0] == ts[0];
    }
  }

  lemma {:induction false} WokenMembers(ts: seq<nat>, at: map<nat, Addr>, a: Addr)
    ensures forall t :: t in Woken(ts, at, a) <==> t in ts && SleepsOn(at, t, a)
    ensures forall t :: t in Kept(ts, at, a) <==> t in ts && !SleepsOn(at, t, a)
    ensures |Woken(ts, at, a)| + |Kept(ts, at, a)| == |ts|
  {
    if ts != [] {
      WokenMembers(ts[1..], at, a);
      assert ts == [ts[0]] + ts[1..];
    }
  }

  /** Waking everyone on a leaves the waiters on any other address as they were, and none on a. */
  lemma {:induction false} WokenOfKept(ts: seq<nat>, at: map<nat, Addr>, a: Addr, b: Addr)
    ensures Woken(Kept(ts, at, a), at, b) == if a == b then [] else Woken(ts, at, b)
  {
    if ts != [] {
      var k := Kept(ts[1..], at, a);
      WokenOfKept(ts[1..], at, a, b);
      if SleepsOn(at, ts[0], a) {
        assert Kept(ts, at, a) == k;
      } else {
        assert Kept(ts, at, a) == [ts[0]] + k && ([ts[0]] + k)[1..] == k;
      }
    }
  }

  /** Where the waiters on b come from when position k is singled out. */
  lemma {:induction false} WokenSplit(ts: seq<nat>, at: map<nat, Addr>, b: Addr, k: nat)
    requires k < |ts|
    ensures Woken(ts, at, b) == Woken(ts[..k], at, b) + (if SleepsOn(at, ts[k], b) then [ts[k]] else []) + Woken(ts[k + 1..], at, b)
    ensures Woken(Drop(ts, k), at, b) == Woken(ts[..k], at, b) + Woken(ts[k + 1..], at, b)
  {
    var rest := [ts[k]] + ts[k + 1..];
    assert ts == ts[..k] + rest && rest[1..] == ts[k + 1..];
    WokenAppend(ts[..k], rest, at, b);
    WokenAppend(ts[..k], ts[k + 1..], at, b);
  }

  /** The first sleeper on a is the head of the waiters on a; removing it removes just that head. */
  lemma {:induction false} FirstIsHead(ts: seq<nat>, at: map<nat, Addr>, a: Addr)
    ensures FirstOn(ts, at, a) == |ts| <==> Woken(ts, at, a) == []
    ensures FirstOn(ts, at, a) < |ts| ==>
              var k := FirstOn(ts, at, a);
              && Woken(ts, at, a) == [ts[k]] + Woken(Drop(ts, k), at, a)
              && forall b | b != a :: Woken(Drop(ts, k), at, b) == Woken(ts, at, b)
  {
    var k := FirstOn(ts, at, a);
    if k < |ts| {
      NoneOn(ts[..k], at, a);
      forall b ensures Woken(ts, at, b) == (if b == a then [ts[k]] else []) + Woken(Drop(ts, k), at, b) {
        WokenSplit(ts, at, b, k);
      }
    } else {
      NoneOn(ts, at, a);
    }
  }

  lemma {:induction false} NoneOn(ts: seq<nat>, at: map<nat, Addr>, a: Addr)
    requires forall j | 0 <= j < |ts| :: !SleepsOn(at, ts[j], a)
    ensures Woken(ts, at, a) == [] && Kept(ts, at, a) == ts
  {
    if ts != [] {
      assert forall j | 0 <= j < |ts[1..]| :: ts[1..][j] == ts[j + 1];
      NoneOn(ts[1..], at, a);
      assert ts == [ts[0]] + ts[1..];
    }
  }

  /** Changing the sleep address of threads that do not sleep does not matter. */
  lemma {:induction false} WokenFrame(ts: seq<nat>, at: map<nat, Addr>, at': map<nat, Addr>, a: Addr)
    requires forall t | t in ts :: SleepsOn(at, t, a) <==> SleepsOn(at', t, a)
    ensures Woken(ts, at', a) == Woken(ts, at, a) && Kept(ts, at', a) == Kept(ts, at, a)
  {
    if ts != [] { WokenFrame(ts[1..], at, at', a); }
  }

  lemma {:induction false} NextOne(ts: seq<nat>, at: map<nat, Addr>, a: Addr, n: nat)
    requires n < |ts|
    ensures Woken(ts[..n + 1], at, a) == Woken(ts[..n], at, a) + (if SleepsOn(at, ts[n], a) then [ts[n]] else [])
    ensures Kept(ts[..n + 1], at, a) == Kept(ts[..n], at, a) + (if SleepsOn(at, ts[n], a) then [] else [ts[n]])
  {
    assert ts[..n + 1] == ts[..n] + [ts[n]];
    WokenAppend(ts[..n], [ts[n]], at, a);
    KeptAppend(ts[..n], [ts[n]], at, a);
  }

  lemma {:induction false} WokenShorter(ts: seq<nat>, at: map<nat, Addr>, a: Addr, n: nat)
    requires n <= |ts|
    ensures |Woken(ts[..n], at, a)| <= |Woken(ts, at, a)|
  {
    assert ts == ts[..n] + ts[n..];
    WokenAppend(ts[..n], ts[n..], at, a);
  }

  /** After n of the sleepers ts were visited: cs is the array, i the scan position, qs the run queue (q at first). */
  ghost predicate Scanned(ts: seq<nat>, q: seq<nat>, at: map<nat, Addr>, a: Addr, n: nat, i: nat, cs: seq<nat>, qs: seq<nat>) {
    && n <= |ts| && i == |Kept(ts[..n], at, a)|
    && cs == Kept(ts[..n], at, a) + ts[n..]
    && qs == q + Woken(ts[..n], at, a)
  }

  lemma ScanStart(ts: seq<nat>, q: seq<nat>, at: map<nat, Addr>, a: Addr)
    ensures Scanned(ts, q, at, a, 0, 0, ts, q)
  {
  }

  /** One round of the scan; a removed sleeper leaves the position where it is. */
  lemma {:induction false} ScanNext(ts: seq<nat>, q: seq<nat>, at: map<nat, Addr>, a: Addr, n: nat, i: nat, cs: seq<nat>, qs: seq<nat>)
    requires Scanned(ts, q, at, a, n, i, cs, qs) && i < |cs|
    ensures n < |ts| && |qs| < |q| + |Woken(ts, at, a)| + (if SleepsOn(at, cs[i], a) then 0 else 1)
    ensures if SleepsOn(at, cs[i], a) then Scanned(ts, q, at, a, n + 1, i, cs[..i] + cs[i + 1..], qs + [cs[i]])
            else Scanned(ts, q, at, a, n + 1, i + 1, cs, qs)
  {
    hide Woken, Kept, SleepsOn;
    NextOne(ts, at, a, n);
    WokenShorter(ts, at, a, n + 1);
    assert ts[n..] == [ts[n]] + ts[n + 1..];
  }

  lemma {:induction false} ScanEnd(ts: seq<nat>, q: seq<nat>, at: map<nat, Addr>, a: Addr, n: nat, i: nat, cs: seq<nat>, qs: seq<nat>)
    requires Scanned(ts, q, at, a, n, i, cs, qs) && i >= |cs|
    ensures cs == Kept(ts, at, a) && qs == q + Woken(ts, at, a)
  {
    hide Woken, Kept;
    assert ts[..n] == ts && ts[n..] == [];
  }

  class ThreadLists {
    const sleepers: Arr<nat>
    const runq: Ring<nat>
    var at: map<nat, Addr>   // t_sleepaddr

    ghost predicate Valid()
      reads this, sleepers, runq
    {
      sleepers.Valid() && runq.Valid() && sleepers.v != runq.data
    }

    constructor (sleepers: Arr<nat>, runq: Ring<nat>)
      requires sleepers.Valid() && runq.Valid() && sleepers.v != runq.data
      ensures Valid() && this.sleepers == sleepers && this.runq == runq && at == map[]
    {
      this.sleepers, this.runq, at := sleepers, runq, map[];
    }

    /** make_runnable: the assertion of its callers, that it cannot fail, needs memory or a free slot. */
    method MakeRunnable(t: nat, memory: bool)
      requires Valid() && (memory || !runq.Full())
      modifies runq, runq.data
      ensures Valid() && runq.Contents() == old(runq.Contents()) + [t]
      ensures runq.data == old(runq.data) || fresh(runq.data)
      ensures runq.data.Length >= old(runq.data.Length)
    {
      var ok := runq.AddTail(t, memory);
      assert ok;
    }

    /** thread_wakeup: move every sleeper on a, in order, to the run queue; removal while scanning skips no one. */
    method Wakeup(a: Addr, memory: bool)
      requires Valid()
      requires memory || |runq.Contents()| + |Woken(sleepers.Contents(), at, a)| < runq.data.Length
      modifies sleepers, sleepers.v, runq, runq.data
      ensures Valid()
      ensures sleepers.Contents() == Kept(old(sleepers.Contents()), at, a)
      ensures runq.Contents() == old(runq.Contents()) + Woken(old(sleepers.Contents()), at, a)
    {
      hide Woken, Items, SleepsOn, Scanned;
      ghost var ts, q, n := sleepers.Contents(), runq.Contents(), 0;
      ScanStart(ts, q, at, a);
      var i := 0;
      while i < sleepers.num
        invariant Valid() && sleepers.v == old(sleepers.v) && (runq.data == old(runq.data) || fresh(runq.data))
        invariant runq.data.Length >= old(runq.data.Length) && n <= |ts|
        invariant Scanned(ts, q, at, a, n, i, sleepers.Contents(), runq.Contents())
        decreases |ts| - n
      {
        ScanNext(ts, q, at, a, n, i, sleepers.Contents(), runq.Contents());
        var t := sleepers.v[i];
        if SleepsOn(at, t, a) {
          sleepers.Remove(i);
          MakeRunnable(t, memory);
        } else {
          i := i + 1;
        }
        n := n + 1;
      }
      ScanEnd(ts, q, at, a, n, i, sleepers.Contents(), runq.Contents());
    }

    /** thread_wakeone: move the first, longest-waiting sleeper on a, if any. */
    method WakeOne(a: Addr, memory: bool)
      requires Valid() && (memory || !runq.Full())
      modifies sleepers, sleepers.v, runq, runq.data
      ensures Valid()
      ensures var ts, k := old(sleepers.Contents()), FirstOn(old(sleepers.Contents()), at, a);
              if k < |ts| then sleepers.Contents() == Drop(ts, k) && runq.Contents() == old(runq.Contents()) + [ts[k]]
              else sleepers.Contents() == ts && runq.Contents() == old(runq.Contents())
    {
      ghost var ts := sleepers.Contents();
      var i := 0;
      while i < sleepers.num
        invariant i <= sleepers.num && Valid() && sleepers.Contents() == ts && runq.Contents() == old(runq.Contents())
        invariant sleepers.v == old(sleepers.v) && runq.data == old(runq.data)
        invariant FirstOn(ts, at, a) == FirstOn(ts, at, a, i) && (memory || !runq.Full())
      {
        var t := sleepers.v[i];
        assert t == ts[i];
        if SleepsOn(at, t, a) {
          sleepers.Remove(i);
          MakeRunnable(t, memory);
          return;
        }
        i := i + 1;
      }
    }
  }
}
