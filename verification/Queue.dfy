/**
  The ring buffer of kern/lib/queue.c.  One slot always stays empty, so a ring of size s holds
  s - 1 items.  `memory` says whether kmalloc succeeds, should it be called.
 */
module Queue {
  import opened Basics

  /** The slot after i. */
  function Next(i: nat, size: nat): (r: nat)
    requires i < size
    ensures r == if i + 1 == size then 0 else i + 1
  {
    assert (i + 1) % size == if i + 1 == size then 0 else i + 1 by { ModNext(i, size); }
    (i + 1) % size
  }

  lemma ModNext(i: nat, size: nat)
    requires i < size
    ensures (i + 1) % size == if i + 1 == size then 0 else i + 1
  {
    if i + 1 < size { assert (i + 1) / size == 0; }
  }

  /** The items between a read and a write position of buffer d, oldest first. */
  function Items<T>(d: seq<T>, r: nat, w: nat): (s: seq<T>)
    requires r < |d| && w < |d|
    ensures |s| < |d| && (s == [] <==> r == w)
    ensures |s| == if r <= w then w - r else w + |d| - r
    ensures forall k | 0 <= k < |s| :: s[k] == d[if r + k < |d| then r + k else r + k - |d|]
  {
    if r <= w then d[r..w] else d[r..] + d[..w]
  }

  lemma ItemsAdd<T>(d: seq<T>, r: nat, w: nat, x: T)
    requires r < |d| && w < |d| && Next(w, |d|) != r
    ensures Items(d[w := x], r, Next(w, |d|)) == Items(d, r, w) + [x]
  {
    hide Next, Items;
  }

  lemma ItemsRemove<T>(d: seq<T>, r: nat, w: nat)
    requires r < |d| && w < |d| && r != w
    ensures Items(d, Next(r, |d|), w) == Items(d, r, w)[1..] && Items(d, r, w)[0] == d[r]
  {
    hide Next, Items;
  }

  /** Full: the slot after the write position is the read position. */
  lemma ItemsFull<T>(d: seq<T>, r: nat, w: nat)
    requires r < |d| && w < |d|
    ensures Next(w, |d|) == r <==> |Items(d, r, w)| == |d| - 1
  {
    hide Next, Items;
  }

  class Ring<T(0)> {
    var data: array<T>
    var nextread: nat
    var nextwrite: nat

    ghost predicate Valid()
      reads this
    {
      data.Length > 0 && nextread < data.Length && nextwrite < data.Length
    }

    /** The items, oldest first. */
    ghost function Contents(): (s: seq<T>)
      requires Valid()
      reads this, data
      ensures |s| < data.Length
    {
      Items(data[..], nextread, nextwrite)
    }

    ghost predicate Full()
      requires Valid()
      reads this, data
    {
      |Contents()| == data.Length - 1
    }

    constructor (size: nat)
      requires size > 0
      ensures Valid() && Contents() == [] && data.Length == size && fresh(data)
    {
      data := new T[size];
      nextread, nextwrite := 0, 0;
    }

    method Empty() returns (r: bool)
      requires Valid()
      ensures r <==> Contents() == []
    {
      r := nextwrite == nextread;
    }

    /** q_grow: double until target fits, then re-add every item to the new buffer; none of those adds grows again. */
    method Grow(target: nat, memory: bool) returns (ok: bool)
      requires Valid() && target > data.Length
      modifies this
      ensures Valid() && ok == memory
      ensures ok ==> fresh(data) && Contents() == old(Contents()) && data.Length == Doubled(old(data.Length), target)
      ensures !ok ==> data == old(data) && nextread == old(nextread) && nextwrite == old(nextwrite)
      decreases 1
    {
      hide Next, Items, Doubled;
      var olddata, onr, onw, osize := data, nextread, nextwrite, data.Length;
      ghost var items := Contents();
      var nsize := NewSize(osize, target);
      if !memory { return false; }
      data := new T[nsize];
      nextread, nextwrite := 0, 0;
      var i := onr;
      ghost var k := 0;
      while i != onw
        invariant Valid() && fresh(data) && data.Length == nsize > osize && olddata != data
        invariant k <= |items| && i == (if onr + k < osize then onr + k else onr + k - osize)
        invariant Contents() == items[..k]
        decreases |items| - k
      {
        var added := AddTail(olddata[i], false);
        assert added;
        i := Next(i, osize);
        k := k + 1;
      }
      ok := true;
    }

    /** q_addtail: append, growing first exactly when size - 1 items are held. */
    method AddTail(x: T, memory: bool) returns (ok: bool)
      requires Valid()
      modifies this, data
      ensures Valid() && ok == (memory || !old(Full()))
      ensures ok ==> Contents() == old(Contents()) + [x]
      ensures !ok ==> Contents() == old(Contents()) && data == old(data)
      ensures !old(Full()) ==> data == old(data)
      ensures old(Full()) && ok ==> fresh(data) && data.Length == 2 * old(data.Length)
      decreases if Full() then 2 else 0
    {
      hide Next, Items, Doubled;
      var nextnext := Next(nextwrite, data.Length);
      ItemsFull(data[..], nextread, nextwrite);
      if nextnext == nextread {
        DoubledOnce(data.Length);
        var result := Grow(data.Length + 1, memory);
        if !result { return false; }
        nextnext := Next(nextwrite, data.Length);
        ItemsFull(data[..], nextread, nextwrite);
      }
      ItemsAdd(data[..], nextread, nextwrite, x);
      data[nextwrite] := x;
      nextwrite := nextnext;
      ok := true;
    }

    /** q_remhead. */
    method RemHead() returns (x: T)
      requires Valid() && Contents() != []
      modifies this
      ensures Valid() && data == old(data)
      ensures x == old(Contents())[0] && Contents() == old(Contents())[1..]
    {
      hide Next, Items;
      ItemsRemove(data[..], nextread, nextwrite);
      x := data[nextread];
      nextread := Next(nextread, data.Length);
    }

    /** q_preallocate: make the ring at least `size` long. */
    method Preallocate(size: nat, memory: bool) returns (ok: bool)
      requires Valid()
      modifies this
      ensures Valid() && Contents() == old(Contents())
      ensures ok == (memory || size <= old(data.Length))
      ensures ok ==> data.Length == (if size > old(data.Length) then Doubled(old(data.Length), size) else old(data.Length))
      ensures ok ==> data.Length >= size
      ensures !ok || size <= old(data.Length) ==> data == old(data)
    {
      ok := true;
      if size > data.Length {
        ok := Grow(size, memory);
      }
    }
  }

  /** The first of n, 2n, 4n, ... that reaches target. */
  function Doubled(n: nat, target: nat): (r: nat)
    requires n > 0
    ensures r >= n && r >= target
    ensures n >= target ==> r == n
    ensures n < target ==> n < r < 2 * target
    decreases if n < target then target - n else 0
  {
    if n >= target then n else Doubled(2 * n, target)
  }

  /** q_grow's doubling loop. */
  method NewSize(size: nat, target: nat) returns (nsize: nat)
    requires size > 0
    ensures nsize == Doubled(size, target)
  {
    nsize := size;
    while nsize < target
      invariant nsize >= size && Doubled(size, target) == Doubled(nsize, target)
      decreases target - nsize
    {
      DoubledStep(nsize, target);
      nsize := nsize * 2;
    }
  }

  lemma DoubledStep(n: nat, target: nat)
    requires 0 < n < target
    ensures Doubled(n, target) == Doubled(2 * n, target)
  {
  }

  lemma DoubledOnce(n: nat)
    requires n > 0
    ensures Doubled(n, n + 1) == 2 * n
  {
    assert Doubled(2 * n, n + 1) == 2 * n;
  }

  /** Doubling multiplies by a power of two ... */
  lemma {:induction false} DoubledPower(size: nat, n: nat) returns (k: nat)
    requires size > 0
    ensures Doubled(size, n) == size * Pow2(k)
    decreases if size < n then n - size else 0
  {
    hide Doubled;
    if size >= n {
      k := 0;
    } else {
      DoubledStep(size, n);
      var j := DoubledPower(2 * size, n);
      TwiceTimes(size, Pow2(j));
      k := j + 1;
    }
  }

  /** ... and stops at n if n is such a multiple. */
  lemma {:induction false} DoubledExact(size: nat, k: nat)
    requires size > 0
    ensures Doubled(size, size * Pow2(k)) == size * Pow2(k)
    decreases k
  {
    if k > 0 {
      var n := size * Pow2(k);
      TwiceTimes(size, Pow2(k - 1));
      DoubledExact(2 * size, k - 1);
      Multiple(2 * size, Pow2(k - 1));
      DoubledStep(size, n);
    }
  }

  /**
    Exact condition: after q_preallocate(n) the ring takes n items without growing iff n is not the
    old size times a power of two, the old size itself among them.
   */
  lemma {:induction false} PreallocatedRoomIff(size: nat, n: nat)
    requires size > 0
    ensures var s := if n > size then Doubled(size, n) else size;
            s - 1 >= n <==> forall k: nat :: n != size * Pow2(k)
  {
    var s := if n > size then Doubled(size, n) else size;
    if s - 1 >= n {
      forall k: nat ensures n != size * Pow2(k) {
        DoubledExact(size, k);
        Multiple(size, Pow2(k));
      }
    } else if n > size {
      var k := DoubledPower(size, n);
      assert n == size * Pow2(k);
    } else {
      assert n == size * Pow2(0);
    }
  }

  lemma TwiceTimes(a: nat, b: nat)
    ensures 2 * a * b == a * (2 * b)
  {
  }

  lemma Multiple(a: nat, b: nat)
    requires b > 0
    ensures a * b >= a
  {
  }
}
