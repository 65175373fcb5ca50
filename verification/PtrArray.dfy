/**
  The resizeable array of kern/lib/array.c.  `max` is the length of the buffer (0 for none);
  `memory` says whether kmalloc succeeds, should it be called.
 */
module PtrArray {

  /** array_preallocate's growth rule. */
  function Grown(max: nat, n: nat): (r: nat)
    ensures r >= max && r >= n && (n <= max ==> r == max)
    decreases if n > max then n - max else 0
  {
    if n <= max then max else Grown((max + 1) * 2, n)
  }

  class Arr<T(0)> {
    var num: nat
    var v: array<T>

    ghost predicate Valid()
      reads this
    {
      num <= v.Length
    }

    ghost function Contents(): (s: seq<T>)
      requires Valid()
      reads this, v
    {
      v[..num]
    }

    constructor ()
      ensures Valid() && Contents() == [] && v.Length == 0 && fresh(v)
    {
      num := 0;
      v := new T[0];
    }

    /** array_preallocate: always moves to a new buffer, large enough for n. */
    method Preallocate(n: nat, memory: bool) returns (ok: bool)
      requires Valid()
      modifies this
      ensures Valid() && ok == memory && Contents() == old(Contents())
      ensures ok ==> fresh(v) && v.Length == Grown(old(v.Length), n)
      ensures !ok ==> v == old(v)
    {
      var newmax := v.Length;
      while n > newmax
        invariant newmax >= v.Length && Grown(v.Length, n) == Grown(newmax, n)
        decreases n - newmax
        modifies {}
      {
        newmax := (newmax + 1) * 2;
      }
      if !memory { return false; }
      var newv := new T[newmax];
      for i := 0 to num
        invariant newv[..i] == v[..i]
        modifies newv
      {
        newv[i] := v[i];
      }
      v := newv;
      ok := true;
    }

    /** array_setsize: shrinking to nothing drops a buffer of more than 16. */
    method SetSize(n: nat, memory: bool) returns (ok: bool)
      requires Valid()
      modifies this
      ensures Valid() && ok == (memory || n <= old(v.Length))
      ensures ok ==> num == n && forall i | 0 <= i < n && i < old(num) :: v[i] == old(v[i])
      ensures ok ==> v.Length == (if n == 0 && old(v.Length) > 16 then 0 else Grown(old(v.Length), n))
      ensures v == old(v) || fresh(v)
      ensures ok && 0 < n <= old(v.Length) ==> v == old(v)
      ensures !ok ==> v == old(v) && num == old(num)
    {
      ghost var s := Contents();
      if n > v.Length {
        ok := Preallocate(n, memory);
        if !ok { return; }
        assert forall i | 0 <= i < num :: v[i] == Contents()[i] == s[i];
      } else if n == 0 && v.Length > 16 {
        v := new T[0];
      }
      num := n;
      ok := true;
    }

    /** array_add: needs memory exactly when the buffer is full. */
    method Add(x: T, memory: bool) returns (ok: bool)
      requires Valid()
      modifies this, v
      ensures Valid() && ok == (memory || old(num) < old(v.Length))
      ensures ok ==> Contents() == old(Contents()) + [x] && v.Length == Grown(old(v.Length), old(num) + 1)
      ensures !ok ==> Contents() == old(Contents())
      ensures v == old(v) || fresh(v)
      ensures old(num) < old(v.Length) ==> v == old(v)
    {
      var ix := num;
      ok := SetSize(ix + 1, memory);
      if !ok { return; }
      v[ix] := x;
    }

    /** array_remove: the later elements move down by one. */
    method Remove(index: nat)
      requires Valid() && index < num
      modifies this, v
      ensures Valid() && v == old(v)
      ensures Contents() == old(Contents())[..index] + old(Contents())[index + 1..]
    {
      ghost var s := v[..];
      for k := index to num - 1
        invariant forall i | 0 <= i < index :: v[i] == s[i]
        invariant forall i | index <= i < k :: v[i] == s[i + 1]
        invariant forall i | k <= i < v.Length :: v[i] == s[i]
        modifies v
      {
        v[k] := v[k + 1];
      }
      num := num - 1;
      ghost var c := s[..num + 1];
      assert v[..num] == c[..index] + c[index + 1..];
    }
  }
}
