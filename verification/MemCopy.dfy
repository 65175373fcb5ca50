/**
  memcpy and memmove of lib/libc over one byte-addressed memory, by words and by bytes.
 */
module MemCopy {
  type byte = x: int | 0 <= x < 256

  predicate Fits(m: seq<byte>, a: nat, n: nat) { a + n <= |m| }

  /** What a copy should do: dst holds the old source bytes, all else is as it was. */
  function Moved(m: seq<byte>, d: nat, s: nat, n: nat): (r: seq<byte>)
    requires Fits(m, d, n) && Fits(m, s, n)
    ensures |r| == |m|
  {
    m[..d] + m[s..s + n] + m[d + n..]
  }

  /** Bytes copied one after the other, lowest first. */
  function Forward(m: seq<byte>, d: nat, s: nat, n: nat): (r: seq<byte>)
    requires Fits(m, d, n) && Fits(m, s, n)
    ensures |r| == |m|
  {
    if n == 0 then m else var f := Forward(m, d, s, n - 1); f[d + n - 1 := f[s + n - 1]]
  }

  /** The same from byte n down to byte k, highest first. */
  function Backward(m: seq<byte>, d: nat, s: nat, k: nat, n: nat): (r: seq<byte>)
    requires k <= n && Fits(m, d, n) && Fits(m, s, n)
    ensures |r| == |m|
    decreases n - k
  {
    if k == n then m else var f := Backward(m, d, s, k + 1, n); f[d + k := f[s + k]]
  }

  /** The remainder of x by k. */
  function Period(x: nat, k: nat): (r: nat)
    requires k > 0
    ensures r < k && r <= x
  {
    if x < k then x else Period(x - k, k)
  }

  // ------------------------------------------------------------ what the byte copies do

  /** Forwards onto a higher address repeats the first d - s bytes; otherwise each byte arrives as it was. */
  lemma {:induction false} ForwardAt(m: seq<byte>, d: nat, s: nat, n: nat, a: nat)
    requires Fits(m, d, n) && Fits(m, s, n) && a < |m|
    ensures Forward(m, d, s, n)[a] ==
            if !(d <= a < d + n) then m[a] else if s < d then m[s + Period(a - d, d - s)] else m[s + a - d]
  {
    if n > 0 {
      ForwardAt(m, d, s, n - 1, a);
      ForwardAt(m, d, s, n - 1, s + n - 1);
    }
  }

  lemma {:induction false} BackwardAt(m: seq<byte>, d: nat, s: nat, k: nat, n: nat, a: nat)
    requires s <= d && k <= n && Fits(m, d, n) && Fits(m, s, n) && a < |m|
    ensures Backward(m, d, s, k, n)[a] == if d + k <= a < d + n then m[s + a - d] else m[a]
    decreases n - k
  {
    if k < n {
      BackwardAt(m, d, s, k + 1, n, a);
      BackwardAt(m, d, s, k + 1, n, s + k);
    }
  }

  lemma {:induction false} PeriodSmall(x: nat, k: nat)
    requires x < k
    ensures Period(x, k) == x
  {
  }

  /** memcpy is right for buffers that do not overlap, and for a destination below the source. */
  lemma {:induction false} ForwardMoves(m: seq<byte>, d: nat, s: nat, n: nat)
    requires Fits(m, d, n) && Fits(m, s, n) && (d <= s || s + n <= d)
    ensures Forward(m, d, s, n) == Moved(m, d, s, n)
  {
    forall a | 0 <= a < |m| ensures Forward(m, d, s, n)[a] == Moved(m, d, s, n)[a] {
      ForwardAt(m, d, s, n, a);
      if s < d && d <= a < d + n { PeriodSmall(a - d, d - s); }
    }
  }

  predicate RepeatAt(m: seq<byte>, a: nat, k: nat)
    requires k <= a < |m|
  {
    m[a] == m[a - k]
  }

  /** The n bytes at s repeat with period k. */
  ghost predicate Repeats(m: seq<byte>, s: nat, n: nat, k: nat)
    requires Fits(m, s, n)
  {
    forall a | s + k <= a < s + n :: RepeatAt(m, a, k)
  }

  lemma {:induction false} RepeatsPeriod(m: seq<byte>, s: nat, n: nat, k: nat, i: nat)
    requires Fits(m, s, n) && 0 < k && i < n && Repeats(m, s, n, k)
    ensures m[s + i] == m[s + Period(i, k)]
  {
    if i >= k {
      assert RepeatAt(m, s + i, k);
      RepeatsPeriod(m, s, n, k, i - k);
    }
  }

  lemma MovedAt(m: seq<byte>, d: nat, s: nat, n: nat, a: nat)
    requires Fits(m, d, n) && Fits(m, s, n) && a < |m|
    ensures Moved(m, d, s, n)[a] == if d <= a < d + n then m[s + a - d] else m[a]
  {
  }

  lemma {:induction false} RepeatsMoves(m: seq<byte>, d: nat, s: nat, n: nat)
    requires Fits(m, d, n) && Fits(m, s, n) && s < d < s + n && Repeats(m, s, n, d - s)
    ensures Forward(m, d, s, n) == Moved(m, d, s, n)
  {
    hide Forward, Moved, Period, Repeats;
    forall a | 0 <= a < |m| ensures Forward(m, d, s, n)[a] == Moved(m, d, s, n)[a] {
      ForwardAt(m, d, s, n, a);
      MovedAt(m, d, s, n, a);
      if d <= a < d + n { RepeatsPeriod(m, s, n, d - s, a - d); }
    }
  }

  /** With the destination inside the source it is right iff the source repeats with the distance of the two. */
  lemma {:induction false} OverlapMovesIff(m: seq<byte>, d: nat, s: nat, n: nat)
    requires Fits(m, d, n) && Fits(m, s, n) && s < d < s + n
    ensures Forward(m, d, s, n) == Moved(m, d, s, n) <==> Repeats(m, s, n, d - s)
  {
    hide Forward, Moved;
    if Repeats(m, s, n, d - s) { RepeatsMoves(m, d, s, n); }
    var k := d - s;
    if Forward(m, d, s, n) == Moved(m, d, s, n) {
      forall a | d <= a < s + n ensures RepeatAt(m, a, k) {
        ForwardAt(m, d, s, n, a + d - s);
        ForwardAt(m, d, s, n, a);
        MovedAt(m, d, s, n, a + d - s);
        MovedAt(m, d, s, n, a);
      }
    }
  }

  lemma {:induction false} BackwardMoves(m: seq<byte>, d: nat, s: nat, n: nat)
    requires Fits(m, d, n) && Fits(m, s, n) && s <= d
    ensures Backward(m, d, s, 0, n) == Moved(m, d, s, n)
  {
    forall a | 0 <= a < |m| ensures Backward(m, d, s, 0, n)[a] == Moved(m, d, s, n)[a] {
      BackwardAt(m, d, s, 0, n, a);
    }
  }

  // ------------------------------------------------------------ words

  function PutWord(m: seq<byte>, a: nat, w: seq<byte>): (r: seq<byte>)
    requires |w| == 4 && Fits(m, a, 4)
    ensures |r| == |m|
  {
    m[..a] + w + m[a + 4..]
  }

  lemma FourBytes(m: seq<byte>, a: nat, w: seq<byte>)
    requires |w| == 4 && Fits(m, a, 4)
    ensures PutWord(m, a, w) == m[a := w[0]][a + 1 := w[1]][a + 2 := w[2]][a + 3 := w[3]]
  {
  }

  /** Words that are equal or at least a word apart: copying a word is copying its four bytes, lowest first ... */
  lemma {:induction false} WordForward(m: seq<byte>, d: nat, s: nat, n: nat)
    requires Fits(m, d, n + 4) && Fits(m, s, n + 4) && (d == s || d + 4 <= s || s + 4 <= d)
    ensures var f := Forward(m, d, s, n); Forward(m, d, s, n + 4) == PutWord(f, d + n, f[s + n..s + n + 4])
  {
    hide PutWord;
    var f := Forward(m, d, s, n);
    FourBytes(f, d + n, f[s + n..s + n + 4]);
    assert Forward(m, d, s, n + 1) == f[d + n := f[s + n]];
    assert Forward(m, d, s, n + 2) == f[d + n := f[s + n]][d + n + 1 := f[s + n + 1]];
    assert Forward(m, d, s, n + 3) == f[d + n := f[s + n]][d + n + 1 := f[s + n + 1]][d + n + 2 := f[s + n + 2]];
  }

  /** ... or highest first. */
  lemma {:induction false} WordBackward(m: seq<byte>, d: nat, s: nat, k: nat, n: nat)
    requires k + 4 <= n && Fits(m, d, n) && Fits(m, s, n) && (d == s || s + 4 <= d)
    ensures var f := Backward(m, d, s, k + 4, n); Backward(m, d, s, k, n) == PutWord(f, d + k, f[s + k..s + k + 4])
  {
    var f := Backward(m, d, s, k + 4, n);
    assert Backward(m, d, s, k + 3, n) == f[d + k + 3 := f[s + k + 3]];
    assert Backward(m, d, s, k + 2, n) == f[d + k + 3 := f[s + k + 3]][d + k + 2 := f[s + k + 2]];
    assert Backward(m, d, s, k + 1, n) == f[d + k + 3 := f[s + k + 3]][d + k + 2 := f[s + k + 2]][d + k + 1 := f[s + k + 1]];
  }

  lemma Aligned(d: nat, s: nat)
    requires d % 4 == 0 && s % 4 == 0
    ensures d == s || d + 4 <= s || s + 4 <= d
  {
  }

  // ------------------------------------------------------------ the functions

  /** One long: all four bytes are read before any is written. */
  method CopyWord(mem: array<byte>, d: nat, s: nat)
    requires d + 4 <= mem.Length && s + 4 <= mem.Length
    modifies mem
    ensures mem[..] == PutWord(old(mem[..]), d, old(mem[s..s + 4]))
  {
    hide PutWord;
    ghost var m := mem[..];
    var b0, b1, b2, b3 := mem[s], mem[s + 1], mem[s + 2], mem[s + 3];
    mem[d], mem[d + 1], mem[d + 2], mem[d + 3] := b0, b1, b2, b3;
    FourBytes(m, d, [b0, b1, b2, b3]);
    assert mem[..] == m[d := b0][d + 1 := b1][d + 2 := b2][d + 3 := b3];
    assert m[s..s + 4] == [b0, b1, b2, b3];
  }

  /** memcpy: by words or by bytes, the memory is as if copied forwards byte by byte. */
  method Memcpy(mem: array<byte>, dst: nat, src: nat, len: nat)
    requires dst + len <= mem.Length && src + len <= mem.Length
    modifies mem
    ensures mem[..] == Forward(old(mem[..]), dst, src, len)
    ensures dst <= src || src + len <= dst ==> mem[..] == Moved(old(mem[..]), dst, src, len)
  {
    hide Moved, Forward, PutWord;
    ghost var m := mem[..];
    ForwardNone(m, dst, src);
    if dst % 4 == 0 && src % 4 == 0 && len % 4 == 0 {
      Aligned(dst, src);
      for i := 0 to len / 4
        invariant mem[..] == Forward(m, dst, src, 4 * i)
      {
        CopyWord(mem, dst + 4 * i, src + 4 * i);
        WordForward(m, dst, src, 4 * i);
      }
    } else {
      for i := 0 to len
        invariant mem[..] == Forward(m, dst, src, i)
      {
        mem[dst + i] := mem[src + i];
        ForwardOne(m, dst, src, i);
      }
    }
    if dst <= src || src + len <= dst { ForwardMoves(m, dst, src, len); }
  }

  /** Main result: memmove moves, for every overlap and alignment, and writes nothing else. */
  method Memmove(mem: array<byte>, dst: nat, src: nat, len: nat)
    requires dst + len <= mem.Length && src + len <= mem.Length
    modifies mem
    ensures mem[..] == Moved(old(mem[..]), dst, src, len)
  {
    hide Moved, Backward, PutWord;
    if dst < src {
      Memcpy(mem, dst, src, len);
      return;
    }
    ghost var m := mem[..];
    BackwardNone(m, dst, src, len);
    if dst % 4 == 0 && src % 4 == 0 && len % 4 == 0 {
      Aligned(dst, src);
      for i := len / 4 downto 0
        invariant mem[..] == Backward(m, dst, src, 4 * i, len)
      {
        CopyWord(mem, dst + 4 * i, src + 4 * i);
        WordBackward(m, dst, src, 4 * i, len);
      }
    } else {
      for i := len downto 0
        invariant mem[..] == Backward(m, dst, src, i, len)
      {
        mem[dst + i] := mem[src + i];
        BackwardOne(m, dst, src, i, len);
      }
    }
    BackwardMoves(m, dst, src, len);
  }

  lemma ForwardNone(m: seq<byte>, d: nat, s: nat)
    requires d <= |m| && s <= |m|
    ensures Forward(m, d, s, 0) == m
  {
  }

  lemma ForwardOne(m: seq<byte>, d: nat, s: nat, n: nat)
    requires Fits(m, d, n + 1) && Fits(m, s, n + 1)
    ensures var f := Forward(m, d, s, n); Forward(m, d, s, n + 1) == f[d + n := f[s + n]]
  {
  }

  lemma BackwardNone(m: seq<byte>, d: nat, s: nat, n: nat)
    requires Fits(m, d, n) && Fits(m, s, n)
    ensures Backward(m, d, s, n, n) == m
  {
  }

  lemma BackwardOne(m: seq<byte>, d: nat, s: nat, k: nat, n: nat)
    requires k < n && Fits(m, d, n) && Fits(m, s, n)
    ensures var f := Backward(m, d, s, k + 1, n); Backward(m, d, s, k, n) == f[d + k := f[s + k]]
  {
  }
}
