/**
  What srandom and the calls after it return, in closed form: the filling of the table as a linear
  function of the seed, and the outputs as terms of the recurrence over that filling.
 */
module RandomSeeds {
  import opened Basics
  import opened Numerals
  import opened Random

  // ------------------------------------------------------------ the congruential generator

  /** 1 + a + ... + a^(i-1). */
  function Geometric(a: nat, i: nat): nat { if i == 0 then 0 else Geometric(a, i - 1) + Power(a, i - 1) }

  /** x after i steps of multiplying by 1103515245 and adding 12345, without any cut. */
  function Linear(x: nat, i: nat): nat { x * Power(1103515245, i) + 12345 * Geometric(1103515245, i) }

  lemma {:induction false} GeometricNext(a: nat, i: nat)
    ensures Geometric(a, i + 1) == a * Geometric(a, i) + 1
  {
    if i > 0 {
      GeometricNext(a, i - 1);
      Distributes(a, Geometric(a, i - 1), Power(a, i - 1));
    }
  }

  lemma Distributes(a: nat, x: nat, y: nat)
    ensures a * (x + y) == a * x + a * y
  {
  }

  lemma {:induction false} LinearNext(x: nat, i: nat)
    ensures Linear(x, i + 1) == Linear(x, i) * 1103515245 + 12345
  {
    hide Power, Geometric;
    GeometricNext(1103515245, i);
    PowerNext(1103515245, i);
    Multiplied(x, 1103515245, Power(1103515245, i), Geometric(1103515245, i));
  }

  lemma PowerNext(a: nat, i: nat)
    ensures Power(a, i + 1) == a * Power(a, i)
  {
  }

  lemma Multiplied(x: nat, a: nat, p: nat, g: nat)
    ensures x * (a * p) + 12345 * (a * g + 1) == (x * p + 12345 * g) * a + 12345
  {
    assert x * (a * p) == x * p * a;
    assert 12345 * (a * g) == 12345 * g * a;
  }

  /** Cutting before a step changes nothing that is left after the cut. */
  lemma {:induction false} StepCut(y: nat)
    ensures (y % TWO_32 * 1103515245 + 12345) % TWO_32 == (y * 1103515245 + 12345) % TWO_32
  {
    var q, r := y / TWO_32, y % TWO_32;
    var k := 1103515245 * q;
    assert y * 1103515245 + 12345 == r * 1103515245 + 12345 + TWO_32 * k;
    Multiple32(r * 1103515245 + 12345, k);
  }

  lemma Multiple32(z: nat, k: nat)
    ensures (z + TWO_32 * k) % TWO_32 == z % TWO_32
  {
  }

  lemma {:induction false} StepCut31(y: nat)
    ensures (y % 0x8000_0000 * 1103515245 + 12345) % TWO_32 % 0x8000_0000 == (y * 1103515245 + 12345) % 0x8000_0000
  {
    var q, r := y / 0x8000_0000, y % 0x8000_0000;
    var k := 1103515245 * q;
    var z := r * 1103515245 + 12345;
    assert y * 1103515245 + 12345 == z + 0x8000_0000 * k;
    Multiple31(z, k);
    CutTwice(z);
  }

  lemma Multiple31(z: nat, k: nat)
    ensures (z + 0x8000_0000 * k) % 0x8000_0000 == z % 0x8000_0000
  {
  }

  lemma CutTwice(z: nat)
    ensures z % TWO_32 % 0x8000_0000 == z % 0x8000_0000
  {
  }

  /** Word i of the filling, counting from 0. */
  lemma {:induction false} FilledIs(x: word, n: nat, i: nat)
    requires i < n
    ensures Filled(x, n)[i] == Linear(x, i) % TWO_32
  {
    hide Linear, LcgNext;
    if i < n - 1 {
      FilledIs(x, n - 1, i);
    } else if n == 1 {
      LinearZero(x);
    } else {
      FilledIs(x, n - 1, n - 2);
      LcgLinear(x, n - 2);
    }
  }

  lemma LinearZero(x: nat)
    ensures Linear(x, 0) == x
  {
  }

  lemma {:induction false} LcgLinear(x: nat, i: nat)
    ensures LcgNext(Linear(x, i) % TWO_32) == Linear(x, i + 1) % TWO_32
  {
    hide Linear;
    LinearNext(x, i);
    StepCut(Linear(x, i));
  }

  // ------------------------------------------------------------ type 0

  /** The k-th call after a seed of type 0 returns the k-th value of the congruential generator, cut to 31 bits. */
  lemma {:induction false} LcgAfter(x: word, n: nat)
    requires n > 0
    ensures GenAfter(Lcg(x), n) == Lcg(Linear(x, n) % 0x8000_0000)
  {
    hide Linear, LcgNext;
    if n == 1 {
      LinearZero(x);
      assert GenAfter(Lcg(x), 0) == Lcg(x);
      LcgFirst(x);
    } else {
      LcgAfter(x, n - 1);
      LcgCut(x, n - 1);
    }
  }

  lemma {:induction false} LcgFirst(x: word)
    ensures LcgNext(x) % 0x8000_0000 == Linear(x, 1) % 0x8000_0000
  {
    hide Linear;
    LinearZero(x);
    LinearNext(x, 0);
    CutTwice(x * 1103515245 + 12345);
  }

  lemma {:induction false} LcgCut(x: nat, i: nat)
    ensures LcgNext(Linear(x, i) % 0x8000_0000) % 0x8000_0000 == Linear(x, i + 1) % 0x8000_0000
  {
    hide Linear;
    LinearNext(x, i);
    StepCut31(Linear(x, i));
  }

  lemma {:induction false} LcgOuts(x: word, n: nat, k: nat)
    requires k < n
    ensures GenOuts(Lcg(x), n)[k] == Linear(x, k + 1) % 0x8000_0000
  {
    hide Linear, GenAfter;
    if k < n - 1 {
      LcgOuts(x, n - 1, k);
    } else {
      LcgAfter(x, n);
      OutIsState(x, k);
    }
  }

  lemma OutIsState(x: word, k: nat)
    ensures GenAfter(Lcg(x), k).Lcg? && GenAfter(Lcg(x), k + 1) == Lcg(GenOut(GenAfter(Lcg(x), k)))
  {
    if k > 0 { OutIsState(x, k - 1); }
  }

  // ------------------------------------------------------------ the other types

  /** The table that srandom fills, in the order in which the recurrence reads it: from the front pointer round to it again. */
  ghost function Filling(x: word, deg: nat, sep: nat): (w: seq<word>)
    requires sep < deg
    ensures |w| == deg
  {
    seq(deg, j requires 0 <= j < deg => Linear(x, (sep + j) % deg) % TWO_32)
  }

  lemma {:induction false} FillingIs(x: word, deg: nat, sep: nat)
    requires sep < deg
    ensures Terms([0] + Filled(x, deg), deg, sep) == Filling(x, deg, sep)
  {
    hide Linear, Filled;
    var t := [0] + Filled(x, deg);
    var w := Terms(t, deg, sep);
    forall j | 0 <= j < deg ensures w[j] == Linear(x, (sep + j) % deg) % TWO_32 {
      var i := if sep + j < deg then sep + j else sep + j - deg;
      Around(sep, j, deg);
      assert w[j] == t[i + 1] == Filled(x, deg)[i];
      FilledIs(x, deg, i);
    }
  }

  lemma Around(sep: nat, j: nat, deg: nat)
    requires sep < deg && j < deg
    ensures (sep + j) % deg == if sep + j < deg then sep + j else sep + j - deg
  {
  }

  /** The recurrence over terms n to n + deg - 1 is the same recurrence, n terms further. */
  lemma {:induction false} TermFurther(w: seq<word>, sep: nat, n: nat, t: nat)
    requires 0 < sep < |w|
    ensures Term(Advance(w, sep, n), sep, t) == Term(w, sep, n + t)
    decreases t
  {
    hide Shift;
    if t < |w| {
      AdvanceIsTerms(w, sep, n, t);
    } else {
      TermFurther(w, sep, n, t - |w|);
      TermFurther(w, sep, n, t - sep);
    }
  }

  /** The k-th output after a seed: the first 11 * deg terms are the filling and what srandom throws away. */
  lemma {:induction false} SeededOuts(t: nat, x: word, n: nat, k: nat)
    requires 0 < t < 5 && k < n
    ensures var (deg, sep) := (Deg(t), Sep(t)); GenOuts(Seeded(t, x), n)[k] == Term(Filling(x, deg, sep), sep, 11 * deg + k) / 2
  {
    hide Terms, Filled, Linear, Term, GenOuts, Filling, Advance;
    var deg, sep := Deg(t), Sep(t);
    var w := Filling(x, deg, sep);
    FillingIs(x, deg, sep);
    OutsAreTerms(Advance(w, sep, 10 * deg), sep, n, k);
    TermFurther(w, sep, 10 * deg, deg + k);
  }

  /**
    Main result: srandom(x) and n calls.  With a table of degree d and distance s the calls return the
    terms from 11 * d on, halved, of the recurrence over the d words that the congruential generator
    makes of x; of type 0, they return that generator's values themselves, cut to 31 bits.
   */
  method SeedThenDraw(g: Rng, x: word, n: nat) returns (outs: seq<nat>)
    requires g.Shaped()
    modifies g`front, g`rear, g.tbl
    ensures g.Valid() && |outs| == n
    ensures (g.typ, g.deg, g.sep) in {(0, 0, 0), (1, 7, 3), (2, 15, 1), (3, 31, 3), (4, 63, 1)}
    ensures g.typ == 0 ==> forall k: nat | k < n :: outs[k] == Linear(x, k + 1) % 0x8000_0000
    ensures g.typ > 0 ==> forall k: nat | k < n :: outs[k] == Term(Filling(x, g.deg, g.sep), g.sep, 11 * g.deg + k) / 2
  {
    hide Linear, Term, GenOuts, Filling, GenAfter, Seeded;
    g.Seed(x);
    outs := g.Draw(n);
    ghost var t := g.typ;
    TypeZero(x);
    forall k: nat | k < n
      ensures t == 0 ==> outs[k] == Linear(x, k + 1) % 0x8000_0000
      ensures t > 0 ==> outs[k] == Term(Filling(x, Deg(t), Sep(t)), Sep(t), 11 * Deg(t) + k) / 2
    {
      if t == 0 { LcgOuts(x, n, k); } else { SeededOuts(t, x, n, k); }
    }
  }

  /** initstate with that many bytes, and n calls: the same, for the largest table that fits; below 8 bytes the old table goes on. */
  method InitThenDraw(g: Rng, x: word, a: array<word>, bytes: nat, n: nat) returns (outs: seq<nat>)
    requires g.Valid() && bytes <= 4 * a.Length
    modifies g, g.tbl, a
    ensures g.Valid() && |outs| == n
    ensures bytes < 8 ==> outs == GenOuts(old(g.Current()), n) && g.tbl == old(g.tbl)
    ensures bytes >= 8 ==> g.tbl == a
    ensures bytes >= 8 ==> (g.deg, g.sep) == if bytes < 32 then (0, 0) else if bytes < 64 then (7, 3) else if bytes < 128 then (15, 1)
                                             else if bytes < 256 then (31, 3) else (63, 1)
    ensures 8 <= bytes < 32 ==> forall k: nat | k < n :: outs[k] == Linear(x, k + 1) % 0x8000_0000
    ensures bytes >= 32 ==> forall k: nat | k < n :: outs[k] == Term(Filling(x, g.deg, g.sep), g.sep, 11 * g.deg + k) / 2
  {
    hide Linear, Term, GenOuts, Filling, GenAfter, Seeded, Saved, Restorable;
    var was := g.InitState(x, a, bytes);
    outs := g.Draw(n);
    ghost var t := g.typ;
    TypeZero(x);
    if bytes >= 8 {
      forall k: nat | k < n
        ensures t == 0 ==> outs[k] == Linear(x, k + 1) % 0x8000_0000
        ensures t > 0 ==> outs[k] == Term(Filling(x, Deg(t), Sep(t)), Sep(t), 11 * Deg(t) + k) / 2
      {
        if t == 0 { LcgOuts(x, n, k); } else { SeededOuts(t, x, n, k); }
      }
    }
  }

  lemma TypeZero(x: word)
    ensures Seeded(0, x) == Lcg(x)
  {
  }
}
