/**
  The additive feedback generator of lib/libc/random.c: a table, a front and a rear pointer, and
  the table's word zero that remembers type and position while another table is in use.
 */
module Random {
  import opened Basics

  function Wrap(x: int): word { x % TWO_32 }

  function Plus(x: word, y: word): word { var sum: int := x as int + y as int; Wrap(sum) }

  function Deg(t: nat): nat
    requires t < 5
  {
    if t == 0 then 0 else if t == 1 then 7 else if t == 2 then 15 else if t == 3 then 31 else 63
  }

  function Sep(t: nat): nat
    requires t < 5
  {
    if t == 0 then 0 else if t == 1 || t == 3 then 3 else 1
  }

  /** C's remainder and quotient by MAX_TYPES, which truncate towards zero. */
  function TypeOf(w: word): int { var v := Signed(w); if v >= 0 then v % 5 else -((-v) % 5) }
  function RearOf(w: word): int { var v := Signed(w); if v >= 0 then v / 5 else -((-v) / 5) }

  // ------------------------------------------------------------ what is generated

  /** The generator as a value: the last deg terms, oldest first, or the one value of type 0. */
  datatype Gen = Lcg(x: word) | Feedback(sep: nat, terms: seq<word>)

  ghost predicate GenOk(g: Gen) { g.Feedback? ==> 0 < g.sep < |g.terms| }

  function LcgNext(x: word): word { Wrap(x * 1103515245 + 12345) }

  function Shift(w: seq<word>, sep: nat): (r: seq<word>)
    requires 0 < sep < |w|
    ensures |r| == |w|
  {
    w[1..] + [Plus(w[0], w[|w| - sep])]
  }

  function Advance(w: seq<word>, sep: nat, n: nat): (r: seq<word>)
    requires 0 < sep < |w|
    ensures |r| == |w|
  {
    if n == 0 then w else Shift(Advance(w, sep, n - 1), sep)
  }

  function GenNext(g: Gen): Gen
    requires GenOk(g)
  {
    match g
    case Lcg(x) => Lcg(LcgNext(x) % 0x8000_0000)
    case Feedback(sep, w) => Feedback(sep, Shift(w, sep))
  }

  function GenOut(g: Gen): nat
    requires GenOk(g)
  {
    match g
    case Lcg(x) => LcgNext(x) % 0x8000_0000
    case Feedback(sep, w) => Shift(w, sep)[|w| - 1] / 2
  }

  /** The generator n calls later, and what they return. */
  ghost function GenAfter(g: Gen, n: nat): (r: Gen)
    requires GenOk(g)
    ensures GenOk(r)
  {
    if n == 0 then g else GenNext(GenAfter(g, n - 1))
  }

  ghost function GenOuts(g: Gen, n: nat): (r: seq<nat>)
    requires GenOk(g)
    ensures |r| == n
  {
    if n == 0 then [] else GenOuts(g, n - 1) + [GenOut(GenAfter(g, n - 1))]
  }

  /** The reference: term t is the sum of the terms deg and sep places before, mod 2^32. */
  ghost function Term(w: seq<word>, sep: nat, t: nat): word
    requires 0 < sep < |w|
  {
    if t < |w| then w[t] else (Term(w, sep, t - |w|) as int + Term(w, sep, t - sep) as int) % 0x1_0000_0000
  }

  /** After n calls the table holds terms n to n + deg - 1. */
  lemma {:induction false} AdvanceIsTerms(w: seq<word>, sep: nat, n: nat, j: nat)
    requires 0 < sep < |w| && j < |w|
    ensures Advance(w, sep, n)[j] == Term(w, sep, n + j)
  {
    if n > 0 {
      if j < |w| - 1 {
        AdvanceIsTerms(w, sep, n - 1, j + 1);
      } else {
        AdvanceIsTerms(w, sep, n - 1, 0);
        AdvanceIsTerms(w, sep, n - 1, |w| - sep);
      }
    }
  }

  lemma {:induction false} AfterIsAdvance(w: seq<word>, sep: nat, n: nat)
    requires 0 < sep < |w|
    ensures GenAfter(Feedback(sep, w), n) == Feedback(sep, Advance(w, sep, n))
  {
    if n > 0 { AfterIsAdvance(w, sep, n - 1); }
  }

  /** The outputs are the terms from deg on, halved. */
  lemma {:induction false} OutsAreTerms(w: seq<word>, sep: nat, n: nat, k: nat)
    requires 0 < sep < |w| && k < n
    ensures GenOuts(Feedback(sep, w), n)[k] == Term(w, sep, |w| + k) / 2
  {
    if k < n - 1 {
      OutsAreTerms(w, sep, n - 1, k);
    } else {
      AfterIsAdvance(w, sep, k);
      AdvanceIsTerms(w, sep, k + 1, |w| - 1);
    }
  }

  // ------------------------------------------------------------ tables

  /** The terms in the table, oldest first, when the front pointer is at f. */
  function Terms(tbl: seq<word>, deg: nat, f: nat): (w: seq<word>)
    requires f < deg < |tbl|
    ensures |w| == deg
  {
    tbl[f + 1..deg + 1] + tbl[1..f + 1]
  }

  /** The front pointer, sep places after the rear, cyclically. */
  function Front(r: nat, sep: nat, deg: nat): nat {
    if r + sep < deg then r + sep else r + sep - deg
  }

  lemma FrontIsMod(r: nat, t: nat)
    requires 0 < t < 5 && r < Deg(t)
    ensures Front(r, Sep(t), Deg(t)) == (r + Sep(t)) % Deg(t) < Deg(t)
  {
  }

  lemma RearInTable(w: word)
    ensures TypeOf(w) > 0 ==> RearOf(w) >= 0
  {
  }

  lemma NoTable()
    ensures Deg(0) == 0
  {
  }

  /** Ten times the length of the table is a whole number of turns. */
  lemma WholeTurns(turns: nat, deg: nat, rear: nat)
    requires 10 * deg == turns * deg + rear && rear < deg
    ensures rear == 0
  {
    assert (10 - turns) * deg == rear;
    OnceOrMore(10 - turns, deg);
  }

  lemma OnceOrMore(q: int, d: nat)
    ensures q > 0 ==> q * d >= d
  {
  }

  /** A table that setstate can take up: word zero names no type, or a type whose table fits and a position in it. */
  predicate Restorable(tbl: seq<word>) {
    |tbl| >= 2 && var t := TypeOf(tbl[0]);
    0 < t < 5 ==> |tbl| > Deg(t) && RearOf(tbl[0]) < Deg(t)
  }

  /** The generator a put-away table describes. */
  function Saved(tbl: seq<word>): (g: Gen)
    requires Restorable(tbl) && 0 <= TypeOf(tbl[0]) < 5
    ensures GenOk(g)
  {
    var t := TypeOf(tbl[0]);
    if t == 0 then Lcg(tbl[1])
    else Feedback(Sep(t), Terms(tbl, Deg(t), Front(RearOf(tbl[0]), Sep(t), Deg(t))))
  }

  /** Word zero of a table that is put away. */
  function Mark(t: nat, r: nat): word
    requires t < 5 && r < 63
  {
    if t == 0 then 0 else 5 * r + t
  }

  lemma MarkReads(t: nat, r: nat)
    requires t < 5 && r < 63
    ensures TypeOf(Mark(t, r)) == t && (t > 0 ==> RearOf(Mark(t, r)) == r)
  {
  }

  /** srandom's first filling of the table. */
  function Filled(x: word, n: nat): (s: seq<word>)
    ensures |s| == n
  {
    if n == 0 then [] else if n == 1 then [x] else var s := Filled(x, n - 1); s + [LcgNext(s[n - 2])]
  }

  /** The generator that seed x starts: the filling, read from sep on, after 10 * deg calls. */
  function Seeded(t: nat, x: word): Gen
    requires t < 5
  {
    if t == 0 then Lcg(x)
    else Feedback(Sep(t), Advance(Terms([0] + Filled(x, Deg(t)), Deg(t), Sep(t)), Sep(t), 10 * Deg(t)))
  }

  /** initstate's choice by the number of bytes, at least 8. */
  function TypeFor(n: nat): (t: nat)
    ensures t < 5 && (n >= 8 ==> 4 * (Deg(t) + 1) <= n) && (t < 4 ==> n < 4 * (Deg(t + 1) + 1))
  {
    if n < 32 then 0 else if n < 64 then 1 else if n < 128 then 2 else if n < 256 then 3 else 4
  }

  // ------------------------------------------------------------ the statics and the functions on them

  class Rng {
    var tbl: array<word>      // state is &tbl[1]
    var typ: nat
    var deg: nat
    var sep: nat
    var front: nat            // fptr - state
    var rear: nat             // rptr - state
    var end: nat              // end_ptr - state

    ghost predicate Shaped()
      reads this
    {
      typ < 5 && deg == Deg(typ) && sep == Sep(typ) && end == deg && tbl.Length >= 2 && tbl.Length > deg
    }

    /** Both pointers are in the table and sep apart. */
    ghost predicate Valid()
      reads this
    {
      && Shaped()
      && (typ > 0 ==> rear < deg && front == Front(rear, sep, deg))
    }

    ghost function Current(): (g: Gen)
      requires Valid()
      reads this, tbl
      ensures GenOk(g)
    {
      if typ == 0 then Lcg(tbl[1]) else Feedback(sep, Terms(tbl[..], deg, front))
    }

    constructor ()
      ensures Valid() && typ == 3 && rear == 0 && front == 3 && tbl[0] == 3
    {
      tbl := new word[] [
        3,
        0x9a319039, 0x32d9c024, 0x9b663182, 0x5da1f342, 0xde3b81e0, 0xdf0a6fb5, 0xf103bc02, 0x48f340fb, 0x7449e56b,
        0xbeb1dbb0, 0xab5c5918, 0x946554fd, 0x8c2e680f, 0xeb3d799f, 0xb11ee0b7, 0x2d436b86, 0xda672e2a, 0x1588ca88,
        0xe369735d, 0x904f35f7, 0xd7158fd6, 0x6fa6f051, 0x616e6b96, 0xac94efdc, 0x36413f93, 0xc622c298, 0xf5a42ab8,
        0x8a88d77b, 0xf5ad9d0e, 0x8999220b, 0x27fb47b9];
      typ, deg, sep, front, rear, end := 3, 31, 3, 3, 0, 31;
    }

    /** random: the next output, and the generator one term further; the rear pointer moves one place on, cyclically. */
    method Next() returns (i: nat)
      requires Valid()
      modifies this`front, this`rear, tbl
      ensures Valid() && Current() == GenNext(old(Current())) && i == GenOut(old(Current())) && i < 0x8000_0000
      ensures typ > 0 ==> rear == if old(rear) + 1 == deg then 0 else old(rear) + 1
      ensures tbl[0] == old(tbl[0])
    {
      hide Terms, Shift, Wrap;
      ghost var was := tbl[..];
      if typ == 0 {
        tbl[1] := LcgNext(tbl[1]) % 0x8000_0000;
        return tbl[1];
      }
      assert 0 < sep < deg;
      tbl[front + 1] := Plus(tbl[front + 1], tbl[rear + 1]);
      i := (tbl[front + 1] / 2) % 0x8000_0000;
      ShiftTable(was, deg, sep, front, rear);
      front := front + 1;
      if front >= end {
        front := 0;
        rear := rear + 1;
      } else {
        rear := rear + 1;
        if rear >= end {
          rear := 0;
        }
      }
    }

    /** srandom: the pointers are back at the start. */
    method Seed(x: word)
      requires Shaped()
      modifies this`front, this`rear, tbl
      ensures Valid() && Current() == Seeded(typ, x) && tbl[0] == old(tbl[0])
      ensures typ > 0 ==> rear == 0 && front == sep
    {
      hide Terms, Filled, Wrap, Shift;
      tbl[1] := x;
      if typ == 0 {
        return;
      }
      Fill(x);
      front, rear := sep, 0;
      ghost var w := Terms([0] + Filled(x, deg), deg, sep);
      SameTerms([0] + Filled(x, deg), tbl[..deg + 1], deg, sep);
      PrefixTerms(tbl[..], deg, sep);
      var n := 0;
      ghost var turns := 0;
      while n < 10 * deg
        invariant Valid() && n <= 10 * deg && n == turns * deg + rear
        invariant Current() == Feedback(sep, Advance(w, sep, n)) && tbl[0] == old(tbl[0])
      {
        var _ := Next();
        n := n + 1;
        turns := if rear == 0 then turns + 1 else turns;
      }
      WholeTurns(turns, deg, rear);
    }

    method Fill(x: word)
      requires Shaped() && typ > 0 && tbl[1] == x
      modifies tbl
      ensures tbl[0] == old(tbl[0]) && tbl[1..deg + 1] == Filled(x, deg)
    {
      var n := 1;
      while n < deg
        invariant 1 <= n <= deg && tbl[0] == old(tbl[0]) && tbl[1..n + 1] == Filled(x, n)
      {
        tbl[n + 1] := LcgNext(tbl[n]);
        n := n + 1;
        assert tbl[1..n + 1] == tbl[1..n] + [tbl[n]];
      }
    }

    /** The common start of initstate and setstate: write type and position into the table in use. */
    method PutAway()
      requires Valid()
      modifies tbl
      ensures Valid() && tbl[0] == Mark(typ, if typ == 0 then 0 else rear) && tbl[1..] == old(tbl[1..])
      ensures Restorable(tbl[..]) && TypeOf(tbl[0]) == typ && Saved(tbl[..]) == Current() == old(Current())
    {
      ghost var was := tbl[..];
      tbl[0] := if typ == 0 then 0 else 5 * rear + typ;
      MarkReads(typ, if typ == 0 then 0 else rear);
      assert tbl[1..] == was[1..];
      if typ > 0 { SameTerms(was, tbl[..], deg, front); }
    }

    /** setstate.  Null is returned when word zero names no type. */
    method SetState(a: array<word>) returns (was: array?<word>)
      requires Valid() && Restorable(a[..])
      modifies this, tbl
      ensures Valid()
      ensures if 0 <= TypeOf(old(a[0])) < 5
              then was == old(tbl) && tbl == a && Current() == Saved(old(a[..]))
                   && (typ > 0 ==> rear == RearOf(old(a[0])))
              else was == null && tbl == old(tbl) && Current() == old(Current()) && rear == old(rear)
      ensures var t := old(tbl); Restorable(t[..]) && 0 <= TypeOf(t[0]) < 5 && Saved(t[..]) == old(Current())
      ensures a != old(tbl) ==> a[..] == old(a[..])
      ensures var t := old(tbl); t[0] == Mark(old(typ), if old(typ) == 0 then 0 else old(rear)) && t[1..] == old(tbl[1..])
    {
      hide Terms, Deg, Sep, Front, TypeOf, RearOf, Mark, Saved, Signed;
      ghost var before := a[..];
      RearInTable(a[0]);
      NoTable();
      Fits(before);
      var t, r := TypeOf(a[0]), RearOf(a[0]);
      var put := tbl;
      PutAway();
      if !(0 <= t < 5) {
        return null;
      }
      typ, deg, sep := t, Deg(t), Sep(t);
      tbl := a;
      if typ > 0 {
        FrontIsMod(r, typ);
        rear, front := r, (r + sep) % deg;
      }
      end := deg;
      SavedIs(before, a[..]);
      return put;
    }

    /** initstate with n bytes.  Null is returned, and only the put-away done, for fewer than 8. */
    method InitState(seed: word, a: array<word>, n: nat) returns (was: array?<word>)
      requires Valid() && n <= 4 * a.Length
      modifies this, tbl, a
      ensures Valid()
      ensures if n < 8 then was == null && tbl == old(tbl) && Current() == old(Current())
              else was == old(tbl) && tbl == a && typ == TypeFor(n) && Current() == Seeded(typ, seed)
                   && Restorable(a[..]) && a[0] == typ == TypeOf(a[0]) && Saved(a[..]) == Current() && (typ > 0 ==> rear == 0)
      ensures var t := old(tbl); a != t ==> Restorable(t[..]) && 0 <= TypeOf(t[0]) < 5 && Saved(t[..]) == old(Current())
    {
      var put := tbl;
      PutAway();
      if n < 8 {
        return null;
      }
      typ := TypeFor(n);
      deg, sep := Deg(typ), Sep(typ);
      tbl := a;
      end := deg;
      Seed(seed);
      PutAway();
      return put;
    }

    /** Any n calls return what n terms of the generator give, and leave it n terms further. */
    method Draw(n: nat) returns (outs: seq<nat>)
      requires Valid()
      modifies this`front, this`rear, tbl
      ensures Valid() && outs == GenOuts(old(Current()), n) && Current() == GenAfter(old(Current()), n)
      ensures tbl[0] == old(tbl[0])
    {
      hide Terms, GenNext, GenOut;
      ghost var g := Current();
      outs := [];
      while |outs| < n
        invariant Valid() && |outs| <= n && tbl[0] == old(tbl[0])
        invariant outs == GenOuts(g, |outs|) && Current() == GenAfter(g, |outs|)
      {
        var i := Next();
        outs := outs + [i];
      }
    }

    /** Main result: any n calls return terms deg, deg + 1, ... of the recurrence over the present table, halved. */
    method Outputs(n: nat) returns (outs: seq<nat>)
      requires Valid() && typ > 0
      modifies this`front, this`rear, tbl
      ensures Valid() && |outs| == n
      ensures var w := old(Current()).terms; forall k: nat | k < n :: outs[k] == Term(w, sep, deg + k) / 2
    {
      hide Terms, Term, GenOuts, GenAfter;
      ghost var w := Current().terms;
      outs := Draw(n);
      forall k: nat | k < n ensures outs[k] == Term(w, sep, deg + k) / 2 { OutsAreTerms(w, sep, n, k); }
    }

    /**
      Main result: use table b for n calls and go back.  The n calls are those of the generator that b
      describes, b then describes it n terms further, and the next calls go on with the generator
      that was left.  If b's word zero names no type, nothing is drawn.
     */
    method AwayAndBack(b: array<word>, n: nat, more: nat) returns (outs: seq<nat>, next: seq<nat>)
      requires Valid() && Restorable(b[..]) && b != tbl
      modifies this, tbl, b
      ensures Valid() && tbl == old(tbl)
      ensures next == GenOuts(old(Current()), more) && Current() == GenAfter(old(Current()), more)
      ensures if 0 <= TypeOf(old(b[0])) < 5
              then outs == GenOuts(Saved(old(b[..])), n)
                   && Restorable(b[..]) && 0 <= TypeOf(b[0]) < 5 && Saved(b[..]) == GenAfter(Saved(old(b[..])), n)
              else outs == []
    {
      hide Terms, Wrap, Shift, Deg, Sep, GenOuts, GenAfter;
      ghost var g := Current();
      var mine := tbl;
      var was := SetState(b);
      outs := [];
      if was != null {
        outs := Draw(n);
        var _ := SetState(was);
      }
      ghost var described := b[..];
      next := Draw(more);
      assert b[..] == described;
    }

    /**
      setstate with the table in use takes the position from its word zero, which is written only
      when a table is put away.  Exact condition: the generator's state is what it was before the call
      iff the table repeats with the distance of the two positions; for the degrees 7 and 31, iff
      the positions are the same or all words are equal.
     */
    method SetSame() returns (was: array?<word>)
      requires Valid() && Restorable(tbl[..]) && TypeOf(tbl[0]) == typ
      modifies this, tbl
      ensures Valid() && typ == old(typ) && tbl == old(tbl) && Current() == Saved(old(tbl[..]))
      ensures typ == 0 ==> Current() == old(Current())
      ensures typ > 0 ==> 0 <= RearOf(old(tbl[0])) < deg
                          && (Current() == old(Current()) <==> Repeats(old(tbl[..]), deg, Gap(old(rear), RearOf(old(tbl[0])), deg)))
      ensures typ == 1 || typ == 3 ==>
                (Current() == old(Current()) <==> RearOf(old(tbl[0])) == old(rear) || AllEqual(old(tbl[..]), deg))
    {
      hide Terms, Repeats, AllEqual;
      ghost var t, r := tbl[..], rear;
      RearInTable(tbl[0]);
      was := SetState(tbl);
      if typ > 0 { SameTermsIff(t, typ, r, RearOf(t[0])); }
    }
  }

  // ------------------------------------------------------------ tables that repeat

  function Round(i: nat, deg: nat): nat { if i < deg then i else i - deg }

  /** How far q lies after r, round the table. */
  function Gap(r: nat, q: nat, deg: nat): nat
    requires r < deg
  {
    if q >= r then q - r else q + deg - r
  }

  predicate SameAt(tbl: seq<word>, deg: nat, d: nat, i: nat)
    requires i < deg < |tbl| && d < deg
  {
    tbl[1 + Round(i + d, deg)] == tbl[1 + i]
  }

  /** Every word equals the one d places further round. */
  ghost predicate Repeats(tbl: seq<word>, deg: nat, d: nat)
    requires deg < |tbl| && d < deg
  {
    forall i: nat | i < deg :: SameAt(tbl, deg, d, i)
  }

  ghost predicate AllEqual(tbl: seq<word>, deg: nat)
    requires deg < |tbl|
  {
    forall i | 1 <= i <= deg :: tbl[i] == tbl[1]
  }

  lemma TermsAt(tbl: seq<word>, deg: nat, f: nat, j: nat)
    requires f < deg < |tbl| && j < deg
    ensures Terms(tbl, deg, f)[j] == tbl[1 + Round(f + j, deg)]
  {
  }

  lemma {:induction false} TermsEqualIff(tbl: seq<word>, deg: nat, f: nat, g: nat)
    requires f < deg < |tbl| && g < deg
    ensures Terms(tbl, deg, g) == Terms(tbl, deg, f) <==> Repeats(tbl, deg, Gap(f, g, deg))
  {
    hide Terms;
    var d := Gap(f, g, deg);
    if Terms(tbl, deg, g) == Terms(tbl, deg, f) {
      forall i: nat | i < deg ensures SameAt(tbl, deg, d, i) {
        var j := Gap(f, i, deg);
        TermsAt(tbl, deg, f, j);
        TermsAt(tbl, deg, g, j);
      }
    }
    if Repeats(tbl, deg, d) {
      forall j: nat | j < deg ensures Terms(tbl, deg, g)[j] == Terms(tbl, deg, f)[j] {
        TermsAt(tbl, deg, f, j);
        TermsAt(tbl, deg, g, j);
        assert SameAt(tbl, deg, d, Round(f + j, deg));
      }
    }
  }

  lemma {:induction false} SameTermsIff(tbl: seq<word>, t: nat, r: nat, q: nat)
    requires 0 < t < 5 && Deg(t) < |tbl| && r < Deg(t) && q < Deg(t)
    ensures var deg, sep := Deg(t), Sep(t);
            && Front(r, sep, deg) < deg && Front(q, sep, deg) < deg
            && (Terms(tbl, deg, Front(q, sep, deg)) == Terms(tbl, deg, Front(r, sep, deg)) <==> Repeats(tbl, deg, Gap(r, q, deg)))
            && (t == 1 || t == 3 ==> (Repeats(tbl, deg, Gap(r, q, deg)) <==> r == q || AllEqual(tbl, deg)))
  {
    hide Terms, Repeats, AllEqual;
    var deg, sep := Deg(t), Sep(t);
    TermsEqualIff(tbl, deg, Front(r, sep, deg), Front(q, sep, deg));
    assert Gap(Front(r, sep, deg), Front(q, sep, deg), deg) == Gap(r, q, deg);
    if t == 1 || t == 3 { PrimeRepeats(tbl, t, Gap(r, q, deg)); }
  }

  lemma {:induction false} RepeatsBack(tbl: seq<word>, deg: nat, d: nat)
    requires 0 < d < deg < |tbl| && Repeats(tbl, deg, d)
    ensures Repeats(tbl, deg, deg - d)
  {
    var e := deg - d;
    forall i: nat | i < deg ensures SameAt(tbl, deg, e, i) {
      assert SameAt(tbl, deg, d, Round(i + deg - d, deg));
    }
  }

  lemma {:induction false} RepeatsLess(tbl: seq<word>, deg: nat, a: nat, b: nat)
    requires 0 < a < b < deg < |tbl| && Repeats(tbl, deg, a) && Repeats(tbl, deg, b)
    ensures Repeats(tbl, deg, b - a)
  {
    var e := b - a;
    forall i: nat | i < deg ensures SameAt(tbl, deg, e, i) {
      assert SameAt(tbl, deg, b, i) && SameAt(tbl, deg, a, Round(i + b - a, deg));
    }
  }

  /** A table that repeats with two distances repeats with a common divisor of theirs. */
  lemma {:induction false} RepeatsDivisor(tbl: seq<word>, deg: nat, a: nat, b: nat) returns (g: nat, x: nat, y: nat)
    requires 0 < a < deg < |tbl| && 0 < b < deg && Repeats(tbl, deg, a) && Repeats(tbl, deg, b)
    ensures 0 < g < deg && Repeats(tbl, deg, g) && g * x == a && g * y == b
    decreases a + b
  {
    hide Repeats;
    if a == b {
      g, x, y := a, 1, 1;
    } else if a < b {
      RepeatsLess(tbl, deg, a, b);
      g, x, y := RepeatsDivisor(tbl, deg, a, b - a);
      assert g * (x + y) == g * x + g * y;
      y := x + y;
    } else {
      RepeatsLess(tbl, deg, b, a);
      g, x, y := RepeatsDivisor(tbl, deg, a - b, b);
      assert g * (x + y) == g * x + g * y;
      x := x + y;
    }
  }

  /** 7 and 31 are prime. */
  lemma PrimeDegree(t: nat, g: nat, k: nat)
    requires (t == 1 || t == 3) && 0 < g < Deg(t) && g * k == Deg(t)
    ensures g == 1
  {
    BigProduct(g, k);
    if g == 2 {} else if g == 3 {} else if g == 4 {} else if g == 5 {} else if g == 6 {} else if g == 7 {} else if g == 8 {}
    else if g == 9 {} else if g == 10 {} else if g == 11 {} else if g == 12 {} else if g == 13 {} else if g == 14 {} else if g == 15 {}
  }

  lemma BigProduct(g: nat, k: nat)
    ensures g >= 16 && k >= 2 ==> g * k >= 32
  {
    if g >= 16 && k >= 2 { assert g * k >= 16 * k; }
  }

  lemma {:induction false} RepeatsOne(tbl: seq<word>, deg: nat, i: nat)
    requires 1 < deg < |tbl| && Repeats(tbl, deg, 1) && 1 <= i <= deg
    ensures tbl[i] == tbl[1]
    decreases i
  {
    if i > 1 {
      RepeatsOne(tbl, deg, i - 1);
      assert SameAt(tbl, deg, 1, i - 2);
    }
  }

  /** With a prime degree a table that repeats with any distance but 0 is constant. */
  lemma {:induction false} PrimeRepeats(tbl: seq<word>, t: nat, d: nat)
    requires (t == 1 || t == 3) && Deg(t) < |tbl| && d < Deg(t)
    ensures Repeats(tbl, Deg(t), d) <==> d == 0 || AllEqual(tbl, Deg(t))
  {
    var deg := Deg(t);
    if d == 0 || AllEqual(tbl, deg) {
      forall i: nat | i < deg ensures SameAt(tbl, deg, d, i) {
        assert d > 0 ==> tbl[1 + Round(i + d, deg)] == tbl[1] && tbl[1 + i] == tbl[1];
      }
    } else if Repeats(tbl, deg, d) {
      RepeatsBack(tbl, deg, d);
      var g, x, y := RepeatsDivisor(tbl, deg, d, deg - d);
      assert g * (x + y) == deg;
      PrimeDegree(t, g, x + y);
      forall i | 1 <= i <= deg ensures tbl[i] == tbl[1] { RepeatsOne(tbl, deg, i); }
    }
  }

  /** A table of type 1 at position 0. */
  const EXAMPLE: seq<word> := [1, 2, 0, 0, 0, 0, 0, 0]

  /** Concretely: one call, setstate with the same table, one call; the second value is not the one that was next. */
  method StalePosition(g: Rng) returns (a: array<word>, x: nat, y: nat)
    requires g.Valid()
    modifies g, g.tbl
    ensures g.Valid() && g.tbl == a && a[..] == [6, 2, 0, 0, 4, 0, 0, 0] && g.rear == 1
    ensures Restorable(EXAMPLE) && [x, y] == [1, 2] && GenOuts(Saved(EXAMPLE), 2) == [1, 0]
  {
    hide GenNext, GenOut, Saved, GenOuts, Terms;
    a := new word[] [1, 2, 0, 0, 0, 0, 0, 0];
    assert a[..] == EXAMPLE;
    ExampleOuts();
    ExampleShifts();
    ExampleTables();
    var _ := g.SetState(a);
    x := g.Next();
    FromTerms(a[..], [1, 2, 0, 0, 2, 0, 0, 0], g.front);
    var _ := g.SetState(a);
    y := g.Next();
    FromTerms(a[..], [6, 2, 0, 0, 4, 0, 0, 0], g.front);
  }

  /** Type 1 tables with the same terms are the same but for word zero. */
  lemma FromTerms(t: seq<word>, u: seq<word>, f: nat)
    requires |t| == |u| == 8 && f < 7
    ensures Terms(t, 7, f) == Terms(u, 7, f) && t[0] == u[0] ==> t == u
  {
    if Terms(t, 7, f) == Terms(u, 7, f) && t[0] == u[0] {
      forall i | 1 <= i < 8 ensures t[i] == u[i] {
        TermsAt(t, 7, f, Gap(f, i - 1, 7));
        TermsAt(u, 7, f, Gap(f, i - 1, 7));
      }
    }
  }

  lemma ExampleOuts()
    ensures Restorable(EXAMPLE) && Saved(EXAMPLE) == Feedback(3, [0, 0, 0, 0, 2, 0, 0])
    ensures GenOuts(Saved(EXAMPLE), 2) == [1, 0]
  {
    hide Saved, GenOuts, GenOut, GenNext;
    ExampleSaved();
    ExampleShifts();
    TwoOuts(Saved(EXAMPLE));
  }

  lemma ExampleSaved()
    ensures Restorable(EXAMPLE) && Saved(EXAMPLE) == Feedback(3, [0, 0, 0, 0, 2, 0, 0])
  {
    assert EXAMPLE[4..8] == [0, 0, 0, 0] && EXAMPLE[1..4] == [2, 0, 0];
  }

  lemma TwoOuts(g: Gen)
    requires GenOk(g)
    ensures GenOuts(g, 2) == [GenOut(g), GenOut(GenNext(g))]
  {
    hide GenOut, GenNext;
    assert GenOuts(g, 0) == [] && GenAfter(g, 0) == g;
    assert GenOuts(g, 1) == [GenOut(g)] && GenAfter(g, 1) == GenNext(g);
  }

  /** The two calls of StalePosition, and the tables they work on. */
  lemma ExampleShifts()
    ensures var g := Feedback(3, [0, 0, 0, 0, 2, 0, 0]); GenOut(g) == 1 && GenNext(g) == Feedback(3, [0, 0, 0, 2, 0, 0, 2])
    ensures GenOut(Feedback(3, [0, 0, 0, 2, 0, 0, 2])) == 0
    ensures var g := Feedback(3, [2, 0, 0, 0, 2, 0, 0]); GenOut(g) == 2 && GenNext(g) == Feedback(3, [0, 0, 0, 2, 0, 0, 4])
  {
    var w: seq<word>, x: seq<word> := [0, 0, 0, 0, 2, 0, 0], [2, 0, 0, 0, 2, 0, 0];
    assert w[1..] == [0, 0, 0, 2, 0, 0] && x[1..] == [0, 0, 0, 2, 0, 0];
  }

  lemma ExampleTables()
    ensures Terms([1, 2, 0, 0, 2, 0, 0, 0], 7, 4) == [0, 0, 0, 2, 0, 0, 2]
    ensures var t: seq<word> := [1, 2, 0, 0, 2, 0, 0, 0]; Restorable(t) && Saved(t) == Feedback(3, [2, 0, 0, 0, 2, 0, 0])
    ensures Terms([6, 2, 0, 0, 4, 0, 0, 0], 7, 4) == [0, 0, 0, 2, 0, 0, 4]
  {
    var t: seq<word>, u: seq<word> := [1, 2, 0, 0, 2, 0, 0, 0], [6, 2, 0, 0, 4, 0, 0, 0];
    assert t[5..8] == [0, 0, 0] && t[1..5] == [2, 0, 0, 2] && t[4..8] == [2, 0, 0, 0] && t[1..4] == [2, 0, 0];
    assert u[5..8] == [0, 0, 0] && u[1..5] == [2, 0, 0, 4];
  }

  lemma Fits(t: seq<word>)
    requires Restorable(t)
    ensures |t| >= 2 && (0 < TypeOf(t[0]) < 5 ==> |t| > Deg(TypeOf(t[0])) && RearOf(t[0]) < Deg(TypeOf(t[0])))
  {
  }

  /** What a table describes does not hang on a later word zero. */
  lemma SavedIs(t: seq<word>, u: seq<word>)
    requires Restorable(t) && |u| == |t| && u[1..] == t[1..]
    ensures 0 <= TypeOf(t[0]) < 5 ==>
              var y := TypeOf(t[0]);
              Saved(t) == if y == 0 then Lcg(u[1])
                          else Feedback(Sep(y), Terms(u, Deg(y), Front(RearOf(t[0]), Sep(y), Deg(y))))
  {
    hide Terms;
    assert t[1] == t[1..][0] && u[1] == u[1..][0];
    var y := TypeOf(t[0]);
    RearInTable(t[0]);
    if 0 < y < 5 {
      FrontIsMod(RearOf(t[0]), y);
      SameTerms(t, u, Deg(y), Front(RearOf(t[0]), Sep(y), Deg(y)));
    }
  }

  /** One step through the table is one shift of the terms, wherever the pointers are. */
  lemma {:induction false} ShiftTable(t: seq<word>, deg: nat, sep: nat, f: nat, r: nat)
    requires 0 < sep < deg < |t| && r < deg && f == Front(r, sep, deg)
    ensures f < deg
    ensures var t' := t[f + 1 := Plus(t[f + 1], t[r + 1])];
            Terms(t', deg, if f + 1 == deg then 0 else f + 1) == Shift(Terms(t, deg, f), sep)
    ensures Shift(Terms(t, deg, f), sep)[deg - 1] == Plus(t[f + 1], t[r + 1])
  {
    var t' := t[f + 1 := Plus(t[f + 1], t[r + 1])];
    var w := Terms(t, deg, f);
    assert w[0] == t[f + 1] && w[deg - sep] == t[r + 1];
    assert Terms(t', deg, if f + 1 == deg then 0 else f + 1) == w[1..] + [t'[f + 1]];
  }

  lemma PrefixTerms(t: seq<word>, deg: nat, f: nat)
    requires f < deg < |t|
    ensures Terms(t[..deg + 1], deg, f) == Terms(t, deg, f)
  {
  }

  lemma SameTerms(t: seq<word>, u: seq<word>, deg: nat, f: nat)
    requires |t| == |u| && f < deg < |t| && t[1..] == u[1..]
    ensures Terms(t, deg, f) == Terms(u, deg, f)
  {
    assert forall i | 1 <= i < |t| :: t[i] == t[1..][i - 1] && u[i] == u[1..][i - 1];
  }
}
