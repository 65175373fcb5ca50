/**
  The words of pagerefs_inuse in kern/lib/kheap.c: 256 bits in eight 32-bit words.
 */
module PagerefBits {
  import opened Basics

  const WORDS := 8
  const BITS := 32
  const FULL: nat := 0xffff_ffff

  /** Bit j of w: (w & (1 << j)) != 0. */
  predicate Bit(w: nat, j: nat)
    decreases j
  {
    if j == 0 then w % 2 == 1 else Bit(w / 2, j - 1)
  }

  /** w with bit j set to b. */
  function PutBit(w: nat, j: nat, b: bool): (r: nat)
    decreases j
  {
    if j == 0 then w / 2 * 2 + (if b then 1 else 0) else 2 * PutBit(w / 2, j - 1, b) + w % 2
  }

  lemma {:induction false} PutBitBits(w: nat, j: nat, b: bool, i: nat)
    ensures Bit(PutBit(w, j, b), i) == if i == j then b else Bit(w, i)
    decreases j
  {
    if j > 0 && i > 0 { PutBitBits(w / 2, j - 1, b, i - 1); }
  }

  lemma {:induction false} PutBitRange(w: nat, j: nat, b: bool, n: nat)
    requires w < Pow2(n) && j < n
    ensures PutBit(w, j, b) < Pow2(n)
    decreases n
  {
    if j > 0 { PutBitRange(w / 2, j - 1, b, n - 1); }
  }

  /** A word that is not all ones has a clear bit. */
  lemma {:induction false} AllBitsFull(w: nat, n: nat)
    requires w < Pow2(n) && forall j | 0 <= j < n :: Bit(w, j)
    ensures w == Pow2(n) - 1
    decreases n
  {
    if n > 0 {
      assert Bit(w, 0);
      forall j | 0 <= j < n - 1 ensures Bit(w / 2, j) { assert Bit(w, j + 1); }
      AllBitsFull(w / 2, n - 1);
    }
  }

  /** Number p is marked in the words. */
  predicate Taken(ws: seq<word>, p: nat)
    requires |ws| == WORDS && p < WORDS * BITS
  {
    Bit(ws[p / BITS], p % BITS)
  }

  lemma {:induction false} PutTaken(ws: seq<word>, p: nat, b: bool, ws': seq<word>)
    requires |ws| == WORDS && p < WORDS * BITS
    requires PutBit(ws[p / BITS], p % BITS, b) < TWO_32
    requires ws' == ws[p / BITS := PutBit(ws[p / BITS], p % BITS, b)]
    ensures forall q | 0 <= q < WORDS * BITS :: Taken(ws', q) == if q == p then b else Taken(ws, q)
  {
    forall q | 0 <= q < WORDS * BITS ensures Taken(ws', q) == if q == p then b else Taken(ws, q) {
      PutBitBits(ws[p / BITS], p % BITS, b, q % BITS);
    }
  }

  lemma PutWord(w: word, j: nat, b: bool)
    requires j < BITS
    ensures PutBit(w, j, b) < TWO_32
  {
    WordRange();
    PutBitRange(w, j, b, 32);
  }

  /** allocpageref: mark and return the lowest unmarked number, or -1. */
  method AllocPageref(inuse: array<word>) returns (r: int)
    requires inuse.Length == WORDS
    modifies inuse
    ensures -1 <= r < WORDS * BITS
    ensures r == -1 ==> inuse[..] == old(inuse[..]) && forall q | 0 <= q < WORDS * BITS :: Taken(inuse[..], q)
    ensures r >= 0 ==> !old(Taken(inuse[..], r)) && forall q | 0 <= q < r :: old(Taken(inuse[..], q))
    ensures r >= 0 ==>
              forall q | 0 <= q < WORDS * BITS :: Taken(inuse[..], q) == (q == r || old(Taken(inuse[..], q)))
  {
    hide Bit, PutBit;
    ghost var ws := inuse[..];
    var i := 0;
    while i < WORDS
      invariant 0 <= i <= WORDS && inuse[..] == ws
      invariant forall q | 0 <= q < i * BITS :: Taken(ws, q)
    {
      if inuse[i] == FULL {
        FullWord(ws, i);
        i := i + 1;
        continue;
      }
      var j := 0;
      while j < BITS
        invariant 0 <= j <= BITS && inuse[..] == ws
        invariant forall b | 0 <= b < j :: Bit(ws[i], b)
      {
        if !Bit(inuse[i], j) {
          r := i * BITS + j;
          LowerTaken(ws, i, j);
          PutWord(inuse[i], j, true);
          inuse[i] := PutBit(inuse[i], j, true);
          PutTaken(ws, r, true, inuse[..]);
          return;
        }
        j := j + 1;
      }
      assert false by {
        WordRange();
        AllBitsFull(ws[i], 32);
      }
    }
    r := -1;
  }

  lemma {:induction false} FullWord(ws: seq<word>, i: nat)
    requires |ws| == WORDS && i < WORDS && ws[i] == FULL && forall q | 0 <= q < i * BITS :: Taken(ws, q)
    ensures forall q | 0 <= q < (i + 1) * BITS :: Taken(ws, q)
  {
    WordRange();
    forall q | i * BITS <= q < (i + 1) * BITS ensures Taken(ws, q) { OnesBit(FULL, q % BITS, 32); }
  }

  lemma {:induction false} OnesBit(w: nat, j: nat, n: nat)
    requires w == Pow2(n) - 1 && j < n
    ensures Bit(w, j)
    decreases n
  {
    assert Pow2(n) == 2 * Pow2(n - 1);
    assert w == 2 * (Pow2(n - 1) - 1) + 1;
    if j > 0 { OnesBit(w / 2, j - 1, n - 1); }
  }

  lemma LowerTaken(ws: seq<word>, i: nat, j: nat)
    requires |ws| == WORDS && i < WORDS && j < BITS && forall q | 0 <= q < i * BITS :: Taken(ws, q)
    requires (forall b | 0 <= b < j :: Bit(ws[i], b)) && !Bit(ws[i], j)
    ensures forall q | 0 <= q < i * BITS + j :: Taken(ws, q)
    ensures !Taken(ws, i * BITS + j) && (i * BITS + j) / BITS == i && (i * BITS + j) % BITS == j
  {
    forall q | i * BITS <= q < i * BITS + j ensures Taken(ws, q) {
      assert q / BITS == i && q % BITS == q - i * BITS;
      assert Bit(ws[i], q - i * BITS);
    }
  }

  /** freepageref: unmark p, which must be marked. */
  method FreePageref(inuse: array<word>, p: nat)
    requires inuse.Length == WORDS && p < WORDS * BITS && Taken(inuse[..], p)
    modifies inuse
    ensures forall q | 0 <= q < WORDS * BITS :: Taken(inuse[..], q) == (q != p && old(Taken(inuse[..], q)))
  {
    hide Bit, PutBit;
    ghost var ws := inuse[..];
    PutWord(inuse[p / BITS], p % BITS, false);
    inuse[p / BITS] := PutBit(inuse[p / BITS], p % BITS, false);
    PutTaken(ws, p, false, inuse[..]);
  }
}
