/**
  32-bit words and an option type, shared by the other modules.
 */
module Basics {
  const TWO_32: int := 0x1_0000_0000

  type word = w: int | 0 <= w < TWO_32

  /** A 32-bit pattern read as a signed int. */
  function Signed(w: word): int { if w < 0x8000_0000 then w else w - TWO_32 }

  function Pow2(n: nat): (r: nat)
    ensures r > 0
  {
    if n == 0 then 1 else 2 * Pow2(n - 1)
  }

  lemma WordRange()
    ensures Pow2(32) == TWO_32
  {
    assert Pow2(4) == 16 && Pow2(8) == 16 * Pow2(4) && Pow2(12) == 16 * Pow2(8) && Pow2(16) == 16 * Pow2(12);
    assert Pow2(20) == 16 * Pow2(16) && Pow2(24) == 16 * Pow2(20) && Pow2(28) == 16 * Pow2(24);
    assert Pow2(32) == 16 * Pow2(28);
  }

  /** The interrupt level that shuts everything out; 0 lets everything in. */
  const SPL_HIGH: nat := 15

  datatype Option<T> = None | Some(value: T)
}
