/**
  Numerals in bases 8, 10 and 16, as printf writes them and atoi reads them.
 */
module Numerals {
  import opened Basics

  predicate Base(b: nat) { b == 8 || b == 10 || b == 16 }

  function DigitChar(k: nat): char
    requires k < 16
  {
    "0123456789abcdef"[k]
  }

  predicate IsDigit(c: char) { '0' <= c <= '9' }

  function DigitValue(c: char): nat {
    if '0' <= c <= '9' then c as int - '0' as int else if 'a' <= c <= 'f' then c as int - 'a' as int + 10 else 0
  }

  lemma DigitBack(k: nat)
    requires k < 16
    ensures DigitValue(DigitChar(k)) == k && (k < 10 ==> IsDigit(DigitChar(k)))
  {
  }

  /** n / b and n % b, for the three bases. */
  function Quot(n: nat, b: nat): nat
    requires Base(b)
  {
    if b == 8 then n / 8 else if b == 10 then n / 10 else n / 16
  }

  function Rem(n: nat, b: nat): nat
    requires Base(b)
  {
    if b == 8 then n % 8 else if b == 10 then n % 10 else n % 16
  }

  lemma Division(n: nat, b: nat)
    requires Base(b)
    ensures Quot(n, b) == n / b && Rem(n, b) == n % b
    ensures n == Quot(n, b) * b + Rem(n, b) && Rem(n, b) < b <= 16 && Quot(n, b) <= n / 8
    ensures if n < b then Quot(n, b) == 0 && Rem(n, b) == n else 0 < Quot(n, b) < n
  {
  }

  /** The numeral of n: no leading zeros, and "0" for zero. */
  function Digits(n: nat, b: nat): (r: string)
    requires Base(b)
    ensures |r| >= 1
    decreases n
  {
    Division(n, b);
    if n < b then [DigitChar(n)] else Digits(Quot(n, b), b) + [DigitChar(Rem(n, b))]
  }

  /** The value of a numeral. */
  function Value(s: string, b: nat): nat {
    if s == [] then 0 else Value(s[..|s| - 1], b) * b + DigitValue(s[|s| - 1])
  }

  lemma {:induction false} DigitsValue(n: nat, b: nat)
    requires Base(b)
    ensures Value(Digits(n, b), b) == n
    decreases n
  {
    Division(n, b);
    if n < b {
      DigitBack(n);
      assert Value([DigitChar(n)], b) == Value([], b) * b + DigitValue(DigitChar(n));
    } else {
      DigitBack(Rem(n, b));
      DigitsValue(Quot(n, b), b);
      assert Digits(n, b)[..|Digits(n, b)| - 1] == Digits(Quot(n, b), b);
    }
  }

  lemma {:induction false} DigitsDecimal(n: nat)
    ensures forall c | c in Digits(n, 10) :: IsDigit(c)
    decreases n
  {
    if n < 10 { DigitBack(n); } else { DigitBack(n % 10); DigitsDecimal(n / 10); }
  }

  function Power(b: nat, k: nat): nat { if k == 0 then 1 else b * Power(b, k - 1) }

  /** In base 8, k digits are just enough below 8 to the k; the other bases need no more. */
  lemma {:induction false} DigitsLength(n: nat, b: nat, k: nat)
    requires Base(b) && k >= 1 && n < Power(8, k)
    ensures |Digits(n, b)| <= k
    decreases k
  {
    Division(n, b);
    if n >= b {
      assert k > 1 by { assert Power(8, 0) == 1 && Power(8, 1) == 8; }
      assert n / 8 < Power(8, k - 1);
      DigitsLength(Quot(n, b), b, k - 1);
    }
  }

  lemma {:induction false} DigitsLonger(n: nat, k: nat)
    requires k >= 1 && n >= Power(8, k)
    ensures |Digits(n, 8)| > k
    decreases k
  {
    assert Power(8, k) == 8 * Power(8, k - 1);
    if k > 1 {
      assert n / 8 >= Power(8, k - 1);
      DigitsLonger(n / 8, k - 1);
    }
  }

  /** The buffer of 32 / 3 + 2 bytes: eleven digits and a NUL fit every 32-bit value, and some value needs all eleven. */
  lemma {:induction false} BufferExactlyFits(n: word, b: nat)
    requires Base(b)
    ensures |Digits(n, b)| + 1 <= 32 / 3 + 2 == |Digits(TWO_32 - 1, 8)| + 1
  {
    assert Power(8, 5) == 0x8000 && Power(8, 10) == 0x4000_0000 && Power(8, 11) == 0x2_0000_0000 by { Powers(); }
    DigitsLength(n, b, 11);
    DigitsLength(TWO_32 - 1, 8, 11);
    DigitsLonger(TWO_32 - 1, 10);
  }

  lemma Powers()
    ensures Power(8, 5) == 0x8000 && Power(8, 10) == 0x4000_0000 && Power(8, 11) == 0x2_0000_0000
  {
    assert Power(8, 4) == 0x1000;
    assert Power(8, 6) == 8 * Power(8, 5);
    assert Power(8, 7) == 8 * Power(8, 6);
    assert Power(8, 8) == 8 * Power(8, 7);
    assert Power(8, 9) == 8 * Power(8, 8);
    assert Power(8, 10) == 8 * Power(8, 9);
    assert Power(8, 11) == 8 * Power(8, 10);
  }

  // ------------------------------------------------------------ zeros before and after

  function Copies(c: char, n: nat): (s: string)
    ensures |s| == n
  {
    seq(n, i => c)
  }

  lemma {:induction false} LeadingZeros(n: nat, s: string, b: nat)
    ensures Value(Copies('0', n) + s, b) == Value(s, b)
    decreases n + |s|
  {
    var t := Copies('0', n) + s;
    if s != [] {
      LeadingZeros(n, s[..|s| - 1], b);
      assert t[..|t| - 1] == Copies('0', n) + s[..|s| - 1];
    } else if n > 0 {
      LeadingZeros(n - 1, s, b);
      assert t[..|t| - 1] == Copies('0', n - 1) + s;
    }
  }

  lemma {:induction false} TrailingZeros(s: string, n: nat, b: nat)
    ensures Value(s + Copies('0', n), b) == Value(s, b) * Power(b, n)
  {
    var t := s + Copies('0', n);
    if n == 0 {
      assert t == s;
    } else {
      TrailingZeros(s, n - 1, b);
      assert t[..|t| - 1] == s + Copies('0', n - 1);
      assert t[|t| - 1] == '0';
      Regroup(Value(s, b), Power(b, n - 1), b);
    }
  }

  lemma Regroup(v: nat, p: nat, b: nat)
    ensures v * p * b == v * (b * p)
  {
  }

  // ------------------------------------------------------------ multiplying by 10^k - 1 mod 2^32

  /** An odd factor can be cancelled modulo a power of two. */
  lemma {:induction false} OddCancels(n: int, o: int, k: nat, q: int)
    requires o % 2 == 1 && n * o == q * Pow2(k)
    ensures exists p :: n == p * Pow2(k)
    decreases k
  {
    if k == 0 {
      assert n == n * Pow2(0);
    } else {
      var h := q * Pow2(k - 1);
      assert n * o == 2 * h by { assert q * (2 * Pow2(k - 1)) == 2 * (q * Pow2(k - 1)); }
      EvenFactor(n, o, h);
      var m := n / 2;
      assert m * o == h by { assert 2 * (m * o) == n * o; }
      OddCancels(m, o, k - 1, q);
      var p :| m == p * Pow2(k - 1);
      assert n == p * Pow2(k) by { assert 2 * (p * Pow2(k - 1)) == p * (2 * Pow2(k - 1)); }
    }
  }

  lemma EvenFactor(n: int, o: int, h: int)
    requires o % 2 == 1 && n * o == 2 * h
    ensures n % 2 == 0
  {
    var j := o / 2;
    assert o == 2 * j + 1;
    assert n * (2 * j + 1) == 2 * (n * j) + n;
  }

  lemma {:induction false} PowerOfTenEven(k: nat)
    requires k > 0
    ensures Power(10, k) % 2 == 0
  {
    var p := Power(10, k - 1);
    assert Power(10, k) == 10 * p == 2 * (5 * p);
  }

  /** Shifting a value k > 0 decimal places left gives it back mod 2^32 only for zero. */
  lemma {:induction false} ShiftedIsSame(n: int, k: nat)
    requires k > 0 && (n * Power(10, k) - n) % TWO_32 == 0 && -TWO_32 < n < TWO_32
    ensures n == 0
  {
    var o := Power(10, k) - 1;
    PowerOfTenEven(k);
    WordRange();
    var q := (n * Power(10, k) - n) / TWO_32;
    assert n * o == q * Pow2(32) by { assert n * o == n * Power(10, k) - n; }
    OddCancels(n, o, 32, q);
    var p :| n == p * Pow2(32);
    assert p == 0;
  }
}
