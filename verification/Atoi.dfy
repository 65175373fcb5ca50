/**
  atoi, and that it inverts %d.
 */
module Atoi {
  import opened Basics
  import opened Numerals
  import opened Formats

  predicate Blank(c: char) { c == ' ' || c == '\t' }

  function Blanks(s: string): (n: nat)
    ensures n <= |s| && (forall i | 0 <= i < n :: Blank(s[i])) && (n < |s| ==> !Blank(s[n]))
  {
    if s != [] && Blank(s[0]) then 1 + Blanks(s[1..]) else 0
  }

  /** The number of digits at the start of s. */
  function Run(s: string): (n: nat)
    ensures n <= |s| && (forall i | 0 <= i < n :: IsDigit(s[i])) && (n < |s| ==> !IsDigit(s[n]))
  {
    if s != [] && IsDigit(s[0]) then 1 + Run(s[1..]) else 0
  }

  predicate HasSign(s: string) { s != [] && (s[0] == '-' || s[0] == '+') }

  function Minus(neg: bool, v: int): int { if neg then -v else v }

  function SignText(neg: bool): string { if neg then "-" else "" }

  /** A mathematical integer cut to 32 bits and read as an int. */
  function Int(v: int): int { Signed(v % TWO_32) }

  /** What atoi means: blanks, a sign, and the number the digits spell, as an int. */
  function Number(s: string): int { Unblanked(s[Blanks(s)..]) }

  function Unblanked(t: string): int {
    var ds := if HasSign(t) then t[1..] else t;
    var v := Value(ds[..Run(ds)], 10);
    Int(Minus(t != [] && t[0] == '-', v))
  }

  method Atoi(s: string) returns (r: int)
    requires '\0' !in s
    ensures r == Number(s)
  {
    var i := 0;
    while i < |s| && Blank(s[i])
      invariant i <= |s| && (forall j | 0 <= j < i :: Blank(s[j]))
    {
      i := i + 1;
    }
    BlanksAre(s, i);
    var neg := false;
    if i < |s| && s[i] == '-' {
      neg := true;
      i := i + 1;
    } else if i < |s| && s[i] == '+' {
      i := i + 1;
    }
    var val: word := Digitwise(s[i..]);
    ghost var t := s[Blanks(s)..];
    assert s[i..] == if HasSign(t) then t[1..] else t;
    ghost var v := Value(s[i..][..Run(s[i..])], 10);
    if neg {
      Negated(v);
      return Signed((TWO_32 - val) % TWO_32);
    }
    return Signed(val);
  }

  /** The digit loop: an unsigned that wraps around. */
  method Digitwise(s: string) returns (val: word)
    ensures val == Value(s[..Run(s)], 10) % TWO_32
  {
    val := 0;
    var i := 0;
    while i < |s|
      invariant i <= Run(s) && val == Value(s[..i], 10) % TWO_32
    {
      if !IsDigit(s[i]) {
        break;
      }
      assert s[..i + 1][..i] == s[..i];
      Wraps(Value(s[..i], 10), DigitValue(s[i]));
      val := (val * 10 + DigitValue(s[i])) % TWO_32;
      i := i + 1;
    }
    assert i == Run(s);
  }

  lemma Wraps(v: nat, d: nat)
    ensures (v % TWO_32 * 10 + d) % TWO_32 == (v * 10 + d) % TWO_32
  {
  }

  lemma Negated(v: int)
    requires v >= 0
    ensures (TWO_32 - v % TWO_32) % TWO_32 == (-v) % TWO_32
  {
  }

  lemma {:induction false} BlanksAre(s: string, n: nat)
    requires n <= |s| && (forall i | 0 <= i < n :: Blank(s[i])) && (n < |s| ==> !Blank(s[n]))
    ensures Blanks(s) == n
  {
  }

  // ------------------------------------------------------------ inverting %d

  lemma {:induction false} BlanksThen(bs: string, t: string)
    requires (forall c | c in bs :: Blank(c)) && (t != [] ==> !Blank(t[0]))
    ensures Blanks(bs + t) == |bs| && (bs + t)[|bs|..] == t
  {
    if bs != [] {
      assert bs[0] in bs && (bs + t)[1..] == bs[1..] + t;
      BlanksThen(bs[1..], t);
    }
  }

  lemma {:induction false} DigitsThen(ds: string, tail: string)
    requires (forall c | c in ds :: IsDigit(c)) && (tail != [] ==> !IsDigit(tail[0]))
    ensures Run(ds + tail) == |ds| && (ds + tail)[..|ds|] == ds
  {
    if ds != [] {
      assert ds[0] in ds && (ds + tail)[1..] == ds[1..] + tail;
      DigitsThen(ds[1..], tail);
    }
  }

  /**
    What atoi makes of any string, read as blanks and tabs, a sign or none, digits and the rest: the
    number the digits spell, with that sign, as an int.
   */
  lemma {:induction false} ReadsAny(bs: string, sign: string, ds: string, tail: string)
    requires (forall c | c in bs :: c == ' ' || c == '\t') && (sign == "" || sign == "-" || sign == "+")
    requires (forall c | c in ds :: '0' <= c <= '9') && (tail != [] ==> !('0' <= tail[0] <= '9'))
    requires sign == "" && ds == "" && tail != [] ==> tail[0] !in " \t+-"
    ensures Number(bs + (sign + (ds + tail))) == Int(Minus(sign == "-", Value(ds, 10)))
  {
    hide Value, Int, Blanks, Run, Number;
    FirstIn(ds);
    var u := ds + tail;
    assert u != [] ==> u[0] == if ds != [] then ds[0] else tail[0];
    DigitsThen(ds, tail);
    SignThen(sign, u);
    var t := sign + u;
    assert t != [] ==> t[0] == if sign != "" then sign[0] else u[0];
    BlanksThen(bs, t);
    NumberThen(bs, t);
  }

  lemma FirstIn(s: string)
    ensures s != [] ==> s[0] in s
  {
  }

  /** Past the blanks. */
  lemma NumberThen(bs: string, t: string)
    requires Blanks(bs + t) == |bs| && (bs + t)[|bs|..] == t
    ensures Number(bs + t) == Unblanked(t)
  {
    hide Unblanked;
  }

  /** Past the sign. */
  lemma SignThen(sign: string, u: string)
    requires sign == "" || sign == "-" || sign == "+"
    requires sign == "" && u != [] ==> u[0] != '-' && u[0] != '+'
    ensures Unblanked(sign + u) == Int(Minus(sign == "-", Value(u[..Run(u)], 10)))
  {
    hide Value, Run, Int;
    var t := sign + u;
    if sign == "" { assert t == u; } else { assert t[1..] == u && t[0] == sign[0]; }
  }

  /** A number between blanks and anything that is no digit is read as that number. */
  lemma {:induction false} Reads(k: nat, neg: bool, ds: string, tail: string)
    requires ds != [] && (forall c | c in ds :: IsDigit(c)) && (tail != [] ==> !IsDigit(tail[0]))
    ensures Number(Copies(' ', k) + SignText(neg) + ds + tail) == Int(Minus(neg, Value(ds, 10)))
  {
    hide Value, Int, Number;
    ReadsAny(Copies(' ', k), SignText(neg), ds, tail);
    assert Copies(' ', k) + SignText(neg) + ds + tail == Copies(' ', k) + (SignText(neg) + (ds + tail));
  }

  lemma {:induction false} ReadsRightZeros(p: Spec, neg: bool, ds: string)
    requires ds != [] && (forall c | c in ds :: IsDigit(c)) && p.right && p.fill == '0'
    ensures var pad := Padding(p, |SignText(neg)| + |ds|);
            Number(Layout(p, SignText(neg), ds)) == Int(Minus(neg, Value(ds, 10)) * Power(10, pad))
  {
    hide Value, Number, Power, Int;
    var pad := Padding(p, |SignText(neg)| + |ds|);
    var zs := ds + Copies('0', pad);
    TrailingZeros(ds, pad, 10);
    Reads(0, neg, zs, "");
    assert Copies(' ', 0) + SignText(neg) + zs + "" == SignText(neg) + ds + Copies('0', pad);
    Distribute(neg, Value(ds, 10), Power(10, pad));
  }

  lemma {:induction false} ReadsRightBlanks(p: Spec, neg: bool, ds: string)
    requires ds != [] && (forall c | c in ds :: IsDigit(c)) && p.right && p.fill == ' '
    ensures Number(Layout(p, SignText(neg), ds)) == Int(Minus(neg, Value(ds, 10)))
  {
    hide Value, Number, Int;
    var pad := Padding(p, |SignText(neg)| + |ds|);
    Reads(0, neg, ds, Copies(' ', pad));
    assert Copies(' ', 0) + SignText(neg) + ds + Copies(' ', pad) == SignText(neg) + ds + Copies(' ', pad);
  }

  lemma {:induction false} ReadsLeft(p: Spec, neg: bool, ds: string)
    requires ds != [] && (forall c | c in ds :: IsDigit(c)) && !p.right && (p.fill == ' ' || p.fill == '0')
    ensures Number(Layout(p, SignText(neg), ds)) == Int(Minus(neg, Value(ds, 10)))
  {
    hide Value, Number, Int;
    var pad := Padding(p, |SignText(neg)| + |ds|);
    if p.fill == '0' {
      var zs := Copies('0', pad) + ds;
      LeadingZeros(pad, ds, 10);
      Reads(0, neg, zs, "");
      assert Copies(' ', 0) + SignText(neg) + zs + "" == SignText(neg) + Copies('0', pad) + ds;
    } else {
      Reads(pad, neg, ds, "");
      assert Copies(' ', pad) + SignText(neg) + ds + "" == Copies(' ', pad) + SignText(neg) + ds;
    }
  }

  lemma Distribute(neg: bool, m: int, q: int)
    ensures Minus(neg, m) * q == Minus(neg, m * q)
  {
  }

  /** The text of %d for w is read as w, unless zeros follow it. */
  lemma {:induction false} ReadsField(p: Spec, w: word)
    requires p.fill == ' ' || p.fill == '0'
    ensures Number(NumberText(p, 'd', w)) ==
            Int(Signed(w) * if p.right && p.fill == '0' then Power(10, Padding(p, |Bare(w)|)) else 1)
  {
    hide Layout, Number, Value, Digits, Signed, Int, Padding, Power;
    var neg := Negative('d', w);
    var ds := Digits(Magnitude('d', w), 10);
    DigitsDecimal(Magnitude('d', w));
    DigitsValue(Magnitude('d', w), 10);
    TextOf(p, w);
    SignedBack(w);
    if !p.right { ReadsLeft(p, neg, ds); } else if p.fill == '0' { ReadsRightZeros(p, neg, ds); } else { ReadsRightBlanks(p, neg, ds); }
  }

  /** The number without padding. */
  function Bare(w: word): string { SignText(Negative('d', w)) + Digits(Magnitude('d', w), 10) }

  lemma TextOf(p: Spec, w: word)
    ensures NumberText(p, 'd', w) == Layout(p, SignText(Negative('d', w)), Digits(Magnitude('d', w), 10))
  {
    hide Layout, Digits;
    assert SignText(Negative('d', w)) + "" == SignText(Negative('d', w));
  }

  lemma SignedBack(w: word)
    ensures Signed(w) == Minus(Negative('d', w), Magnitude('d', w))
    ensures Int(Signed(w)) == Signed(w)
  {
  }

  /**
    Main result: for every modifier string m and every 32-bit value, atoi gives back what
    printf printed with %, m, d, iff m does not both left-align and zero-pad, or there is no
    padding, or the value is zero.
   */
  lemma {:induction false} AtoiInvertsIff(m: string, w: word)
    requires forall c | c in m :: IsModifier(c)
    ensures var p := Meaning(m);
            Number(Render("%" + m + "d", [Word(w)])) == Signed(w)
            <==> !(p.right && p.fill == '0') || p.spacing <= |Render("%d", [Word(w)])| || w == 0
  {
    hide Number, Render, NumberText, Meaning, Signed, Int, Power, Bare;
    var p := Meaning(m);
    FillOf(m);
    OneField(m, w);
    OneField("", w);
    assert "%" + "" + "d" == "%d";
    BareText(w);
    ReadsField(p, w);
    SignedBack(w);
    var pad := Padding(p, |Bare(w)|);
    if p.right && p.fill == '0' {
      if pad == 0 { PowerZero(); } else { Shifted(w, pad); }
    }
  }

  /** Concretely: printf of 5 with %-03d gives 500, and atoi reads five hundred. */
  lemma {:induction false} ZerosBehind()
    ensures Render("%-03d", [Word(5)]) == "500" && Number(Render("%-03d", [Word(5)])) == 500
  {
    hide Render, Number, Meaning, NumberText, Int, Power, Copies;
    assert "%" + "-03" + "d" == "%-03d";
    OneField("-03", 5);
    MeaningExample();
    TextOf(Meaning("-03"), 5);
    FiveDigits();
    ReadsField(Meaning("-03"), 5);
    TwoZeros();
  }

  lemma MeaningExample()
    ensures Meaning("-03") == Spec(true, 3, true, '0', false)
  {
    var m := "-03";
    assert m[..2] == "-0" && m[..2][..1] == "-" && DigitsIn(m[..2][..1]) == "" && DigitsIn(m[..2]) == "0" && DigitsIn(m) == "03";
    assert Value("03"[..1], 10) == 0 && "03"[..1] == "0";
  }

  lemma FiveDigits()
    ensures Digits(Magnitude('d', 5), 10) == "5" && SignText(Negative('d', 5)) == "" && Bare(5) == "5"
    ensures Signed(5) == 5
  {
  }

  lemma TwoZeros()
    ensures Copies('0', 2) == "00" && Power(10, 2) == 100 && Int(500) == 500
  {
    assert Copies('0', 1) == "0" && Power(10, 1) == 10;
  }

  lemma PowerZero()
    ensures Power(10, 0) == 1
  {
  }

  lemma FillOf(m: string)
    ensures Meaning(m).fill == ' ' || Meaning(m).fill == '0'
  {
  }

  lemma BareText(w: word)
    ensures NumberText(Meaning(""), 'd', w) == Bare(w)
  {
    hide Digits;
    TextOf(Meaning(""), w);
    assert Copies(' ', 0) == "";
  }

  lemma {:induction false} Shifted(w: word, pad: nat)
    requires pad > 0
    ensures Int(Signed(w) * Power(10, pad)) == Signed(w) <==> w == 0
  {
    var n, q := Signed(w), Power(10, pad);
    if Int(n * q) == n {
      assert (n * q) % TWO_32 == w;
      assert (n * q - n) % TWO_32 == 0 by { Same(n * q, w); }
      ShiftedIsSame(n, pad);
    }
  }

  lemma Same(x: int, w: word)
    requires x % TWO_32 == w
    ensures (x - Signed(w)) % TWO_32 == 0
  {
  }

  lemma {:induction false} OneField(m: string, w: word)
    requires forall c | c in m :: IsModifier(c)
    ensures Render("%" + m + "d", [Word(w)]) == NumberText(Meaning(m), 'd', w)
  {
    hide Render, NumberText, Meaning;
    RenderOne(m, 'd', [Word(w)]);
  }
}
