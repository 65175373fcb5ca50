/**
  What printf prints, spelled out conversion by conversion: where the padding goes, in which base a
  number is written and with which prefix, and when the number can be read back.
 */
module Fields {
  import opened Basics
  import opened Numerals
  import opened Formats
  import opened Atoi

  // ------------------------------------------------------------ the shape of a field

  /** The field width, and whether the digits among the modifiers start with a zero. */
  function Width(m: string): nat { Value(DigitsIn(m), 10) }

  predicate ZeroFilled(m: string) { DigitsIn(m) != [] && DigitsIn(m)[0] == '0' }

  /**
    r shows prefix and body in a field as the modifiers m say: at least as wide as they say; with a
    minus sign to the left and filled behind, otherwise to the right, with zeros between prefix and
    body or blanks before both.
   */
  ghost predicate Field(r: string, m: string, prefix: string, body: string) {
    var n, fill := |prefix| + |body|, if ZeroFilled(m) then '0' else ' ';
    && |r| == (if Width(m) > n then Width(m) else n)
    && if '-' in m then prefix + body <= r && forall i | n <= i < |r| :: r[i] == fill
       else if ZeroFilled(m) then
         prefix <= r && r[|r| - |body|..] == body && forall i | |prefix| <= i < |r| - |body| :: r[i] == '0'
       else
         r[|r| - n..] == prefix + body && forall i | 0 <= i < |r| - n :: r[i] == ' '
  }

  lemma {:induction false} LayoutIsField(m: string, prefix: string, body: string)
    ensures Field(Layout(Meaning(m), prefix, body), m, prefix, body)
  {
    hide DigitsIn, Value;
  }

  // ------------------------------------------------------------ numerals

  predicate DigitOf(c: char, b: nat) { DigitValue(c) < b <= 16 && "0123456789abcdef"[DigitValue(c)] == c }

  /** z is v in base b, without leading zeros. */
  ghost predicate Numeral(z: string, b: nat, v: nat) {
    z != [] && (forall c | c in z :: DigitOf(c, b)) && (|z| > 1 ==> z[0] != '0') && Value(z, b) == v
  }

  lemma {:induction false} DigitsAreNumeral(n: nat, b: nat)
    requires Base(b)
    ensures Numeral(Digits(n, b), b, n)
    ensures n > 0 ==> Digits(n, b)[0] != '0'
    decreases n
  {
    hide Quot, Rem, Value, Digits, DigitOf, DigitChar;
    Division(n, b);
    DigitsValue(n, b);
    DigitsStep(n, b);
    CharIsDigit(if n < b then n else Rem(n, b), b);
    if n >= b { DigitsAreNumeral(Quot(n, b), b); }
  }

  lemma DigitsStep(n: nat, b: nat)
    requires Base(b)
    ensures n < b ==> n < 16 && Digits(n, b) == [DigitChar(n)]
    ensures n >= b ==> Rem(n, b) < 16 && Digits(n, b) == Digits(Quot(n, b), b) + [DigitChar(Rem(n, b))]
  {
    hide Quot, Rem, DigitChar;
    Division(n, b);
  }

  lemma CharIsDigit(k: nat, b: nat)
    requires k < b <= 16
    ensures DigitOf(DigitChar(k), b) && (k > 0 ==> DigitChar(k) != '0')
  {
  }

  /** There is only one: base and value say what is printed. */
  lemma {:induction false} NumeralUnique(y: string, z: string, b: nat, v: nat)
    requires Base(b) && Numeral(y, b, v) && Numeral(z, b, v)
    ensures y == z
    decreases |y|
  {
    LastDigits(y, b, v);
    LastDigits(z, b, v);
    if |y| > 1 && |z| > 1 {
      NumeralUnique(y[..|y| - 1], z[..|z| - 1], b, v / b);
      assert y == y[..|y| - 1] + [y[|y| - 1]] && z == z[..|z| - 1] + [z[|z| - 1]];
    }
  }

  lemma {:induction false} LastDigits(z: string, b: nat, v: nat)
    requires Base(b) && Numeral(z, b, v)
    ensures "0123456789abcdef"[v % b] == z[|z| - 1]
    ensures if |z| == 1 then v < b else v >= b && Numeral(z[..|z| - 1], b, v / b)
  {
    var t := z[..|z| - 1];
    assert z[|z| - 1] in z && forall c | c in t :: c in z;
    LastOf(Value(t, b), DigitValue(z[|z| - 1]), b);
    if |z| > 1 { Leading(t, b); }
  }

  lemma LastOf(q: nat, d: nat, b: nat)
    requires Base(b) && d < b
    ensures (q * b + d) % b == d && (q * b + d) / b == q && (q > 0 ==> q * b + d >= b)
  {
    if b == 8 {} else if b == 10 {} else {}
  }

  /** A numeral that starts with a digit other than zero is positive. */
  lemma {:induction false} Leading(z: string, b: nat)
    requires Base(b) && z != [] && DigitOf(z[0], b) && z[0] != '0'
    ensures Value(z, b) > 0
  {
    if |z| > 1 { Leading(z[..|z| - 1], b); }
  }

  // ------------------------------------------------------------ the conversions

  /** m consists of modifiers. */
  ghost predicate Modifying(m: string) { forall c | c in m :: c in "#-lq0123456789" }

  lemma ModifyingIs(m: string)
    ensures Modifying(m) <==> forall c | c in m :: IsModifier(c)
    ensures forall c :: c in "#-lq0123456789" <==> IsModifier(c)
  {
  }

  /** r shows v in base b, with this prefix. */
  ghost predicate Shows(r: string, m: string, prefix: string, b: nat, v: nat) {
    exists z :: Numeral(z, b, v) && Field(r, m, prefix, z)
  }

  lemma {:induction false} NumberShows(m: string, c: char, w: word)
    requires Modifying(m) && IsInteger(c)
    ensures Shows(Render("%" + m + [c], [Word(w)]), m,
                  (if Negative(c, w) then "-" else "") + Prefix(Meaning(m), c), BaseOf(c), Magnitude(c, w))
  {
    hide Render, Layout, Meaning, Prefix, Numeral, Field, Digits, BaseOf;
    ModifyingIs(m);
    RenderOne(m, c, [Word(w)]);
    DigitsAreNumeral(Magnitude(c, w), BaseOf(c));
    LayoutIsField(m, (if Negative(c, w) then "-" else "") + Prefix(Meaning(m), c), Digits(Magnitude(c, w), BaseOf(c)));
  }

  /** Main result: for every modifier string and every 32-bit value, base, prefix and sign of each integer conversion. */
  lemma {:induction false} IntegerConversions(m: string, w: word)
    requires Modifying(m)
    ensures Shows(Render("%" + m + "u", [Word(w)]), m, "", 10, w)
    ensures Shows(Render("%" + m + "x", [Word(w)]), m, if '#' in m then "0x" else "", 16, w)
    ensures Shows(Render("%" + m + "o", [Word(w)]), m, if '#' in m then "0" else "", 8, w)
    ensures Shows(Render("%" + m + "p", [Word(w)]), m, "0x", 16, w)
    ensures Shows(Render("%" + m + "d", [Word(w)]), m, if w < 0x8000_0000 then "" else "-", 10,
                  if w < 0x8000_0000 then w else 0x1_0000_0000 - w)
  {
    hide Render, Shows;
    forall c | IsInteger(c) ensures Shows(Render("%" + m + [c], [Word(w)]), m,
                  (if Negative(c, w) then "-" else "") + Prefix(Meaning(m), c), BaseOf(c), Magnitude(c, w)) {
      NumberShows(m, c, w);
    }
    assert IsInteger('u') && IsInteger('x') && IsInteger('o') && IsInteger('p') && IsInteger('d');
    assert "" + "0x" == "0x" && "" + "0" == "0" && "" + "" == "" && "-" + "" == "-";
  }

  /** The other conversions: a string or "(null)", a character or nothing for NUL, and any other character for itself. */
  lemma {:induction false} TextConversions(m: string, s: string, w: word, c: char)
    requires Modifying(m) && c !in "#-lq0123456789dopuxsc"
    ensures Field(Render("%" + m + "s", [Text(s)]), m, "", s)
    ensures Field(Render("%" + m + "s", [Null]), m, "", "(null)")
    ensures Field(Render("%" + m + "c", [Word(w)]), m, "", if w % 256 == 0 then "" else [(w % 256) as char])
    ensures Field(Render("%" + m + [c], []), m, "", [c])
  {
    hide Render, Layout, Meaning, Field;
    ModifyingIs(m);
    RenderOne(m, 's', [Text(s)]);
    RenderOne(m, 's', [Null]);
    RenderOne(m, 'c', [Word(w)]);
    RenderOne(m, c, []);
    LayoutIsField(m, "", s);
    LayoutIsField(m, "", "(null)");
    LayoutIsField(m, "", CharText(w));
    LayoutIsField(m, "", [c]);
  }

  /** A whole format is printed part by part: text as it is, and each conversion with the next argument, if it takes one. */
  lemma {:induction false} PartByPart(a: string, m: string, c: char, rest: string, args: seq<Arg>)
    requires '%' !in a && Modifying(m) && c !in "#-lq0123456789" && ArgOk(c, args)
    ensures Render(a + ("%" + m + [c] + rest), args)
            == a + Render("%" + m + [c], args) + Render(rest, if c in "dopuxsc" then args[1..] else args)
  {
    hide Render, FieldText, Meaning;
    ModifyingIs(m);
    var f := "%" + m + [c] + rest;
    RenderText(a, f, args);
    RenderField(m, c, rest, args);
    RenderOne(m, c, args);
    assert RestArgs(c, args) == if c in "dopuxsc" then args[1..] else args;
    var x, y := FieldText(Meaning(m), c, args), Render(rest, RestArgs(c, args));
    assert a + (x + y) == a + x + y;
  }

  // ------------------------------------------------------------ reading numbers back

  /** Without modifiers, the value of what is printed, in the base of the conversion, is what was printed. */
  lemma {:induction false} ReadBack(w: word)
    ensures Value(Render("%u", [Word(w)]), 10) == w
    ensures Value(Render("%x", [Word(w)]), 16) == w
    ensures Value(Render("%o", [Word(w)]), 8) == w
    ensures var r := Render("%p", [Word(w)]); "0x" <= r && Value(r[2..], 16) == w
    ensures var r := Render("%#x", [Word(w)]); "0x" <= r && Value(r[2..], 16) == w
    ensures var r := Render("%#o", [Word(w)]); "0" <= r && Value(r[1..], 8) == w
  {
    hide Render, Shows, Value;
    IntegerConversions("", w);
    IntegerConversions("#", w);
    assert "%" + "" + "u" == "%u" && "%" + "" + "x" == "%x" && "%" + "" + "o" == "%o" && "%" + "" + "p" == "%p";
    assert "%" + "#" + "x" == "%#x" && "%" + "#" + "o" == "%#o";
    Bare(Render("%u", [Word(w)]), "", "", 10, w);
    Bare(Render("%x", [Word(w)]), "", "", 16, w);
    Bare(Render("%o", [Word(w)]), "", "", 8, w);
    Bare(Render("%p", [Word(w)]), "", "0x", 16, w);
    Bare(Render("%#x", [Word(w)]), "#", "0x", 16, w);
    Bare(Render("%#o", [Word(w)]), "#", "0", 8, w);
  }

  lemma Bare(r: string, m: string, prefix: string, b: nat, v: nat)
    requires Shows(r, m, prefix, b, v) && (m == "" || m == "#")
    ensures prefix <= r && Value(r[|prefix|..], b) == v
  {
    hide Value;
    var z :| Numeral(z, b, v) && Field(r, m, prefix, z);
    NoWidth();
    assert r == prefix + z;
  }

  lemma NoWidth()
    ensures Width("") == Width("#") == 0 && !ZeroFilled("") && !ZeroFilled("#")
  {
    var m := "#";
    assert m[..0] == "" && DigitsIn(m) == DigitsIn("");
  }

  /** The digits of base b at the start of s. */
  function DigitRun(s: string, b: nat): (n: nat)
    ensures n <= |s| && (forall i | 0 <= i < n :: DigitOf(s[i], b)) && (n < |s| ==> !DigitOf(s[n], b))
  {
    if s != [] && DigitOf(s[0], b) then 1 + DigitRun(s[1..], b) else 0
  }

  /** A number read from text: blanks, the prefix if it is there, and the digits. */
  function Scan(r: string, prefix: string, b: nat): nat {
    var t := r[Blanks(r)..];
    var u := if prefix <= t then t[|prefix|..] else t;
    Value(u[..DigitRun(u, b)], b)
  }

  predicate AnyPrefix(prefix: string) { prefix == "" || prefix == "0x" || prefix == "0" }

  lemma {:induction false} ScanOf(k: nat, prefix: string, ds: string, tail: string, b: nat)
    requires AnyPrefix(prefix) && ds != [] && (forall c | c in ds :: DigitOf(c, b)) && (tail != [] ==> tail[0] == ' ')
    ensures Scan(Copies(' ', k) + prefix + ds + tail, prefix, b) == Value(ds, b)
  {
    hide Value, DigitOf, Blanks, DigitRun, Scan, Copies;
    FirstIn(ds);
    NotBlank(ds[0], b);
    var u := ds + tail;
    var t := prefix + u;
    assert t[0] == if prefix != "" then prefix[0] else ds[0];
    AllBlank(k);
    BlanksThen(Copies(' ', k), t);
    DigitRunIs(ds, tail, b);
    ScanThen(Copies(' ', k), prefix, u, b);
    assert u[..|ds|] == ds;
    assert Copies(' ', k) + prefix + ds + tail == Copies(' ', k) + t;
  }

  lemma AllBlank(k: nat)
    ensures forall c | c in Copies(' ', k) :: Blank(c)
  {
  }

  lemma ScanThen(bs: string, prefix: string, u: string, b: nat)
    requires var t := prefix + u; Blanks(bs + t) == |bs| && (bs + t)[|bs|..] == t
    ensures Scan(bs + (prefix + u), prefix, b) == Value(u[..DigitRun(u, b)], b)
  {
    hide Value, DigitRun, Blanks;
    assert (prefix + u)[|prefix|..] == u;
  }

  lemma NotBlank(c: char, b: nat)
    ensures DigitOf(c, b) ==> !Blank(c)
  {
  }

  lemma {:induction false} DigitRunIs(ds: string, tail: string, b: nat)
    requires (forall c | c in ds :: DigitOf(c, b)) && (tail != [] ==> tail[0] == ' ')
    ensures DigitRun(ds + tail, b) == |ds|
  {
    hide DigitOf;
    NotBlank(' ', b);
    if ds != [] {
      assert ds[0] in ds && (ds + tail)[1..] == ds[1..] + tail;
      DigitRunIs(ds[1..], tail, b);
    }
  }

  lemma {:induction false} ScanField(r: string, m: string, prefix: string, b: nat, v: nat, z: string)
    requires Base(b) && AnyPrefix(prefix) && Numeral(z, b, v) && Field(r, m, prefix, z)
    ensures Scan(r, prefix, b) == v * if '-' in m && ZeroFilled(m) then Power(b, |r| - |prefix| - |z|) else 1
  {
    hide Value, Scan, Width, Power, DigitOf;
    var k := |r| - |prefix| - |z|;
    ZeroDigit(b);
    if '-' in m && ZeroFilled(m) {
      TrailingZeros(z, k, b);
      ScanOf(0, prefix, z + Copies('0', k), "", b);
      assert r == Copies(' ', 0) + prefix + (z + Copies('0', k)) + "";
    } else if '-' in m {
      ScanOf(0, prefix, z, Copies(' ', k), b);
      assert r == Copies(' ', 0) + prefix + z + Copies(' ', k);
    } else if ZeroFilled(m) {
      LeadingZeros(k, z, b);
      ScanOf(0, prefix, Copies('0', k) + z, "", b);
      assert r == Copies(' ', 0) + prefix + (Copies('0', k) + z) + "";
    } else {
      ScanOf(k, prefix, z, "", b);
      assert r == Copies(' ', k) + prefix + z + "" by { BlanksFirst(r, k, prefix + z); }
    }
  }

  lemma BlanksFirst(r: string, k: nat, s: string)
    requires |r| == k + |s| && r[k..] == s && forall i | 0 <= i < k :: r[i] == ' '
    ensures r == Copies(' ', k) + s
  {
  }

  lemma ZeroDigit(b: nat)
    requires Base(b)
    ensures DigitOf('0', b)
  {
  }

  /**
    Main result: for every modifier string and every 32-bit value the text of %u, %x, %o and %p is read
    back as the value iff no zeros were appended, or the value is zero.
   */
  lemma {:induction false} ReadBackIff(m: string, c: char, w: word)
    requires Modifying(m) && c in "uxop"
    ensures var alt := '#' in m;
            var b := if c == 'u' then 10 else if c == 'o' then 8 else 16;
            var prefix := if c == 'p' || (c == 'x' && alt) then "0x" else if c == 'o' && alt then "0" else "";
            var r := Render("%" + m + [c], [Word(w)]);
            Scan(r, prefix, b) == w
            <==> !('-' in m && ZeroFilled(m)) || Width(m) <= |Render((if alt then "%#" else "%") + [c], [Word(w)])| || w == 0
  {
    hide Render, Shows, Scan, Width, ZeroFilled;
    IntegerConversions(m, w);
    var n := if '#' in m then "#" else "";
    IntegerConversions(n, w);
    assert "%" + n == if '#' in m then "%#" else "%";
    var b := if c == 'u' then 10 else if c == 'o' then 8 else 16;
    var prefix := if c == 'p' || (c == 'x' && '#' in m) then "0x" else if c == 'o' && '#' in m then "0" else "";
    assert [c] == if c == 'u' then "u" else if c == 'x' then "x" else if c == 'o' then "o" else "p";
    ScansIff(Render("%" + m + [c], [Word(w)]), Render("%" + n + [c], [Word(w)]), m, n, prefix, b, w);
  }

  lemma {:induction false} ScansIff(r: string, bare: string, m: string, n: string, prefix: string, b: nat, w: word)
    requires Base(b) && AnyPrefix(prefix) && (n == "" || n == "#") && Shows(r, m, prefix, b, w) && Shows(bare, n, prefix, b, w)
    ensures Scan(r, prefix, b) == w <==> !('-' in m && ZeroFilled(m)) || Width(m) <= |bare| || w == 0
  {
    hide Scan, Numeral, Width, ZeroFilled, Field, Power;
    var z :| Numeral(z, b, w) && Field(r, m, prefix, z);
    var y :| Numeral(y, b, w) && Field(bare, n, prefix, y);
    NumeralUnique(y, z, b, w);
    NoWidth();
    FieldLength(r, m, prefix, z);
    FieldLength(bare, n, prefix, z);
    ScanField(r, m, prefix, b, w, z);
    Raised(w, b, |r| - |prefix| - |z|);
  }

  lemma FieldLength(r: string, m: string, prefix: string, body: string)
    requires Field(r, m, prefix, body)
    ensures |r| == if Width(m) > |prefix| + |body| then Width(m) else |prefix| + |body|
  {
    hide Width, ZeroFilled;
  }

  lemma {:induction false} Raised(w: nat, b: nat, k: nat)
    requires b > 1
    ensures w * Power(b, k) == w <==> k == 0 || w == 0
  {
    if k > 0 {
      PowerMore(b, k);
      var p := Power(b, k);
      if w > 0 { assert w * p >= w * 2; }
    }
  }

  lemma {:induction false} PowerMore(b: nat, k: nat)
    requires b > 1 && k > 0
    ensures Power(b, k) >= 2
  {
    if k > 1 { PowerMore(b, k - 1); }
  }
}
