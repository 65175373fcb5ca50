/**
  What printf formats mean: the character-at-a-time machine of lib/libc/__printf.c, and a reading
  of the format string field by field that it agrees with.
 */
module Formats {
  import opened Basics
  import opened Numerals

  /** A variable argument: an int, long or pointer, or a C string. */
  datatype Arg = Word(w: word) | Text(s: string) | Null

  /** What the PF structure has gathered about the present field. */
  datatype Spec = Spec(inPct: bool, spacing: nat, right: bool, fill: char, alt: bool)

  const RESET := Spec(false, 0, false, ' ', false)

  predicate IsModifier(c: char) { c == '#' || c == '-' || c == 'q' || c == 'l' || IsDigit(c) }

  predicate IsInteger(c: char) { c == 'd' || c == 'o' || c == 'u' || c == 'p' || c == 'x' }

  function Modify(p: Spec, c: char): Spec
    requires IsModifier(c)
  {
    if c == '#' then p.(alt := true)
    else if c == '-' then p.(right := true)
    else if c == 'l' || c == 'q' then p
    else if c == '0' then (if p.spacing > 0 then p.(spacing := p.spacing * 10) else p.(fill := '0'))
    else p.(spacing := p.spacing * 10 + DigitValue(c))
  }

  // ------------------------------------------------------------ fields

  function Padding(p: Spec, len: nat): nat { if p.spacing > len then p.spacing - len else 0 }

  /** Blanks go before the prefix, zeros after it, and either at the end if aligned to the left. */
  function Layout(p: Spec, prefix: string, body: string): string {
    var pad := Copies(p.fill, Padding(p, |prefix| + |body|));
    if p.right then prefix + body + pad
    else if p.fill == '0' then prefix + pad + body
    else pad + prefix + body
  }

  function BaseOf(c: char): (b: nat)
    ensures Base(b)
  {
    if c == 'o' then 8 else if c == 'd' || c == 'u' then 10 else 16
  }

  predicate Negative(c: char, w: word) { c == 'd' && Signed(w) < 0 }

  function Magnitude(c: char, w: word): word { if Negative(c, w) then TWO_32 - w else w }

  function Prefix(p: Spec, c: char): string {
    if (p.alt || c == 'p') && BaseOf(c) == 16 then "0x" else if p.alt && BaseOf(c) == 8 then "0" else ""
  }

  function NumberText(p: Spec, c: char, w: word): string {
    Layout(p, (if Negative(c, w) then "-" else "") + Prefix(p, c), Digits(Magnitude(c, w), BaseOf(c)))
  }

  /** %c with a NUL prints an empty string. */
  function CharText(w: word): string { if w % 256 == 0 then "" else [(w % 256) as char] }

  predicate TakesArg(c: char) { IsInteger(c) || c == 's' || c == 'c' }

  /** The caller has passed what conversion c takes. */
  predicate ArgOk(c: char, args: seq<Arg>) {
    TakesArg(c) ==> args != [] && (args[0].Word? <==> c != 's')
  }

  function FieldText(p: Spec, c: char, args: seq<Arg>): string
    requires ArgOk(c, args)
  {
    if IsInteger(c) then NumberText(p, c, args[0].w)
    else if c == 's' then Layout(p, "", if args[0].Text? then args[0].s else "(null)")
    else Layout(p, "", if c == 'c' then CharText(args[0].w) else [c])
  }

  function RestArgs(c: char, args: seq<Arg>): seq<Arg> {
    if TakesArg(c) && args != [] then args[1..] else args
  }

  // ------------------------------------------------------------ the machine

  /** What is printed for the rest of the format, from state p. */
  function Run(p: Spec, fmt: string, args: seq<Arg>): string
    decreases |fmt|
  {
    if fmt == [] then []
    else if !p.inPct && fmt[0] != '%' then [fmt[0]] + Run(p, fmt[1..], args)
    else if !p.inPct then Run(p.(inPct := true), fmt[1..], args)
    else if IsModifier(fmt[0]) then Run(Modify(p, fmt[0]), fmt[1..], args)
    else if ArgOk(fmt[0], args) then FieldText(p, fmt[0], args) + Run(RESET, fmt[1..], RestArgs(fmt[0], args))
    else []
  }

  /** The caller passes an argument of the right kind for every conversion in the format. */
  predicate Ready(p: Spec, fmt: string, args: seq<Arg>)
    decreases |fmt|
  {
    if fmt == [] then true
    else if !p.inPct && fmt[0] != '%' then Ready(p, fmt[1..], args)
    else if !p.inPct then Ready(p.(inPct := true), fmt[1..], args)
    else if IsModifier(fmt[0]) then Ready(Modify(p, fmt[0]), fmt[1..], args)
    else ArgOk(fmt[0], args) && Ready(RESET, fmt[1..], RestArgs(fmt[0], args))
  }

  // ------------------------------------------------------------ reading a format field by field

  /** The modifiers at the start of s. */
  function Modifiers(s: string): (m: string)
    ensures m <= s && (forall c | c in m :: IsModifier(c))
    ensures |m| < |s| ==> !IsModifier(s[|m|])
  {
    if s != [] && IsModifier(s[0]) then [s[0]] + Modifiers(s[1..]) else []
  }

  function DigitsIn(m: string): string {
    if m == [] then [] else DigitsIn(m[..|m| - 1]) + if IsDigit(m[|m| - 1]) then [m[|m| - 1]] else []
  }

  /** What the modifiers say, whatever their order: the width is the number their digits spell, zeros pad if it starts with a zero. */
  function Meaning(m: string): (p: Spec)
    ensures p.inPct
  {
    var ds := DigitsIn(m);
    Spec(true, Value(ds, 10), '-' in m, if ds != [] && ds[0] == '0' then '0' else ' ', '#' in m)
  }

  /** The output for a whole format: text as it is, each conversion with its modifiers as one field. */
  function Render(fmt: string, args: seq<Arg>): string
    decreases |fmt|
  {
    if fmt == [] then []
    else if fmt[0] != '%' then [fmt[0]] + Render(fmt[1..], args)
    else
      var m := Modifiers(fmt[1..]);
      if |m| + 1 == |fmt| then []
      else
        var c := fmt[|m| + 1];
        if ArgOk(c, args) then FieldText(Meaning(m), c, args) + Render(fmt[|m| + 2..], RestArgs(c, args)) else []
  }

  lemma {:induction false} MeaningNext(m: string, c: char)
    requires IsModifier(c)
    ensures Meaning(m + [c]) == Modify(Meaning(m), c)
  {
    var mc := m + [c];
    assert mc[..|mc| - 1] == m;
    var ds, ds' := DigitsIn(m), DigitsIn(mc);
    if IsDigit(c) {
      assert ds' == ds + [c];
      assert ds'[..|ds'| - 1] == ds;
      DigitsAre(m);
      if ds != [] && Value(ds, 10) == 0 { ZeroStart(ds); assert ds[0] in ds; }
    } else {
      assert ds' == ds;
    }
  }

  lemma {:induction false} DigitsAre(m: string)
    ensures forall c | c in DigitsIn(m) :: IsDigit(c)
  {
    if m != [] { DigitsAre(m[..|m| - 1]); }
  }

  lemma {:induction false} ZeroStart(ds: string)
    requires ds != [] && Value(ds, 10) == 0
    ensures DigitValue(ds[0]) == 0
  {
    if |ds| > 1 { ZeroStart(ds[..|ds| - 1]); }
  }

  lemma RunModifier(p: Spec, fmt: string, args: seq<Arg>)
    requires p.inPct && fmt != [] && IsModifier(fmt[0])
    ensures Run(p, fmt, args) == Run(Modify(p, fmt[0]), fmt[1..], args)
  {
  }

  /** Inside a field, after the modifiers m, the machine goes on as if the rest of them were read at once. */
  lemma {:induction false} RunModifiers(m: string, fmt: string, args: seq<Arg>)
    ensures var rest := Modifiers(fmt); Run(Meaning(m), fmt, args) == Run(Meaning(m + rest), fmt[|rest|..], args)
    decreases |fmt|
  {
    hide Meaning, Run, Modify, FieldText;
    var rest := Modifiers(fmt);
    if rest == [] {
      assert m + rest == m && fmt[|rest|..] == fmt;
    } else {
      MeaningNext(m, fmt[0]);
      RunModifier(Meaning(m), fmt, args);
      RunModifiers(m + [fmt[0]], fmt[1..], args);
      assert m + rest == m + [fmt[0]] + Modifiers(fmt[1..]);
      assert fmt[|rest|..] == fmt[1..][|rest| - 1..];
    }
  }

  /** Main result: the machine prints what the format means. */
  lemma {:induction false} RunIsRender(fmt: string, args: seq<Arg>)
    ensures Run(RESET, fmt, args) == Render(fmt, args)
    decreases |fmt|
  {
    if fmt == [] {
    } else if fmt[0] != '%' {
      RunIsRender(fmt[1..], args);
    } else {
      var m := Modifiers(fmt[1..]);
      assert Meaning([]) == RESET.(inPct := true);
      RunModifiers([], fmt[1..], args);
      assert [] + m == m;
      var tail := fmt[1..][|m|..];
      assert tail == fmt[|m| + 1..];
      if tail != [] {
        assert tail[0] == fmt[|m| + 1] && tail[1..] == fmt[|m| + 2..];
        if ArgOk(tail[0], args) { RunIsRender(tail[1..], RestArgs(tail[0], args)); }
      }
    }
  }

  // ------------------------------------------------------------ a format in parts

  lemma {:induction false} ModifiersOf(m: string, c: char, rest: string)
    requires (forall x | x in m :: IsModifier(x)) && !IsModifier(c)
    ensures Modifiers(m + [c] + rest) == m
  {
    if m == [] {
      assert (m + [c] + rest)[0] == c;
    } else {
      assert (m + [c] + rest)[1..] == m[1..] + [c] + rest;
      assert m[0] in m;
      ModifiersOf(m[1..], c, rest);
    }
  }

  /** A conversion is printed as a field, and the rest with the arguments that are left. */
  lemma {:induction false} RenderField(m: string, c: char, rest: string, args: seq<Arg>)
    requires (forall x | x in m :: IsModifier(x)) && !IsModifier(c) && ArgOk(c, args)
    ensures Render("%" + m + [c] + rest, args) == FieldText(Meaning(m), c, args) + Render(rest, RestArgs(c, args))
  {
    hide FieldText, Meaning;
    var fmt := "%" + m + [c] + rest;
    assert fmt[1..] == m + [c] + rest;
    ModifiersOf(m, c, rest);
    assert fmt[|m| + 1] == c && fmt[|m| + 2..] == rest;
  }

  lemma {:induction false} RenderOne(m: string, c: char, args: seq<Arg>)
    requires (forall x | x in m :: IsModifier(x)) && !IsModifier(c) && ArgOk(c, args)
    ensures Render("%" + m + [c], args) == FieldText(Meaning(m), c, args)
  {
    hide FieldText, Meaning;
    RenderField(m, c, [], args);
    assert "%" + m + [c] + [] == "%" + m + [c];
  }

  /** Text is printed as it is. */
  lemma {:induction false} RenderText(a: string, rest: string, args: seq<Arg>)
    requires '%' !in a
    ensures Render(a + rest, args) == a + Render(rest, args)
  {
    hide Render;
    if a == [] {
      assert a + rest == rest;
    } else {
      RenderText(a[1..], rest, args);
      assert (a + rest)[1..] == a[1..] + rest && (a + rest)[0] == a[0];
      RenderChar(a + rest, args);
      assert a == [a[0]] + a[1..];
    }
  }

  lemma RenderChar(fmt: string, args: seq<Arg>)
    requires fmt != [] && fmt[0] != '%'
    ensures Render(fmt, args) == [fmt[0]] + Render(fmt[1..], args)
  {
  }
}
