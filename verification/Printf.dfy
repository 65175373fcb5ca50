/**
  vsnprintf: the printf machine of lib/libc/__printf.c with its PF structure and digit buffer,
  sending into the bounded buffer of lib/libc/snprintf.c.
 */
module Printf {
  import opened Basics
  import opened Numerals
  import opened Formats

  const NUL: char := '\0'

  function Min(a: nat, b: nat): nat { if a < b then a else b }

  /** The context of __snprintf_send.  sent is all the text sent so far, first the buffer's contents at the start. */
  class Snp {
    const buf: array<char>
    const buflen: nat
    var bufpos: nat
    ghost var sent: string
    ghost const first: string

    /** The buffer holds the text sent, cut off at buflen, and beyond it what it held before. */
    ghost predicate Valid()
      reads this, buf
    {
      && buflen <= buf.Length == |first| && bufpos == Min(|sent|, buflen)
      && buf[..] == sent[..bufpos] + first[bufpos..]
    }

    constructor (buf: array<char>, buflen: nat)
      requires buflen <= buf.Length
      ensures Valid() && this.buf == buf && this.buflen == buflen && sent == "" && first == buf[..]
    {
      this.buf, this.buflen, bufpos := buf, buflen, 0;
      sent, first := "", buf[..];
    }

    method Send(data: string)
      requires Valid()
      modifies this, buf
      ensures Valid() && sent == old(sent) + data
    {
      for i := 0 to |data|
        invariant Valid() && sent == old(sent) + data[..i]
      {
        if bufpos < buflen {
          buf[bufpos] := data[i];
          bufpos := bufpos + 1;
        }
        sent := sent + [data[i]];
      }
    }
  }

  /** The PF structure. */
  class PF {
    const snp: Snp
    var ap: seq<Arg>
    var charcount: nat
    var inPct: bool
    var num: word
    var sign: int
    var spacing: nat
    var rightspc: bool
    var fillchar: char
    var base: nat
    var baseprefix: bool
    var altformat: bool

    ghost predicate Valid()
      reads this, snp, snp.buf
    {
      snp.Valid() && charcount == |snp.sent|
    }

    function State(): Spec
      reads this
    {
      Spec(inPct, spacing, rightspc, fillchar, altformat)
    }

    ghost predicate Clean()
      reads this
    {
      sign == 0 && !baseprefix
    }

    constructor (snp: Snp, ap: seq<Arg>)
      requires snp.Valid() && snp.sent == ""
      ensures Valid() && this.snp == snp && this.ap == ap && State() == RESET && Clean()
    {
      this.snp, this.ap, charcount := snp, ap, 0;
      inPct, num, sign, spacing, rightspc, fillchar, base, baseprefix, altformat := false, 0, 0, 0, false, ' ', 0, false, false;
    }

    method Print(txt: string)
      requires Valid()
      modifies this`charcount, snp, snp.buf
      ensures Valid() && snp.sent == old(snp.sent) + txt
    {
      snp.Send(txt);
      charcount := charcount + |txt|;
    }

    method EndField()
      requires Valid()
      modifies this
      ensures Valid() && State() == RESET && Clean() && ap == old(ap) && snp.sent == old(snp.sent)
    {
      inPct, num, sign, spacing, rightspc, fillchar, base, baseprefix, altformat := false, 0, 0, 0, false, ' ', 0, false, false;
    }

    method Modifier(ch: char)
      requires Valid() && IsModifier(ch)
      modifies this`altformat, this`rightspc, this`spacing, this`fillchar
      ensures Valid() && State() == Modify(old(State()), ch)
    {
      match ch
      case '#' => altformat := true;
      case '-' => rightspc := true;
      case 'l' =>
      case 'q' =>
      case '0' =>
        if spacing > 0 {
          spacing := spacing * 10;
        } else {
          fillchar := '0';
        }
      case _ =>
        assert '0' < ch <= '9';
        spacing := spacing * 10 + (ch as int - '0' as int);
    }

    method GetNum(ch: char)
      requires Valid() && IsInteger(ch) && ArgOk(ch, ap) && sign == 0
      modifies this`num, this`sign, this`ap
      ensures Valid() && ap == RestArgs(ch, old(ap))
      ensures var w := old(ap)[0].w; num == Magnitude(ch, w) && sign == if Negative(ch, w) then -1 else 0
    {
      var w := ap[0].w;
      ap := ap[1..];
      if ch == 'd' {
        var signednum := Signed(w);
        if signednum < 0 {
          sign := -1;
          num := (-signednum) % TWO_32;
        } else {
          num := signednum;
        }
      } else {
        num := w;
      }
    }

    method SetBase(ch: char)
      requires Valid() && IsInteger(ch) && !baseprefix
      modifies this`base, this`baseprefix
      ensures Valid() && base == BaseOf(ch) && baseprefix == (altformat || ch == 'p')
    {
      match ch {
        case 'd' => base := 10;
        case 'u' => base := 10;
        case 'x' => base := 16;
        case 'p' => base := 16;
        case _ => base := 8;
      }
      if altformat || ch == 'p' {
        baseprefix := true;
      }
    }

    method Fill(spc: nat)
      requires Valid()
      modifies this`charcount, snp, snp.buf
      ensures Valid() && snp.sent == old(snp.sent) + Copies(fillchar, spc)
    {
      for i := 0 to spc
        invariant Valid() && snp.sent == old(snp.sent) + Copies(fillchar, i)
      {
        Print([fillchar]);
        assert Copies(fillchar, i + 1) == Copies(fillchar, i) + [fillchar];
      }
    }

    method PrintStuff(prefix: string, prefix2: string, stuff: string)
      requires Valid()
      modifies this`charcount, snp, snp.buf
      ensures Valid() && snp.sent == old(snp.sent) + Layout(State(), prefix + prefix2, stuff)
    {
      hide Snp.Valid, Copies;
      ghost var before := snp.sent;
      ghost var pad := Copies(fillchar, Padding(State(), |prefix + prefix2| + |stuff|));
      var len := |prefix| + |prefix2| + |stuff|;
      var spc := if spacing > len then spacing - len else 0;
      if spc > 0 && !rightspc && fillchar != '0' {
        Fill(spc);
      }
      Print(prefix);
      Print(prefix2);
      if spc > 0 && !rightspc && fillchar == '0' {
        Fill(spc);
      }
      Print(stuff);
      if spc > 0 && rightspc {
        Fill(spc);
      }
      Joined(before, pad, prefix, prefix2, stuff);
    }

    /** Digits from right to left into a buffer of 12: no write is out of bounds. */
    method PrintNum()
      requires Valid() && Base(base)
      modifies this`charcount, snp, snp.buf
      ensures Valid()
      ensures snp.sent == old(snp.sent) +
              Layout(State(), (if sign != 0 then "-" else "") + (if baseprefix && base == 16 then "0x" else if baseprefix && base == 8 then "0" else ""),
                     Digits(num, base))
    {
      var text := Convert(num, base);
      var bprefix := if baseprefix && base == 16 then "0x" else if baseprefix && base == 8 then "0" else "";
      var sprefix := if sign != 0 then "-" else "";
      PrintStuff(sprefix, bprefix, text);
    }

    /** One character of the format: what the machine then still prints is the rest. */
    method SendChar(ch: char, ghost rest: string)
      requires Valid() && Clean() && Ready(State(), [ch] + rest, ap)
      modifies this, snp, snp.buf
      ensures Valid() && Clean() && Ready(State(), rest, ap)
      ensures snp.sent + Run(State(), rest, ap) == old(snp.sent) + old(Run(State(), [ch] + rest, ap))
    {
      hide Layout, Digits, Modify, Snp.Valid;
      assert ([ch] + rest)[1..] == rest;
      if !inPct && ch != '%' {
        Print([ch]);
      } else if !inPct {
        inPct := true;
      } else if IsModifier(ch) {
        Modifier(ch);
      } else {
        Field(ch);
      }
    }

    /** The end of a field. */
    method Field(ch: char)
      requires Valid() && Clean() && inPct && ArgOk(ch, ap)
      modifies this, snp, snp.buf
      ensures Valid() && Clean() && State() == RESET && ap == RestArgs(ch, old(ap))
      ensures snp.sent == old(snp.sent) + FieldText(old(State()), ch, old(ap))
    {
      hide Layout, Digits, Snp.Valid;
      assert "" + "" == "";
      if IsInteger(ch) {
        GetNum(ch);
        SetBase(ch);
        PrintNum();
        EndField();
      } else if ch == 's' {
        var str := if ap[0].Null? then "(null)" else ap[0].s;
        ap := ap[1..];
        PrintStuff("", "", str);
        EndField();
      } else {
        var x := [ch];
        if ch == 'c' {
          x := CharText(ap[0].w);
          ap := ap[1..];
        }
        PrintStuff("", "", x);
        EndField();
      }
    }
  }

  lemma Joined(s: string, pad: string, p1: string, p2: string, t: string)
    ensures s + pad + p1 + p2 + t == s + (pad + (p1 + p2) + t)
    ensures s + p1 + p2 + pad + t == s + (p1 + p2 + pad + t)
    ensures s + p1 + p2 + t + pad == s + (p1 + p2 + t + pad)
    ensures pad == [] ==> s + p1 + p2 + t == s + (p1 + p2 + t) && pad + (p1 + p2) + t == p1 + p2 + t == p1 + p2 + pad + t == p1 + p2 + t + pad
  {
  }

  method Convert(num: word, base: nat) returns (text: string)
    requires Base(base)
    ensures text == Digits(num, base)
  {
    hide Digits, Quot, Rem;
    var buf := new char[32 / 3 + 2];
    var x: int := buf.Length - 1;
    buf[x] := NUL;
    x := x - 1;
    var xnum := num;
    BufferExactlyFits(num, base);
    LastDigit(xnum, base);
    ghost var done := "";
    var first := true;
    while first || xnum > 0
      invariant -1 <= x <= 10 && done == buf[x + 1..11] && 0 <= xnum < TWO_32
      invariant first ==> xnum == num && x == 10
      invariant if xnum > 0 || first then Digits(num, base) == Digits(xnum, base) + done else Digits(num, base) == done
      decreases first, xnum
    {
      first := false;
      Division(xnum, base);
      LastDigit(xnum, base);
      assert x >= 0;
      buf[x] := DigitChar(Rem(xnum, base));
      done := [DigitChar(Rem(xnum, base))] + done;
      x := x - 1;
      xnum := Quot(xnum, base);
    }
    x := x + 1;
    text := buf[x..11];
  }

  lemma LastDigit(n: nat, b: nat)
    requires Base(b)
    ensures |Digits(n, b)| >= 1
    ensures Rem(n, b) < 16 && Digits(n, b) == (if Quot(n, b) > 0 then Digits(Quot(n, b), b) else "") + [DigitChar(Rem(n, b))]
  {
    hide Quot, Rem;
    Division(n, b);
  }

  /** __vprintf: all of the format's text is sent, and its length returned. */
  method Vprintf(snp: Snp, format: string, ap: seq<Arg>) returns (chars: nat)
    requires snp.Valid() && snp.sent == "" && Ready(RESET, format, ap)
    modifies snp, snp.buf
    ensures snp.Valid() && snp.sent == Render(format, ap) && chars == |Render(format, ap)|
  {
    var pf := new PF(snp, ap);
    for i := 0 to |format|
      invariant pf.Valid() && pf.Clean() && pf.snp == snp && fresh(pf)
      invariant Ready(pf.State(), format[i..], pf.ap)
      invariant snp.sent + Run(pf.State(), format[i..], pf.ap) == Run(RESET, format, ap)
    {
      assert format[i..] == [format[i]] + format[i + 1..];
      pf.SendChar(format[i], format[i + 1..]);
    }
    RunIsRender(format, ap);
    assert format[|format|..] == [];
    chars := pf.charcount;
  }

  lemma Terminated(sent: string, first: string, k: nat)
    requires k <= |sent| && k < |first|
    ensures (sent[..k] + first[k..])[k := NUL] == sent[..k] + [NUL] + first[k + 1..]
  {
  }

  /**
    Main result: vsnprintf stores the first min(total, len - 1) characters and a NUL, changes
    nothing beyond them (nothing at all for len 0), and returns the total.
   */
  method Vsnprintf(buf: array<char>, len: nat, fmt: string, ap: seq<Arg>) returns (chars: nat)
    requires len <= buf.Length && Ready(RESET, fmt, ap)
    modifies buf
    ensures chars == |Render(fmt, ap)|
    ensures if len == 0 then buf[..] == old(buf[..])
            else var k := Min(chars, len - 1);
                 buf[..] == Render(fmt, ap)[..k] + [NUL] + old(buf[k + 1..])
  {
    hide Render, Ready;
    var buflen := if len == 0 then 0 else len - 1;
    var snp := new Snp(buf, buflen);
    chars := Vprintf(snp, fmt, ap);
    if len > 0 {
      ghost var m := buf[..];
      buf[snp.bufpos] := NUL;
      assert buf[..] == m[snp.bufpos := NUL];
      Terminated(snp.sent, snp.first, snp.bufpos);
    }
  }
}
