/** alt_printf: the one-letter printer, its shift-and-mask hexadecimal, and how it agrees with the log printer. */
module AltPrintf {
  import opened Words
  import opened Numerals
  import opened Bits
  import opened Format
  import opened FormatProof

  // The characters put to stdout.
  class Console {
    var sent: string

    constructor ()
      ensures sent == ""
    {
      sent := "";
    }

    // alt_putchar.
    method Putchar(c: char)
      modifies this
      ensures sent == old(sent) + [c]
    {
      sent := sent + [c];
    }

    // The shift that brings the leading digit of v to the bottom.
    method FirstDigit(v: bv32) returns (shift: int)
      requires v != 0
      ensures 0 <= shift <= 28 && shift % 4 == 0
      ensures Low(v, shift / 4 + 1) == ToNat(v) && Nibble(Shifted(v, shift / 4)) != 0
    {
      hide *;
      ghost var k := 7;
      shift := 28;
      FromTop(v);
      while Both(v, Mask(shift / 4)) == 0
        invariant 0 <= k < 8 && shift == 4 * k
        invariant Low(v, k + 1) == ToNat(v) && Shifted(v, k + 1) == 0
        decreases k
      {
        SkipZero(v, k);
        k := k - 1;
        shift := shift - 4;
      }
      MaskedNibble(v, k);
    }

    // The digit that nibble k holds.
    method PutDigit(v: bv32, k: nat) returns (ghost d: nat)
      modifies this
      ensures d == Nibble(Shifted(v, k)) && sent == old(sent) + [Digit(d, false)]
    {
      var digit := Nibble(Shifted(Both(v, Mask(k)), k));
      MaskedNibble(v, k);
      d := digit;
      if digit <= 9 {
        Putchar('0' + digit as char);
      } else {
        Putchar('a' + digit as char - 10 as char);
      }
    }

    // %x.
    method PutHex(v: bv32)
      modifies this
      ensures sent == old(sent) + Digits(ToNat(v), 16, false)
    {
      hide *;
      if v == 0 {
        FromTop(v);
        LowZero(v, 8);
        ZeroDigits(ToNat(v));
        Putchar('0');
        return;
      }
      var shift := FirstDigit(v);
      ghost var digits: string, left: nat, before := "", shift / 4 + 1, sent;
      HexStarts(v, left);
      while shift >= 0
        invariant 0 <= left <= 8 && shift == 4 * left - 4
        invariant Printed(v, left, digits) && sent == before + digits
      {
        var d := PutDigit(v, shift / 4);
        HexOn(v, left, digits);
        Regroup(before, digits, [Digit(d, false)]);
        digits := digits + [Digit(d, false)];
        left := left - 1;
        shift := shift - 4;
      }
      HexEnds(v, digits);
    }

    // %s.
    method PutText(s: CString)
      modifies this
      ensures sent == old(sent) + s
    {
      for i := 0 to |s|
        invariant sent == old(sent) + s[..i]
      {
        Putchar(s[i]);
      }
      assert s[..|s|] == s;
    }

    // The letter after a '%'.  `args` are the arguments not taken yet.
    method Convert(c: char, args: Args) returns (rest: Args)
      requires c != '%'
      requires Takes(Small(c)) ==> args.Next? && Fits(Small(c), args.arg)
      modifies this
      ensures rest == (if Takes(Small(c)) then args.rest else args)
      ensures sent == old(sent) + if Takes(Small(c)) then Render(Small(c), args.arg) else ""
    {
      rest := args;
      if c == 'c' {
        BareRender(args.arg, c);
        Putchar(Low8(ToNat(args.arg.bits)));
        rest := args.rest;
      } else if c == 'x' {
        BareRender(args.arg, c);
        PutHex(args.arg.bits);
        rest := args.rest;
      } else if c == 's' {
        BareRender(args.arg, c);
        PutText(args.arg.text);
        rest := args.rest;
      }
    }

    // alt_printf.
    method Printf(fmt: CString, args: Args)
      requires Proper(ParseSmall(fmt), args)
      modifies this
      ensures sent == old(sent) + Output(ParseSmall(fmt), args)
    {
      hide *;
      var w, left := 0, args;
      ghost var total := sent + Output(ParseSmall(fmt), args);
      Start(fmt, args, sent);
      while w < |fmt|
        invariant w <= |fmt| && Due(fmt, w, left, sent, total)
      {
        var c := fmt[w];
        w := w + 1;
        if c != '%' {
          StepLit(fmt, w - 1, left, sent, total);
          Putchar(c);
        } else if w < |fmt| {
          c := fmt[w];
          w := w + 1;
          if c == '%' {
            StepPercent(fmt, w - 2, left, sent, total);
            Putchar(c);
          } else {
            StepLetter(fmt, w - 2, left, sent, total);
            left := Convert(c, left);
          }
        } else {
          Stop(fmt, w - 1, left, sent, total);
          return;
        }
      }
      Finish(fmt, left, sent, total);
    }
  }

  // The field a letter makes.
  function Small(c: char): Directive {
    Field(false, "", ConvOfSmall(c))
  }

  // ---------- Hexadecimal ----------

  lemma FromTop(v: bv32)
    ensures Low(v, 8) == ToNat(v) && Shifted(v, 8) == 0
  {
    hide Low, Shifted;
    ShiftedAway(v);
  }

  lemma MaskedNibble(v: bv32, k: nat)
    ensures Nibble(Shifted(Both(v, Mask(k)), k)) == Nibble(Shifted(v, k))
    ensures Both(v, Mask(k)) == 0 <==> Nibble(Shifted(v, k)) == 0
  {
    hide Nibble, Shifted, Mask, Both;
    Masked(v, k);
    NibbleMask(Shifted(v, k));
  }

  // A leading zero nibble adds nothing, and is not the last.
  lemma SkipZero(v: bv32, k: nat)
    requires v != 0 && Both(v, Mask(k)) == 0 && Shifted(v, k + 1) == 0
    ensures k > 0 && Shifted(v, k) == 0 && Low(v, k) == Low(v, k + 1)
  {
    hide Nibble, Low, Mask, Both, Down;
    MaskedNibble(v, k);
    ShiftedMore(v, k);
    NibbleMask(Shifted(v, k));
    LowTop(v, k);
  }

  lemma ZeroDigits(v: nat)
    requires v == 0
    ensures Digits(v, 16, false) == "0"
  {
  }

  // The digits printed are those above the `left` low nibbles.
  ghost predicate Printed(v: bv32, left: nat, digits: string) {
    && Times(Value(digits, 16), Pow(16, left)) + Low(v, left) == ToNat(v)
    && (digits != "" ==> Canonical(digits, 16, false) && digits[0] != '0')
    && (digits == "" ==> left > 0 && Nibble(Shifted(v, left - 1)) != 0)
  }

  lemma HexStarts(v: bv32, left: nat)
    requires left > 0 && Low(v, left) == ToNat(v) && Nibble(Shifted(v, left - 1)) != 0
    ensures Printed(v, left, "")
  {
    hide Low, Nibble, Shifted, ToNat;
  }

  lemma HexOn(v: bv32, left: nat, digits: string)
    requires left > 0 && Printed(v, left, digits)
    ensures Printed(v, left - 1, digits + [Digit(Nibble(Shifted(v, left - 1)), false)])
  {
    hide Low, Nibble, Shifted, ToNat, Value, Digit, Numeral;
    var d := Nibble(Shifted(v, left - 1));
    LowTop(v, left - 1);
    PrintText(digits, d, 16, false);
    PrintStep(Value(digits, 16), Low(v, left), d, Low(v, left - 1), 16, Pow(16, left - 1));
  }

  lemma HexEnds(v: bv32, digits: string)
    requires Printed(v, 0, digits)
    ensures digits == Digits(ToNat(v), 16, false)
  {
    hide Nibble, Shifted, ToNat;
    TimesOne(Value(digits, 16));
    DigitsUnique(digits, ToNat(v), 16, false);
  }

  // A field without modifiers is not padded.
  lemma BareRender(a: Arg, c: char)
    requires Takes(Small(c)) && Fits(Small(c), a)
    ensures c == 'c' ==> Render(Small(c), a) == [Low8(ToNat(a.bits))]
    ensures c == 'x' ==> Render(Small(c), a) == Digits(ToNat(a.bits), 16, false)
    ensures c == 's' ==> Render(Small(c), a) == a.text
  {
    hide ToNat, Digits;
    NoWidth();
  }

  lemma NoWidth()
    ensures Width("") == -1 && Precision("") == -1
  {
  }

  // ---------- Steps through the format ----------

  ghost predicate Due(fmt: string, w: nat, args: Args, sent: string, total: string) {
    && w <= |fmt|
    && Proper(ParseSmall(fmt[w..]), args)
    && sent + Output(ParseSmall(fmt[w..]), args) == total
  }

  lemma Start(fmt: string, args: Args, sent: string)
    requires Proper(ParseSmall(fmt), args)
    ensures Due(fmt, 0, args, sent, sent + Output(ParseSmall(fmt), args))
  {
    assert fmt[0..] == fmt;
  }

  lemma StepLit(fmt: string, w: nat, args: Args, sent: string, total: string)
    requires w < |fmt| && fmt[w] != '%' && Due(fmt, w, args, sent, total)
    ensures Due(fmt, w + 1, args, sent + [fmt[w]], total)
  {
    assert fmt[w..][1..] == fmt[w + 1..];
    Regroup(sent, [fmt[w]], Output(ParseSmall(fmt[w + 1..]), args));
  }

  lemma StepPercent(fmt: string, w: nat, args: Args, sent: string, total: string)
    requires w + 1 < |fmt| && fmt[w] == '%' == fmt[w + 1] && Due(fmt, w, args, sent, total)
    ensures Due(fmt, w + 2, args, sent + ['%'], total)
  {
    assert fmt[w..][2..] == fmt[w + 2..];
    Regroup(sent, ['%'], Output(ParseSmall(fmt[w + 2..]), args));
  }

  lemma StepLetter(fmt: string, w: nat, args: Args, sent: string, total: string)
    requires w + 1 < |fmt| && fmt[w] == '%' != fmt[w + 1] && Due(fmt, w, args, sent, total)
    ensures var d := Small(fmt[w + 1]);
            if Takes(d) then
              args.Next? && Fits(d, args.arg) && Due(fmt, w + 2, args.rest, sent + Render(d, args.arg), total)
            else
              Due(fmt, w + 2, args, sent + "", total)
  {
    var d := Small(fmt[w + 1]);
    assert fmt[w..][2..] == fmt[w + 2..];
    if Takes(d) {
      Regroup(sent, Render(d, args.arg), Output(ParseSmall(fmt[w + 2..]), args.rest));
    } else {
      Regroup(sent, "", Output(ParseSmall(fmt[w + 2..]), args));
    }
  }

  // A '%' that ends the format.
  lemma Stop(fmt: string, w: nat, args: Args, sent: string, total: string)
    requires w + 1 == |fmt| && fmt[w] == '%' && Due(fmt, w, args, sent, total)
    ensures sent == total
  {
    assert fmt[w..] == "%";
    assert Output(Done, args) == "" && Plain(Cut("")) == "";
    assert sent + "" == sent;
  }

  lemma Finish(fmt: string, args: Args, sent: string, total: string)
    requires Due(fmt, |fmt|, args, sent, total)
    ensures sent == total
  {
    assert fmt[|fmt|..] == "" && sent + "" == sent;
  }

  // ---------- Agreement with the log printer ----------

  // Every '%' is followed by a letter both printers read alike, or by the end.
  predicate Shared(fmt: string) {
    if fmt == "" || fmt == "%" then true
    else if fmt[0] != '%' then Shared(fmt[1..])
    else !Modifier(fmt[1]) && ConvOf(fmt[1]) == ConvOfSmall(fmt[1]) && Shared(fmt[2..])
  }

  // The two printers read a format alike exactly when it is shared.
  lemma {:induction false} ReadAlike(fmt: string)
    ensures ParseSmall(fmt) == Parse(fmt) <==> Shared(fmt)
    decreases |fmt|
  {
    if fmt == "" || fmt == "%" {
    } else if fmt[0] != '%' {
      ReadAlike(fmt[1..]);
    } else if fmt[1] == '%' {
      ReadAlike(fmt[2..]);
    } else if !Modifier(fmt[1]) {
      assert fmt[1..1] == "";
      ReadAlike(fmt[2..]);
    } else {
      Modified(fmt);
    }
  }

  lemma Modified(fmt: string)
    requires |fmt| > 1 && fmt[0] == '%' && Modifier(fmt[1])
    ensures ParseSmall(fmt) != Parse(fmt)
  {
    var d := Parse(fmt).first;
    if fmt[1] != '0' {
      assert Modifiers(fmt[1..]) > 0;
      assert d.mods != "";
    }
  }

  // On shared formats they print the same text.
  lemma PrintAlike(fmt: string, args: Args)
    requires Shared(fmt) && Proper(Parse(fmt), args)
    ensures Proper(ParseSmall(fmt), args) && Output(ParseSmall(fmt), args) == Output(Parse(fmt), args)
  {
    ReadAlike(fmt);
  }

  // Every word prints alike with %x: its canonical hexadecimal digits.
  lemma HexAlike(v: bv32)
    ensures var args := Next(Word(v), NoMore);
      && Proper(Parse("%x"), args) && Proper(ParseSmall("%x"), args)
      && Output(Parse("%x"), args) == Output(ParseSmall("%x"), args) == Digits(ToNat(v), 16, false)
  {
    hide ToNat, Digits;
    var args, d := Next(Word(v), NoMore), Small('x');
    assert "%x"[2..] == "" && "%x"[1..1] == "" && "%x"[1..] == "x";
    assert Shared("%x");
    ReadAlike("%x");
    NoWidth();
    assert ParseSmall("%x") == Then(d, Done);
    BareRender(args.arg, 'x');
    assert Output(Done, NoMore) == "";
    assert Digits(ToNat(v), 16, false) + "" == Digits(ToNat(v), 16, false);
  }
}
