/** What a format prints, letter by letter, said without the tables and the layout the printers share. */
module LetterProof {
  import opened Words
  import opened Numerals
  import opened Bits
  import opened Format
  import opened FormatProof

  // ---------- A field at the start of a format ----------

  // "%", perhaps "0", modifiers, a letter.
  function FieldOf(zero: bool, mods: string, c: char): string {
    (if zero then "%0" else "%") + mods + [c]
  }

  // What may stand between the '%' and the letter: a point, an 'l' or a decimal digit.
  predicate Inside(c: char) {
    c in ".l0123456789"
  }

  lemma InsideIs(c: char)
    ensures Inside(c) <==> Modifier(c)
  {
  }

  // The text reads as one field: the letter ends it, and neither '0' nor '%' is misread at its start.
  ghost predicate Field1(zero: bool, mods: string, c: char) {
    && (forall i :: 0 <= i < |mods| ==> Inside(mods[i])) && !Inside(c)
    && (!zero ==> if mods == "" then c != '%' else mods[0] != '0')
  }

  lemma FieldReads(zero: bool, mods: string, c: char, tail: string)
    requires Field1(zero, mods, c)
    ensures Parse(FieldOf(zero, mods, c) + tail) == Then(Field(zero, mods, ConvOf(c)), Parse(tail))
  {
    var fmt, b := FieldOf(zero, mods, c) + tail, if zero then 2 else 1;
    var w := b + |mods|;
    FieldStands(zero, mods, c, tail);
    ParseField(fmt, 0, b, w, zero);
    assert fmt[0..] == fmt;
  }

  lemma FieldStands(zero: bool, mods: string, c: char, tail: string)
    requires Field1(zero, mods, c)
    ensures var fmt, b := FieldOf(zero, mods, c) + tail, if zero then 2 else 1;
      var w := b + |mods|;
      && w < |fmt| && InField(fmt, 0, b, w, zero) && fmt[w] == c && fmt[b..w] == mods && fmt[w + 1..] == tail
  {
    hide Inside;
    var fmt, b := FieldOf(zero, mods, c) + tail, if zero then 2 else 1;
    InsideIs(c);
    assert forall i :: 0 <= i < |mods| ==> fmt[b + i] == mods[i];
    forall i | b <= i < b + |mods| ensures Modifier(fmt[i]) {
      assert fmt[i] == mods[i - b];
      InsideIs(fmt[i]);
    }
  }

  predicate Converts(c: char) {
    c == 'd' || c == 'i' || c == 'u' || c == 'o' || c == 'x' || c == 'X' || c == 'c' || c == 's'
  }

  // A field that takes an argument prints as it would alone; the rest of the format takes the rest.
  lemma FieldThenRest(zero: bool, mods: string, c: char, tail: string, a: Arg, more: Args)
    requires Field1(zero, mods, c) && Converts(c)
    requires Proper(Parse(FieldOf(zero, mods, c) + tail), Next(a, more))
    ensures Proper(Parse(FieldOf(zero, mods, c)), Next(a, NoMore)) && Proper(Parse(tail), more)
    ensures Output(Parse(FieldOf(zero, mods, c) + tail), Next(a, more)) ==
            Output(Parse(FieldOf(zero, mods, c)), Next(a, NoMore)) + Output(Parse(tail), more)
  {
    hide Render, FitInt;
    FieldReads(zero, mods, c, tail);
    FieldAlone(zero, mods, c);
    Alone(Field(zero, mods, ConvOf(c)), a);
  }

  lemma FieldAlone(zero: bool, mods: string, c: char)
    requires Field1(zero, mods, c)
    ensures Parse(FieldOf(zero, mods, c)) == Then(Field(zero, mods, ConvOf(c)), Done)
  {
    FieldReads(zero, mods, c, "");
    assert FieldOf(zero, mods, c) + "" == FieldOf(zero, mods, c);
  }

  lemma Alone(d: Directive, a: Arg)
    requires Takes(d) && Fits(d, a) && FitInt(d.mods)
    ensures Proper(Then(d, Done), Next(a, NoMore)) && Output(Then(d, Done), Next(a, NoMore)) == Render(d, a)
  {
    hide Render, FitInt;
    assert Output(Done, NoMore) == "";
    assert Render(d, a) + "" == Render(d, a);
  }

  // A letter that is none of these prints nothing and takes nothing.
  lemma UnknownThenRest(zero: bool, mods: string, c: char, tail: string, args: Args)
    requires Field1(zero, mods, c) && !Converts(c)
    requires Proper(Parse(FieldOf(zero, mods, c) + tail), args)
    ensures Proper(Parse(tail), args)
    ensures Output(Parse(FieldOf(zero, mods, c) + tail), args) == Output(Parse(tail), args)
  {
    FieldReads(zero, mods, c, tail);
    assert "" + Output(Parse(tail), args) == Output(Parse(tail), args);
  }

  // Any other character prints itself, "%%" prints '%', and a field the format ends in prints nothing.
  lemma CharThenRest(c: char, tail: string, args: Args)
    requires c != '%' && Proper(Parse([c] + tail), args)
    ensures Proper(Parse(tail), args) && Output(Parse([c] + tail), args) == [c] + Output(Parse(tail), args)
  {
    assert ([c] + tail)[1..] == tail;
  }

  lemma PercentThenRest(tail: string, args: Args)
    requires Proper(Parse("%%" + tail), args)
    ensures Proper(Parse(tail), args) && Output(Parse("%%" + tail), args) == ['%'] + Output(Parse(tail), args)
  {
    assert ("%%" + tail)[2..] == tail;
  }

  lemma NothingPrinted(args: Args)
    ensures Proper(Parse(""), args) && Output(Parse(""), args) == ""
    ensures Proper(Parse("%"), args) && Output(Parse("%"), args) == ""
  {
    assert Precision("") == -1 && Width("") == -1;
    assert Output(Done, args) == "" && Plain(Cut("")) == "";
  }

  lemma CutField(zero: bool, mods: string, args: Args)
    requires (forall i :: 0 <= i < |mods| ==> Inside(mods[i])) && mods != "" && (!zero ==> mods[0] != '0')
    requires Proper(Parse((if zero then "%0" else "%") + mods), args)
    ensures Output(Parse((if zero then "%0" else "%") + mods), args) == ""
  {
    hide Modifier, InField, Parse, FitInt;
    var fmt, b := (if zero then "%0" else "%") + mods, if zero then 2 else 1;
    CutStands(zero, mods);
    ParseCut(fmt, 0, b, zero);
    assert fmt[0..] == fmt;
    assert Output(Done, args) == "" && Plain(Cut(fmt[b..])) == "";
  }

  lemma CutStands(zero: bool, mods: string)
    requires (forall i :: 0 <= i < |mods| ==> Inside(mods[i])) && mods != "" && (!zero ==> mods[0] != '0')
    ensures var fmt := (if zero then "%0" else "%") + mods;
      InField(fmt, 0, if zero then 2 else 1, |fmt|, zero)
  {
    var fmt, b := (if zero then "%0" else "%") + mods, if zero then 2 else 1;
    assert forall i :: 0 <= i < |mods| ==> fmt[b + i] == mods[i];
    forall i | b <= i < |fmt| ensures Modifier(fmt[i]) {
      assert fmt[i] == mods[i - b];
      InsideIs(fmt[i]);
    }
    InsideIs(mods[0]);
  }

  // ---------- Modifiers ----------

  predicate Decimals(s: string) {
    forall i :: 0 <= i < |s| ==> '0' <= s[i] <= '9'
  }

  // What may follow the width without changing it: 'l's, then perhaps a point and anything.
  predicate Ignored(s: string) {
    s == "" || (s[0] == 'l' && Ignored(s[1..])) || (s[0] == '.' && forall i :: 0 <= i < |s| ==> Inside(s[i]))
  }

  lemma {:induction false} DecimalOf(s: string)
    requires Decimals(s)
    ensures Decimal(s) == s
  {
    if s != "" {
      DecimalOf(s[..|s| - 1]);
    }
  }

  lemma {:induction false} IgnoredPoint(s: string)
    requires Ignored(s)
    ensures forall i :: 0 <= i < BeforePoint(s) ==> s[i] == 'l'
    ensures forall i :: 0 <= i < |s| ==> Inside(s[i])
  {
    if s != "" && s[0] == 'l' {
      IgnoredPoint(s[1..]);
    }
  }

  lemma {:induction false} PointBehind(ds: string, s: string)
    requires Decimals(ds)
    ensures BeforePoint(ds + s) == |ds| + BeforePoint(s)
  {
    if ds == "" {
      assert ds + s == s;
    } else {
      assert (ds + s)[1..] == ds[1..] + s;
      PointBehind(ds[1..], s);
    }
  }

  lemma {:induction false} DecimalBefore(ds: string, ls: string)
    requires Decimals(ds) && forall i :: 0 <= i < |ls| ==> ls[i] == 'l'
    ensures Decimal(ds + ls) == ds
  {
    if ls == "" {
      assert ds + ls == ds;
      DecimalOf(ds);
    } else {
      assert (ds + ls)[..|ds + ls| - 1] == ds + ls[..|ls| - 1];
      DecimalBefore(ds, ls[..|ls| - 1]);
    }
  }

  // The width is the number the digits spell, whatever follows.
  lemma WidthIs(ds: string, rest: string)
    requires Decimals(ds) && Ignored(rest)
    ensures Width(ds + rest) == if ds == "" then -1 else Value(ds, 10)
  {
    hide Inside, Ignored;
    var n := BeforePoint(rest);
    IgnoredPoint(rest);
    PointBehind(ds, rest);
    assert (ds + rest)[..|ds| + n] == ds + rest[..n];
    DecimalBefore(ds, rest[..n]);
  }

  // A width that is an int is all that is asked of a field without a point.
  lemma {:induction false} WidthFits(ds: string, ls: string)
    requires Decimals(ds) && Value(ds, 10) < 0x8000_0000 && forall i :: 0 <= i < |ls| ==> ls[i] == 'l'
    ensures FitInt(ds + ls)
    decreases |ds| + |ls|
  {
    var m := ds + ls;
    AllIgnored(ls);
    WidthIs(ds, ls);
    NoPoint(ds, ls);
    if ls != "" {
      assert m[..|m| - 1] == ds + ls[..|ls| - 1];
      WidthFits(ds, ls[..|ls| - 1]);
    } else if ds != "" {
      var front := ds[..|ds| - 1];
      assert m[..|m| - 1] == front + "";
      TimesIs(Value(front, 10), 10);
      WidthFits(front, "");
    }
  }

  lemma {:induction false} AllIgnored(ls: string)
    requires forall i :: 0 <= i < |ls| ==> ls[i] == 'l'
    ensures Ignored(ls)
  {
    if ls != "" {
      AllIgnored(ls[1..]);
    }
  }

  lemma NoPoint(ds: string, ls: string)
    requires Decimals(ds) && forall i :: 0 <= i < |ls| ==> ls[i] == 'l'
    ensures Precision(ds + ls) == -1
  {
    PointBehind(ds, ls);
    AllIgnored(ls);
    IgnoredPoint(ls);
    PrecisionSign(ds + ls);
  }

  // ---------- What each letter prints ----------

  // What an integer letter means: the number it prints of the word v, and the base; X prints capitals.
  predicate IntLetter(c: char) {
    c == 'd' || c == 'i' || c == 'u' || c == 'o' || c == 'x' || c == 'X'
  }

  function NumberMeant(c: char, v: bv32): int {
    if c == 'd' || c == 'i' then ToS32(ToNat(v)) else ToNat(v)
  }

  function BaseMeant(c: char): Base {
    if c == 'o' then 8 else if c == 'x' || c == 'X' then 16 else 10
  }

  // A number of these digits in a field: blanks before the sign, or zeros after it.
  function Laid(zero: bool, width: int, negative: bool, digits: string): string {
    var sign := if negative then "-" else "";
    var pad := width - |sign| - |digits|;
    if zero then sign + Repeat('0', pad) + digits else Repeat(' ', pad) + sign + digits
  }

  function AbsOf(value: int): nat {
    if value < 0 then -value else value
  }

  function WidthOf(ds: string): int {
    if ds == "" then -1 else Value(ds, 10)
  }

  ghost predicate Written(zero: bool, ds: string, rest: string, c: char) {
    Decimals(ds) && Ignored(rest) && FitInt(ds + rest) && Field1(zero, ds + rest, c)
  }

  // Alone in a format, a written field prints its directive, with the width its digits spell.
  lemma FieldPrinted(zero: bool, ds: string, rest: string, c: char, a: Arg, d: Directive)
    requires Written(zero, ds, rest, c) && d == Field(zero, ds + rest, ConvOf(c)) && Takes(d) && Fits(d, a)
    ensures var fmt, args := FieldOf(zero, ds + rest, c), Next(a, NoMore);
      && Proper(Parse(fmt), args) && Output(Parse(fmt), args) == Render(d, a)
    ensures Width(d.mods) == WidthOf(ds)
  {
    hide Width, FitInt, Field1, Parse, Output, Proper, FieldOf, Decimals, Ignored, Render, ConvOf, Fits;
    WidthIs(ds, rest);
    FieldAlone(zero, ds + rest, c);
    Alone(d, a);
  }

  // Every integer letter, width and word: the field is laid out around the one canonical numeral, in the
  // letter's base and case, of the number it stands for; and it reads back as that number.
  lemma {:induction false} IntPrinted(zero: bool, ds: string, rest: string, c: char, v: bv32)
    requires Written(zero, ds, rest, c) && IntLetter(c)
    ensures var fmt, args := FieldOf(zero, ds + rest, c), Next(Word(v), NoMore);
      var number, base := NumberMeant(c, v), BaseMeant(c);
      && Proper(Parse(fmt), args)
      && (forall digits :: Canonical(digits, base, c == 'X') && Value(digits, base) == AbsOf(number) ==>
            Output(Parse(fmt), args) == Laid(zero, WidthOf(ds), number < 0, digits))
      && ReadBack(Output(Parse(fmt), args), base) == number
  {
    hide *;
    var d := Field(zero, ds + rest, ConvOf(c));
    LetterConverts(d, c, v);
    FieldPrinted(zero, ds, rest, c, Word(v), d);
    IntField(d, Word(v));
    forall digits | Canonical(digits, BaseMeant(c), c == 'X') && Value(digits, BaseMeant(c)) == AbsOf(NumberMeant(c, v))
      ensures Render(d, Word(v)) == Laid(zero, WidthOf(ds), NumberMeant(c, v) < 0, digits)
    {
      IntRendered(d, v, NumberMeant(c, v), digits);
    }
  }

  lemma LetterConverts(d: Directive, c: char, v: bv32)
    requires IntLetter(c) && d.Field? && d.conv == ConvOf(c)
    ensures Takes(d) && Fits(d, Word(v)) && d.conv.Int?
    ensures d.conv.base == BaseMeant(c) && d.conv.upper == (c == 'X')
    ensures NumberMeant(c, v) == Meant(ToNat(v), d.conv.signed)
  {
    hide ToNat, ToS32;
  }

  lemma IntRendered(d: Directive, v: bv32, value: int, digits: string)
    requires d.Field? && d.conv.Int? && value == Meant(ToNat(v), d.conv.signed)
    requires Canonical(digits, d.conv.base, d.conv.upper) && Value(digits, d.conv.base) == AbsOf(value)
    ensures Render(d, Word(v)) == Laid(d.zero, Width(d.mods), value < 0, digits)
  {
    hide ToNat, Width, Digits, Meant, Repeat, Canonical, Value;
    SignedMagnitude(ToNat(v), d.conv.signed);
    DigitsUnique(digits, AbsOf(value), d.conv.base, d.conv.upper);
  }

  // %c: the character of the low eight bits.
  lemma CharPrinted(zero: bool, ds: string, rest: string, v: bv32)
    requires Written(zero, ds, rest, 'c')
    ensures var fmt, args := FieldOf(zero, ds + rest, 'c'), Next(Word(v), NoMore);
      && Proper(Parse(fmt), args)
      && Output(Parse(fmt), args) == Repeat(' ', WidthOf(ds) - 1) + [(ToNat(v) % 256) as char]
  {
    hide ToNat, Width, WidthOf, Written, FieldOf, Parse, Output, Proper, Repeat;
    FieldPrinted(zero, ds, rest, 'c', Word(v), Field(zero, ds + rest, Chr));
  }

  // %s: the text.
  lemma TextPrinted(zero: bool, ds: string, rest: string, s: CString)
    requires Written(zero, ds, rest, 's') && |s| < 0x8000_0000
    ensures var fmt, args := FieldOf(zero, ds + rest, 's'), Next(Text(s), NoMore);
      && Proper(Parse(fmt), args)
      && Output(Parse(fmt), args) == Repeat(' ', WidthOf(ds) - |s|) + s
  {
    hide *;
    var d := Field(zero, ds + rest, ConvOf('s'));
    TextRendered(d, s);
    FieldPrinted(zero, ds, rest, 's', Text(s), d);
  }

  lemma TextRendered(d: Directive, s: CString)
    requires d.Field? && d.conv == ConvOf('s') && |s| < 0x8000_0000
    ensures Takes(d) && Fits(d, Text(s)) && Render(d, Text(s)) == Repeat(' ', Width(d.mods) - |s|) + s
  {
    hide Width, Repeat;
  }

  // ---------- The same of alt_printf ----------

  lemma SmallReads(c: char, tail: string)
    requires c != '%'
    ensures ParseSmall(['%', c] + tail) == Then(Field(false, "", ConvOfSmall(c)), ParseSmall(tail))
  {
    assert (['%', c] + tail)[2..] == tail;
  }

  lemma SmallAlone(c: char)
    requires c != '%'
    ensures ParseSmall(['%', c]) == Then(Field(false, "", ConvOfSmall(c)), Done)
  {
    SmallReads(c, "");
    assert ['%', c] + "" == ['%', c];
  }

  lemma NoModifiers()
    ensures FitInt("") && Width("") == -1
  {
    assert Precision("") == -1;
  }

  lemma SmallThenRest(c: char, tail: string, a: Arg, more: Args)
    requires (c == 'x' || c == 'c' || c == 's') && Proper(ParseSmall(['%', c] + tail), Next(a, more))
    ensures Proper(ParseSmall(['%', c]), Next(a, NoMore)) && Proper(ParseSmall(tail), more)
    ensures Output(ParseSmall(['%', c] + tail), Next(a, more)) ==
            Output(ParseSmall(['%', c]), Next(a, NoMore)) + Output(ParseSmall(tail), more)
  {
    hide Render, FitInt;
    SmallReads(c, tail);
    SmallAlone(c);
    Alone(Field(false, "", ConvOfSmall(c)), a);
  }

  lemma SmallUnknown(c: char, tail: string, args: Args)
    requires c != '%' && c != 'x' && c != 'c' && c != 's' && Proper(ParseSmall(['%', c] + tail), args)
    ensures Proper(ParseSmall(tail), args) && Output(ParseSmall(['%', c] + tail), args) == Output(ParseSmall(tail), args)
  {
    SmallReads(c, tail);
    assert "" + Output(ParseSmall(tail), args) == Output(ParseSmall(tail), args);
  }

  lemma SmallChar(c: char, tail: string, args: Args)
    requires c != '%' && Proper(ParseSmall([c] + tail), args)
    ensures Proper(ParseSmall(tail), args) && Output(ParseSmall([c] + tail), args) == [c] + Output(ParseSmall(tail), args)
  {
    assert ([c] + tail)[1..] == tail;
  }

  lemma SmallPercent(tail: string, args: Args)
    requires Proper(ParseSmall("%%" + tail), args)
    ensures Proper(ParseSmall(tail), args) && Output(ParseSmall("%%" + tail), args) == ['%'] + Output(ParseSmall(tail), args)
  {
    assert ("%%" + tail)[2..] == tail;
  }

  // %x prints the one canonical lower-case hexadecimal numeral of the word.
  lemma {:induction false} SmallHex(v: bv32)
    ensures var args := Next(Word(v), NoMore);
      && Proper(ParseSmall("%x"), args)
      && Canonical(Output(ParseSmall("%x"), args), 16, false)
      && Value(Output(ParseSmall("%x"), args), 16) == ToNat(v)
  {
    hide ToNat, Width, FitInt, Digits, ParseSmall, Output, Proper, Render, Canonical, Value;
    NoModifiers();
    SmallAlone('x');
    Alone(Field(false, "", Int(16, false, false)), Word(v));
    HexRendered(v);
    DigitsSound(ToNat(v), 16, false);
  }

  lemma HexRendered(v: bv32)
    ensures Render(Field(false, "", Int(16, false, false)), Word(v)) == Digits(ToNat(v), 16, false)
  {
    hide ToNat, Width, Digits;
    NoModifiers();
    var digits := Digits(ToNat(v), 16, false);
    assert "" + "" + digits == digits;
  }

  // %c and %s print the character of the low eight bits, and the text.
  lemma SmallPlain(v: bv32, s: CString)
    requires |s| < 0x8000_0000
    ensures var args := Next(Word(v), NoMore);
      Proper(ParseSmall("%c"), args) && Output(ParseSmall("%c"), args) == [(ToNat(v) % 256) as char]
    ensures var args := Next(Text(s), NoMore);
      Proper(ParseSmall("%s"), args) && Output(ParseSmall("%s"), args) == s
  {
    hide ToNat, Width, FitInt, ParseSmall, Output, Proper;
    NoModifiers();
    SmallAlone('c');
    SmallAlone('s');
    Alone(Field(false, "", Chr), Word(v));
    Alone(Field(false, "", Str), Text(s));
  }

  // ---------- Digits ----------

  // The digit characters, in order.
  lemma DigitTable(d: nat)
    requires d < 16
    ensures Digit(d, false) == "0123456789abcdef"[d]
    ensures Digit(d, true) == "0123456789ABCDEF"[d]
  {
    if d < 8 {
      LowDigits(d);
    } else {
      HighDigits(d);
    }
  }

  lemma LowDigits(d: nat)
    requires d < 8
    ensures Digit(d, false) == Digit(d, true) == "0123456789abcdef"[d] == "0123456789ABCDEF"[d]
  {
  }

  lemma HighDigits(d: nat)
    requires 8 <= d < 16
    ensures Digit(d, false) == "0123456789abcdef"[d] && Digit(d, true) == "0123456789ABCDEF"[d]
  {
  }
}
