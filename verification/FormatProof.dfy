/** What the rendered fields look like, and how the reference reads a format piece by piece. */
module FormatProof {
  import opened Words
  import opened Numerals
  import opened Bits
  import opened Format

  // ---------- The printed number ----------

  function Max(a: int, b: int): int {
    if a < b then b else a
  }

  // The number the argument stands for.
  function Meant(v: u32, signed: bool): int {
    if signed then ToS32(v) else v
  }

  // Reading a field back: blanks, an optional sign, then a numeral that may have leading zeros.
  function ReadBack(s: string, base: nat): int {
    if s != "" && s[0] == ' ' then ReadBack(s[1..], base)
    else if s != "" && s[0] == '-' then -(Value(s[1..], base) as int)
    else Value(s, base)
  }

  lemma {:induction false} ZerosAre(n: int, base: nat)
    ensures Value(Repeat('0', n), base) == 0
  {
    if n > 0 {
      ZerosAre(n - 1, base);
      ValueSnoc(Repeat('0', n - 1), '0', base);
    }
  }

  lemma {:induction false} ZerosBefore(n: int, s: string, base: nat)
    ensures Value(Repeat('0', n) + s, base) == Value(s, base)
  {
    if s == "" {
      assert Repeat('0', n) + s == Repeat('0', n);
      ZerosAre(n, base);
    } else {
      var m := |s| - 1;
      assert Repeat('0', n) + s == Repeat('0', n) + s[..m] + [s[m]];
      ZerosBefore(n, s[..m], base);
      ValueSnoc(Repeat('0', n) + s[..m], s[m], base);
    }
  }

  lemma {:induction false} BlanksBefore(n: int, s: string, base: nat)
    ensures ReadBack(Repeat(' ', n) + s, base) == ReadBack(s, base)
  {
    var all := Repeat(' ', n) + s;
    if n > 0 {
      assert all[1..] == Repeat(' ', n - 1) + s;
      BlanksBefore(n - 1, s, base);
    } else {
      assert all == s;
    }
  }

  // The field is as wide as asked, or as the number needs.
  lemma FieldLength(zero: bool, width: int, base: Base, signed: bool, upper: bool, v: u32)
    ensures |RenderInt(zero, width, base, signed, upper, v)| ==
            Max(width, |Sign(v, signed)| + |Digits(Magnitude(v, signed), base, upper)|)
  {
  }

  lemma NumeralStart(s: string, base: nat, upper: bool)
    requires Numeral(s, base, upper)
    ensures s[0] != ' ' && s[0] != '-'
  {
    assert DigitValue(s[0]) < 16;
  }

  lemma SignReads(v: u32, signed: bool, body: string, base: nat)
    requires body != "" && body[0] != ' ' && body[0] != '-'
    ensures ReadBack(Sign(v, signed) + body, base) ==
            if Negative(v, signed) then -(Value(body, base) as int) else Value(body, base)
  {
    var s := Sign(v, signed) + body;
    if Negative(v, signed) {
      assert s[0] == '-' && s[1..] == body;
    } else {
      assert s == body;
    }
  }

  lemma SignedMagnitude(v: u32, signed: bool)
    ensures Meant(v, signed) == if Negative(v, signed) then -(Magnitude(v, signed) as int) else Magnitude(v, signed)
  {
  }

  // Reading a signed body that starts with a digit.
  lemma SignedBody(v: u32, signed: bool, body: string, base: nat)
    requires body != "" && body[0] != ' ' && body[0] != '-'
    requires Value(body, base) == Magnitude(v, signed)
    ensures ReadBack(Sign(v, signed) + body, base) == Meant(v, signed)
  {
    SignReads(v, signed, body, base);
    SignedMagnitude(v, signed);
  }

  lemma ZeroPadded(pad: int, v: u32, signed: bool, digits: string, base: nat, upper: bool)
    requires Numeral(digits, base, upper) && Value(digits, base) == Magnitude(v, signed)
    ensures ReadBack(Sign(v, signed) + (Repeat('0', pad) + digits), base) == Meant(v, signed)
  {
    var body := Repeat('0', pad) + digits;
    assert body[0] != ' ' && body[0] != '-' by {
      NumeralStart(digits, base, upper);
    }
    ZerosBefore(pad, digits, base);
    SignedBody(v, signed, body, base);
  }

  lemma BlankPadded(pad: int, v: u32, signed: bool, digits: string, base: nat, upper: bool)
    requires Numeral(digits, base, upper) && Value(digits, base) == Magnitude(v, signed)
    ensures ReadBack(Repeat(' ', pad) + (Sign(v, signed) + digits), base) == Meant(v, signed)
  {
    NumeralStart(digits, base, upper);
    SignedBody(v, signed, digits, base);
    BlanksBefore(pad, Sign(v, signed) + digits, base);
  }

  lemma Regroup(a: string, b: string, c: string)
    ensures a + b + c == a + (b + c)
  {
  }

  // Padded with blanks or with zeros, signed or not, the field reads back as the argument.
  lemma FieldReadsBack(zero: bool, width: int, base: Base, signed: bool, upper: bool, v: u32)
    ensures ReadBack(RenderInt(zero, width, base, signed, upper, v), base) == Meant(v, signed)
  {
    hide Digits, ReadBack, Repeat, Sign, Meant, Numeral, Value;
    var digits := Digits(Magnitude(v, signed), base, upper);
    DigitsSound(Magnitude(v, signed), base, upper);
    var pad := width - |Sign(v, signed)| - |digits|;
    if zero {
      Regroup(Sign(v, signed), Repeat('0', pad), digits);
      ZeroPadded(pad, v, signed, digits, base, upper);
    } else {
      Regroup(Repeat(' ', pad), Sign(v, signed), digits);
      BlankPadded(pad, v, signed, digits, base, upper);
    }
  }

  // %c and %s: the text, at the right of a field of blanks as wide as asked, or as the text needs.
  lemma TextField(d: Directive, a: Arg)
    requires Takes(d) && Fits(d, a) && !d.conv.Int?
    ensures var text, field := if a.Text? then a.text else [Low8(ToNat(a.bits))], Render(d, a);
      && |field| == Max(Width(d.mods), |text|)
      && field[|field| - |text|..] == text
      && forall i :: 0 <= i < |field| - |text| ==> field[i] == ' '
  {
    hide Width, ToNat, Low8;
  }

  // The integer conversions, for every word: the field's length, and the number read back.
  lemma {:induction false} IntField(d: Directive, a: Arg)
    requires Takes(d) && Fits(d, a) && d.conv.Int?
    ensures var c, v := d.conv, ToNat(a.bits);
      && |Render(d, a)| == Max(Width(d.mods), |Sign(v, c.signed)| + |Digits(Magnitude(v, c.signed), c.base, c.upper)|)
      && ReadBack(Render(d, a), c.base) == Meant(v, c.signed)
  {
    hide RenderInt, Width, ToNat, ReadBack, Digits, Magnitude, Sign;
    var c, v := d.conv, ToNat(a.bits);
    FieldLength(d.zero, Width(d.mods), c.base, c.signed, c.upper, v);
    FieldReadsBack(d.zero, Width(d.mods), c.base, c.signed, c.upper, v);
  }

  // ---------- Width and precision, a character at a time ----------

  lemma {:induction false} PointAfter(s: string, c: char)
    ensures BeforePoint(s + [c]) ==
            if BeforePoint(s) < |s| then BeforePoint(s) else if c == '.' then |s| else |s| + 1
  {
    if s == "" {
      assert s + [c] == [c] && [c][1..] == "";
    } else if s[0] != '.' {
      assert (s + [c])[1..] == s[1..] + [c];
      PointAfter(s[1..], c);
    }
  }

  lemma NumberAfter(s: string, c: char)
    ensures Number(s + [c]) ==
            if '0' <= c <= '9' then (if Number(s) < 0 then 0 else Number(s) * 10) + (c - '0') as int else Number(s)
  {
    assert (s + [c])[..|s|] == s;
    if '0' <= c <= '9' {
      ValueSnoc(Decimal(s), c, 10);
      TimesIs(Value(Decimal(s), 10), 10);
    }
  }

  lemma WidthAfter(s: string, c: char)
    requires Modifier(c)
    ensures Width(s + [c]) ==
            if '0' <= c <= '9' && Precision(s) < 0 then (if Width(s) < 0 then 0 else Width(s) * 10) + (c - '0') as int
            else Width(s)
  {
    PointAfter(s, c);
    PrecisionSign(s);
    var n := BeforePoint(s);
    if n < |s| {
      assert (s + [c])[..n] == s[..n];
    } else {
      assert s[..n] == s;
      if c == '.' {
        assert (s + [c])[..n] == s;
      } else {
        assert (s + [c])[..n + 1] == s + [c];
        NumberAfter(s, c);
      }
    }
  }

  lemma {:induction false} PrecisionSign(s: string)
    ensures Precision(s) < 0 <==> BeforePoint(s) == |s|
    ensures Precision(s) >= -1
  {
  }

  lemma NoNumber()
    ensures Number("") == -1 && BeforePoint("") == 0
  {
  }

  lemma {:induction false} PrecisionAfter(s: string, c: char)
    requires Modifier(c)
    ensures Precision(s + [c]) ==
            if c == '.' then 0
            else if '0' <= c <= '9' && Precision(s) >= 0 then Precision(s) * 10 + (c - '0') as int
            else Precision(s)
  {
    hide Number, BeforePoint, Modifier;
    NoNumber();
    PointAfter(s, c);
    PrecisionSign(s);
    var n := BeforePoint(s);
    if n < |s| {
      var rest := s[n + 1..];
      assert (s + [c])[n + 1..] == rest + [c];
      PrecisionSign(rest);
      PrecisionAfter(rest, c);
      NumberAfter(rest, c);
    } else if c == '.' {
      assert (s + [c])[n + 1..] == "";
    }
  }

  // ---------- The reference, a directive at a time ----------

  lemma {:induction false} ModifiersAre(s: string, n: nat)
    requires n <= |s| && forall i :: 0 <= i < n ==> Modifier(s[i])
    requires n < |s| ==> !Modifier(s[n])
    ensures Modifiers(s) == n
  {
    if n > 0 {
      ModifiersAre(s[1..], n - 1);
    }
  }

  // Where a field stands in a format: '%' at q, its modifiers from b to w.
  ghost predicate InField(fmt: string, q: nat, b: nat, w: nat, zero: bool) {
    && q < b <= w <= |fmt| && fmt[q] == '%'
    && (if zero then b == q + 2 && fmt[q + 1] == '0'
        else b == q + 1 < |fmt| && fmt[q + 1] != '0' && fmt[q + 1] != '%')
    && forall i :: b <= i < w ==> Modifier(fmt[i])
  }

  lemma ParseField(fmt: string, q: nat, b: nat, w: nat, zero: bool)
    requires InField(fmt, q, b, w, zero) && w < |fmt| && !Modifier(fmt[w])
    ensures Parse(fmt[q..]) == Then(Field(zero, fmt[b..w], ConvOf(fmt[w])), Parse(fmt[w + 1..]))
  {
    hide Modifier, Modifiers, ConvOf;
    TailSlices(fmt, q, b, w);
    ModifiersAre(fmt[b..], w - b);
  }

  lemma TailSlices(fmt: string, q: nat, b: nat, w: nat)
    requires q <= b <= w < |fmt|
    ensures fmt[q..][b - q..] == fmt[b..]
    ensures fmt[q..][b - q..w - q] == fmt[b..w] && fmt[q..][w - q + 1..] == fmt[w + 1..]
  {
  }

  lemma ParseCut(fmt: string, q: nat, b: nat, zero: bool)
    requires InField(fmt, q, b, |fmt|, zero)
    ensures Parse(fmt[q..]) == Then(Cut(fmt[b..]), Done)
  {
    var s, start := fmt[q..], b - q;
    assert s[start..] == fmt[b..];
    ModifiersAre(fmt[b..], |fmt| - b);
  }

  lemma ParseLit(fmt: string, q: nat)
    requires q < |fmt| && fmt[q] != '%'
    ensures Parse(fmt[q..]) == Then(Lit(fmt[q]), Parse(fmt[q + 1..]))
  {
    assert fmt[q..][1..] == fmt[q + 1..];
  }

  lemma ParsePercent(fmt: string, q: nat)
    requires q + 1 < |fmt| && fmt[q] == '%' == fmt[q + 1]
    ensures Parse(fmt[q..]) == Then(Lit('%'), Parse(fmt[q + 2..]))
  {
    assert fmt[q..][2..] == fmt[q + 2..];
  }
}
