/** alt_log_private_printf: the format state machine and its digit loops, proved against the reference. */
module LogPrintf {
  import opened Words
  import opened Numerals
  import opened Bits
  import opened Format
  import opened FormatProof

  datatype State = Chars | FirstFmtChar | OtherFmtChar

  // The debug port, as the characters it was given.
  class Port {
    var sent: string

    constructor ()
      ensures sent == ""
    {
      sent := "";
    }

    // alt_log_txchar, without its wait.
    method TxChar(c: char)
      modifies this
      ensures sent == old(sent) + [c]
    {
      sent := sent + [c];
    }

    // alt_log_repchar.
    method RepChar(c: char, r: s32)
      modifies this
      ensures sent == old(sent) + Repeat(c, r)
    {
      var left: int := r;
      ghost var n := 0;
      while left > 0
        invariant n == (if r > 0 then r - left else 0) && (left <= r) && (r > 0 ==> left >= 0)
        invariant sent == old(sent) + Repeat(c, n)
      {
        left := left - 1;
        n := n + 1;
        TxChar(c);
      }
      assert n == r || (n == 0 && r <= 0);
    }

    // How many digits v has, and the power of the base its first one stands for.
    method CountDigits(v: u32, base: Base) returns (p: u32, count: nat)
      ensures 1 <= count < 0x4000_0000 && p == Pow(base, count - 1)
      ensures v < Pow(base, count) && (count > 1 ==> p <= v)
    {
      p, count := 1, 1;
      var w := Divide(v, base);
      ghost var top: nat, r: nat := v, 0;
      TimesOne(v);
      while w > 0
        invariant Counting(v, base, p, count, top, r, w)
        decreases w
      {
        CountOn(v, base, p, count, top, r, w);
        r := Times(Rest(top, base), p) + r;
        count := count + 1;
        p := p * base;
        top := w;
        w := Divide(w, base);
      }
      OverLess(top, base);
      OverRest(top, base);
      CountEnd(v, top, r, p, base);
    }

    // One digit, as a character code.
    method TxDigit(d: nat, upper: bool)
      requires d < 16
      modifies this
      ensures sent == old(sent) + [Digit(d, upper)]
    {
      var code := d + 48;
      if code > 57 {
        code := code + (if upper then 65 else 97) - 48 - 10;
      }
      TxChar(code as char);
    }

    // v in the base, first digit first; p is the power its first digit stands for.
    method PrintDigits(v: u32, p: u32, ghost count: nat, base: nat, upper: bool)
      requires 8 <= base <= 16 && count >= 1 && p == Pow(base, count - 1)
      requires v < Pow(base, count) && (count > 1 ==> p <= v)
      modifies this
      ensures sent == old(sent) + Digits(v, base, upper)
    {
      var rest: u32, place: u32 := v, p;
      ghost var m: nat, digits: string, before := count, "", sent;
      PrintStarts(v, p, count, base, upper);
      while place > 0
        invariant Printing(v, p, count, base, upper, digits, m, place, rest)
        invariant sent == before + digits
        decreases m
      {
        var d := Divide(rest, place);
        PrintOn(v, p, count, base, upper, digits, m, place, rest);
        TxDigit(d, upper);
        Regroup(before, digits, [Digit(d, upper)]);
        digits := digits + [Digit(d, upper)];
        rest := Remainder(rest, place);
        place := Divide(place, base);
        m := m - 1;
      }
      PrintEnd(v, p, count, base, upper, digits, m, rest);
    }

    // What stands before the digits when `left` characters of the field are theirs to fill.
    method PrintLead(zero: bool, sign: bool, left: s32)
      requires left > -0x8000_0000
      modifies this
      ensures var text, pad := if sign then "-" else "", if sign then left - 1 else left;
        sent == old(sent) + if zero then text + Repeat('0', pad) else Repeat(' ', pad) + text
    {
      if zero {
        if sign {
          TxChar('-');
          RepChar('0', left - 1);
        } else {
          RepChar('0', left);
        }
      } else {
        if sign {
          RepChar(' ', left - 1);
          TxChar('-');
        } else {
          RepChar(' ', left);
        }
      }
    }

    // A signed argument is negative when bit 31 is set; the digits are those of its magnitude.
    static method StripSign(value: u32, signed: bool) returns (v: u32, sign: bool)
      ensures v == Magnitude(value, signed) && sign == Negative(value, signed)
    {
      v, sign := value, false;
      if signed && v >= 0x8000_0000 {
        v := ToU32(0xFFFF_FFFF - v + 1);
        sign := true;
      }
    }

    // Every integer conversion.
    method PrintInteger(zero: bool, width: s32, base: Base, signed: bool, upper: bool, value: u32)
      requires width >= -1
      modifies this
      ensures sent == old(sent) + RenderInt(zero, width, base, signed, upper, value)
    {
      hide Digits, Pow, Magnitude, Negative, Repeat;
      var v, sign := StripSign(value, signed);
      var p, count := CountDigits(v, base);
      CountIsLength(v, base, upper, count, p);
      ghost var before := sent;
      PrintLead(zero, sign, width - count);
      PrintDigits(v, p, count, base, upper);
      ghost var text, pad := Sign(value, signed), if sign then width - count - 1 else width - count;
      Regroup(before, if zero then text + Repeat('0', pad) else Repeat(' ', pad) + text, Digits(v, base, upper));
    }

    // %s: the pad is the width less the unsigned length, taken as an int.
    method PrintString(width: s32, s: CString)
      requires width >= -1 && |s| < 0x8000_0000
      modifies this
      ensures sent == old(sent) + (Repeat(' ', width - |s|) + s)
    {
      hide Repeat, ToS32, ToU32;
      PadWidth(width, |s|);
      RepChar(' ', ToS32(ToU32(width) - |s|));
      ghost var padded := sent;
      for i := 0 to |s|
        invariant sent == padded + s[..i]
      {
        TxChar(s[i]);
      }
      assert s[..|s|] == s;
      Regroup(old(sent), Repeat(' ', width - |s|), s);
    }

    // The letter that ends a field.  `args` are the arguments not taken yet.
    method Convert(c: char, zero: bool, width: s32, args: Args, ghost mods: string) returns (rest: Args)
      requires width == Width(mods) && width >= -1
      requires Takes(Field(zero, mods, ConvOf(c))) ==> args.Next? && Fits(Field(zero, mods, ConvOf(c)), args.arg)
      modifies this
      ensures var d := Field(zero, mods, ConvOf(c));
        && rest == (if Takes(d) then args.rest else args)
        && sent == old(sent) + if Takes(d) then Render(d, args.arg) else ""
    {
      hide RenderInt, Width, ToNat, Low8;
      rest := args;
      if c == 'd' || c == 'i' || c == 'u' || c == 'o' || c == 'x' || c == 'X' {
        var base: Base, signed, upper := 10, true, false;
        match c {
          case 'u' => signed := false;
          case 'o' => signed := false; base := 8;
          case 'x' => signed := false; base := 16;
          case 'X' => signed := false; base := 16; upper := true;
          case _ =>
        }
        PrintInteger(zero, width, base, signed, upper, ToNat(args.arg.bits));
        rest := args.rest;
      } else if c == 'c' {
        RepChar(' ', width - 1);
        TxChar(Low8(ToNat(args.arg.bits)));
        rest := args.rest;
      } else if c == 's' {
        PrintString(width, args.arg.text);
        rest := args.rest;
      }
    }

    // A digit or point of a field, or an 'l', which changes neither number.
    static method ReadModifier(c: char, before: s32, after: s32, ghost mods: string) returns (before': s32, after': s32)
      requires Modifier(c) && before == Width(mods) && after == Precision(mods)
      requires FitInt(mods + [c])
      ensures before' == Width(mods + [c]) && after' == Precision(mods + [c])
    {
      WidthAfter(mods, c);
      PrecisionAfter(mods, c);
      PrecisionSign(mods);
      before', after' := before, after;
      if c == '.' {
        after' := 0;
      } else if '0' <= c <= '9' {
        var digit := (c - '0') as int;
        if after < 0 {
          if before < 0 {
            before' := 0;
          } else {
            before' := before * 10;
          }
          before' := before' + digit;
        } else {
          after' := after * 10 + digit;
        }
      }
    }

    // The code at the label otherFmtChar, for the character at w of the field that starts at q.
    method OtherFmtCharStep(fmt: string, w: nat, zero: bool, before: s32, after: s32, args: Args,
                            ghost q: nat, ghost total: string)
      returns (ended: bool, before': s32, after': s32, rest: Args)
      requires w < |fmt| && Reading(fmt, OtherFmtChar, q, w, zero, before, after)
      requires Due(fmt, q, args, sent, total)
      modifies this
      ensures ended ==> Due(fmt, w + 1, rest, sent, total)
      ensures !ended ==> rest == args && Due(fmt, q, args, sent, total)
                         && Reading(fmt, OtherFmtChar, q, w + 1, zero, before', after')
    {
      var c := fmt[w];
      ghost var b := if zero then q + 2 else q + 1;
      rest, before', after' := args, before, after;
      if Modifier(c) {
        StepModifier(fmt, q, b, w, zero, args, sent, total);
        before', after' := ReadModifier(c, before, after, fmt[b..w]);
        ended := false;
      } else {
        PrecisionSign(fmt[b..w]);
        StepField(fmt, q, b, w, zero, args, sent, total);
        rest := Convert(c, zero, before, args, fmt[b..w]);
        ended := true;
      }
    }

    // An ordinary character, outside any field.
    method CharsStep(fmt: string, w: nat, args: Args, ghost total: string) returns (field: bool)
      requires w < |fmt| && Due(fmt, w, args, sent, total)
      modifies this
      ensures field <==> fmt[w] == '%'
      ensures Due(fmt, if field then w else w + 1, args, sent, total)
    {
      field := fmt[w] == '%';
      if !field {
        StepLit(fmt, w, args, sent, total);
        TxChar(fmt[w]);
      }
    }

    // The character after the '%' at w - 1: another '%' is printed.
    method PercentStep(fmt: string, w: nat, args: Args, ghost total: string)
      requires 0 < w < |fmt| && fmt[w - 1] == '%' == fmt[w] && Due(fmt, w - 1, args, sent, total)
      modifies this
      ensures Due(fmt, w + 1, args, sent, total)
    {
      StepPercent(fmt, w - 1, args, sent, total);
      TxChar('%');
    }

    // The switch on the state, for the character at w.
    method StateStep(fmt: string, state: State, w: nat, zero: bool, before: s32, after: s32, args: Args,
                     ghost q: nat, ghost total: string)
      returns (state': State, zero': bool, before': s32, after': s32, args': Args, ghost q': nat)
      requires w < |fmt| && Reading(fmt, state, q, w, zero, before, after) && Due(fmt, q, args, sent, total)
      modifies this
      ensures Reading(fmt, state', q', w + 1, zero', before', after') && Due(fmt, q', args', sent, total)
    {
      hide Due, InField, Width, Precision;
      state', zero', before', after', args', q' := state, zero, before, after, args, q;
      match state {
        case Chars =>
          var field := CharsStep(fmt, w, args, total);
          if field {
            return FirstFmtChar, false, -1, -1, args, q;
          } else {
            return Chars, zero, before, after, args, w + 1;
          }
        case FirstFmtChar =>
          EnterField(fmt, q, w);
          if fmt[w] == '0' {
            return OtherFmtChar, true, before, after, args, q;
          } else if fmt[w] == '%' {
            PercentStep(fmt, w, args, total);
            return Chars, zero, before, after, args, w + 1;
          } else {
            state' := OtherFmtChar;
          }
        case OtherFmtChar =>
      }
      var ended;
      ended, before', after', args' := OtherFmtCharStep(fmt, w, zero, before, after, args, q, total);
      if ended {
        state', q' := Chars, w + 1;
      }
    }

    // alt_log_private_printf.
    method Printf(fmt: CString, args: Args)
      requires Proper(Parse(fmt), args)
      modifies this
      ensures sent == old(sent) + Output(Parse(fmt), args)
    {
      hide *;
      var state, w, zero := Chars, 0, false;
      var before: s32, after: s32, left := -1, -1, args;
      ghost var q: nat, total := 0, sent + Output(Parse(fmt), args);
      DueAtStart(fmt, args, sent);
      while w < |fmt|
        invariant w <= |fmt| && Reading(fmt, state, q, w, zero, before, after)
        invariant Due(fmt, q, left, sent, total)
        decreases |fmt| - w
      {
        state, zero, before, after, left, q := StateStep(fmt, state, w, zero, before, after, left, q, total);
        w := w + 1;
      }
      DueAtEnd(fmt, state, q, zero, before, after, left, sent, total);
    }
  }

  // Where the machine stands in the format: the directive it is in starts at q.
  ghost predicate Reading(fmt: string, state: State, q: nat, w: nat, zero: bool, before: int, after: int)
    requires w <= |fmt|
  {
    match state
    case Chars => q == w
    case FirstFmtChar => w == q + 1 && fmt[q] == '%' && !zero && before == after == -1
    case OtherFmtChar =>
      var b := if zero then q + 2 else q + 1;
      InField(fmt, q, b, w, zero) && before == Width(fmt[b..w]) && after == Precision(fmt[b..w])
  }

  // What is sent, and what the directives from q on still print, make up the whole output.
  ghost predicate Due(fmt: string, q: nat, args: Args, sent: string, total: string) {
    && q <= |fmt|
    && Proper(Parse(fmt[q..]), args)
    && sent + Output(Parse(fmt[q..]), args) == total
  }

  // The unsigned difference, taken as an int.
  lemma PadWidth(width: s32, n: nat)
    requires width >= -1 && n < 0x8000_0000
    ensures ToS32(ToU32(width) - n) == width - n
  {
  }

  // The machine's unsigned division and remainder.
  method Divide(v: u32, d: nat) returns (q: u32)
    requires d > 0
    ensures q == Over(v, d)
  {
    q := v / d;
    OverIs(v, d);
  }

  method Remainder(v: u32, d: nat) returns (r: u32)
    requires d > 0
    ensures r == Rest(v, d)
  {
    r := v % d;
    OverIs(v, d);
  }

  // After `count` digits: p is their largest power, top = v / p with remainder r, and w = top / base.
  ghost predicate Counting(v: nat, base: nat, p: nat, count: nat, top: nat, r: nat, w: nat)
    requires base > 0
  {
    && count >= 1 && p == Pow(base, count - 1)
    && v == Times(top, p) + r && r < p && w == Over(top, base)
    && (count > 1 ==> p <= v && 4 * count <= p)
  }

  lemma CountOn(v: u32, base: nat, p: nat, count: nat, top: nat, r: nat, w: nat)
    requires 8 <= base && w > 0 && Counting(v, base, p, count, top, r, w)
    ensures Over(w, base) < w && p * base <= v
    ensures Counting(v, base, p * base, count + 1, w, Times(Rest(top, base), p) + r, Over(w, base))
  {
    OverRest(top, base);
    OverLess(top, base);
    OverLess(w, base);
    CountStep(v, top, r, p, w, Rest(top, base), base);
    TimesMono(8, base, p);
    TimesIs(8, p);
    TimesIs(base, p);
    assert p * base == Times(base, p) == Pow(base, count);
  }

  // After |digits| digits of v's numeral of `count`: m digits and the value `rest` are left.
  ghost predicate Printing(v: nat, p: nat, count: nat, base: nat, upper: bool,
                           digits: string, m: nat, place: nat, rest: nat) {
    && (if place > 0 then m > 0 && place == Pow(base, m - 1) else m == 0)
    && rest < Pow(base, m) && Times(Value(digits, base), Pow(base, m)) + rest == v
    && (digits == "" || Numeral(digits, base, upper))
    && |digits| + m == count
    && (digits != "" && count > 1 ==> digits[0] != '0')
    && (digits == "" ==> rest == v && place == p)
  }

  lemma PrintStarts(v: nat, p: nat, count: nat, base: nat, upper: bool)
    requires 8 <= base && count >= 1 && p == Pow(base, count - 1) && v < Pow(base, count)
    ensures Printing(v, p, count, base, upper, "", count, p, v)
  {
    PowPositive(base, count - 1);
  }

  lemma PrintOn(v: nat, p: nat, count: nat, base: nat, upper: bool, digits: string, m: nat, place: nat, rest: nat)
    requires 8 <= base <= 16 && (count > 1 ==> p <= v)
    requires Printing(v, p, count, base, upper, digits, m, place, rest) && place > 0
    ensures Over(rest, place) < base
    ensures Printing(v, p, count, base, upper,
                     digits + [Digit(Over(rest, place), upper)], m - 1, Over(place, base), Rest(rest, place))
  {
    hide Digit, Value, Over, Rest;
    var d, r := Over(rest, place), Rest(rest, place);
    OverRest(rest, place);
    PrintStep(Value(digits, base), rest, d, r, base, place);
    PowDown(base, m - 1);
    PrintText(digits, d, base, upper);
    if digits == "" && count > 1 {
      TimesOne(place);
      assert d > 0;
    }
  }

  lemma PrintEnd(v: nat, p: nat, count: nat, base: nat, upper: bool, digits: string, m: nat, rest: nat)
    requires 8 <= base <= 16 && count >= 1
    requires Printing(v, p, count, base, upper, digits, m, 0, rest)
    ensures digits == Digits(v, base, upper)
  {
    TimesOne(Value(digits, base));
    DigitsUnique(digits, v, base, upper);
  }

  lemma PowDown(b: nat, n: nat)
    requires b >= 2
    ensures n == 0 ==> Over(Pow(b, n), b) == 0
    ensures n > 0 ==> Over(Pow(b, n), b) == Pow(b, n - 1) > 0
  {
    if n > 0 {
      var q := Pow(b, n - 1);
      PowPositive(b, n - 1);
      TimesIs(b, q);
      TimesIs(q, b);
      OverRest(Pow(b, n), b);
      DivUnique(Over(Pow(b, n), b), Rest(Pow(b, n), b), q, 0, b);
    }
  }

  // The digits counted are the digits printed.
  lemma {:induction false} CountIsLength(v: nat, base: nat, upper: bool, count: nat, p: nat)
    requires 8 <= base <= 16 && count >= 1 && p == Pow(base, count - 1)
    requires v < Pow(base, count) && (count > 1 ==> p <= v)
    ensures |Digits(v, base, upper)| == count
  {
    if count == 1 {
      TimesOne(base);
    } else {
      var q, d, pq := Over(v, base), Rest(v, base), Pow(base, count - 2);
      PowPositive(base, count - 2);
      OverRest(v, base);
      TimesSwap(base, p);
      TimesSwap(base, pq);
      Between(q, d, base, pq, p);
      TimesMono(1, pq, base);
      TimesOne(base);
      CountIsLength(q, base, upper, count - 1, pq);
    }
  }

  // Between two powers, the quotient by the base is between the two below.
  lemma Between(q: nat, d: nat, b: nat, low: nat, high: nat)
    requires d < b && Times(low, b) <= Times(q, b) + d < Times(high, b)
    ensures low <= q < high
  {
    if q < low {
      TimesMono(q, low, b);
      assert false;
    } else if high <= q {
      TimesMono(high, q, b);
      assert false;
    }
  }

  // ---------- Steps of the format machine ----------

  lemma StepLit(fmt: string, q: nat, args: Args, sent: string, total: string)
    requires q < |fmt| && fmt[q] != '%' && Due(fmt, q, args, sent, total)
    ensures Due(fmt, q + 1, args, sent + [fmt[q]], total)
  {
    ParseLit(fmt, q);
    Regroup(sent, [fmt[q]], Output(Parse(fmt[q + 1..]), args));
  }

  lemma StepPercent(fmt: string, q: nat, args: Args, sent: string, total: string)
    requires q + 1 < |fmt| && fmt[q] == '%' == fmt[q + 1] && Due(fmt, q, args, sent, total)
    ensures Due(fmt, q + 2, args, sent + ['%'], total)
  {
    ParsePercent(fmt, q);
    Regroup(sent, ['%'], Output(Parse(fmt[q + 2..]), args));
  }

  lemma StepField(fmt: string, q: nat, b: nat, w: nat, zero: bool, args: Args, sent: string, total: string)
    requires InField(fmt, q, b, w, zero) && w < |fmt| && !Modifier(fmt[w]) && Due(fmt, q, args, sent, total)
    ensures var d := Field(zero, fmt[b..w], ConvOf(fmt[w]));
            if Takes(d) then
              args.Next? && Fits(d, args.arg) && Due(fmt, w + 1, args.rest, sent + Render(d, args.arg), total)
            else
              Due(fmt, w + 1, args, sent + "", total)
  {
    var d := Field(zero, fmt[b..w], ConvOf(fmt[w]));
    ParseField(fmt, q, b, w, zero);
    if Takes(d) {
      Regroup(sent, Render(d, args.arg), Output(Parse(fmt[w + 1..]), args.rest));
    } else {
      Regroup(sent, "", Output(Parse(fmt[w + 1..]), args));
    }
  }

  // The modifiers of a field run on to its letter, or to the end of the format.
  lemma FieldEnd(fmt: string, q: nat, b: nat, w: nat, zero: bool) returns (n: nat)
    requires InField(fmt, q, b, w, zero)
    ensures w <= n <= |fmt| && InField(fmt, q, b, n, zero) && (n < |fmt| ==> !Modifier(fmt[n]))
  {
    n := w;
    while n < |fmt| && Modifier(fmt[n])
      invariant w <= n <= |fmt| && InField(fmt, q, b, n, zero)
    {
      n := n + 1;
    }
  }

  // A field starts without numbers.
  lemma EnterField(fmt: string, q: nat, w: nat)
    requires w < |fmt| && Reading(fmt, FirstFmtChar, q, w, false, -1, -1)
    ensures fmt[w] == '0' ==> Reading(fmt, OtherFmtChar, q, w + 1, true, -1, -1)
    ensures fmt[w] != '0' && fmt[w] != '%' ==> Reading(fmt, OtherFmtChar, q, w, false, -1, -1)
  {
    assert fmt[w..w] == "" && fmt[w + 1..w + 1] == "";
  }

  lemma {:induction false} FitPrefix(mods: string, k: nat)
    requires FitInt(mods) && k <= |mods|
    ensures FitInt(mods[..k])
  {
    if k == |mods| {
      assert mods[..k] == mods;
    } else {
      var n := |mods| - 1;
      assert mods[..n][..k] == mods[..k];
      FitPrefix(mods[..n], k);
    }
  }

  // A whole field is a directive of the reference, so its numbers fit.
  lemma FieldFits(fmt: string, q: nat, b: nat, n: nat, zero: bool, args: Args)
    requires InField(fmt, q, b, n, zero) && n < |fmt| && !Modifier(fmt[n]) && Proper(Parse(fmt[q..]), args)
    ensures FitInt(fmt[b..n])
  {
    ParseField(fmt, q, b, n, zero);
  }

  lemma CutFits(fmt: string, q: nat, b: nat, n: nat, zero: bool, args: Args)
    requires InField(fmt, q, b, n, zero) && n == |fmt| && Proper(Parse(fmt[q..]), args)
    ensures FitInt(fmt[b..n])
  {
    ParseCut(fmt, q, b, zero);
    WholeSlice(fmt, b);
  }

  // So do the numbers read so far.
  lemma ReadFits(fmt: string, q: nat, b: nat, w: nat, zero: bool, args: Args)
    requires InField(fmt, q, b, w, zero) && Proper(Parse(fmt[q..]), args)
    ensures FitInt(fmt[b..w])
  {
    hide Proper, Parse, FitInt, Modifier;
    var n := FieldEnd(fmt, q, b, w, zero);
    if n < |fmt| {
      FieldFits(fmt, q, b, n, zero, args);
    } else {
      CutFits(fmt, q, b, n, zero, args);
    }
    SlicePrefix(fmt, b, w, n);
    FitPrefix(fmt[b..n], w - b);
  }

  lemma WholeSlice(s: string, b: nat)
    requires b <= |s|
    ensures s[b..|s|] == s[b..]
  {
  }

  lemma SlicePrefix(s: string, b: nat, w: nat, n: nat)
    requires b <= w <= n <= |s|
    ensures s[b..n][..w - b] == s[b..w]
    ensures w < |s| ==> s[b..w + 1] == s[b..w] + [s[w]]
  {
  }

  lemma StepModifier(fmt: string, q: nat, b: nat, w: nat, zero: bool, args: Args, sent: string, total: string)
    requires InField(fmt, q, b, w, zero) && w < |fmt| && Modifier(fmt[w]) && Due(fmt, q, args, sent, total)
    ensures InField(fmt, q, b, w + 1, zero) && fmt[b..w + 1] == fmt[b..w] + [fmt[w]]
    ensures FitInt(fmt[b..w + 1])
  {
    hide Proper, Parse, Output, FitInt;
    ReadFits(fmt, q, b, w + 1, zero, args);
    SlicePrefix(fmt, b, w, w);
  }

  lemma DueAtStart(fmt: string, args: Args, sent: string)
    requires Proper(Parse(fmt), args)
    ensures Due(fmt, 0, args, sent, sent + Output(Parse(fmt), args)) && Reading(fmt, Chars, 0, 0, false, -1, -1)
  {
    assert fmt[0..] == fmt;
  }

  lemma CutPrintsNothing(mods: string, args: Args)
    requires Proper(Then(Cut(mods), Done), args)
    ensures Output(Then(Cut(mods), Done), args) == ""
  {
    assert Output(Done, args) == "" && Plain(Cut(mods)) == "";
  }

  // At the end of the format nothing is left to print.
  lemma DueAtEnd(fmt: string, state: State, q: nat, zero: bool, before: int, after: int, args: Args,
                 sent: string, total: string)
    requires Reading(fmt, state, q, |fmt|, zero, before, after) && Due(fmt, q, args, sent, total)
    ensures sent == total
  {
    assert sent + "" == sent;
    match state
    case Chars =>
      assert fmt[q..] == "";
    case FirstFmtChar =>
      assert fmt[q..] == "%";
      CutPrintsNothing("", args);
    case OtherFmtChar =>
      var b := if zero then q + 2 else q + 1;
      ParseCut(fmt, q, b, zero);
      CutPrintsNothing(fmt[b..], args);
  }
}
