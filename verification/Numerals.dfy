/**
  Numerals: the canonical digits of a number, and why printing by the largest power yields them.
  Products and quotients are written `Times` and `Over`, which unfold a summand at a time, so that
  the proofs stay linear.
 */
module Numerals {

  // ---------- Products ----------

  function Times(x: nat, y: nat): nat {
    if x == 0 then 0 else Times(x - 1, y) + y
  }

  lemma {:induction false} TimesIs(x: nat, y: nat)
    ensures Times(x, y) == x * y
  {
    if x > 0 {
      TimesIs(x - 1, y);
      assert (x - 1) * y + y == x * y;
    }
  }

  lemma {:induction false} TimesAdd(x: nat, z: nat, y: nat)
    ensures Times(x + z, y) == Times(x, y) + Times(z, y)
  {
    if z > 0 {
      TimesAdd(x, z - 1, y);
    }
  }

  lemma TimesSwap(x: nat, y: nat)
    ensures Times(x, y) == Times(y, x)
  {
    TimesIs(x, y);
    TimesIs(y, x);
  }

  lemma {:induction false} TimesAssoc(x: nat, y: nat, z: nat)
    ensures Times(Times(x, y), z) == Times(x, Times(y, z))
  {
    if x > 0 {
      TimesAssoc(x - 1, y, z);
      TimesAdd(Times(x - 1, y), y, z);
    }
  }

  lemma {:induction false} TimesMono(x: nat, y: nat, p: nat)
    requires x <= y
    ensures Times(x, p) <= Times(y, p)
    ensures x < y && p > 0 ==> Times(x, p) + p <= Times(y, p)
  {
    TimesAdd(x, y - x, p);
    if x < y {
      assert Times(y - x, p) == Times(y - x - 1, p) + p;
    }
  }

  lemma {:induction false} TimesOne(x: nat)
    ensures Times(1, x) == x && Times(x, 1) == x && Times(x, 0) == 0
  {
    assert Times(1, x) == Times(0, x) + x;
    if x > 0 {
      TimesOne(x - 1);
    }
  }

  // Quotient and remainder are unique.
  lemma DivUnique(q: nat, r: nat, q': nat, r': nat, d: nat)
    requires r < d && r' < d && Times(q, d) + r == Times(q', d) + r'
    ensures q == q' && r == r'
  {
    if q < q' {
      TimesMono(q, q', d);
      assert false;
    } else if q' < q {
      TimesMono(q', q, d);
      assert false;
    }
  }

  function Over(v: nat, d: nat): nat
    requires d > 0
  {
    if v < d then 0 else 1 + Over(v - d, d)
  }

  function Rest(v: nat, d: nat): nat
    requires d > 0
  {
    if v < d then v else Rest(v - d, d)
  }

  lemma {:induction false} OverRest(v: nat, d: nat)
    requires d > 0
    ensures Times(Over(v, d), d) + Rest(v, d) == v && Rest(v, d) < d
  {
    if v >= d {
      OverRest(v - d, d);
    }
  }

  // The machine's division.
  lemma DivMod(v: nat, d: nat)
    requires d > 0
    ensures Times(v / d, d) + v % d == v && v % d < d
  {
    TimesIs(v / d, d);
  }

  lemma OverIs(v: nat, d: nat)
    requires d > 0
    ensures Over(v, d) == v / d && Rest(v, d) == v % d
  {
    OverRest(v, d);
    DivMod(v, d);
    DivUnique(v / d, v % d, Over(v, d), Rest(v, d), d);
  }

  // ---------- Digits ----------

  function Pow(b: nat, n: nat): nat {
    if n == 0 then 1 else Times(b, Pow(b, n - 1))
  }

  lemma {:induction false} PowPositive(b: nat, n: nat)
    requires b > 0
    ensures Pow(b, n) > 0
  {
    if n > 0 {
      PowPositive(b, n - 1);
      TimesMono(1, b, Pow(b, n - 1));
      TimesOne(Pow(b, n - 1));
    }
  }

  function Digit(d: nat, upper: bool): char
    requires d < 16
  {
    if d <= 9 then '0' + d as char else (if upper then 'A' else 'a') + (d - 10) as char
  }

  // The value of a digit character, or 16 if it is none.
  function DigitValue(c: char): nat {
    if '0' <= c <= '9' then (c - '0') as nat
    else if 'a' <= c <= 'f' then (c - 'a') as nat + 10
    else if 'A' <= c <= 'F' then (c - 'A') as nat + 10
    else 16
  }

  // The number a numeral denotes.
  function Value(s: string, b: nat): nat {
    if s == "" then 0 else Times(Value(s[..|s| - 1], b), b) + DigitValue(s[|s| - 1])
  }

  ghost predicate Numeral(s: string, b: nat, upper: bool) {
    s != "" && forall i :: 0 <= i < |s| ==> DigitValue(s[i]) < b <= 16 && s[i] == Digit(DigitValue(s[i]), upper)
  }

  // No leading zero, except in "0".
  ghost predicate Canonical(s: string, b: nat, upper: bool) {
    Numeral(s, b, upper) && (|s| > 1 ==> s[0] != '0')
  }

  // The digits of v, by repeated division.
  function Digits(v: nat, b: nat, upper: bool): string
    requires 2 <= b <= 16
  {
    if v < b then [Digit(v, upper)]
    else
      OverLess(v, b);
      Digits(Over(v, b), b, upper) + [Digit(Rest(v, b), upper)]
  }

  lemma {:induction false} OverLess(v: nat, b: nat)
    requires 2 <= b
    ensures Rest(v, b) < b && (v >= b ==> 0 < Over(v, b) < v)
  {
    OverRest(v, b);
    if v >= b {
      OverLess(v - b, b);
    }
  }

  lemma DigitRoundTrip(d: nat, upper: bool)
    requires d < 16
    ensures DigitValue(Digit(d, upper)) == d
    ensures Digit(d, upper) == '0' <==> d == 0
  {
  }

  lemma ValueSnoc(s: string, c: char, b: nat)
    ensures Value(s + [c], b) == Times(Value(s, b), b) + DigitValue(c)
  {
    assert (s + [c])[..|s|] == s;
  }

  lemma NumeralSnoc(s: string, d: nat, b: nat, upper: bool)
    requires d < b <= 16 && (s == "" || Numeral(s, b, upper))
    ensures Numeral(s + [Digit(d, upper)], b, upper)
  {
    DigitRoundTrip(d, upper);
  }

  lemma {:induction false} DigitsSound(v: nat, b: nat, upper: bool)
    requires 2 <= b <= 16
    ensures Value(Digits(v, b, upper), b) == v
    ensures Canonical(Digits(v, b, upper), b, upper)
    ensures Digits(v, b, upper)[0] == '0' ==> v == 0
  {
    if v < b {
      ValueSnoc("", Digit(v, upper), b);
      NumeralSnoc("", v, b, upper);
      DigitRoundTrip(v, upper);
      assert "" + [Digit(v, upper)] == Digits(v, b, upper);
    } else {
      var q, d := Over(v, b), Rest(v, b);
      OverRest(v, b);
      OverLess(v, b);
      var front := Digits(q, b, upper);
      DigitsSound(q, b, upper);
      ValueSnoc(front, Digit(d, upper), b);
      NumeralSnoc(front, d, b, upper);
      DigitRoundTrip(d, upper);
    }
  }

  lemma {:induction false} ValuePositive(s: string, b: nat, upper: bool)
    requires Canonical(s, b, upper) && |s| > 1 && b >= 2
    ensures Value(s, b) >= b && Value(s[..|s| - 1], b) > 0
  {
    var front := s[..|s| - 1];
    if |s| == 2 {
      assert front == "" + [s[0]];
      ValueSnoc("", s[0], b);
      assert s[0] == Digit(DigitValue(s[0]), upper);
      DigitRoundTrip(DigitValue(s[0]), upper);
    } else {
      ValuePositive(front, b, upper);
    }
    TimesMono(1, Value(front, b), b);
    TimesOne(b);
  }

  lemma CanonicalFront(s: string, b: nat, upper: bool) returns (front: string, d: nat)
    requires Canonical(s, b, upper) && |s| > 1
    ensures Canonical(front, b, upper) && d < b && s == front + [Digit(d, upper)]
  {
    front, d := s[..|s| - 1], DigitValue(s[|s| - 1]);
    assert s == front + [s[|s| - 1]];
  }

  lemma DigitsAre(v: nat, q: nat, d: nat, b: nat, upper: bool)
    requires 2 <= b <= 16 && q > 0 && d < b && v == Times(q, b) + d
    ensures Digits(v, b, upper) == Digits(q, b, upper) + [Digit(d, upper)]
  {
    TimesMono(1, q, b);
    TimesOne(b);
    OverRest(v, b);
    DivUnique(Over(v, b), Rest(v, b), q, d, b);
  }

  lemma OneDigit(s: string, b: nat, upper: bool)
    requires 2 <= b <= 16 && Canonical(s, b, upper) && |s| == 1
    ensures s == Digits(Value(s, b), b, upper)
  {
    assert s == "" + [s[0]] && s[0] == Digit(DigitValue(s[0]), upper);
    ValueSnoc("", s[0], b);
  }

  lemma MoreDigits(s: string, b: nat, upper: bool) returns (front: string, d: nat)
    requires 2 <= b && Canonical(s, b, upper) && |s| > 1
    ensures Canonical(front, b, upper) && |front| < |s| && d < b && s == front + [Digit(d, upper)]
    ensures Value(front, b) > 0 && Value(s, b) == Times(Value(front, b), b) + d
  {
    front, d := CanonicalFront(s, b, upper);
    ValuePositive(s, b, upper);
    ValueSnoc(front, Digit(d, upper), b);
    DigitRoundTrip(d, upper);
    assert s[..|s| - 1] == front;
  }

  // Canonical numerals are unique: the printed digits are the only ones that read back as v.
  lemma {:induction false} DigitsUnique(s: string, v: nat, b: nat, upper: bool)
    requires 2 <= b <= 16 && Canonical(s, b, upper) && Value(s, b) == v
    ensures s == Digits(v, b, upper)
    decreases |s|
  {
    if |s| == 1 {
      OneDigit(s, b, upper);
    } else {
      var front, d := MoreDigits(s, b, upper);
      var q := Value(front, b);
      DigitsUnique(front, q, b, upper);
      DigitsAre(v, q, d, b, upper);
    }
  }

  // v is printed canonically, reads back as v, and is the only numeral that does.
  lemma DigitsExact(v: nat, b: nat, upper: bool, s: string)
    requires 2 <= b <= 16
    ensures Canonical(s, b, upper) && Value(s, b) == v <==> s == Digits(v, b, upper)
  {
    DigitsSound(v, b, upper);
    if Canonical(s, b, upper) && Value(s, b) == v {
      DigitsUnique(s, v, b, upper);
    }
  }

  // ---------- Digits from the top ----------

  // Printing v by the power p below it: the digit d, then the rest r; `done` is the value printed so far.
  lemma PrintStep(done: nat, v: nat, d: nat, r: nat, b: nat, p: nat)
    requires r < p && v == Times(d, p) + r && v < Times(b, p)
    ensures d < b
    ensures Times(Times(done, b) + d, p) + r == Times(done, Times(b, p)) + v
  {
    if b <= d {
      TimesMono(b, d, p);
      assert false;
    }
    TimesAdd(Times(done, b), d, p);
    TimesAssoc(done, b, p);
  }

  // The next digit of a numeral.
  lemma PrintText(digits: string, d: nat, base: nat, upper: bool)
    requires d < base <= 16 && (digits == "" || Numeral(digits, base, upper))
    ensures var more := digits + [Digit(d, upper)];
      && Value(more, base) == Times(Value(digits, base), base) + d
      && Numeral(more, base, upper)
      && more[0] == (if digits == "" then Digit(d, upper) else digits[0])
      && (d > 0 ==> Digit(d, upper) != '0')
  {
    ValueSnoc(digits, Digit(d, upper), base);
    DigitRoundTrip(d, upper);
    NumeralSnoc(digits, d, base, upper);
  }

  // Counting digits: top = v / p still holds two digits, so the next power is not above v.
  lemma CountStep(v: nat, top: nat, r: nat, p: nat, w: nat, c: nat, b: nat)
    requires v == Times(top, p) + r && r < p
    requires top == Times(w, b) + c && c < b && w > 0
    ensures Times(b, p) <= v
    ensures v == Times(w, Times(b, p)) + (Times(c, p) + r) && Times(c, p) + r < Times(b, p)
  {
    hide Times;
    TimesAdd(Times(w, b), c, p);
    TimesAssoc(w, b, p);
    TimesMono(1, w, Times(b, p));
    TimesOne(Times(b, p));
    TimesMono(c, b, p);
  }

  // The last power counted is the largest: v has exactly the digits counted.
  lemma CountEnd(v: nat, top: nat, r: nat, p: nat, b: nat)
    requires v == Times(top, p) + r && r < p && top < b
    ensures v < Times(b, p)
  {
    TimesMono(top, b, p);
  }
}
