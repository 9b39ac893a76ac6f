/** 32-bit words as bits and as numbers: a word's value is read nibble by nibble. */
module Bits {
  import opened Words
  import opened Numerals

  // The low four bits.
  function Nibble(x: bv32): (n: nat)
    ensures n < 16
  {
    (if x & 8 != 0 then 8 else 0) + (if x & 4 != 0 then 4 else 0)
    + (if x & 2 != 0 then 2 else 0) + (if x & 1 != 0 then 1 else 0)
  }

  // One nibble to the right, and to the left.
  function Down(x: bv32): bv32 {
    x >> 4
  }

  function Up(x: bv32): bv32 {
    x << 4
  }

  // The number in the n low nibbles.
  function Low(x: bv32, n: nat): (v: nat)
    ensures v < Pow(16, n)
  {
    hide Down, Nibble;
    if n == 0 then 0
    else
      TimesNext(Low(Down(x), n - 1), Nibble(x), Pow(16, n - 1));
      Times(Low(Down(x), n - 1), 16) + Nibble(x)
  }

  function ToNat(x: bv32): u32 {
    PowEight();
    Low(x, 8)
  }

  lemma TimesNext(v: nat, d: nat, p: nat)
    requires v < p && d < 16
    ensures Times(v, 16) + d < Times(16, p)
  {
    TimesIs(v, 16);
    TimesIs(16, p);
  }

  lemma PowEight()
    ensures Pow(16, 8) == 0x1_0000_0000
  {
    var p4 := Pow(16, 4);
    assert p4 == 0x1_0000 by { PowStep(0); PowStep(1); PowStep(2); PowStep(3); }
    PowStep(4);
    PowStep(5);
    PowStep(6);
    PowStep(7);
  }

  lemma PowStep(n: nat)
    ensures Pow(16, n + 1) == 16 * Pow(16, n)
  {
    TimesIs(16, Pow(16, n));
  }

  // x >> 4k.
  function Shifted(x: bv32, k: nat): bv32 {
    if k == 0 then x else Shifted(Down(x), k - 1)
  }

  // 0xF << 4k.
  function Mask(k: nat): bv32 {
    if k == 0 then 0xF else Up(Mask(k - 1))
  }

  lemma {:induction false} ShiftedMore(x: bv32, k: nat)
    ensures Shifted(x, k + 1) == Down(Shifted(x, k))
    decreases k
  {
    hide Down;
    if k > 0 {
      ShiftedMore(Down(x), k - 1);
    } else {
      assert Shifted(Down(x), 0) == Down(x);
    }
  }

  lemma ShiftedFour(x: bv32, k: nat)
    ensures Shifted(x, k + 4) == Shifted(Down(Down(Down(Down(x)))), k)
  {
    hide Down;
    assert Shifted(x, k + 4) == Shifted(Down(x), k + 3) == Shifted(Down(Down(x)), k + 2);
    assert Shifted(Down(Down(x)), k + 2) == Shifted(Down(Down(Down(x))), k + 1);
  }

  lemma DownFour(x: bv32)
    ensures Down(Down(Down(Down(x)))) == x >> 16
  {
  }

  lemma ShiftedAway(x: bv32)
    ensures Shifted(x, 8) == 0
  {
    hide Down;
    ShiftedFour(x, 4);
    DownFour(x);
    ShiftedFour(x >> 16, 0);
    DownFour(x >> 16);
  }

  // A number's top nibble and the rest of it.
  lemma {:induction false} LowTop(x: bv32, k: nat)
    ensures Low(x, k + 1) == Times(Nibble(Shifted(x, k)), Pow(16, k)) + Low(x, k)
    decreases k
  {
    hide Nibble, Down, Times;
    if k == 0 {
      TimesIs(0, 16);
      TimesOne(Nibble(x));
    } else {
      var n, p := Nibble(Shifted(x, k)), Pow(16, k - 1);
      LowTop(Down(x), k - 1);
      TopStep(n, p, Low(Down(x), k - 1));
    }
  }

  lemma TopStep(n: nat, p: nat, low: nat)
    ensures Times(Times(n, p) + low, 16) == Times(n, Times(16, p)) + Times(low, 16)
  {
    TimesAdd(Times(n, p), low, 16);
    TimesAssoc(n, p, 16);
    TimesSwap(p, 16);
  }

  // x & m.
  function Both(x: bv32, m: bv32): bv32 {
    x & m
  }

  lemma MaskDown(x: bv32, m: bv32)
    ensures Down(Both(x, Up(m))) == Both(Down(x), m)
    ensures Both(x, Up(m)) == 0 <==> Both(Down(x), m) == 0
  {
  }

  // The nibble under the mask.
  lemma {:induction false} Masked(x: bv32, k: nat)
    ensures Shifted(Both(x, Mask(k)), k) == Both(Shifted(x, k), 0xF)
    ensures Both(x, Mask(k)) == 0 <==> Both(Shifted(x, k), 0xF) == 0
    decreases k
  {
    hide Up, Down, Both;
    if k > 0 {
      MaskDown(x, Mask(k - 1));
      Masked(Down(x), k - 1);
    }
  }

  lemma NibbleMask(x: bv32)
    ensures Nibble(Both(x, 0xF)) == Nibble(x)
    ensures Nibble(x) == 0 <==> Both(x, 0xF) == 0
    ensures Nibble(x) == 0 && Down(x) == 0 <==> x == 0
  {
  }

  // ---------- The value of a word ----------

  function One(x: bv32): bv32 {
    x + 1
  }

  // One more: in the low nibble, or a carry out of it.
  lemma NibbleNext(x: bv32)
    requires x != 0xFFFF_FFFF
    ensures Nibble(x) < 15 ==> Nibble(One(x)) == Nibble(x) + 1 && Down(One(x)) == Down(x)
    ensures Nibble(x) == 15 ==> Nibble(One(x)) == 0 && Down(One(x)) == One(Down(x))
    ensures Down(x) != 0xFFFF_FFFF
  {
  }

  lemma {:induction false} LowNext(x: bv32, n: nat)
    requires x != 0xFFFF_FFFF && Low(x, n) + 1 < Pow(16, n)
    ensures Low(One(x), n) == Low(x, n) + 1
    decreases n
  {
    hide Nibble, Down, One, Times;
    if n > 0 {
      NibbleNext(x);
      TimesIs(Low(Down(x), n - 1), 16);
      TimesIs(Low(Down(x), n - 1) + 1, 16);
      TimesIs(16, Pow(16, n - 1));
      if Nibble(x) == 15 {
        LowNext(Down(x), n - 1);
      }
    }
  }

  // All ones, n nibbles of them.
  function Ones(n: nat): bv32 {
    if n == 0 then 0 else Filled(Ones(n - 1))
  }

  function Filled(x: bv32): bv32 {
    Up(x) | 0xF
  }

  lemma FilledIs(x: bv32)
    requires Nibble(x) == 15
    ensures x == Filled(Down(x))
  {
  }

  // The greatest value of n nibbles is that of all ones.
  lemma {:induction false} LowFull(x: bv32, n: nat)
    requires Low(x, n) + 1 == Pow(16, n) && Shifted(x, n) == 0
    ensures x == Ones(n)
    decreases n
  {
    hide Nibble, Down, Filled;
    if n > 0 {
      TimesIs(Low(Down(x), n - 1), 16);
      TimesIs(16, Pow(16, n - 1));
      LowFull(Down(x), n - 1);
      FilledIs(x);
    }
  }

  lemma OnesFour(n: nat)
    ensures Ones(n + 4) == Filled(Filled(Filled(Filled(Ones(n)))))
  {
    hide Filled;
    assert Ones(n + 4) == Filled(Ones(n + 3)) && Ones(n + 3) == Filled(Ones(n + 2));
    assert Ones(n + 2) == Filled(Ones(n + 1));
  }

  lemma FilledFour(x: bv32)
    ensures Filled(Filled(Filled(Filled(x)))) == (x << 16) | 0xFFFF
  {
  }

  lemma AllOnes()
    ensures Ones(8) == 0xFFFF_FFFF
  {
    hide Filled;
    OnesFour(4);
    OnesFour(0);
    FilledFour(0);
    FilledFour(Ones(4));
  }

  lemma {:induction false} LowZero(v: bv32, k: nat)
    requires v == 0
    ensures Low(v, k) == 0
    decreases k
  {
    if k > 0 {
      NibbleMask(v);
      LowZero(Down(v), k - 1);
    }
  }

  // ToNat is the word's unsigned value: it is zero of zero and counts on by one.
  lemma ValueZero(v: bv32)
    requires v == 0
    ensures ToNat(v) == 0
  {
    hide Low;
    LowZero(v, 8);
  }

  lemma ValueNext(v: bv32)
    requires v != 0xFFFF_FFFF
    ensures ToNat(v + 1) == ToNat(v) + 1
  {
    hide Low, Shifted;
    assert v + 1 == One(v);
    PowEight();
    if Low(v, 8) + 1 == Pow(16, 8) {
      ShiftedAway(v);
      LowFull(v, 8);
      AllOnes();
    } else {
      LowNext(v, 8);
    }
  }
}
