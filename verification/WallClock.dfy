/** settimeofday and gettimeofday: the wall clock as an offset to the tick counter. */
module WallClock {
  import opened Words
  import opened Numerals

  const US := 1_000_000

  datatype TimeVal = TimeVal(sec: s32, usec: s32)
  datatype Zone = Zone(minuteswest: s32, dsttime: s32)

  // The instant a time value denotes, in microseconds.
  function Micros(t: TimeVal): int {
    t.sec * US + t.usec
  }

  predicate Normal(t: TimeVal) {
    t.sec >= 0 && 0 <= t.usec < US
  }

  // Whole seconds in n ticks.
  function Seconds(n: u32, rate: u32): nat
    requires rate > 0
  {
    Over(n, rate)
  }

  // Whole microseconds in a tick.
  function Microseconds(rate: u32): nat
    requires rate > 0
  {
    Over(US, rate)
  }

  // Microseconds since the counter was zero, at n ticks.
  function Elapsed(n: nat, rate: u32): nat
    requires rate > 0
  {
    Times(n, Microseconds(rate))
  }

  // These are the machine's quotients and product.
  lemma Plainly(n: u32, rate: u32)
    requires rate > 0
    ensures Seconds(n, rate) == n / rate && Microseconds(rate) == US / rate
    ensures Elapsed(n, rate) == n * (US / rate)
    ensures Whole(rate) <==> US % rate == 0
    ensures Fraction(n, rate) == n * (US / rate) % 1_000_000
    ensures NarrowFraction(n, rate) == n * (US / rate) % 0x1_0000_0000 % 1_000_000
  {
    OverIs(n, rate);
    OverIs(US, rate);
    TimesIs(n, US / rate);
  }

  // The microseconds of the current second, from a 64-bit product.
  function Fraction(n: u32, rate: u32): (f: nat)
    requires rate > 0
    ensures f < US
  {
    Elapsed(n, rate) % US
  }

  // The same from a 32-bit product.
  function NarrowFraction(n: u32, rate: u32): (f: nat)
    requires rate > 0
    ensures f < US
  {
    ToU32(Elapsed(n, rate)) % US
  }

  // The offset settimeofday keeps.
  function Offset(t: TimeVal, n: u32, rate: u32): TimeVal
    requires rate > 0
  {
    TimeVal(ToS32(t.sec - Seconds(n, rate)), ToS32(t.usec - NarrowFraction(n, rate)))
  }

  // What gettimeofday adds up, before it is normalised.
  function Sum(offset: TimeVal, n: u32, rate: u32): TimeVal
    requires rate > 0
  {
    TimeVal(ToS32(offset.sec + Seconds(n, rate)), ToS32(offset.usec + Fraction(n, rate)))
  }

  // The same instant with 0 <= usec < 10^6; instants before zero with a negative usec are clamped to it.
  ghost predicate Normalised(r: TimeVal, s: TimeVal) {
    && 0 <= r.usec < US
    && if s.usec < 0 && Micros(s) < 0 then r == TimeVal(0, 0) else Micros(r) == Micros(s)
  }

  class Clock {
    var resettime: TimeVal
    var timezone: Zone
    var errno: Option<Errno>

    constructor ()
      ensures resettime == TimeVal(0, 0) && timezone == Zone(0, 0) && errno == None
    {
      resettime, timezone, errno := TimeVal(0, 0), Zone(0, 0), None;
    }

    // settimeofday, at tick n of a clock of this rate (0 if none runs).
    method Settimeofday(n: u32, rate: u32, t: TimeVal, tz: Zone) returns (rc: s32)
      modifies this
      ensures rate == 0 ==> rc == -1 && errno == Some(ENOSYS)
                            && resettime == old(resettime) && timezone == old(timezone)
      ensures rate > 0 ==> rc == 0 && resettime == Offset(t, n, rate) && timezone == tz && errno == old(errno)
    {
      if rate != 0 {
        Plainly(n, rate);
        var product := ToU32(n * (US / rate));
        resettime := TimeVal(ToS32(t.sec - n / rate), ToS32(t.usec - product % US));
        timezone := tz;
        return 0;
      }
      errno := Some(ENOSYS);
      return -1;
    }

    // gettimeofday.  The second results are what it stores, if anything.
    method Gettimeofday(n: u32, rate: u32, wantZone: bool)
      returns (rc: Code, tv: Option<TimeVal>, tz: Option<Zone>)
      requires rate > 0 ==> Storable(Sum(resettime, n, rate))
      ensures rate == 0 ==> rc == Fail(ENOTSUP) && tv == None && tz == None
      ensures rate > 0 ==> rc == Ok(0) && tv.Some? && Normalised(tv.value, Sum(resettime, n, rate))
      ensures rate > 0 ==> tz == if wantZone then Some(timezone) else None
    {
      if rate == 0 {
        return Fail(ENOTSUP), None, None;
      }
      Plainly(n, rate);
      var s := TimeVal(ToS32(resettime.sec + n / rate), ToS32(resettime.usec + n * (US / rate) % US));
      var r := Normalise(s);
      tv := Some(r);
      tz := if wantZone then Some(timezone) else None;
      rc := Ok(0);
    }
  }

  // The second of the instant can be stored.
  predicate Storable(s: TimeVal) {
    s.sec + s.usec / US < 0x8000_0000
  }

  // The two loops of gettimeofday.
  method Normalise(s: TimeVal) returns (r: TimeVal)
    requires Storable(s)
    ensures Normalised(r, s)
  {
    var sec: s32, usec: s32 := s.sec, s.usec;
    while usec < 0
      invariant sec * US + usec == Micros(s) && sec + usec / US == s.sec + s.usec / US
      invariant if s.usec >= 0 then usec == s.usec else usec < US
      invariant s.usec < 0 ==> sec >= 0 || (sec == s.sec && usec == s.usec)
      decreases US - usec
    {
      if sec <= 0 {
        return TimeVal(0, 0);
      }
      sec := sec - 1;
      usec := usec + US;
    }
    while usec >= US
      invariant sec * US + usec == Micros(s) && sec + usec / US == s.sec + s.usec / US
      invariant 0 <= usec && (s.usec < 0 ==> usec < US)
      decreases usec
    {
      sec := sec + 1;
      usec := usec - US;
    }
    r := TimeVal(sec, usec);
  }

  // ---------- The promise ----------

  // The rate divides a second into whole microseconds.
  predicate Whole(rate: u32) {
    rate > 0 && Rest(US, rate) == 0
  }

  lemma WholeTick(rate: u32)
    requires Whole(rate)
    ensures Microseconds(rate) > 0 && Times(rate, Microseconds(rate)) == US
  {
    OverRest(US, rate);
    TimesSwap(rate, Microseconds(rate));
  }

  // At a whole rate the ticks' seconds and microseconds are those of the elapsed time.
  lemma Split(n: u32, rate: u32)
    requires Whole(rate)
    ensures Reading(n, rate) == Elapsed(n, rate)
  {
    hide ToU32, NarrowFraction, Times, Over, Rest;
    var q, d, m := Microseconds(rate), Over(n, rate), Rest(n, rate);
    WholeTick(rate);
    OverRest(n, rate);
    TimesAdd(Times(d, rate), m, q);
    TimesAssoc(d, rate, q);
    TimesIs(d, US);
    TimesMono(m, rate, q);
    RemainderIs(d, Times(m, q), Elapsed(n, rate));
  }

  lemma RemainderIs(d: nat, m: int, e: int)
    requires e == d * US + m && 0 <= m < US
    ensures e % US == m
  {
  }

  // The error of the narrow product, at tick n.
  function Error(n: u32, rate: u32): int
    requires rate > 0
  {
    Fraction(n, rate) - NarrowFraction(n, rate)
  }

  // What the clock has counted at tick n, in microseconds, at any rate.
  function Reading(n: u32, rate: u32): nat
    requires rate > 0
  {
    Seconds(n, rate) * US + Fraction(n, rate)
  }

  // The clock is off by that error: set to t at n0, the sum at n1 is t, what it counted since, and the error.
  lemma SumIs(t: TimeVal, n0: u32, n1: u32, rate: u32)
    requires rate > 0 && Normal(t) && n0 <= n1
    requires t.sec + (Seconds(n1, rate) - Seconds(n0, rate)) < 0x8000_0000
    ensures var s := Sum(Offset(t, n0, rate), n1, rate);
      && Micros(s) == Micros(t) + Reading(n1, rate) - Reading(n0, rate) + Error(n0, rate)
      && -US < s.usec < 2 * US && 0 <= s.sec
  {
    hide ToS32, Seconds, Elapsed, Fraction, NarrowFraction;
    SecondsMono(n0, n1, rate);
    Cancels(t.sec, Seconds(n0, rate), Seconds(n1, rate));
    Small(t.usec - NarrowFraction(n0, rate));
    Small(t.usec - NarrowFraction(n0, rate) + Fraction(n1, rate));
  }

  lemma Small(x: int)
    requires -2 * US < x < 2 * US
    ensures ToS32(x) == x
  {
  }

  lemma SecondsMono(n0: u32, n1: u32, rate: u32)
    requires rate > 0 && n0 <= n1
    ensures Seconds(n0, rate) <= Seconds(n1, rate) <= n1
  {
    hide Times, Over, Rest;
    var d0, d1 := Over(n0, rate), Over(n1, rate);
    OverRest(n0, rate);
    OverRest(n1, rate);
    TimesMono(1, rate, d1);
    TimesOne(d1);
    TimesSwap(rate, d1);
    if d1 < d0 {
      TimesMono(d1, d0, rate);
    }
  }

  // 32-bit subtraction then addition give the exact sum when it can be stored.
  lemma Cancels(sec: s32, a: nat, b: nat)
    requires 0 <= sec + b - a < 0x8000_0000
    ensures ToS32(ToS32(sec - a) + b) == sec + b - a
  {
  }

  lemma ElapsedMono(n0: u32, n1: u32, rate: u32)
    requires Whole(rate) && n0 <= n1
    ensures Elapsed(n1, rate) == Elapsed(n0, rate) + Elapsed(n1 - n0, rate)
    ensures Elapsed(n1 - n0, rate) == 0 <==> n0 == n1
  {
    hide Over, Rest;
    WholeTick(rate);
    TimesAdd(n0, n1 - n0, Microseconds(rate));
    TimesMono(0, n1 - n0, Microseconds(rate));
  }

  // The time returned is the time set plus the ticks since.
  ghost predicate Exact(t: TimeVal, n0: u32, n1: u32, rate: u32, r: TimeVal)
    requires rate > 0 && n0 <= n1
  {
    0 <= r.usec < US && Micros(r) == Micros(t) + Elapsed(n1 - n0, rate)
  }

  // At any rate: the time returned is the time set plus what the clock counted since, if and only if the
  // setter's product lost a multiple of 15625 wraps and that time is not negative, or it is zero and the
  // loss clamped away.
  lemma ReadingExactIff(t: TimeVal, n0: u32, n1: u32, rate: u32, r: TimeVal)
    requires rate > 0 && Normal(t) && n0 <= n1
    requires t.sec + (Seconds(n1, rate) - Seconds(n0, rate)) < 0x8000_0000
    requires Normalised(r, Sum(Offset(t, n0, rate), n1, rate))
    ensures var now := Micros(t) + Reading(n1, rate) - Reading(n0, rate);
      Micros(r) == now <==>
      (now >= 0 && Elapsed(n0, rate) / WRAP % 15625 == 0) || (now == 0 && Error(n0, rate) < 0)
  {
    hide Sum, Offset, Elapsed, Seconds, Error, Reading;
    SumIs(t, n0, n1, rate);
    NoError(n0, rate);
  }

  // At any rate, an immediate read returns the time set if and only if the product lost a multiple of
  // 15625 wraps, or the time set is zero and the loss clamped away.
  lemma {:induction false} ImmediateExactIff(t: TimeVal, n: u32, rate: u32)
    requires rate > 0 && Normal(t)
    ensures forall r: TimeVal :: Normalised(r, Sum(Offset(t, n, rate), n, rate)) ==>
              (r == t <==> Elapsed(n, rate) / WRAP % 15625 == 0 || (Micros(t) == 0 && Error(n, rate) < 0))
  {
    hide Sum, Offset, Elapsed, Seconds, Error, Reading;
    forall r: TimeVal | Normalised(r, Sum(Offset(t, n, rate), n, rate))
      ensures r == t <==> Elapsed(n, rate) / WRAP % 15625 == 0 || (Micros(t) == 0 && Error(n, rate) < 0)
    {
      ReadingExactIff(t, n, n, rate, r);
    }
  }

  // At a whole rate, at any later tick: exact if and only if the product lost a multiple of 15625 wraps,
  // or the clock was set to zero, read at once, and the loss clamped away.
  lemma ClockExactIff(t: TimeVal, n0: u32, n1: u32, rate: u32, r: TimeVal)
    requires Whole(rate) && Normal(t) && n0 <= n1
    requires t.sec + (Seconds(n1, rate) - Seconds(n0, rate)) < 0x8000_0000
    requires Normalised(r, Sum(Offset(t, n0, rate), n1, rate))
    ensures Exact(t, n0, n1, rate, r) <==>
            || Elapsed(n0, rate) / WRAP % 15625 == 0
            || (Micros(t) == 0 && n0 == n1 && Error(n0, rate) < 0)
  {
    hide Sum, Offset, Elapsed, Seconds, Error, Reading;
    ReadingExactIff(t, n0, n1, rate, r);
    ElapsedMono(n0, n1, rate);
    Split(n0, rate);
    Split(n1, rate);
  }

  // Only at a whole rate does the clock count a tick's microseconds at every tick: at any other it has
  // counted a whole second after `rate` ticks, and their microseconds besides.
  lemma CountsTicksIff(rate: u32)
    requires rate > 0
    ensures Whole(rate) <==> forall n: u32 :: Reading(n, rate) == Elapsed(n, rate)
  {
    hide Elapsed, Reading;
    if Whole(rate) {
      forall n: u32 ensures Reading(n, rate) == Elapsed(n, rate) {
        Split(n, rate);
      }
    } else {
      NotWhole(rate);
    }
  }

  lemma NotWhole(rate: u32)
    requires rate > 0 && !Whole(rate)
    ensures Reading(rate, rate) == US + Elapsed(rate, rate)
  {
    hide Times, Over, Rest;
    OverRest(rate, rate);
    OverRest(US, rate);
    TimesSwap(rate, Over(US, rate));
    TimesOne(rate);
    DivUnique(1, 0, Over(rate, rate), Rest(rate, rate), rate);
  }

  // No error exactly when a multiple of 15625 wraps were lost: 10^6 = 64 * 15625.
  lemma NoError(n: u32, rate: u32)
    requires rate > 0
    ensures Error(n, rate) == 0 <==> Elapsed(n, rate) / WRAP % 15625 == 0
  {
    hide Elapsed;
    var e := Elapsed(n, rate);
    LostWraps(e / WRAP, e % WRAP);
  }

  lemma LostWraps(k: int, w: nat)
    ensures (k * WRAP + w) % US == w % US <==> k % 15625 == 0
  {
    if k % 15625 == 0 {
      WholeLoss(k / 15625, w);
    }
    if (k * WRAP + w) % US == w % US {
      OnlyWhole(k, (k * WRAP + w) / US - w / US);
    }
  }

  lemma WholeLoss(j: int, w: nat)
    ensures (j * 15625 * WRAP + w) % US == w % US
  {
    Multiple(j * 67108864, w);
  }

  lemma Multiple(m: int, w: nat)
    ensures (US * m + w) % US == w % US
  {
  }

  lemma OnlyWhole(k: int, m: int)
    requires k * WRAP == m * US
    ensures k % 15625 == 0
  {
    assert k * 67108864 == m * 15625;
    assert k == 15625 * (12659 * m - 54369991 * k);
  }

  // Set before the product wraps, the clock is exact and never clamped.
  lemma ClockExact(t: TimeVal, n0: u32, n1: u32, rate: u32, r: TimeVal)
    requires Whole(rate) && Normal(t) && n0 <= n1 && Elapsed(n0, rate) < WRAP
    requires t.sec + (Seconds(n1, rate) - Seconds(n0, rate)) < 0x8000_0000
    requires Normalised(r, Sum(Offset(t, n0, rate), n1, rate))
    ensures Exact(t, n0, n1, rate, r)
    ensures var s := Sum(Offset(t, n0, rate), n1, rate); !(s.usec < 0 && Micros(s) < 0)
  {
    hide Sum, Offset, Seconds, Error, Reading;
    SumIs(t, n0, n1, rate);
    Split(n0, rate);
    Split(n1, rate);
    ElapsedMono(n0, n1, rate);
    NotLost(n0, rate);
  }

  lemma NotLost(n: u32, rate: u32)
    requires rate > 0 && Elapsed(n, rate) < WRAP
    ensures Error(n, rate) == 0
  {
    hide Elapsed;
  }

  lemma CanBeStored(t: TimeVal, n0: u32, n1: u32, rate: u32)
    requires Whole(rate) && Normal(t) && n0 <= n1 && Elapsed(n0, rate) < WRAP
    requires t.sec + (Seconds(n1, rate) - Seconds(n0, rate)) < 0x7FFF_FFFF
    ensures Storable(Sum(Offset(t, n0, rate), n1, rate))
  {
    hide Elapsed, Seconds, Error, Fraction, NarrowFraction, ToS32;
    SumIs(t, n0, n1, rate);
    SecondsMono(n0, n1, rate);
    Cancels(t.sec, Seconds(n0, rate), Seconds(n1, rate));
  }

  // Set to t at tick n0 and read at n1: t and the ticks since, to the microsecond.
  method SetThenGet(c: Clock, t: TimeVal, tz: Zone, n0: u32, n1: u32, rate: u32) returns (r: TimeVal)
    requires rate > 0 && US % rate == 0 && n0 <= n1 && n0 * (US / rate) < WRAP
    requires Normal(t) && t.sec + (n1 / rate - n0 / rate) < 0x7FFF_FFFF
    modifies c
    ensures 0 <= r.usec < US && Micros(r) == Micros(t) + (n1 - n0) * (US / rate)
  {
    hide Sum, Offset, Elapsed, Seconds, Microseconds, Whole, Normalised, Storable;
    Plainly(n0, rate);
    Plainly(n1, rate);
    Plainly(n1 - n0, rate);
    CanBeStored(t, n0, n1, rate);
    var done := c.Settimeofday(n0, rate, t, tz);
    var rc, tv, zone := c.Gettimeofday(n1, rate, true);
    r := tv.value;
    ClockExact(t, n0, n1, rate, r);
  }
}
