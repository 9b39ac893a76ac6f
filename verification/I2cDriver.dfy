/** oc_i2c: the driver's register writes, proved to give the core the traces of `I2cSpec`. */
module I2cDriver {
  import opened Words
  import opened I2cSpec
  import opened I2cProof

  const CPU_FREQ: u32 := 100_000_000

  // The core's registers, and the bus behind it.
  class Core {
    var prerlo: u8
    var prerhi: u8
    var enabled: bool
    var ien: bool
    var txr: u8
    var bus: Bus
    var busy: nat             // status reads until the transfer is over, whatever it takes
    ghost var trace: seq<Command>
    ghost var overrun: bool   // a register was used while a transfer was in progress

    constructor (slave: Slave)
      ensures !enabled && !overrun && bus == Bus(slave, None) && trace == []
    {
      prerlo, prerhi, enabled, ien, txr, bus, busy := 0xFF, 0xFF, false, false, 0, Bus(slave, None), 0;
      trace, overrun := [], false;
    }

    // Between the driver's calls and between its commands.
    ghost predicate Quiet()
      reads this
    {
      enabled && busy == 0 && !overrun
    }

    method WritePrer(lo: u8, hi: u8)
      modifies this`prerlo, this`prerhi
      ensures prerlo == lo && prerhi == hi
    {
      prerlo, prerhi := lo, hi;
    }

    method WriteCtr(b: u8)
      modifies this`enabled, this`ien
      ensures enabled == (b / 0x80 % 2 == 1) && ien == (b / 0x40 % 2 == 1)
    {
      enabled, ien := b / 0x80 % 2 == 1, b / 0x40 % 2 == 1;
    }

    method WriteTxr(b: u8)
      modifies this`txr, this`overrun
      ensures txr == b && overrun == (old(overrun) || busy > 0)
    {
      overrun := overrun || busy > 0;
      txr := b;
    }

    // A command is taken when the core is enabled.
    method WriteCr(b: u8)
      modifies this`bus, this`busy, this`trace, this`overrun
      ensures overrun == (old(overrun) || old(busy) > 0)
      ensures if enabled then bus == Apply(old(bus), Command(b, txr)) && trace == old(trace) + [Command(b, txr)]
              else bus == old(bus) && trace == old(trace)
    {
      overrun := overrun || busy > 0;
      if enabled {
        bus := Apply(bus, Command(b, txr));
        trace := trace + [Command(b, txr)];
        var wait: nat := *;
        busy := wait;
      }
    }

    // Whatever the other status bits are, TIP is bit 1.
    method ReadSr() returns (sr: u8)
      modifies this`busy
      ensures sr / 2 % 2 == 1 <==> old(busy) > 0
      ensures busy == if old(busy) > 0 then old(busy) - 1 else 0
    {
      var rxack, bsy, irq: bool := *, *, *;
      sr := (if rxack then 0x80 else 0) + (if bsy then 0x40 else 0) + (if irq then 0x01 else 0);
      if busy > 0 {
        sr := sr + 0x02;
        busy := busy - 1;
      }
    }

    // The receive register holds the last byte read, or something else after a write.
    method ReadRxr() returns (b: u8)
      modifies this`overrun
      ensures overrun == (old(overrun) || busy > 0)
      ensures bus.rxr.Some? ==> b == bus.rxr.value
    {
      overrun := overrun || busy > 0;
      if bus.rxr.Some? {
        b := bus.rxr.value;
      } else {
        b := *;
      }
    }

    // ---------- The driver ----------

    // InitI2C: the prescale register divides the clock by five times the frequency, a 32-bit product.
    method InitI2C(freq: u32, ien1: u8)
      requires ToU32(5 * freq) != 0
      modifies this`prerlo, this`prerhi, this`enabled, this`ien
      ensures enabled && ien == (ien1 == 1)
      ensures Prescales(prerhi * 256 + prerlo, ToU32(5 * freq)) <==> 1526 <= ToU32(5 * freq)
      ensures Prescales(prerhi * 256 + prerlo, 5 * freq) <==>
              306 <= freq && (5 * freq < WRAP || ToU32(5 * freq) > CPU_FREQ)
    {
      hide Prescales, ToU32;
      var prescale := Prescale(freq);
      HighAndLow(prescale);
      WritePrer(prescale % 0x100, prescale % 0x1_0000 / 0x100);
      if ien1 == 1 {
        WriteCtr(0xC0);
      } else {
        WriteCtr(0x80);
      }
    }

    // The quotient, of which the two registers keep 16 bits.
    static method Prescale(freq: u32) returns (p: u32)
      requires ToU32(5 * freq) != 0
      ensures Prescales(p, ToU32(5 * freq))
      ensures Prescales(p % 0x1_0000, ToU32(5 * freq)) <==> 1526 <= ToU32(5 * freq)
      ensures Prescales(p % 0x1_0000, 5 * freq) <==>
              306 <= freq && (5 * freq < WRAP || ToU32(5 * freq) > CPU_FREQ)
    {
      hide Prescales, ToU32;
      FiveTimes(freq);
      var d := ToU32(ToU32(4 * freq) + freq);
      Quotient(CPU_FREQ, d);
      p := CPU_FREQ / d;
      PrescaleFitsIff(p, d);
      Unwrapped(freq, p % 0x1_0000);
      WrappedFitsIff(p, d);
    }

    // I2CWaitTIP.
    method WaitTIP()
      modifies this`busy
      ensures busy == 0
    {
      var sr := ReadSr();
      while sr / 2 % 2 == 1
        invariant sr / 2 % 2 == 0 ==> busy == 0
        decreases busy, sr / 2 % 2
      {
        sr := ReadSr();
      }
    }

    // One byte out: TXR, CR, and the wait.
    method Send(b: u8, cr: u8)
      requires Quiet()
      modifies this`txr, this`bus, this`busy, this`trace, this`overrun
      ensures Quiet() && txr == b
      ensures trace == old(trace) + [Command(cr, b)] && bus == Apply(old(bus), Command(cr, b))
    {
      WriteTxr(b);
      WriteCr(cr);
      WaitTIP();
    }

    // One byte in: CR, the wait, and RXR.
    method Receive(cr: u8) returns (b: u8)
      requires Quiet() && Rd(Command(cr, txr))
      modifies this`bus, this`busy, this`trace, this`overrun
      ensures Quiet()
      ensures trace == old(trace) + [Command(cr, txr)] && bus == Apply(old(bus), Command(cr, txr))
      ensures bus.rxr == Some(b)
    {
      WriteCr(cr);
      WaitTIP();
      b := ReadRxr();
    }

    // The address and register bytes both calls start with.
    method SendHead(address: u8, reg: u16)
      requires enabled && !overrun
      modifies this`txr, this`bus, this`busy, this`trace, this`overrun
      ensures Quiet() && Gave(trace, bus, old(trace), old(bus), Head(address, reg))
    {
      hide Apply, ApplyAll;
      WaitTIP();
      ghost var t, b, h := trace, bus, Head(address, reg);
      GaveNone(trace, bus);
      GaveMore(trace, bus, t, b, [], h[0]);
      Send(address, STA + WR);
      GaveMore(trace, bus, t, b, [] + [h[0]], h[1]);
      Send(reg / 256, WR);
      GaveMore(trace, bus, t, b, [] + [h[0]] + [h[1]], h[2]);
      Send(reg % 256, WR);
      assert [] + [h[0]] + [h[1]] + [h[2]] == h;
    }

    // I2CWrite.
    method I2CWrite(address: u8, reg: u16, buf: array<u8>, num: u16)
      requires enabled && !overrun && Moved(num) <= buf.Length
      modifies this`txr, this`bus, this`busy, this`trace, this`overrun
      ensures Quiet() && Gave(trace, bus, old(trace), old(bus), WriteTrace(address, reg, buf[..Moved(num)]))
    {
      ghost var t, b, data := trace, bus, buf[..Moved(num)];
      SendHead(address, reg);
      var i: u16 := 0;
      if num > 0 {
        var tmp: u16 := num - 1;
        while i < tmp
          invariant i <= tmp && Quiet() && Gave(trace, bus, t, b, Sending(address, reg, data, i))
        {
          GaveMore(trace, bus, t, b, Sending(address, reg, data, i), Command(WR, data[i]));
          Send(buf[i], WR);
          i := i + 1;
        }
      }
      GaveMore(trace, bus, t, b, Sending(address, reg, data, i), Command(WR + STO, data[i]));
      Send(buf[i], WR + STO);
    }

    // I2CRead.
    method I2CRead(address: u8, reg: u16, buf: array<u8>, num: u16)
      requires enabled && !overrun && Moved(num) <= buf.Length
      modifies this`txr, this`bus, this`busy, this`trace, this`overrun, buf
      ensures Quiet() && Gave(trace, bus, old(trace), old(bus), ReadTrace(address, reg, Moved(num)))
      ensures buf[..] == Received(old(bus), ReadTrace(address, reg, Moved(num))) + old(buf[Moved(num)..])
    {
      hide Apply, ApplyAll, Received, Asking, Filled;
      ghost var t, b, was := trace, bus, buf[..];
      SendHead(address, reg);
      GaveMore(trace, bus, t, b, Head(address, reg), Command(STA + WR, ForReading(address)));
      Send(ForReading(address), STA + WR);
      AskingNone(b, address, reg, was);
      var i: u16 := 0;
      if num > 0 {
        var tmp: u16 := num - 1;
        while i < tmp
          invariant i <= tmp && Quiet() && Gave(trace, bus, t, b, Asking(address, reg, i)) && txr == ForReading(address)
          invariant Filled(buf[..], was, Received(b, Asking(address, reg, i)), i)
        {
          ReadCommands(txr);
          GaveMore(trace, bus, t, b, Asking(address, reg, i), Command(RD, txr));
          var c := Receive(RD);
          FilledMore(buf[..], was, b, Asking(address, reg, i), Command(RD, txr), i, c);
          buf[i] := c;
          AskingMore(address, reg, i);
          i := i + 1;
        }
      }
      ReadCommands(txr);
      GaveMore(trace, bus, t, b, Asking(address, reg, i), Command(RD + ACK + STO, txr));
      var c := Receive(RD + ACK + STO);
      FilledMore(buf[..], was, b, Asking(address, reg, i), Command(RD + ACK + STO, txr), i, c);
      buf[i] := c;
      FilledIs(buf[..], was, Received(b, ReadTrace(address, reg, Moved(num))), Moved(num));
    }
  }

  // Since `from` and `before`, exactly these commands were given.
  ghost predicate Gave(trace: seq<Command>, bus: Bus, from: seq<Command>, before: Bus, cs: seq<Command>) {
    trace == from + cs && bus == ApplyAll(before, cs)
  }

  lemma GaveMore(trace: seq<Command>, bus: Bus, from: seq<Command>, before: Bus, cs: seq<Command>, c: Command)
    requires Gave(trace, bus, from, before, cs)
    ensures Gave(trace + [c], Apply(bus, c), from, before, cs + [c])
  {
    ApplyMore(before, cs, c);
    assert from + cs + [c] == from + (cs + [c]);
  }

  lemma GaveNone(trace: seq<Command>, bus: Bus)
    ensures Gave(trace, bus, trace, bus, [])
  {
  }

  // p is the clock divided by d, rounded down.
  predicate Prescales(p: nat, d: nat) {
    p * d <= CPU_FREQ < (p + 1) * d
  }

  // Its low 16 bits are still the quotient exactly if the divisor is at least 1526.
  lemma PrescaleFitsIff(p: u32, d: u32)
    requires d > 0 && p == CPU_FREQ / d
    ensures Prescales(p, d)
    ensures Prescales(p % 0x1_0000, d) <==> 1526 <= d
  {
    Quotient(CPU_FREQ, d);
    Below16Iff(p, d);
    if Prescales(p % 0x1_0000, d) {
      QuotientUnique(p, p % 0x1_0000, d);
    }
  }

  lemma Unwrapped(freq: u32, p: nat)
    ensures 5 * freq < WRAP ==> ToU32(5 * freq) == 5 * freq
    ensures 5 * freq >= WRAP ==> (Prescales(p, 5 * freq) <==> p == 0)
  {
    if 5 * freq >= WRAP && p > 0 {
      Monotone(1, p - 1, 5 * freq);
    }
  }

  // The low 16 bits are zero only of a zero quotient: no quotient is another multiple of 65536.
  lemma WrappedFitsIff(p: nat, d: nat)
    requires d > 0 && Prescales(p, d)
    ensures p % 0x1_0000 == 0 <==> d > CPU_FREQ
  {
    Below16Iff(p, d);
    if d > CPU_FREQ {
      Below(p, 1, d);
    } else {
      Below(0, p + 1, d);
      Grouped(p / 0x1_0000, d);
    }
  }

  lemma Grouped(m: nat, d: nat)
    ensures 0x1_0000 * m * d == 0x1_0000 * (m * d)
  {
  }

  // 1525 * 65536 is still below the clock's frequency, 1526 * 65536 is not.
  lemma Below16Iff(p: nat, d: nat)
    requires Prescales(p, d)
    ensures p < 0x1_0000 <==> 1526 <= d
  {
    if 1526 <= d {
      Below(p, 0x1_0000, d);
    } else {
      Below(0xFFFF, p, d);
    }
  }

  lemma QuotientUnique(p: nat, q: nat, d: nat)
    requires Prescales(p, d) && Prescales(q, d)
    ensures p == q
  {
    Below(p, q + 1, d);
    Below(q, p + 1, d);
  }

  // At 305 Hz the quotient is 65573, and the registers keep 37.
  lemma TooSlow()
    ensures Prescales(65573, 5 * 305) && 65573 % 0x1_0000 == 37 && !Prescales(37, 5 * 305)
  {
  }

  lemma Quotient(n: nat, d: nat)
    requires d > 0
    ensures n / d * d <= n < (n / d + 1) * d
  {
    assert n / d * d + n % d == n;
    assert (n / d + 1) * d == n / d * d + d;
  }

  lemma Below(p: nat, k: nat, d: nat)
    requires p * d < k * d
    ensures p < k
  {
    Monotone(k, p - k, d);
  }

  lemma Monotone(k: nat, m: int, d: nat)
    ensures (k + m) * d == k * d + m * d
    ensures m >= 0 ==> m * d >= 0
  {
  }

  lemma HighAndLow(p: u32)
    ensures p % 0x1_0000 / 0x100 * 256 + p % 0x100 == p % 0x1_0000
  {
    LowByte(p / 0x1_0000, p % 0x1_0000);
  }

  lemma LowByte(q: nat, r: nat)
    ensures (0x1_0000 * q + r) % 0x100 == r % 0x100
  {
  }

  lemma FiveTimes(freq: u32)
    ensures ToU32(ToU32(4 * freq) + freq) == ToU32(5 * freq)
  {
    WholeWraps(4 * freq / WRAP, ToU32(4 * freq) + freq);
  }

  lemma WholeWraps(k: nat, x: nat)
    ensures (WRAP * k + x) % WRAP == x % WRAP
  {
  }

  // `buf` holds the bytes received so far, and its old contents after them.
  ghost predicate Filled(buf: seq<u8>, was: seq<u8>, got: seq<u8>, n: nat) {
    n <= |was| && |got| == n && buf == got + was[n..]
  }

  lemma FilledMore(buf: seq<u8>, was: seq<u8>, bus: Bus, cs: seq<Command>, c: Command, n: nat, b: u8)
    requires Filled(buf, was, Received(bus, cs), n) && n < |was|
    requires Rd(c) && ApplyAll(bus, cs + [c]).rxr == Some(b)
    ensures n < |buf| && Filled(buf[n := b], was, Received(bus, cs + [c]), n + 1)
  {
    hide Rd, Apply, ApplyAll, Received;
    ApplyMore(bus, cs, c);
    FillNext(buf, was, Received(bus, cs), n, b);
  }

  lemma FillNext(buf: seq<u8>, was: seq<u8>, got: seq<u8>, n: nat, b: u8)
    requires Filled(buf, was, got, n) && n < |was|
    ensures n < |buf| && Filled(buf[n := b], was, got + [b], n + 1)
  {
  }

  lemma FilledIs(buf: seq<u8>, was: seq<u8>, got: seq<u8>, n: nat)
    requires Filled(buf, was, got, n)
    ensures n <= |was| && buf == got + was[n..]
  {
  }

  lemma AskingNone(bus: Bus, a: u8, reg: u16, was: seq<u8>)
    ensures Asking(a, reg, 0) == Head(a, reg) + [Command(STA + WR, ForReading(a))]
    ensures Filled(was, was, Received(bus, Asking(a, reg, 0)), 0)
  {
    hide Head, Apply, ApplyAll, Received;
    HeadApplied(bus, a, reg);
    ApplyMore(bus, Head(a, reg), Command(STA + WR, ForReading(a)));
    Commands(bus, ForReading(a));
    assert [] + was[0..] == was;
  }

  lemma AskingMore(a: u8, reg: u16, n: nat)
    ensures Asking(a, reg, n + 1) == Asking(a, reg, n) + [Command(RD, ForReading(a))]
  {
  }

  lemma ReadCommands(b: u8)
    ensures Rd(Command(RD, b)) && Rd(Command(RD + ACK + STO, b))
  {
  }

  // main's comparison: 0 if the first num bytes agree, else one more than the first that differs.
  method Cpr(buf0: array<u8>, buf1: array<u8>, num: u8) returns (i: nat)
    requires num <= buf0.Length && num <= buf1.Length
    ensures i == 0 <==> buf0[..num] == buf1[..num]
    ensures i > 0 ==> i <= num && buf0[..i - 1] == buf1[..i - 1] && buf0[i - 1] != buf1[i - 1]
  {
    for k := 0 to num
      invariant buf0[..k] == buf1[..k]
    {
      if buf0[k] != buf1[k] {
        assert buf0[..num][k] != buf1[..num][k];
        return k + 1;
      }
    }
    return 0;
  }

  // Write, read back and compare, as one pass of main does: no difference, if the bytes stay in a page.
  method WriteAndCheck(core: Core, address: u8, reg: u16, a: array<u8>, b: array<u8>, num: u8) returns (i: nat)
    requires core.enabled && !core.overrun
    requires address / 2 == core.bus.slave.dev && address % 2 == 0
    requires a != b && 0 < num <= a.Length && num <= b.Length && reg % PAGE + num <= PAGE
    modifies core`txr, core`bus, core`busy, core`trace, core`overrun, b
    ensures i == 0 && b[..num] == a[..num] && core.Quiet()
    ensures forall j: Pointer :: j < reg % SIZE || reg % SIZE + num <= j ==>
              core.bus.slave.mem[j] == old(core.bus.slave.mem[j])
  {
    hide ApplyAll, Received, WriteTrace, ReadTrace;
    ghost var data, start := a[..num], core.bus;
    RoundTrip(start, address, reg, data);
    WriteLands(start, address, reg, data, 0);
    core.I2CWrite(address, reg, a, num);
    ReadAnswers(core.bus, address, reg, num);
    core.I2CRead(address, reg, b, num);
    forall j: Pointer | j < reg % SIZE || reg % SIZE + num <= j
      ensures core.bus.slave.mem[j] == start.slave.mem[j]
    {
      OthersKept(start, address, reg, data, j);
    }
    i := Cpr(a, b, num);
  }

  // One pass of main.
  method Pass(core: Core, a: array<u8>, b: array<u8>) returns (i: nat)
    requires !core.overrun && core.bus.slave.dev == 0x51
    requires a != b && a.Length == 32 && b.Length == 32
    modifies core, b
    ensures i == 0 && b[..] == a[..]
    ensures core.prerhi == 0 && core.prerlo == 200
  {
    core.InitI2C(100_000, 0);
    i := WriteAndCheck(core, 0xA2, 32, a, b, 32);
  }
}
