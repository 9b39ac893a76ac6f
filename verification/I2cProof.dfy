/** What the driver's traces mean: they read back as the messages sent, and move the bytes they name. */
module I2cProof {
  import opened Words
  import opened I2cSpec

  lemma ApplyMore(bus: Bus, cs: seq<Command>, c: Command)
    ensures ApplyAll(bus, cs + [c]) == Apply(ApplyAll(bus, cs), c)
    ensures Received(bus, cs + [c]) == if Rd(c) then Received(bus, cs) + [Apply(ApplyAll(bus, cs), c).rxr.value]
                                       else Received(bus, cs)
  {
    assert (cs + [c])[..|cs|] == cs;
  }

  // The five commands the driver gives.
  lemma Commands(bus: Bus, b: u8)
    ensures Apply(bus, Command(STA + WR, b)) == Bus(TakeByte(Start(bus.slave), b), None)
    ensures Apply(bus, Command(WR, b)) == Bus(TakeByte(bus.slave, b), None)
    ensures Apply(bus, Command(WR + STO, b)) == Bus(Stop(TakeByte(bus.slave, b)), None)
    ensures Apply(bus, Command(RD, b)) == Bus(AfterByte(bus.slave, false), Some(BusByte(bus.slave)))
    ensures Apply(bus, Command(RD + ACK + STO, b)) == Bus(Stop(AfterByte(bus.slave, true)), Some(BusByte(bus.slave)))
    ensures Rd(Command(RD, b)) && Rd(Command(RD + ACK + STO, b))
    ensures !Rd(Command(STA + WR, b)) && !Rd(Command(WR, b)) && !Rd(Command(WR + STO, b))
  {
    hide TakeByte, Stop, Start, AfterByte, BusByte;
  }

  lemma HeadApplied(bus: Bus, a: u8, reg: u16)
    ensures ApplyAll(bus, Head(a, reg)).slave ==
            TakeByte(TakeByte(TakeByte(Start(bus.slave), a), reg / 256), reg % 256)
    ensures Received(bus, Head(a, reg)) == []
  {
    hide Apply, Rd, TakeByte, Start, ReceivedByte;
    var h := Head(a, reg);
    ThreeApplied(bus, h[0], h[1], h[2]);
    Commands(bus, a);
    Commands(Apply(bus, h[0]), reg / 256);
    Commands(Apply(Apply(bus, h[0]), h[1]), reg % 256);
  }

  lemma ThreeApplied(bus: Bus, c: Command, d: Command, e: Command)
    ensures ApplyAll(bus, [c, d, e]) == Apply(Apply(Apply(bus, c), d), e)
    ensures !Rd(c) && !Rd(d) && !Rd(e) ==> Received(bus, [c, d, e]) == []
  {
    hide *;
    NoneApplied(bus);
    ApplyMore(bus, [], c);
    ApplyMore(bus, [c], d);
    ApplyMore(bus, [c, d], e);
    assert [] + [c] == [c] && [c] + [d] == [c, d] && [c, d] + [e] == [c, d, e];
  }

  lemma NoneApplied(bus: Bus)
    ensures ApplyAll(bus, []) == bus && Received(bus, []) == []
  {
  }

  // ---------- Traces ----------

  lemma {:induction false} SendingAt(a: u8, reg: u16, data: seq<u8>, n: nat)
    requires n <= |data|
    ensures var t := Sending(a, reg, data, n);
      && |t| == n + 3 && t[..3] == Head(a, reg)
      && forall i :: 3 <= i < |t| ==> t[i] == Command(WR, data[i - 3])
  {
    if n > 0 {
      SendingAt(a, reg, data, n - 1);
      var t := Sending(a, reg, data, n - 1);
      assert (t + [Command(WR, data[n - 1])])[..3] == t[..3];
    }
  }

  lemma {:induction false} AskingAt(a: u8, reg: u16, n: nat)
    ensures var t := Asking(a, reg, n);
      && |t| == n + 4 && t[..3] == Head(a, reg) && t[3] == Command(STA + WR, ForReading(a))
      && forall i :: 4 <= i < |t| ==> t[i] == Command(RD, ForReading(a))
  {
    if n > 0 {
      AskingAt(a, reg, n - 1);
      var t := Asking(a, reg, n - 1);
      assert (t + [Command(RD, ForReading(a))])[..3] == t[..3];
    }
  }

  lemma WriteTraceAt(a: u8, reg: u16, data: seq<u8>)
    requires data != []
    ensures var t := WriteTrace(a, reg, data);
      && |t| == |data| + 3 && t[0] == Head(a, reg)[0] && t[1] == Head(a, reg)[1] && t[2] == Head(a, reg)[2]
      && forall i :: 3 <= i < |t| ==> t[i] == Command(if i == |t| - 1 then WR + STO else WR, data[i - 3])
  {
    SendingAt(a, reg, data, |data| - 1);
    var t := Sending(a, reg, data, |data| - 1);
    assert t[0] == t[..3][0] && t[1] == t[..3][1] && t[2] == t[..3][2];
  }

  lemma ReadTraceAt(a: u8, reg: u16, n: nat)
    requires n > 0
    ensures var t := ReadTrace(a, reg, n);
      && |t| == n + 4 && t[0] == Head(a, reg)[0] && t[1] == Head(a, reg)[1] && t[2] == Head(a, reg)[2]
      && t[3] == Command(STA + WR, ForReading(a))
      && forall i :: 4 <= i < |t| ==> t[i] == Command(if i == |t| - 1 then RD + ACK + STO else RD, ForReading(a))
  {
    AskingAt(a, reg, n - 1);
    var t := Asking(a, reg, n - 1);
    assert t[0] == t[..3][0] && t[1] == t[..3][1] && t[2] == t[..3][2];
  }

  lemma HeadRegister(reg: u16)
    ensures reg / 256 * 256 + reg % 256 == reg
  {
  }

  lemma WriteReadsBack(a: u8, reg: u16, data: seq<u8>)
    requires data != []
    ensures Decode(WriteTrace(a, reg, data)) == Some(Write(a, reg, data))
  {
    var t := WriteTrace(a, reg, data);
    WriteTraceAt(a, reg, data);
    assert Writes(t);
    assert seq(|t| - 3, i requires 0 <= i < |t| - 3 => t[i + 3].txr) == data;
  }

  lemma ReadReadsBack(a: u8, reg: u16, n: nat)
    requires n > 0
    ensures Decode(ReadTrace(a, reg, n)) == Some(Read(a, reg, n))
  {
    var t := ReadTrace(a, reg, n);
    ReadTraceAt(a, reg, n);
    assert Reads(t);
    assert t[3].cr == STA + WR;
    assert !Writes(t);
  }

  lemma WriteOnly(t: seq<Command>)
    requires Writes(t)
    ensures Decode(t).Some? && Sends(Decode(t).value, t)
  {
    var m := Decode(t).value;
    WriteTraceAt(m.address, m.reg, m.data);
    var u := WriteTrace(m.address, m.reg, m.data);
    assert |u| == |t|;
    forall i | 0 <= i < |t| ensures t[i] == u[i] {
    }
    assert t == u;
  }

  lemma ReadOnly(t: seq<Command>)
    requires Reads(t)
    ensures Decode(t).Some? && Sends(Decode(t).value, t)
  {
    assert t[3].cr == STA + WR;
    assert !Writes(t);
    var m := Decode(t).value;
    ReadTraceAt(m.address, m.reg, m.count);
    var u := ReadTrace(m.address, m.reg, m.count);
    assert |u| == |t|;
    forall i | 0 <= i < |t| ensures t[i] == u[i] {
    }
    assert t == u;
  }

  // A trace is read as a message exactly when it is the one the driver sends for it.
  lemma DecodeExact(t: seq<Command>, m: Message)
    ensures Decode(t) == Some(m) <==> Sends(m, t)
  {
    if Decode(t).Some? {
      if Writes(t) {
        WriteOnly(t);
      } else {
        ReadOnly(t);
      }
    }
    if Sends(m, t) {
      match m
      case Write(a, reg, data) => WriteReadsBack(a, reg, data);
      case Read(a, reg, count) => ReadReadsBack(a, reg, count);
    }
  }

  // The bytes a write puts in the command and transmit registers.
  lemma WriteBytes(a: u8, reg: u16, data: seq<u8>)
    requires data != []
    ensures var t := WriteTrace(a, reg, data);
      && |t| == |data| + 3
      && t[0] == Command(0x90, a) && t[1] == Command(0x10, reg / 256) && t[2] == Command(0x10, reg % 256)
      && forall i :: 3 <= i < |t| ==> t[i] == Command(if i == |t| - 1 then 0x50 else 0x10, data[i - 3])
  {
    WriteTraceAt(a, reg, data);
  }

  // The bytes a read puts there; while bytes are received the transmit register keeps the address.
  lemma ReadBytes(a: u8, reg: u16, n: nat)
    requires n > 0
    ensures var t, odd := ReadTrace(a, reg, n), a / 2 * 2 + 1;
      && |t| == n + 4
      && t[0] == Command(0x90, a) && t[1] == Command(0x10, reg / 256) && t[2] == Command(0x10, reg % 256)
      && t[3] == Command(0x90, odd)
      && forall i :: 4 <= i < |t| ==> t[i] == Command(if i == |t| - 1 then 0x68 else 0x20, odd)
  {
    ReadTraceAt(a, reg, n);
    OddAddress(a);
  }

  lemma OddAddress(a: u8)
    ensures ForReading(a) == a / 2 * 2 + 1
  {
  }

  // Bus conditions of a write: START with the first byte only, STOP with the last only, bytes sent throughout.
  lemma WriteConditions(a: u8, reg: u16, data: seq<u8>, i: nat)
    requires data != [] && i < |WriteTrace(a, reg, data)|
    ensures var t := WriteTrace(a, reg, data);
      && (Sta(t[i]) <==> i == 0) && (Sto(t[i]) <==> i == |t| - 1) && Wr(t[i]) && !Rd(t[i])
  {
    WriteTraceAt(a, reg, data);
  }

  // Of a read: START and repeated START, then bytes received, the last with NACK and STOP.
  lemma ReadConditions(a: u8, reg: u16, n: nat, i: nat)
    requires n > 0 && i < |ReadTrace(a, reg, n)|
    ensures var t := ReadTrace(a, reg, n);
      && |t| > 3 && (Sta(t[i]) <==> i == 0 || i == 3) && (Rd(t[i]) <==> i > 3) && (Wr(t[i]) <==> i <= 3)
      && (Sto(t[i]) <==> i == |t| - 1) && (Nack(t[i]) <==> i == |t| - 1)
      && t[3].txr == ForReading(a) && t[3].txr % 2 == 1 && t[3].txr / 2 == a / 2
  {
    ReadTraceAt(a, reg, n);
  }

  // ---------- The slave's side of a write ----------

  lemma {:induction false} PageOn(p: Pointer, n: nat)
    ensures PageAddress(p, 0) == p
    ensures NextInPage(PageAddress(p, n)) == PageAddress(p, n + 1)
  {
    var u := p % PAGE + n;
    QuotientIs(p / PAGE, u % PAGE);
    NextRemainder(u / PAGE, u % PAGE);
  }

  lemma QuotientIs(q: nat, r: nat)
    requires r < PAGE
    ensures (PAGE * q + r) / PAGE == q && (PAGE * q + r) % PAGE == r
  {
  }

  lemma NextRemainder(q: nat, r: nat)
    requires r < PAGE
    ensures (PAGE * q + r + 1) % PAGE == if r == PAGE - 1 then 0 else r + 1
  {
  }

  // One more byte of a page write.
  lemma AfterMore(mem: Image, p: Pointer, data: seq<u8>, n: nat, j: Pointer)
    requires n < |data|
    ensures AfterWrite(mem, p, data, n + 1, j) ==
            if j == PageAddress(p, n) then data[n] else AfterWrite(mem, p, data, n, j)
  {
    hide PageAddress, PageOffset;
    var o := PageOffset(p, j);
    SamePage(p, n, j);
    if j / PAGE == p / PAGE && o < n + 1 {
      LastMore(o, n);
    }
  }

  // Byte n lands on j when j is in the page, n its offset or whole pages later.
  lemma SamePage(p: Pointer, n: nat, j: Pointer)
    ensures j == PageAddress(p, n) <==> j / PAGE == p / PAGE && n % PAGE == PageOffset(p, j)
    ensures PageOffset(p, j) < PAGE
  {
    SameOffset(p % PAGE, j % PAGE, n % PAGE);
    WholePages(n / PAGE, p % PAGE + n % PAGE);
    SplitUnique(p / PAGE, (p % PAGE + n) % PAGE, j / PAGE, j % PAGE);
  }

  lemma SameOffset(x: nat, y: nat, z: nat)
    requires x < PAGE && y < PAGE && z < PAGE
    ensures y == (x + z) % PAGE <==> z == (y + PAGE - x) % PAGE
  {
  }

  lemma SplitUnique(a: nat, u: nat, b: nat, v: nat)
    requires u < PAGE && v < PAGE
    ensures PAGE * a + u == PAGE * b + v <==> a == b && u == v
  {
  }

  lemma LastMore(o: nat, n: nat)
    requires o < n + 1 && o < PAGE
    ensures n % PAGE == o ==> LastWritten(o, n + 1) == n
    ensures n % PAGE != o ==> o < n && LastWritten(o, n + 1) == LastWritten(o, n)
  {
    var q, r := n / PAGE, n % PAGE;
    if r >= o {
      QuotientIs(q, r - o);
    } else {
      QuotientIs(q - 1, PAGE + r - o);
    }
    if r > o {
      QuotientIs(q, r - o - 1);
    } else if r < o {
      QuotientIs(q - 1, PAGE + r - o - 1);
    }
  }

  lemma HeadLands(bus: Bus, a: u8, reg: u16)
    requires a / 2 == bus.slave.dev && a % 2 == 0
    ensures ApplyAll(bus, Head(a, reg)).slave ==
            bus.slave.(ptr := reg % SIZE, phase := Writing(bus.slave.mem))
  {
    hide Apply, ApplyAll, Head, Received;
    HeadApplied(bus, a, reg);
    HeadRegister(reg);
  }

  // The bytes latched so far.
  ghost predicate Latched(s: Slave, before: Slave, p: Pointer, data: seq<u8>, n: nat)
    requires n <= |data|
  {
    && s.phase.Writing? && s.mem == before.mem && s.dev == before.dev
    && s.ptr == PageAddress(p, n)
    && forall j: Pointer :: s.phase.latch[j] == AfterWrite(before.mem, p, data, n, j)
  }

  lemma LatchMore(s: Slave, before: Slave, p: Pointer, data: seq<u8>, n: nat)
    requires n < |data| && Latched(s, before, p, data, n)
    ensures Latched(TakeByte(s, data[n]), before, p, data, n + 1)
  {
    PageOn(p, n);
    forall j: Pointer
      ensures TakeByte(s, data[n]).phase.latch[j] == AfterWrite(before.mem, p, data, n + 1, j)
    {
      AfterMore(before.mem, p, data, n, j);
    }
  }

  lemma HeadLatched(bus: Bus, a: u8, reg: u16, data: seq<u8>)
    requires a / 2 == bus.slave.dev && a % 2 == 0
    ensures Latched(ApplyAll(bus, Head(a, reg)).slave, bus.slave, reg % SIZE, data, 0)
  {
    hide Apply, ApplyAll, Head;
    HeadLands(bus, a, reg);
    PageOn(reg % SIZE, 0);
  }

  lemma {:induction false} SendingLands(bus: Bus, a: u8, reg: u16, data: seq<u8>, n: nat)
    requires a / 2 == bus.slave.dev && a % 2 == 0 && n <= |data|
    ensures Latched(ApplyAll(bus, Sending(a, reg, data, n)).slave, bus.slave, reg % SIZE, data, n)
  {
    hide Apply, ApplyAll, Head, TakeByte, Latched;
    if n == 0 {
      HeadLatched(bus, a, reg, data);
    } else {
      SendingLands(bus, a, reg, data, n - 1);
      ApplyMore(bus, Sending(a, reg, data, n - 1), Command(WR, data[n - 1]));
      Commands(ApplyAll(bus, Sending(a, reg, data, n - 1)), data[n - 1]);
      LatchMore(ApplyAll(bus, Sending(a, reg, data, n - 1)).slave, bus.slave, reg % SIZE, data, n - 1);
    }
  }

  // A write, of any length: every byte of the page holds the last byte written to it, no other changes.
  lemma WriteLands(bus: Bus, a: u8, reg: u16, data: seq<u8>, j: Pointer)
    requires data != [] && a / 2 == bus.slave.dev && a % 2 == 0
    ensures var s := ApplyAll(bus, WriteTrace(a, reg, data)).slave;
      && s.mem[j] == AfterWrite(bus.slave.mem, reg % SIZE, data, |data|, j)
      && s.phase == Idle && s.dev == bus.slave.dev
  {
    hide Apply, ApplyAll, TakeByte, AfterWrite;
    var n := |data| - 1;
    SendingLands(bus, a, reg, data, n);
    ApplyMore(bus, Sending(a, reg, data, n), Command(WR + STO, data[n]));
    Commands(ApplyAll(bus, Sending(a, reg, data, n)), data[n]);
    LatchMore(ApplyAll(bus, Sending(a, reg, data, n)).slave, bus.slave, reg % SIZE, data, n);
  }

  // ---------- The slave's side of a read ----------

  function ReadAddress(reg: u16, k: nat): Pointer {
    (reg + k) % SIZE
  }

  ghost predicate Answering(bus: Bus, before: Slave, reg: u16, n: nat) {
    bus.slave == before.(ptr := ReadAddress(reg, n), phase := Reading)
  }

  ghost predicate Answers(got: seq<u8>, mem: Image, reg: u16) {
    forall k :: 0 <= k < |got| ==> got[k] == mem[ReadAddress(reg, k)]
  }

  lemma ReadOn(reg: u16, n: nat)
    ensures NextInMemory(ReadAddress(reg, n)) == ReadAddress(reg, n + 1)
  {
  }

  lemma RestartLands(bus: Bus, a: u8, reg: u16)
    requires a / 2 == bus.slave.dev && a % 2 == 0
    ensures Answering(ApplyAll(bus, Asking(a, reg, 0)), bus.slave, reg, 0)
    ensures Received(bus, Asking(a, reg, 0)) == []
  {
    hide Apply, ApplyAll, Head, Received;
    var h := Head(a, reg);
    HeadLands(bus, a, reg);
    HeadApplied(bus, a, reg);
    ApplyMore(bus, h, Command(STA + WR, ForReading(a)));
    Commands(ApplyAll(bus, h), ForReading(a));
    AddressedToRead(ApplyAll(bus, h).slave, a);
  }

  lemma AddressedToRead(s: Slave, a: u8)
    requires a / 2 == s.dev
    ensures TakeByte(Start(s), ForReading(a)) == s.(phase := Reading)
  {
  }

  lemma {:induction false} AskingLands(bus: Bus, a: u8, reg: u16, n: nat)
    requires a / 2 == bus.slave.dev && a % 2 == 0
    ensures Answering(ApplyAll(bus, Asking(a, reg, n)), bus.slave, reg, n)
    ensures var got := Received(bus, Asking(a, reg, n)); |got| == n && Answers(got, bus.slave.mem, reg)
  {
    hide Apply, ApplyAll, Received, Head, Rd;
    if n == 0 {
      RestartLands(bus, a, reg);
    } else {
      AskingLands(bus, a, reg, n - 1);
      ApplyMore(bus, Asking(a, reg, n - 1), Command(RD, ForReading(a)));
      Commands(ApplyAll(bus, Asking(a, reg, n - 1)), ForReading(a));
      ReadOn(reg, n - 1);
    }
  }

  // A read of any length: the bytes from reg on, in order, and the memory stays.
  lemma ReadAnswers(bus: Bus, a: u8, reg: u16, n: nat)
    requires n > 0 && a / 2 == bus.slave.dev && a % 2 == 0
    ensures var got := Received(bus, ReadTrace(a, reg, n)); |got| == n && Answers(got, bus.slave.mem, reg)
    ensures var s := ApplyAll(bus, ReadTrace(a, reg, n)).slave; s.mem == bus.slave.mem && s.phase == Idle
  {
    hide Apply, ApplyAll, Received, Asking, Rd;
    AskingLands(bus, a, reg, n - 1);
    ApplyMore(bus, Asking(a, reg, n - 1), Command(RD + ACK + STO, ForReading(a)));
    Commands(ApplyAll(bus, Asking(a, reg, n - 1)), ForReading(a));
  }

  // ---------- Write, then read ----------

  // Within a page, byte k is written where byte k is read.
  lemma WithinPage(reg: u16, k: nat, n: nat)
    requires reg % PAGE + n <= PAGE && k < n
    ensures var p, j := reg % SIZE, ReadAddress(reg, k);
      j / PAGE == p / PAGE && PageOffset(p, j) == k && LastWritten(k, n) == k
  {
    InPage(reg, k);
  }

  lemma InPage(reg: u16, k: nat)
    requires reg % PAGE + k < PAGE
    ensures var p := reg % SIZE;
      ReadAddress(reg, k) == p + k && p % PAGE == reg % PAGE && (p + k) / PAGE == p / PAGE && (p + k) % PAGE == p % PAGE + k
  {
    var p := reg % SIZE;
    InnerPage(reg);
    PageSplit(p / PAGE, p % PAGE, k);
    SameRemainder(reg, k);
  }

  lemma InnerPage(reg: u16)
    ensures reg % SIZE % PAGE == reg % PAGE
  {
    WholePages(reg / SIZE * (SIZE / PAGE), reg % SIZE);
  }

  lemma WholePages(pages: nat, r: nat)
    ensures (PAGE * pages + r) % PAGE == r % PAGE
  {
  }

  lemma SameRemainder(reg: u16, k: nat)
    requires reg % SIZE + k < SIZE
    ensures ReadAddress(reg, k) == reg % SIZE + k
  {
  }

  lemma PageSplit(q: nat, r: nat, k: nat)
    requires q < SIZE / PAGE && r + k < PAGE
    ensures var p := PAGE * q + r; p + k < SIZE && (p + k) / PAGE == q && (p + k) % PAGE == r + k
  {
  }

  // What is written within a page is read back, and no other byte changes.
  lemma RoundTrip(bus: Bus, a: u8, reg: u16, data: seq<u8>)
    requires data != [] && a / 2 == bus.slave.dev && a % 2 == 0
    requires reg % PAGE + |data| <= PAGE
    ensures Received(ApplyAll(bus, WriteTrace(a, reg, data)), ReadTrace(a, reg, |data|)) == data
  {
    hide Apply, ApplyAll, WriteTrace, ReadTrace, Received, PageOffset, LastWritten, ReadAddress;
    var written := ApplyAll(bus, WriteTrace(a, reg, data));
    WriteLands(bus, a, reg, data, 0);
    ReadAnswers(written, a, reg, |data|);
    var got := Received(written, ReadTrace(a, reg, |data|));
    forall k | 0 <= k < |data| ensures got[k] == data[k] {
      WriteLands(bus, a, reg, data, ReadAddress(reg, k));
      WithinPage(reg, k, |data|);
    }
  }

  // The first byte past the page is written to the page's start but read from the next page.
  lemma PastPage(reg: u16)
    ensures var k := PAGE - reg % PAGE;
      ReadAddress(reg, k) / PAGE != reg % SIZE / PAGE
  {
    InnerPage(reg);
    var a, p := reg / SIZE, reg % SIZE;
    var b := p / PAGE;
    assert reg + (PAGE - reg % PAGE) == SIZE * a + PAGE * (b + 1);
    Turns(a, PAGE * (b + 1));
  }

  lemma Turns(a: nat, y: nat)
    requires y <= SIZE
    ensures (SIZE * a + y) % SIZE == if y == SIZE then 0 else y
  {
  }

  lemma CrossingFails(bus: Bus, a: u8, reg: u16, data: seq<u8>)
    requires a / 2 == bus.slave.dev && a % 2 == 0
    requires reg % PAGE + |data| > PAGE
    requires data[PAGE - reg % PAGE] != bus.slave.mem[ReadAddress(reg, PAGE - reg % PAGE)]
    ensures Received(ApplyAll(bus, WriteTrace(a, reg, data)), ReadTrace(a, reg, |data|)) != data
  {
    hide Apply, ApplyAll, WriteTrace, ReadTrace, Received, PageOffset, LastWritten, ReadAddress;
    var k := PAGE - reg % PAGE;
    var written := ApplyAll(bus, WriteTrace(a, reg, data));
    WriteLands(bus, a, reg, data, ReadAddress(reg, k));
    ReadAnswers(written, a, reg, |data|);
    PastPage(reg);
    assert Received(written, ReadTrace(a, reg, |data|))[k] == written.slave.mem[ReadAddress(reg, k)];
  }

  // Whatever the data, it is read back: exactly when it stays within a page.
  lemma RoundTripExact(bus: Bus, a: u8, reg: u16, n: nat)
    requires n > 0 && a / 2 == bus.slave.dev && a % 2 == 0
    ensures (forall data: seq<u8> :: |data| == n ==> Returned(bus, a, reg, data)) <==> reg % PAGE + n <= PAGE
  {
    if reg % PAGE + n <= PAGE {
      forall data: seq<u8> | |data| == n ensures Returned(bus, a, reg, data) {
        RoundTrip(bus, a, reg, data);
      }
    } else {
      var there := bus.slave.mem[ReadAddress(reg, PAGE - reg % PAGE)];
      var data := seq(n, i => if there == 0 then 1 else 0);
      CrossingFails(bus, a, reg, data);
      assert !Returned(bus, a, reg, data);
    }
  }

  ghost predicate Returned(bus: Bus, a: u8, reg: u16, data: seq<u8>)
    requires data != []
  {
    Received(ApplyAll(bus, WriteTrace(a, reg, data)), ReadTrace(a, reg, |data|)) == data
  }

  lemma OthersKept(bus: Bus, a: u8, reg: u16, data: seq<u8>, j: Pointer)
    requires data != [] && a / 2 == bus.slave.dev && a % 2 == 0
    requires reg % PAGE + |data| <= PAGE
    requires j < reg % SIZE || reg % SIZE + |data| <= j
    ensures ApplyAll(bus, WriteTrace(a, reg, data)).slave.mem[j] == bus.slave.mem[j]
  {
    hide Apply, ApplyAll, WriteTrace;
    WriteLands(bus, a, reg, data, j);
    OutOfRange(reg, |data|, j);
  }

  // Page offsets of bytes outside the range are not reached.
  lemma OutOfRange(reg: u16, n: nat, j: Pointer)
    requires reg % PAGE + n <= PAGE
    requires j < reg % SIZE || reg % SIZE + n <= j
    ensures var p := reg % SIZE; j / PAGE == p / PAGE ==> PageOffset(p, j) >= n
  {
    InnerPage(reg);
    if j / PAGE == reg % SIZE / PAGE {
      OutsideOffset(reg % PAGE, j % PAGE, n);
    }
  }

  lemma OutsideOffset(x: nat, y: nat, n: nat)
    requires x < PAGE && y < PAGE && x + n <= PAGE && (y < x || x + n <= y)
    ensures (y + PAGE - x) % PAGE >= n
  {
  }

  // A slave with another address keeps its memory.
  ghost predicate Untouched(s: Slave, before: Slave) {
    s.mem == before.mem && s.ptr == before.ptr && s.dev == before.dev && s.phase == Idle
  }

  lemma {:induction false} SendingElsewhere(bus: Bus, a: u8, reg: u16, data: seq<u8>, n: nat)
    requires a / 2 != bus.slave.dev && n <= |data|
    ensures Untouched(ApplyAll(bus, Sending(a, reg, data, n)).slave, bus.slave)
  {
    hide Apply, ApplyAll, Received, Head;
    if n == 0 {
      HeadApplied(bus, a, reg);
    } else {
      SendingElsewhere(bus, a, reg, data, n - 1);
      ApplyMore(bus, Sending(a, reg, data, n - 1), Command(WR, data[n - 1]));
      Commands(ApplyAll(bus, Sending(a, reg, data, n - 1)), data[n - 1]);
    }
  }

  lemma WriteElsewhere(bus: Bus, a: u8, reg: u16, data: seq<u8>)
    requires data != [] && a / 2 != bus.slave.dev
    ensures Untouched(ApplyAll(bus, WriteTrace(a, reg, data)).slave, bus.slave)
  {
    hide Apply, ApplyAll, Received, Head;
    var n := |data| - 1;
    SendingElsewhere(bus, a, reg, data, n);
    ApplyMore(bus, Sending(a, reg, data, n), Command(WR + STO, data[n]));
    Commands(ApplyAll(bus, Sending(a, reg, data, n)), data[n]);
  }
}
