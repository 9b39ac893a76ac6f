/**
  The OpenCores I2C master, command by command, on a bus with an AT24C64 EEPROM (sections 3.1.4, 3.1.6
  and 3.1.10 of UM10204 give the bus conditions), and the command traces the driver promises.
 */
module I2cSpec {
  import opened Words

  // ---------- The slave ----------

  const SIZE := 0x2000
  const PAGE := 32

  type Image = s: seq<u8> | |s| == 0x2000 witness seq(0x2000, i => 0)

  // What the slave takes the next byte for.  A page being written is programmed by the STOP.
  datatype Phase = Idle | Addressed | High | Low(hi: u8) | Writing(latch: Image) | Reading

  type Pointer = p: nat | p < 0x2000

  datatype Slave = Slave(dev: nat, mem: Image, ptr: Pointer, phase: Phase)

  function Start(s: Slave): Slave {
    s.(phase := Addressed)
  }

  function Stop(s: Slave): Slave {
    if s.phase.Writing? then s.(mem := s.phase.latch, phase := Idle) else s.(phase := Idle)
  }

  // The next address of a page write: the page's five low bits count, the others stay.
  function NextInPage(p: Pointer): Pointer {
    if p % PAGE == PAGE - 1 then p - (PAGE - 1) else p + 1
  }

  // The next address of a sequential read.
  function NextInMemory(p: Pointer): Pointer {
    if p == SIZE - 1 then 0 else p + 1
  }

  // A byte from the master.
  function TakeByte(s: Slave, b: u8): Slave {
    match s.phase
    case Addressed => s.(phase := if b / 2 != s.dev then Idle else if b % 2 == 1 then Reading else High)
    case High => s.(phase := Low(b))
    case Low(hi) => s.(ptr := (hi * 256 + b) % SIZE, phase := Writing(s.mem))
    case Writing(latch) => s.(ptr := NextInPage(s.ptr), phase := Writing(latch[s.ptr := b]))
    case _ => s
  }

  // A byte for the master; the line stays high unless the slave drives it.
  function BusByte(s: Slave): u8 {
    if s.phase.Reading? then s.mem[s.ptr] else 0xFF
  }

  // The master's acknowledge after that byte: a NACK ends the transfer.
  function AfterByte(s: Slave, nack: bool): Slave {
    if s.phase.Reading? then s.(ptr := NextInMemory(s.ptr), phase := if nack then Idle else Reading) else s
  }

  // ---------- The master core ----------

  const STA: u8 := 0x80
  const STO: u8 := 0x40
  const RD: u8 := 0x20
  const WR: u8 := 0x10
  const ACK: u8 := 0x08

  // A value written to the command register, with the transmit register as it was then.
  datatype Command = Command(cr: u8, txr: u8)

  function Sta(c: Command): bool { c.cr / 0x80 % 2 == 1 }
  function Sto(c: Command): bool { c.cr / 0x40 % 2 == 1 }
  function Rd(c: Command): bool { c.cr / 0x20 % 2 == 1 }
  function Wr(c: Command): bool { c.cr / 0x10 % 2 == 1 }
  function Nack(c: Command): bool { c.cr / 0x08 % 2 == 1 }

  // The slave, and the receive register if the last byte was a read one.
  datatype Bus = Bus(slave: Slave, rxr: Option<u8>)

  // The byte controller: START, then one byte with its acknowledge, then STOP.
  function Apply(bus: Bus, c: Command): Bus {
    if !Rd(c) && !Wr(c) && !Sto(c) then bus
    else
      var s := if Sta(c) then Start(bus.slave) else bus.slave;
      var moved :=
        if Rd(c) then Bus(AfterByte(s, Nack(c)), Some(BusByte(s)))
        else if Wr(c) || Sta(c) then Bus(TakeByte(s, c.txr), None)
        else Bus(s, None);
      if Sto(c) then moved.(slave := Stop(moved.slave)) else moved
  }

  function ApplyAll(bus: Bus, cs: seq<Command>): Bus {
    if cs == [] then bus else Apply(ApplyAll(bus, cs[..|cs| - 1]), cs[|cs| - 1])
  }

  // The bytes the read commands receive, in order.
  function Received(bus: Bus, cs: seq<Command>): seq<u8> {
    if cs == [] then []
    else
      var n := |cs| - 1;
      if Rd(cs[n]) then Received(bus, cs[..n]) + [ReceivedByte(bus, cs)] else Received(bus, cs[..n])
  }

  function ReceivedByte(bus: Bus, cs: seq<Command>): u8
    requires cs != [] && Rd(cs[|cs| - 1])
  {
    ApplyAll(bus, cs).rxr.value
  }

  // ---------- The driver's traces ----------

  // address | 1.
  function ForReading(address: u8): u8 {
    if address % 2 == 0 then address + 1 else address
  }

  function Head(address: u8, reg: u16): seq<Command> {
    [Command(STA + WR, address), Command(WR, reg / 256), Command(WR, reg % 256)]
  }

  // The head and the first n data bytes.
  function Sending(address: u8, reg: u16, data: seq<u8>, n: nat): seq<Command>
    requires n <= |data|
  {
    if n == 0 then Head(address, reg) else Sending(address, reg, data, n - 1) + [Command(WR, data[n - 1])]
  }

  function WriteTrace(address: u8, reg: u16, data: seq<u8>): seq<Command>
    requires data != []
  {
    Sending(address, reg, data, |data| - 1) + [Command(WR + STO, data[|data| - 1])]
  }

  // The head, the repeated START and n reads.
  function Asking(address: u8, reg: u16, n: nat): seq<Command> {
    if n == 0 then Head(address, reg) + [Command(STA + WR, ForReading(address))]
    else Asking(address, reg, n - 1) + [Command(RD, ForReading(address))]
  }

  function ReadTrace(address: u8, reg: u16, n: nat): seq<Command>
    requires n > 0
  {
    Asking(address, reg, n - 1) + [Command(RD + ACK + STO, ForReading(address))]
  }

  // The bytes a count asks for: at least one.
  function Moved(num: u16): (n: nat)
    ensures n > 0
  {
    if num == 0 then 1 else num
  }

  // ---------- Reading a trace back ----------

  datatype Message =
    | Write(address: u8, reg: u16, data: seq<u8>)
    | Read(address: u8, reg: u16, count: nat)

  // The register addressed by a trace.
  function Register(t: seq<Command>): u16
    requires |t| >= 3
  {
    t[1].txr * 256 + t[2].txr
  }

  // One START first, one STOP last, bytes written throughout.
  ghost predicate Writes(t: seq<Command>) {
    && |t| >= 4
    && forall i :: 0 <= i < |t| ==>
         t[i].cr == (if i == 0 then STA + WR else if i == |t| - 1 then WR + STO else WR)
  }

  // The repeated START carries the address for reading; NACK and STOP come with the last byte.
  ghost predicate Reads(t: seq<Command>) {
    && |t| >= 5
    && forall i :: 0 <= i < |t| ==>
         t[i].cr == (if i == 0 || i == 3 then STA + WR else if i < 3 then WR
                     else if i == |t| - 1 then RD + ACK + STO else RD)
         && (i >= 3 ==> t[i].txr == ForReading(t[0].txr))
  }

  ghost function Decode(t: seq<Command>): Option<Message> {
    if Writes(t) then Some(Write(t[0].txr, Register(t), seq(|t| - 3, i requires 0 <= i < |t| - 3 => t[i + 3].txr)))
    else if Reads(t) then Some(Read(t[0].txr, Register(t), |t| - 4))
    else None
  }

  ghost predicate Sends(m: Message, t: seq<Command>) {
    match m
    case Write(a, reg, data) => data != [] && t == WriteTrace(a, reg, data)
    case Read(a, reg, count) => count > 0 && t == ReadTrace(a, reg, count)
  }

  // ---------- The EEPROM's contents ----------

  // Where byte k of a page write at p lands.
  function PageAddress(p: Pointer, k: nat): Pointer {
    p - p % PAGE + (p % PAGE + k) % PAGE
  }

  // How far into such a write j's byte comes first.
  function PageOffset(p: Pointer, j: Pointer): nat {
    (j % PAGE + PAGE - p % PAGE) % PAGE
  }

  // Of n bytes written, the one that stays at page offset o < n.
  function LastWritten(o: nat, n: nat): (k: nat)
    requires o < n
    ensures k < n
  {
    o + (n - 1 - o) / PAGE * PAGE
  }

  // The byte at j after the first n data bytes are written at p.
  function AfterWrite(mem: Image, p: Pointer, data: seq<u8>, n: nat, j: Pointer): u8
    requires n <= |data|
  {
    if j / PAGE == p / PAGE && PageOffset(p, j) < n then data[LastWritten(PageOffset(p, j), n)] else mem[j]
  }
}
