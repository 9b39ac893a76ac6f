/** The fd_flags word of a descriptor: the lock bit, the device bit, and the flags of open(). */
module FdFlags {

  const FD_EXCL: bv32 := 0x8000_0000
  const FD_DEV: bv32 := 0x4000_0000
  const FD_MASK: bv32 := 0xC000_0000
  const FCNTL_MASK: bv32 := 0x4008 // O_APPEND | O_NONBLOCK

  // What the word says.
  datatype Flags = Flags(excl: bool, dev: bool, user: bv32)

  function Decode(f: bv32): Flags {
    Flags(f & FD_EXCL != 0, f & FD_DEV != 0, f & !FD_MASK)
  }

  // The bits of open()'s argument that a descriptor keeps.
  function Opened(flags: bv32): bv32 {
    flags & !FD_MASK
  }

  // The bits F_SETFL writes, taken from arg.
  function WithStatus(user: bv32, arg: bv32): bv32 {
    (user & !FCNTL_MASK) | (arg & FCNTL_MASK)
  }

  lemma OpenedBits(flags: bv32)
    ensures Opened(flags) == flags & 0x3FFF_FFFF
  {
  }

  // The lock bit is bit 31, the device bit is bit 30.
  lemma DecodeBits(f: bv32)
    ensures Decode(f) == Flags(f & 0x8000_0000 != 0, f & 0x4000_0000 != 0, f & 0x3FFF_FFFF)
  {
  }

  lemma DecodeOpened(f: bv32)
    ensures Decode(Opened(f)) == Flags(false, false, Opened(f))
  {
  }

  lemma DecodeDevice(f: bv32)
    ensures Decode(f | FD_DEV) == Decode(f).(dev := true)
  {
  }

  lemma DecodeLocked(f: bv32)
    ensures Decode(f | FD_EXCL) == Decode(f).(excl := true)
  {
  }

  lemma DecodeUnlocked(f: bv32)
    ensures Decode(f & !FD_EXCL) == Decode(f).(excl := false)
  {
  }

  lemma DecodeZero()
    ensures Decode(0) == Flags(false, false, 0)
  {
  }

  // F_SETFL leaves the lock and device bits alone.
  lemma DecodeStatus(f: bv32, arg: bv32)
    ensures Decode((f & !FCNTL_MASK) | (arg & FCNTL_MASK)) ==
            Decode(f).(user := WithStatus(Decode(f).user, arg))
  {
  }

  // The status bits are 3 and 14.
  lemma StatusBits(user: bv32, arg: bv32)
    ensures WithStatus(user, arg) == (user & 0xFFFF_BFF7) | (arg & 0x4008)
  {
  }

  // F_GETFL reads back what F_SETFL wrote; F_SETFL writes nothing else; writing back restores.
  lemma StatusReadsBack(user: bv32, arg: bv32)
    ensures WithStatus(user, arg) & FCNTL_MASK == arg & FCNTL_MASK
  {
  }

  lemma StatusLeaves(user: bv32, arg: bv32)
    ensures WithStatus(user, arg) & !FCNTL_MASK == user & !FCNTL_MASK
  {
  }

  lemma StatusRestores(user: bv32, arg: bv32)
    ensures WithStatus(WithStatus(user, arg), user) == user
  {
  }
}
