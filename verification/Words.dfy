/** Machine words of the Nios II target, and the error codes of the HAL. */
module Words {

  // 2^32: the modulus of every unsigned 32-bit operation.
  const WRAP := 0x1_0000_0000

  type u32 = n: int | 0 <= n < 0x1_0000_0000
  type u16 = n: int | 0 <= n < 0x1_0000
  type u8 = n: int | 0 <= n < 0x100
  type s32 = n: int | -0x8000_0000 <= n < 0x8000_0000

  // The value an unsigned 32-bit result is truncated to.
  function ToU32(n: int): u32 {
    n % WRAP
  }

  // The two's complement reading of the low 32 bits of n.
  function ToS32(n: int): s32 {
    var w := n % WRAP;
    if w < 0x8000_0000 then w else w - WRAP
  }

  // Both are n up to whole wraps; their types leave one such value each.
  lemma Truncations(n: int)
    ensures (n - ToU32(n)) % 0x1_0000_0000 == 0 && (n - ToS32(n)) % 0x1_0000_0000 == 0
  {
  }

  datatype Option<+T> = None | Some(value: T)

  // The errno values of the calls modelled here, by name.
  datatype Errno = EACCES | EBADFD | EINVAL | EMFILE | ENODEV | ENOSYS | ENOTSUP | ENOTTY | EDriver(code: nat)

  // A C return code: a non-negative value, or minus an errno value.
  datatype Code = Ok(value: nat) | Fail(errno: Errno)
}
