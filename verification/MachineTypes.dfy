/** The fixed-width integers of the kernel (kernel/headers/typedefs.h). Arithmetic on them is
    arithmetic on `int`: wherever the source can wrap or truncate, the model writes `%`. */
module MachineTypes {
  type byte = b: int | 0 <= b < 0x100
  type u16 = n: int | 0 <= n < 0x1_0000
  type u32 = n: int | 0 <= n < 0x1_0000_0000
  type u64 = n: int | 0 <= n < 0x1_0000_0000_0000_0000

  const NUL: byte := 0
  const BACKSPACE: byte := 8
  const NEWLINE: byte := 10
  const SPACE: byte := 32
  const PERCENT: byte := 37
  const MINUS: byte := 45
  const POINT: byte := 46
  const ZERO: byte := 48

  /** A NUL-terminated C string, without its terminator. */
  type CString = s: seq<byte> | NUL !in s

  function Max(a: int, b: int): int { if a < b then b else a }

  function Min(a: int, b: int): int { if a < b then a else b }

  datatype Option<+T> = None | Some(value: T)
}
