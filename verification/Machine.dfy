/** The machine arithmetic that the kernel's C code relies on: fixed-width
    integers with wrap-around, and division that truncates toward zero. */
module Machine {
  const B31: int := 0x8000_0000
  const B32: int := 0x1_0000_0000
  const B63: int := 0x8000_0000_0000_0000
  const B64: int := 0x1_0000_0000_0000_0000

  type u32 = x: int | 0 <= x < B32
  type u64 = x: int | 0 <= x < B64
  type s32 = x: int | -B31 <= x < B31
  type s64 = x: int | -B63 <= x < B63
  type byte = x: int | 0 <= x < 256

  datatype Option<+T> = None | Some(value: T)

  // The moduli are written out below because the solver treats a division by a named
  // constant as nonlinear.

  /** Conversion to an unsigned type keeps the low-order bits. */
  function U32(x: int): (r: int)
    ensures 0 <= r < B32
    ensures 0 <= x < B32 ==> r == x
  {
    x % 0x1_0000_0000
  }

  function U64(x: int): (r: int)
    ensures 0 <= r < B64
    ensures 0 <= x < B64 ==> r == x
  {
    x % 0x1_0000_0000_0000_0000
  }

  /** Conversion to a signed type reinterprets the low-order bits in two's complement. */
  function S32(x: int): (r: int)
    ensures -B31 <= r < B31
    ensures -B31 <= x < B31 ==> r == x
  {
    var m := x % 0x1_0000_0000;
    if m < B31 then m else m - B32
  }

  function S64(x: int): (r: int)
    ensures -B63 <= r < B63
    ensures -B63 <= x < B63 ==> r == x
  {
    var m := x % 0x1_0000_0000_0000_0000;
    if m < B63 then m else m - B64
  }

  /** C division: the quotient is truncated toward zero. */
  function TruncDiv(n: int, d: int): int
    requires d != 0
  {
    if n >= 0 then n / d else -((-n) / d)
  }

  function TruncMod(n: int, d: int): int
    requires d != 0
  {
    n - d * TruncDiv(n, d)
  }
}
