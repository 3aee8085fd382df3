/** Fixed-width integers as the C++ code uses them.  Values are plain integers;
    every conversion and every sum that could leave its type is reduced explicitly. */
module Machine {
  const TWO_32: nat := 0x1_0000_0000
  const TWO_63: nat := 0x8000_0000_0000_0000
  const TWO_64: nat := 0x1_0000_0000_0000_0000

  /** Reduction modulo 2^32 and 2^64; a value in range is returned as it is, which is the same
      thing and spares the verifier the division. */
  function U32(x: int): nat { if 0 <= x < TWO_32 then x else x % TWO_32 }

  function U64(x: int): nat { if 0 <= x < TWO_64 then x else x % TWO_64 }

  /** Conversion to int32_t: two's complement. */
  function I32(x: int): int {
    if -0x8000_0000 <= x < 0x8000_0000 then x else (x + 0x8000_0000) % TWO_32 - 0x8000_0000
  }

  predicate FitsI64(x: int) { -(TWO_63 as int) <= x < TWO_63 }

  /** The `/` and `%` of C++ on signed operands, which truncate toward zero. */
  function TruncDiv(a: int, b: int): int
    requires b > 0
  {
    if a >= 0 then a / b else -((-a) / b)
  }

  function TruncMod(a: int, b: int): int
    requires b > 0
  {
    a - b * TruncDiv(a, b)
  }
}

module Wrappers {
  datatype Option<+T> = None | Some(value: T)
}
