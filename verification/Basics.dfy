/** Machine words and the few stock definitions that several components share. */
module Basics {
  const UINT32_MOD: int := 0x1_0000_0000
  const INT32_MIN: int := -0x8000_0000
  const INT32_MAX: int := 0x7FFF_FFFF

  type Int32 = x: int | INT32_MIN <= x <= INT32_MAX

  datatype Option<+T> = None | Some(value: T)

  function Min(x: int, y: int): int { if x < y then x else y }

  /** A 32-bit word read as a signed number. */
  function ToInt32(x: int): Int32
    requires 0 <= x < UINT32_MOD
  {
    if x <= INT32_MAX then x else x - UINT32_MOD
  }
}
