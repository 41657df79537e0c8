/** The fixed-width integer types of the program and Rust's checked i64 arithmetic. */
module Ints {
  import opened Wrappers

  const I64Min: int := -0x8000_0000_0000_0000
  const I64Max: int := 0x7FFF_FFFF_FFFF_FFFF

  predicate InI64(x: int) { I64Min <= x <= I64Max }

  type int64 = x: int | InI64(x)
  type uint8 = x: int | 0 <= x < 0x100
  type uint16 = x: int | 0 <= x < 0x1_0000
  type uint32 = x: int | 0 <= x < 0x1_0000_0000

  /** `i64::checked_mul`: `None` when the exact product leaves the i64 range. */
  function CheckedMul(a: int64, b: int64): Option<int64>
  {
    if InI64(a * b) then Some(a * b) else None
  }

  /** `i64::checked_add`: `None` when the exact sum leaves the i64 range. */
  function CheckedAdd(a: int64, b: int64): Option<int64>
  {
    if InI64(a + b) then Some(a + b) else None
  }
}
