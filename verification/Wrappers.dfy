/** Shared result types and the machine word the program's `u64`/`usize` stand for. */
module Wrappers {
  datatype Option<+T> = None | Some(value: T)

  datatype Result<+T, +E> = Ok(value: T) | Err(error: E)

  /** 2^64: the number of values of a 64-bit word. */
  const TWO64: int := 0x1_0000_0000_0000_0000

  /** A 64-bit unsigned word. */
  type u64 = x: int | 0 <= x < TWO64

  /** A 64-bit signed integer. */
  type i64 = x: int | -0x8000_0000_0000_0000 <= x < 0x8000_0000_0000_0000

  /** A 32-bit signed integer. */
  type i32 = x: int | -0x8000_0000 <= x < 0x8000_0000

  function Min(a: int, b: int): int { if a <= b then a else b }

  function Max(a: int, b: int): int { if a <= b then b else a }

  /** Rust's `saturating_add` on `usize`. */
  function SaturatingAdd(a: u64, b: u64): u64 { Min(a + b, TWO64 - 1) }

  /** Rust's `saturating_mul` on `usize`. */
  function SaturatingMul(a: u64, b: u64): u64
  {
    assert 0 <= a * b;
    Min(a * b, TWO64 - 1)
  }
}
