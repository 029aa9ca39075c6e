/** Fixed-width integers, Option/Result, and the saturating and wrapping
    arithmetic the Rust code relies on. */
module Prelude {

  const U64_LIMIT: int := 0x1_0000_0000_0000_0000

  /** Rust's `u64`. */
  type u64 = x: int | 0 <= x < U64_LIMIT

  /** Rust's `u16` (an MQTT port). */
  type u16 = x: int | 0 <= x < 0x1_0000

  datatype Option<+T> = None | Some(value: T)

  datatype Result<+T, +E> = Success(value: T) | Failure(error: E)

  /** `a.saturating_sub(b)`: the least natural number that, added to `b`,
      reaches `a`. */
  function SaturatingSub(a: u64, b: u64): (r: u64)
    ensures r + b >= a
    ensures r > 0 ==> r + b == a
    ensures r <= a
  {
    if a >= b then a - b else 0
  }

  /** `a + b` on `u64` in a release build, where overflow wraps around. */
  function WrappingAdd(a: u64, b: u64): (r: u64)
    ensures a + b < U64_LIMIT ==> r == a + b
    ensures a + b >= U64_LIMIT ==> r + U64_LIMIT == a + b
  {
    (a + b) % U64_LIMIT
  }
}
