/** Rust's `u64` and the wrapping arithmetic of its standard library. */
module Unsigned {

  const U64_MAX: int := 0xFFFF_FFFF_FFFF_FFFF

  /** 2^64, the modulus of u64 wrapping arithmetic. */
  const U64_MODULUS: int := 0x1_0000_0000_0000_0000

  newtype u64 = x: int | 0 <= x <= 0xFFFF_FFFF_FFFF_FFFF

  /** `a.wrapping_add(b)`: the sum modulo 2^64. */
  function WrappingAdd(a: u64, b: u64): (r: u64)
    ensures r as int == (a as int + b as int) % U64_MODULUS
  {
    if a as int + b as int <= U64_MAX then a + b else (a as int + b as int - U64_MODULUS) as u64
  }

  /** `a.wrapping_mul(b)`: the product modulo 2^64. */
  function WrappingMul(a: u64, b: u64): u64 {
    ((a as int * b as int) % U64_MODULUS) as u64
  }
}
