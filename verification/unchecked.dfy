/**
 C# `int` arithmetic. The service is compiled without overflow checking, so `+` on two
 `int`s wraps around modulo 2^32 instead of failing.
 */
module Unchecked {

  const MinInt32: int := -0x8000_0000
  const MaxInt32: int := 0x7FFF_FFFF
  const Modulus: int := 0x1_0000_0000

  /** A value of the C# `int` type. */
  type Int32 = x: int | MinInt32 <= x <= MaxInt32

  predicate InRange(x: int) {
    MinInt32 <= x <= MaxInt32
  }

  /** Unchecked `a + b`: the mathematical sum, brought back into range by one wrap. */
  function Add(a: Int32, b: Int32): (r: Int32)
    ensures InRange(a + b) ==> r == a + b
    ensures a + b > MaxInt32 ==> r == a + b - Modulus
    ensures a + b < MinInt32 ==> r == a + b + Modulus
  {
    (a + b - MinInt32) % Modulus + MinInt32
  }
}
