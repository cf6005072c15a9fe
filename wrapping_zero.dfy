/** Subtraction that stops at zero (kernel/src/utils/wrapping_zero.rs), for the
    five unsigned widths the kernel implements it for. */
module WrappingZero {

  datatype Width = U8 | U16 | U32 | U64 | Usize

  function Modulus(w: Width): (m: nat)
    ensures m >= 256
  {
    match w
    case U8 => 0x100
    case U16 => 0x1_0000
    case U32 => 0x1_0000_0000
    case U64 => 0x1_0000_0000_0000_0000
    case Usize => 0x1_0000_0000_0000_0000
  }

  predicate InRange(w: Width, x: int)
  {
    0 <= x < Modulus(w)
  }

  /** Rust's `wrapping_sub` on two values of width `w`: the difference, or the
      difference plus 2^bits when it would be negative. Exactly one of the
      two lies in range, so this is the difference modulo 2^bits. */
  function WrappingSub(w: Width, a: int, b: int): (r: int)
    requires InRange(w, a) && InRange(w, b)
    ensures InRange(w, r)
    ensures r == a - b || r == a - b + Modulus(w)
  {
    if a >= b then a - b else a - b + Modulus(w)
  }

  /** `if self < rhs { 0 } else { self.wrapping_sub(rhs) }`. */
  function WrappingSubZero(w: Width, a: int, b: int): (r: int)
    requires InRange(w, a) && InRange(w, b)
    ensures InRange(w, r)
    ensures a < b ==> r == 0
    ensures a >= b ==> r == a - b
    ensures r <= a
  {
    if a < b then 0 else WrappingSub(w, a, b)
  }
}
