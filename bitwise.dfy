/** Byte-sized bit helpers (kernel/src/utils/bitwise.rs). */
module Bitwise {

  /** `value & !bitmask`: the bits of the mask are cleared, every other bit is kept. */
  function ClearBit(value: bv8, bitmask: bv8): (r: bv8)
    ensures r & bitmask == 0
    ensures r & !bitmask == value & !bitmask
  {
    value & !bitmask
  }

  /** `value | bitmask`: the bits of the mask are set, every other bit is kept. */
  function SetBit(value: bv8, bitmask: bv8): (r: bv8)
    ensures r & bitmask == bitmask
    ensures r & !bitmask == value & !bitmask
  {
    value | bitmask
  }

  /** The byte whose only set bit is bit `i`. */
  function Mask(i: nat): (m: bv8)
    requires i < 8
    ensures m == 1 << i
  {
    if i == 0 then 1 else if i == 1 then 2 else if i == 2 then 4 else if i == 3 then 8
    else if i == 4 then 16 else if i == 5 then 32 else if i == 6 then 64 else 128
  }

  /** Bit `i` of a byte is set. */
  predicate BitSet(b: bv8, i: nat)
    requires i < 8
  {
    b & Mask(i) != 0
  }

  /** `(value & bitmask) > 0`: true exactly when value and mask have a set bit
      in common. */
  predicate ContainsBit(value: bv8, bitmask: bv8): (r: bool)
    ensures r <==> exists i :: 0 <= i < 8 && BitSet(value, i) && BitSet(bitmask, i)
  {
    CommonBitOfConjunction(value, bitmask);
    value & bitmask > 0
  }

  /** A conjunction of bytes is non-zero exactly when the two share a set bit. */
  lemma CommonBitOfConjunction(value: bv8, bitmask: bv8)
    ensures value & bitmask != 0 <==> exists i :: 0 <= i < 8 && BitSet(value, i) && BitSet(bitmask, i)
  {
    var c := value & bitmask;
    if c != 0 {
      var i := SomeSetBit(c);
      BitOfConjunction(value, bitmask, i);
    }
    forall i | 0 <= i < 8 && BitSet(value, i) && BitSet(bitmask, i)
      ensures c != 0
    {
      BitOfConjunction(value, bitmask, i);
    }
  }

  /** Bit `i` of a conjunction is set exactly when it is set in both bytes. */
  lemma BitOfConjunction(value: bv8, bitmask: bv8, i: nat)
    requires i < 8
    ensures BitSet(value & bitmask, i) <==> BitSet(value, i) && BitSet(bitmask, i)
  {
    MaskIsSingleBit(i);
    SingleBit(value, bitmask, Mask(i));
  }

  /** Every mask has exactly one set bit. */
  lemma MaskIsSingleBit(i: nat)
    requires i < 8
    ensures Mask(i) != 0 && Mask(i) & (Mask(i) - 1) == 0
  {
  }

  /** A single-bit mask meets a conjunction exactly when it meets both bytes. */
  lemma SingleBit(value: bv8, bitmask: bv8, m: bv8)
    requires m != 0 && m & (m - 1) == 0
    ensures (value & bitmask) & m != 0 <==> value & m != 0 && bitmask & m != 0
  {
  }

  /** A non-zero byte has a set bit; the lowest one is returned. */
  lemma SomeSetBit(c: bv8) returns (i: nat)
    requires c != 0
    ensures i < 8 && BitSet(c, i)
  {
    i := if BitSet(c, 0) then 0 else if BitSet(c, 1) then 1 else if BitSet(c, 2) then 2
      else if BitSet(c, 3) then 3 else if BitSet(c, 4) then 4 else if BitSet(c, 5) then 5
      else if BitSet(c, 6) then 6 else 7;
  }

  /** `value ^ bitmask`: the bits of the mask are flipped, every other bit is kept. */
  function ToggleBit(value: bv8, bitmask: bv8): (r: bv8)
    ensures r & bitmask == !value & bitmask
    ensures r & !bitmask == value & !bitmask
  {
    value ^ bitmask
  }

  lemma SetThenContains(value: bv8, bitmask: bv8)
    requires bitmask != 0
    ensures ContainsBit(SetBit(value, bitmask), bitmask)
  {
  }

  lemma ClearThenNotContains(value: bv8, bitmask: bv8)
    ensures !ContainsBit(ClearBit(value, bitmask), bitmask)
  {
  }

  lemma ToggleTwiceIsIdentity(value: bv8, bitmask: bv8)
    ensures ToggleBit(ToggleBit(value, bitmask), bitmask) == value
  {
  }
}
