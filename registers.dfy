/**
 * Bit-field operations on a 32-bit register word, written with the operators the
 * C code uses: a field of `width` bits starting at bit `shift`.
 */
module Registers {

  /** `(1 << width) - 1`: the low `width` bits set. */
  function Mask(width: bv32): bv32
    requires width <= 32
  {
    (1 << width) - 1
  }

  /** `word & ~(mask << shift)`: the bits of `mask`, moved up by `shift`, cleared. */
  function ClearBits(word: bv32, mask: bv32, shift: bv32): bv32
    requires shift <= 32
  {
    word & !(mask << shift)
  }

  /** `word | (value << shift)`. */
  function OrBits(word: bv32, value: bv32, shift: bv32): bv32
    requires shift <= 32
  {
    word | (value << shift)
  }

  /** The read-modify-write of a field: clear it, then OR the value into it. */
  function Insert(word: bv32, value: bv32, width: bv32, shift: bv32): bv32
    requires width <= 32 && shift <= 32
  {
    OrBits(Clear(word, width, shift), value, shift)
  }

  /** The field read back: `(word >> shift) & Mask(width)`. */
  function Extract(word: bv32, width: bv32, shift: bv32): bv32
    requires width <= 32 && shift <= 32
  {
    (word >> shift) & Mask(width)
  }

  /** The word with the field cleared, that is, every bit outside the field. */
  function Clear(word: bv32, width: bv32, shift: bv32): bv32
    requires width <= 32 && shift <= 32
  {
    ClearBits(word, Mask(width), shift)
  }

  /** Bit `i` of `word` is set. */
  predicate Bit(word: bv32, i: bv32)
    requires i < 32
  {
    (word >> i) & 1 == 1
  }

  /** A field that fits its width and lies inside the word reads back what was inserted. */
  lemma InsertReadsBack(word: bv32, value: bv32, width: bv32, shift: bv32)
    requires 0 < width <= 30 && shift <= 32 && shift + width <= 32
    requires value <= Mask(width)
    ensures Extract(Insert(word, value, width, shift), width, shift) == value
  {
  }

  /** Inserting a field leaves the rest of the word as it was. */
  lemma InsertKeepsOutside(word: bv32, value: bv32, width: bv32, shift: bv32)
    requires 0 < width <= 30 && shift <= 32 && shift + width <= 32
    requires value <= Mask(width)
    ensures Clear(Insert(word, value, width, shift), width, shift) == Clear(word, width, shift)
  {
  }

  /** Bit `i` of the low-`width` mask is set exactly below `width`. */
  lemma MaskBit(width: bv32, i: bv32)
    requires width <= 32 && i < 32
    ensures Bit(Mask(width), i) <==> i < width
  {
  }

  /** Clearing a field keeps every bit below and above it. */
  lemma ClearKeepsBit(word: bv32, width: bv32, shift: bv32, i: bv32)
    requires 0 < width <= 30 && shift <= 32 && shift + width <= 32
    requires i < 32 && (i < shift || shift + width <= i)
    ensures Bit(Clear(word, width, shift), i) == Bit(word, i)
  {
  }

  /** Clearing a field zeroes every bit inside it. */
  lemma ClearZeroesBit(word: bv32, width: bv32, shift: bv32, i: bv32)
    requires 0 < width <= 30 && shift <= 32 && shift + width <= 32
    requires shift <= i < shift + width
    ensures !Bit(Clear(word, width, shift), i)
  {
  }

  /** Inserting a field leaves every bit below and above it as it was. */
  lemma InsertKeepsBit(word: bv32, value: bv32, width: bv32, shift: bv32, i: bv32)
    requires 0 < width <= 30 && shift <= 32 && shift + width <= 32
    requires value <= Mask(width)
    requires i < 32 && (i < shift || shift + width <= i)
    ensures Bit(Insert(word, value, width, shift), i) == Bit(word, i)
  {
  }

  /** `1 << k` has bit `k` set and no other. */
  lemma SingleBit(k: bv32, i: bv32)
    requires k < 32 && i < 32
    ensures Bit(1 << k, i) <==> i == k
  {
  }
}
