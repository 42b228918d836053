/**
 * Bit-level surgery on 64-bit target words, as done by the breakpoint
 * code in src/breakpoint.cpp: read the low byte, replace the low byte.
 */
module Words {

  type Word = bv64
  type Byte = bv8

  /** The x86 `int3` trap instruction. */
  const Int3: Byte := 0xCC

  /** `data & 0xFF`, narrowed to a byte. */
  function LowByte(w: Word): Byte
  {
    (w & 0xFF) as Byte
  }

  /** Bits 8..63 of a word. */
  function HighBits(w: Word): Word
  {
    w >> 8
  }

  /**
   * `(data & ~0xFF) | b`: the word with its low byte replaced by `b` and
   * every other bit kept.
   */
  function WithLowByte(w: Word, b: Byte): (r: Word)
    ensures LowByte(r) == b
    ensures HighBits(r) == HighBits(w)
  {
    (w & !0xFF) | b as Word
  }

  /** A word is determined by its low byte and its bits 8..63. */
  lemma WordFromParts(w: Word, r: Word)
    requires LowByte(r) == LowByte(w)
    requires HighBits(r) == HighBits(w)
    ensures r == w
  {
  }

  /** Putting a word's own low byte back leaves it as it was. */
  lemma WithOwnLowByte(w: Word)
    ensures WithLowByte(w, LowByte(w)) == w
  {
  }

  /** Only the last low-byte replacement matters. */
  lemma WithLowByteTwice(w: Word, a: Byte, b: Byte)
    ensures WithLowByte(WithLowByte(w, a), b) == WithLowByte(w, b)
  {
  }
}
