/** Bit-field arithmetic of the I2Cdev register transport.

    Registers are 8 or 16 bits wide. A field is described as I2Cdev describes it:
    `bitStart` is the index of its most significant bit (bit 7 is the MSB of a
    byte, bit 15 of a word) and `length` is its width, so the field occupies bits
    `bitStart - length + 1 .. bitStart`. Bit positions and widths are `uint8_t` in
    the driver and are `bv8` here.
 */
module Bits {

  /** Bit `i` of a byte is one. */
  predicate Bit8(x: bv8, i: bv8)
    requires i < 8
  {
    x & (1 << i) != 0
  }

  /** Bit `i` of a word is one. */
  predicate Bit16(x: bv16, i: bv8)
    requires i < 16
  {
    x & (1 << (i as bv16)) != 0
  }

  /** The driver's documented field range for a byte register: bitStart is 0-7 and
      the field does not run past bit 0 (a longer field would need a negative shift). */
  predicate ValidField8(bitStart: bv8, length: bv8)
  {
    bitStart < 8 && length <= bitStart + 1
  }

  /** The same for a word register: bitStart is 0-15. */
  predicate ValidField16(bitStart: bv8, length: bv8)
  {
    bitStart < 16 && length <= bitStart + 1
  }

  /** Position of the field's least significant bit. */
  function Low(bitStart: bv8, length: bv8): bv8
    requires length <= bitStart + 1
  {
    bitStart - length + 1
  }

  /** The low `length` bits of a byte: `(1 << length) - 1`, all ones for a full byte. */
  function LowMask8(length: bv8): bv8
    requires length <= 8
  {
    (1 << length) - 1
  }

  /** The low `length` bits of a word. */
  function LowMask16(length: bv8): bv16
    requires length <= 16
  {
    (1 << (length as bv16)) - 1
  }

  /** `((1 << length) - 1) << (bitStart - length + 1)`, the mask readBits and
      writeBits compute. Computed in the register's width, which agrees with the
      driver's `int` arithmetic for every valid field when `int` is 32 bits
      wide; on 8-bit AVR boards `int` is 16 bits, and `(1 << 16) - 1` for a
      full 16-bit field is undefined there. */
  function FieldMask8(bitStart: bv8, length: bv8): (m: bv8)
    requires ValidField8(bitStart, length)
  {
    LowMask8(length) << Low(bitStart, length)
  }

  /** The word-register mask of readBitsW and writeBitsW. */
  function FieldMask16(bitStart: bv8, length: bv8): (m: bv16)
    requires ValidField16(bitStart, length)
  {
    LowMask16(length) << (Low(bitStart, length) as bv16)
  }

  /** The right-aligned contents of a byte field: `(b & mask) >> low`. */
  function ExtractField8(b: bv8, bitStart: bv8, length: bv8): (r: bv8)
    requires ValidField8(bitStart, length)
    ensures r & !LowMask8(length) == 0
  {
    (b & FieldMask8(bitStart, length)) >> Low(bitStart, length)
  }

  /** The right-aligned contents of a word field. */
  function ExtractField16(w: bv16, bitStart: bv8, length: bv8): (r: bv16)
    requires ValidField16(bitStart, length)
    ensures r & !LowMask16(length) == 0
  {
    (w & FieldMask16(bitStart, length)) >> (Low(bitStart, length) as bv16)
  }

  /** The byte writeBits sends back: the low `length` bits of `data` replace the
      field and every other bit of `b` is kept. */
  function InsertField8(b: bv8, bitStart: bv8, length: bv8, data: bv8): (r: bv8)
    requires ValidField8(bitStart, length)
    ensures r & !FieldMask8(bitStart, length) == b & !FieldMask8(bitStart, length)
    ensures ExtractField8(r, bitStart, length) == data & LowMask8(length)
  {
    var mask := FieldMask8(bitStart, length);
    (b & !mask) | ((data << Low(bitStart, length)) & mask)
  }

  /** The word writeBitsW sends back. */
  function InsertField16(w: bv16, bitStart: bv8, length: bv8, data: bv16): (r: bv16)
    requires ValidField16(bitStart, length)
    ensures r & !FieldMask16(bitStart, length) == w & !FieldMask16(bitStart, length)
    ensures ExtractField16(r, bitStart, length) == data & LowMask16(length)
  {
    var mask := FieldMask16(bitStart, length);
    (w & !mask) | ((data << (Low(bitStart, length) as bv16)) & mask)
  }

  /** readBit's `b & (1 << bitNum)`: the bit left in place, not normalised to 0/1. */
  function TestBit8(b: bv8, bitNum: bv8): (r: bv8)
    requires bitNum < 8
    ensures r == 0 || r == 1 << bitNum
    ensures r != 0 <==> Bit8(b, bitNum)
  {
    b & (1 << bitNum)
  }

  /** readBitW's `w & (1 << bitNum)`. */
  function TestBit16(w: bv16, bitNum: bv8): (r: bv16)
    requires bitNum < 16
    ensures r == 0 || r == 1 << (bitNum as bv16)
    ensures r != 0 <==> Bit16(w, bitNum)
  {
    w & (1 << (bitNum as bv16))
  }

  /** writeBit's new byte: bit `bitNum` set when `on`, cleared otherwise. */
  function PutBit8(b: bv8, bitNum: bv8, on: bool): (r: bv8)
    requires bitNum < 8
    ensures r & !(1 << bitNum) == b & !(1 << bitNum)
    ensures Bit8(r, bitNum) == on
  {
    if on then b | (1 << bitNum) else b & !(1 << bitNum)
  }

  /** writeBitW's new word: bit `bitNum` set when `on`, cleared otherwise. */
  function PutBit16(w: bv16, bitNum: bv8, on: bool): (r: bv16)
    requires bitNum < 16
    ensures Bit16(r, bitNum) == on
  {
    if on then w | (1 << (bitNum as bv16)) else w & !(1 << (bitNum as bv16))
  }

  /** The word with bit `bitNum` cleared: every bit but that one. */
  function Others16(w: bv16, bitNum: bv8): bv16
    requires bitNum < 16
  {
    w & !(1 << (bitNum as bv16))
  }

  /** writeBitW leaves every other bit of the word as it was. */
  lemma PutBit16Keeps(w: bv16, bitNum: bv8, on: bool)
    requires bitNum < 16
    ensures Others16(PutBit16(w, bitNum, on), bitNum) == Others16(w, bitNum)
  {
  }

  /** The byte mask has exactly the field's bits set. */
  lemma FieldMask8Bits(bitStart: bv8, length: bv8)
    requires ValidField8(bitStart, length)
    ensures forall i: bv8 | i < 8 :: Bit8(FieldMask8(bitStart, length), i) <==> Low(bitStart, length) <= i <= bitStart
  {
  }

  /** The word mask has exactly the field's bits set. */
  lemma FieldMask16Bits(bitStart: bv8, length: bv8)
    requires ValidField16(bitStart, length)
    ensures forall i: bv8 | i < 16 :: Bit16(FieldMask16(bitStart, length), i) <==> Low(bitStart, length) <= i <= bitStart
  {
  }

  /** Bit `i` of the extracted value is bit `low + i` of the byte, for each bit of the field. */
  lemma ExtractField8Bits(b: bv8, bitStart: bv8, length: bv8)
    requires ValidField8(bitStart, length)
    ensures forall i: bv8 | i < length :: Bit8(ExtractField8(b, bitStart, length), i) == Bit8(b, Low(bitStart, length) + i)
  {
  }
  /** Bit `i` of the extracted value is bit `low + i` of the word. */
  lemma ExtractField16Bits(w: bv16, bitStart: bv8, length: bv8)
    requires ValidField16(bitStart, length)
    ensures forall i: bv8 | i < length :: Bit16(ExtractField16(w, bitStart, length), i) == Bit16(w, Low(bitStart, length) + i)
  {
  }
  /** Every bit of the written byte: inside the field it is the matching bit of
      `data`, outside it the bit of the original byte. */
  lemma InsertField8Bits(b: bv8, bitStart: bv8, length: bv8, data: bv8)
    requires ValidField8(bitStart, length)
    ensures forall i: bv8 | i < 8 :: Bit8(InsertField8(b, bitStart, length, data), i)
              == if Low(bitStart, length) <= i <= bitStart then Bit8(data, i - Low(bitStart, length)) else Bit8(b, i)
  {
  }
  /** Every bit of the written word, inside and outside the field. */
  lemma InsertField16Bits(w: bv16, bitStart: bv8, length: bv8, data: bv16)
    requires ValidField16(bitStart, length)
    ensures forall i: bv8 | i < 16 :: Bit16(InsertField16(w, bitStart, length, data), i)
              == if Low(bitStart, length) <= i <= bitStart then Bit16(data, i - Low(bitStart, length)) else Bit16(w, i)
  {
  }

  /** Two words agree on every bit outside the field. */
  lemma FieldDetermines16(w: bv16, v: bv16, bitStart: bv8, length: bv8)
    requires ValidField16(bitStart, length)
    requires w & !FieldMask16(bitStart, length) == v & !FieldMask16(bitStart, length)
    requires ExtractField16(w, bitStart, length) == ExtractField16(v, bitStart, length)
    ensures w == v
  {
  }

  /** The worked examples in the driver's comments. */
  lemma DocExamples()
    ensures ExtractField8(0x69, 4, 3) == 2                  // 01101001 -> 010
    ensures InsertField8(0xAF, 4, 3, 2) == 0xAB             // 10101111 -> 10101011
    ensures ExtractField16(0xD669, 12, 3) == 5              // 1101011001101001 -> 101
    ensures InsertField16(0xAF96, 12, 3, 2) == 0xAB96       // 1010111110010110 -> 1010101110010110
    ensures InsertField8(0xC3, 4, 3, 5) == 0xD7             // field 4..2, not 6..4
    ensures InsertField8(0xC3, 6, 3, 5) == 0xD3
  {
  }
}
