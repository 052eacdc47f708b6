/** The free helpers at the end of the ADS1115 header that pick a field out of
    the CONFIG word for the debug dump: `createMask`, `shiftDown` and
    `getValueFromBits`. `unsigned` is modelled 32 bits wide, as on 32-bit
    boards; on 8-bit AVR boards it is 16 bits, and the two widths agree for
    the masks of bits 0..15, the only ones CONFIG has (`NarrowSpan`). */
module ADS1115Masks {
  import opened Bits

  /** `1 << i` in 32 bits: only bit `i` set, and nothing for `i` = 32. */
  function BitAt(i: bv32): bv32
    requires i <= 32
  {
    1 << i
  }

  /** The bits `a .. i-1`, set one at a time from the bottom up as the loop of
      createMask sets them. */
  function Span(a: bv32, i: bv32): bv32
    requires i <= 32
    decreases i
  {
    if i <= a then 0 else Span(a, i - 1) | BitAt(i - 1)
  }

  /** Adding the top bit `i - 1` to the bits `a .. i-2` gives the bits `a .. i-1`. */
  lemma MaskGrows(a: bv32, i: bv32)
    requires a < i <= 32
    ensures (BitAt(i - 1) - BitAt(a)) | BitAt(i - 1) == BitAt(i) - BitAt(a)
  {
  }

  /** The bits `a .. i-1` make the word `(1 << i) - (1 << a)`. */
  lemma {:induction false} SpanClosed(a: bv32, i: bv32)
    requires a <= i <= 32
    ensures Span(a, i) == BitAt(i) - BitAt(a)
    decreases i
  {
    if a < i {
      SpanClosed(a, i - 1);
      MaskGrows(a, i);
    }
  }

  /** The word `BitAt(b + 1) - BitAt(a)` has bit `j` set exactly when `a <= j <= b`. */
  lemma MaskBit(a: bv32, b: bv32, j: bv32)
    requires a <= b < 32 && j < 32
    ensures (BitAt(b + 1) - BitAt(a)) & BitAt(j) != 0 <==> a <= j <= b
  {
  }

  /** The mask of the bits `a .. b` has bit `j` set exactly when `a <= j <= b`. */
  lemma SpanBits(a: bv32, b: bv32)
    requires a <= b < 32
    ensures forall j: bv32 | j < 32 :: Span(a, b + 1) & BitAt(j) != 0 <==> a <= j <= b
  {
    SpanClosed(a, b + 1);
    forall j: bv32 | j < 32
      ensures (BitAt(b + 1) - BitAt(a)) & BitAt(j) != 0 <==> a <= j <= b
    {
      MaskBit(a, b, j);
    }
  }

  /** A mask of bits inside 0..15 fits in 16 bits, so a 16-bit `unsigned`
      computes the same mask. */
  lemma NarrowSpan(a: bv32, b: bv32)
    requires a <= b < 16
    ensures Span(a, b + 1) <= 0xFFFF
  {
    SpanClosed(a, b + 1);
  }

  /** createMask: one `mask |= 1 << i` for each `i` from `a` to `b`, so no
      iteration at all when `a > b`. The loop header's `i <= b` never fails
      for `b` = 0xFFFFFFFF and `1 << i` is undefined for `i >= 32`, so `b`
      must be below 32. The result has exactly the bits `a .. b` set
      (`SpanBits`) and is `(1 << (b + 1)) - (1 << a)` (`SpanClosed`). */
  method CreateMask(a: bv32, b: bv32) returns (mask: bv32)
    requires b < 32
    ensures a <= b ==> mask == Span(a, b + 1)
    ensures a > b ==> mask == 0
  {
    mask := 0;
    if a > b {
      return;
    }
    var i := a;
    while i <= b
      invariant a <= i <= b + 1
      invariant mask == Span(a, i)
      decreases 32 - i as int
    {
      mask := mask | BitAt(i);
      i := i + 1;
    }
  }

  /** The `uint16_t` parameter of shiftDown keeps the low 16 bits of the
      `unsigned` it is passed. */
  function Truncate16(w: bv32): bv16
  {
    (w & 0xFFFF) as bv16
  }

  /** shiftDown: `extractFrom >> places`. */
  function ShiftDown(extractFrom: bv16, places: bv8): bv16
    requires places <= 16
  {
    extractFrom >> places
  }

  /** createMask's bits `low .. high`, cut to 16 bits, are I2Cdev's field mask. */
  lemma MaskAgrees(x: bv16, high: bv8, length: bv8)
    requires ValidField16(high, length) && length > 0
    ensures Truncate16((x as bv32) & (BitAt(high as bv32 + 1) - BitAt(Low(high, length) as bv32)))
              == x & FieldMask16(high, length)
  {
  }

  /** getValueFromBits: the mask from bit `high - length + 1` to bit `high`,
      applied and shifted down. Its `int` arguments are taken in the range of
      a valid field, where `low` is not negative. It extracts the same field
      readBitsW does. */
  method GetValueFromBits(extractFrom: bv16, high: bv8, length: bv8) returns (v: bv16)
    requires ValidField16(high, length)
    ensures v == ExtractField16(extractFrom, high, length)
  {
    var low := Low(high, length);
    var mask := CreateMask(low as bv32, high as bv32);
    v := ShiftDown(Truncate16((extractFrom as bv32) & mask), low);
    if length > 0 {
      SpanClosed(low as bv32, high as bv32 + 1);
      MaskAgrees(extractFrom, high, length);
    }
  }
}
