/** Byte-level helpers of the driver: the integer widths of its parameters,
    the single-bit read-modify-write of `setLed`, the decimal-point glyph byte
    of `setDigit`/`setChar`, and the `char` to table-index conversion. */
module Bits {

  /** `uint8_t`: every address, index and count parameter of the driver. */
  type uint8 = x: int | 0 <= x < 256

  /** `char` on the AVR targets of the library: signed, 8 bits. */
  type int8 = x: int | -128 <= x < 128

  /** Bit `k` of `b`, bit 0 being the least significant. */
  predicate Bit(b: bv8, k: nat)
    requires k < 8
  {
    (b >> k) & 1 == 1
  }

  /** Two bytes are equal exactly when they agree on all eight bits. */
  lemma BitsDetermineByte(a: bv8, b: bv8)
    requires forall k :: 0 <= k < 8 ==> Bit(a, k) == Bit(b, k)
    ensures a == b
  {
    assert Bit(a, 0) == Bit(b, 0) && Bit(a, 1) == Bit(b, 1);
    assert Bit(a, 2) == Bit(b, 2) && Bit(a, 3) == Bit(b, 3);
    assert Bit(a, 4) == Bit(b, 4) && Bit(a, 5) == Bit(b, 5);
    assert Bit(a, 6) == Bit(b, 6) && Bit(a, 7) == Bit(b, 7);
  }

  /** The mask `B10000000 >> column`: column 0 is the most significant bit. */
  function ColumnMask(column: nat): bv8
    requires column < 8
  {
    0x80 >> column
  }

  /** The mask of `column` has exactly one bit set, bit `7 - column`. */
  lemma ColumnMaskBits(column: nat)
    requires column < 8
    ensures forall k :: 0 <= k < 8 ==> (Bit(ColumnMask(column), k) <==> k == 7 - column)
  {
  }

  /** The byte `b` after `setLed` has ORed in (`state`) or ANDed out (not
      `state`) the mask of `column`. */
  function WithLed(b: bv8, column: nat, state: bool): bv8
    requires column < 8
  {
    if state then b | ColumnMask(column) else b & !ColumnMask(column)
  }

  /** `setLed` gives bit `7 - column` the value `state` and keeps every
      other bit of the row. */
  lemma WithLedBits(b: bv8, column: nat, state: bool)
    requires column < 8
    ensures forall k :: 0 <= k < 8 ==> Bit(WithLed(b, column, state), k) == if k == 7 - column then state else Bit(b, k)
  {
    ColumnMaskBits(column);
    forall k | 0 <= k < 8
      ensures Bit(WithLed(b, column, state), k) == if k == 7 - column then state else Bit(b, k)
    {
      MaskedBit(b, ColumnMask(column), k);
    }
  }

  /** Bit `k` of an OR, and of an AND with a complement. */
  lemma MaskedBit(b: bv8, m: bv8, k: nat)
    requires k < 8
    ensures Bit(b | m, k) == (Bit(b, k) || Bit(m, k))
    ensures Bit(b & !m, k) == (Bit(b, k) && !Bit(m, k))
  {
    if k == 0 {
    } else if k == 1 {
    } else if k == 2 {
    } else if k == 3 {
    } else if k == 4 {
    } else if k == 5 {
    } else if k == 6 {
    } else {
      assert k == 7;
    }
  }

  /** Setting a bit that was clear and then clearing it gives back the byte. */
  lemma SetThenClearRestores(b: bv8, column: nat)
    requires column < 8 && !Bit(b, 7 - column)
    ensures WithLed(WithLed(b, column, true), column, false) == b
  {
    var r := WithLed(WithLed(b, column, true), column, false);
    WithLedBits(b, column, true);
    WithLedBits(WithLed(b, column, true), column, false);
    BitsDetermineByte(r, b);
  }

  /** Clearing a bit that was set and then setting it gives back the byte. */
  lemma ClearThenSetRestores(b: bv8, column: nat)
    requires column < 8 && Bit(b, 7 - column)
    ensures WithLed(WithLed(b, column, false), column, true) == b
  {
    var r := WithLed(WithLed(b, column, false), column, true);
    WithLedBits(b, column, false);
    WithLedBits(WithLed(b, column, false), column, true);
    BitsDetermineByte(r, b);
  }

  /** A later `setLed` on another column of the same row keeps an earlier one. */
  lemma OtherColumnKeepsLed(b: bv8, c1: nat, c2: nat, s1: bool, s2: bool)
    requires c1 < 8 && c2 < 8 && c1 != c2
    ensures Bit(WithLed(WithLed(b, c1, s1), c2, s2), 7 - c1) == s1
  {
    WithLedBits(b, c1, s1);
    WithLedBits(WithLed(b, c1, s1), c2, s2);
  }

  /** `(value >> (7 - row)) & 1`, the bit `setColumn` passes to `setLed`
      for row `row`. */
  function RowBitOf(value: bv8, row: nat): bv8
    requires row < 8
  {
    (value >> (7 - row)) & 1
  }

  /** The bit `setColumn` passes for row `row` is 0 or 1, and nonzero
      exactly when bit `7 - row` of `value` is set. */
  lemma RowBitOfBit(value: bv8, row: nat)
    requires row < 8
    ensures RowBitOf(value, row) <= 1 && (RowBitOf(value, row) != 0) == Bit(value, 7 - row)
  {
  }

  /** The glyph byte stored by `setDigit` and `setChar`: the table byte, with
      bit 7 (the decimal point) forced on when `dp` is set. */
  function Glyph(segments: bv8, dp: bool): bv8
  {
    if dp then segments | 0x80 else segments
  }

  /** The glyph shows the decimal point when `dp` is set or the table byte
      has it, and the seven segments of the table byte unchanged. */
  lemma GlyphBits(segments: bv8, dp: bool)
    ensures Bit(Glyph(segments, dp), 7) == (dp || Bit(segments, 7))
    ensures forall k :: 0 <= k < 7 ==> Bit(Glyph(segments, dp), k) == Bit(segments, k)
  {
    MaskedBit(segments, 0x80, 7);
    forall k | 0 <= k < 7 ensures Bit(Glyph(segments, dp), k) == Bit(segments, k) {
      MaskedBit(segments, 0x80, k);
    }
  }

  /** The table index `setChar` looks up: the `char` converted to `uint8_t`,
      with every code above 127 replaced by 32 (the space glyph). */
  function CharIndex(value: int8): (index: uint8)
    ensures index < 128
    ensures 0 <= value ==> index == value
    ensures value < 0 ==> index == 32
  {
    var code: uint8 := value % 256;
    if code > 127 then 32 else code
  }
}
