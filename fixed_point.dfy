/**
 * The renderer's fixed-point number as used for a glyph's vertical offset:
 * a 32-bit signed raw value with 8 fractional bits.
 */
module FixedPoint {
  import opened FontBase

  /** Number of fractional bits. */
  const Shift: nat := 8
  /** The raw value of 1.0, that is 2 to the power Shift. */
  const One: nat := 256

  datatype Fixed = Fixed(raw: I32)

  /** Two's-complement wrap-around of an integer into 32 bits. */
  function Wrap32(x: int): (r: I32)
    ensures (r - x) % 0x1_0000_0000 == 0
    ensures -0x8000_0000 <= x < 0x8000_0000 ==> r == x
  {
    (x + 0x8000_0000) % 0x1_0000_0000 - 0x8000_0000
  }

  /**
   * `from_integer`: shifts the integer left by Shift bits in 32-bit
   * arithmetic. The raw value is v * One up to a multiple of 2^32, and is
   * exactly v * One when that fits in 32 bits.
   */
  function FromInteger(v: I32): (r: Fixed)
    ensures (r.raw - v * One) % 0x1_0000_0000 == 0
    ensures -0x80_0000 <= v < 0x80_0000 ==> r.raw == v * One
  {
    Fixed(Wrap32(v * One))
  }

  /** The integer part, an arithmetic right shift by Shift bits (it rounds towards minus infinity). */
  function IntegerPart(f: Fixed): (r: I32)
    ensures r * One <= f.raw < (r + 1) * One
  {
    f.raw / One
  }

  /**
   * Every integer whose shifted value fits in 32 bits, negative ones included,
   * converts to fixed point without loss.
   */
  lemma FromIntegerRoundTrip(v: I32)
    ensures -0x80_0000 <= v < 0x80_0000 ==> FromInteger(v).raw == v * One
    ensures -0x80_0000 <= v < 0x80_0000 ==> IntegerPart(FromInteger(v)) == v
  {
    if -0x80_0000 <= v < 0x80_0000 {
      var f := FromInteger(v);
      assert f.raw == v * One;
      var q := IntegerPart(f);
      assert q * One <= v * One < (q + 1) * One;
    }
  }
}
