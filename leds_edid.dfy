/** The inline accessors of `leds/edid.h`: the detailed-timing fields, the
    integer gamma, the chromaticity coordinates with an eight-bit shift, and the
    block checksum over a wrapping `uint8_t` accumulator.

    Each accessor is written with the operators of its C expression (`<<`, `|`,
    the conversion to the declared return type), and its contract states the
    value in terms of the bytes of the descriptor or block. */
module LedsEdid {
  import opened Bits
  import opened EdidLayout

  // ---- detailed timing descriptor ----

  /** `edid_timing_pixel_clock`: the product is computed in `int` and then
      converted to the `uint16_t` return type, so it is reduced modulo 2^16 and
      is the clock in Hz only while the raw value is at most 6. */
  function TimingPixelClock(d: Descriptor): (r: uint16)
    ensures r == (PixelClockRaw(d) * 10000) % 0x1_0000
    ensures r == PixelClockRaw(d) * 10000 <==> PixelClockRaw(d) <= 6
  {
    ToUint16(PixelClockRaw(d) * 10000)
  }

  /** `(hi << 8) | lo` for a four-bit hi and an eight-bit lo, converted to `uint16_t`. */
  function Join12(hi: nat, lo: byte): (r: uint16)
    requires hi < 16
    ensures r == 256 * hi + lo && r < 4096
    ensures r / 256 == hi && r % 256 == lo
  {
    OrDisjoint(hi, 8, lo);
    ConversionsKeepSmall(Or(Shl(hi, 8), lo));
    ToUint16(Or(Shl(hi, 8), lo))
  }

  /** `(hi << 4) | lo` for a two-bit hi and a four-bit lo, converted to `uint8_t`. */
  function Join6(hi: nat, lo: nat): (r: byte)
    requires hi < 4 && lo < 16
    ensures r == 16 * hi + lo && r < 64
    ensures r / 16 == hi && r % 16 == lo
  {
    OrDisjoint(hi, 4, lo);
    ConversionsKeepSmall(Or(Shl(hi, 4), lo));
    ToUint8(Or(Shl(hi, 4), lo))
  }

  /** `(hi << 4) | lo` for a two-bit hi and a full eight-bit lo, converted to
      `uint8_t`: the two operands overlap in bits 4 and 5, so this is a bitwise
      union rather than a sum. The low nibble is that of lo, no bit of lo is lost,
      and the result is lo itself when hi is 0. */
  function Overlay6(hi: nat, lo: byte): (r: byte)
    requires hi < 4
    ensures r == 16 * Or(hi, lo / 16) + lo % 16
    ensures r % 16 == lo % 16
    ensures r >= lo && r >= 16 * hi
    ensures hi == 0 ==> r == lo
  {
    OverlayLowNibble(hi, lo);
    OverlayBounds(hi, lo);
    ConversionsKeepSmall(Or(Shl(hi, 4), lo));
    ToUint8(Or(Shl(hi, 4), lo))
  }

  /** `(hi << 4) | lo` is the high nibble of lo OR-ed with hi, above the low nibble of lo. */
  lemma OverlayLowNibble(hi: nat, lo: byte)
    ensures Or(Shl(hi, 4), lo) == 16 * Or(hi, lo / 16) + lo % 16
    ensures Or(Shl(hi, 4), lo) % 16 == lo % 16
  {
    var x := Or(hi, Shr(lo, 4));
    Pow2Values();
    ShlIsMul(x, 4);
    assert Shl(x, 4) == 16 * x;
    ShrLowAreDivMod(lo, 4);
    assert Shr(lo, 4) == lo / 16 && Low(lo, 4) == lo % 16;
    OrShifted(hi, 4, lo);
    DivModUnique(Or(Shl(hi, 4), lo), 16, x, lo % 16);
  }

  /** `(hi << 4) | lo` fits in a byte and keeps both operands' bits. */
  lemma OverlayBounds(hi: nat, lo: byte)
    requires hi < 4
    ensures Or(Shl(hi, 4), lo) < 256
    ensures Or(Shl(hi, 4), lo) >= lo && Or(Shl(hi, 4), lo) >= 16 * hi
    ensures hi == 0 ==> Or(Shl(hi, 4), lo) == lo
  {
    var a := Shl(hi, 4);
    ShlIsMul(hi, 4);
    Pow2Values();
    assert a == 16 * hi < 256;
    OrAtLeast(a, lo);
    OrAtLeast(lo, a);
    OrCommutes(a, lo);
    OrBound(a, lo, 8);
  }

  function TimingHorizontalBlanking(d: Descriptor): (r: uint16)
    ensures r == 256 * (d[4] as int % 16) + d[3] as int && r < 4096
    ensures r / 256 == HorizontalBlankingHi(d) && r % 256 == HorizontalBlankingLo(d)
  {
    Join12(HorizontalBlankingHi(d), HorizontalBlankingLo(d))
  }

  function TimingHorizontalActive(d: Descriptor): (r: uint16)
    ensures r == 256 * (d[4] as int / 16) + d[2] as int && r < 4096
    ensures r / 256 == HorizontalActiveHi(d) && r % 256 == HorizontalActiveLo(d)
  {
    Join12(HorizontalActiveHi(d), HorizontalActiveLo(d))
  }

  function TimingVerticalBlanking(d: Descriptor): (r: uint16)
    ensures r == 256 * (d[7] as int % 16) + d[6] as int && r < 4096
    ensures r / 256 == VerticalBlankingHi(d) && r % 256 == VerticalBlankingLo(d)
  {
    Join12(VerticalBlankingHi(d), VerticalBlankingLo(d))
  }

  function TimingVerticalActive(d: Descriptor): (r: uint16)
    ensures r == 256 * (d[7] as int / 16) + d[5] as int && r < 4096
    ensures r / 256 == VerticalActiveHi(d) && r % 256 == VerticalActiveLo(d)
  {
    Join12(VerticalActiveHi(d), VerticalActiveLo(d))
  }

  function TimingVerticalSyncOffset(d: Descriptor): (r: byte)
    ensures r == 16 * ((d[11] / 4) % 4) + d[10] / 16 && r < 64
    ensures r / 16 == VerticalSyncOffsetHi(d) && r % 16 == VerticalSyncOffsetLo(d)
  {
    Join6(VerticalSyncOffsetHi(d), VerticalSyncOffsetLo(d))
  }

  function TimingVerticalSyncPulseWidth(d: Descriptor): (r: byte)
    ensures r == 16 * (d[11] % 4) + d[10] % 16 && r < 64
    ensures r / 16 == VerticalSyncPulseWidthHi(d) && r % 16 == VerticalSyncPulseWidthLo(d)
  {
    Join6(VerticalSyncPulseWidthHi(d), VerticalSyncPulseWidthLo(d))
  }

  /** The horizontal sync fields as written: the two high bits from byte 11
      shifted by four and OR-ed into the whole of byte 8. */
  function TimingHorizontalSyncOffset(d: Descriptor): (r: byte)
    ensures r == 16 * Or(d[11] / 64, d[8] / 16) + d[8] % 16
    ensures r % 16 == d[8] % 16 && r >= d[8] && r >= 16 * (d[11] / 64)
    ensures d[11] / 64 == 0 ==> r == d[8]
  {
    Overlay6(HorizontalSyncOffsetHi(d), HorizontalSyncOffsetLo(d))
  }

  function TimingHorizontalSyncPulseWidth(d: Descriptor): (r: byte)
    ensures r == 16 * Or((d[11] / 16) % 4, d[9] / 16) + d[9] % 16
    ensures r % 16 == d[9] % 16 && r >= d[9] && r >= 16 * ((d[11] / 16) % 4)
    ensures (d[11] / 16) % 4 == 0 ==> r == d[9]
  {
    Overlay6(HorizontalSyncPulseWidthHi(d), HorizontalSyncPulseWidthLo(d))
  }

  function TimingHorizontalImageSize(d: Descriptor): (r: uint16)
    ensures r == 256 * (d[14] as int / 16) + d[12] as int && r < 4096
    ensures r / 256 == HorizontalImageSizeHi(d) && r % 256 == HorizontalImageSizeLo(d)
  {
    Join12(HorizontalImageSizeHi(d), HorizontalImageSizeLo(d))
  }

  function TimingVerticalImageSize(d: Descriptor): (r: uint16)
    ensures r == 256 * (d[14] as int % 16) + d[13] as int && r < 4096
    ensures r / 256 == VerticalImageSizeHi(d) && r % 256 == VerticalImageSizeLo(d)
  {
    Join12(VerticalImageSizeHi(d), VerticalImageSizeLo(d))
  }

  // ---- base block ----

  /** `edid_gamma`: `(value + 100) / 100` in integer arithmetic, so only the
      integer part of the gamma survives. */
  function Gamma(b: Block): (r: uint16)
    ensures 1 <= r <= 3
    ensures r == 1 <==> DisplayTransferCharacteristics(b) < 100
    ensures r == 2 <==> 100 <= DisplayTransferCharacteristics(b) < 200
    ensures r == 3 <==> 200 <= DisplayTransferCharacteristics(b)
  {
    ConversionsKeepSmall((DisplayTransferCharacteristics(b) + 100) / 100);
    ToUint16((DisplayTransferCharacteristics(b) + 100) / 100)
  }

  /** `(high << 8) | low` for a chromaticity coordinate, stored in a `uint16_t`. */
  function Coordinate(high: byte, low: nat): (r: uint16)
    requires low < 4
    ensures r == 256 * high + low
    ensures r / 256 == high && r % 256 == low
    ensures r < 1024 <==> high < 4
  {
    OrDisjoint(high, 8, low);
    Pow2Values();
    DivModUnique(256 * high as int + low, 256, high, low);
    ConversionsKeepSmall(Or(Shl(high, 8), low));
    ToUint16(Or(Shl(high, 8), low))
  }

  /** `edid_color_characteristics` of this header: every coordinate is its high
      byte times 256 plus its two low bits, which leaves bits 2 to 7 zero, so it
      is a ten-bit value only when the high byte is 0. */
  function ColorCharacteristics(b: Block): (c: ColorCharacteristicsData)
    ensures forall k :: 0 <= k < 8 ==>
      Coordinates(c)[k] == 256 * ColorHighBytes(b)[k] as int + ColorLowBits(b)[k]
    ensures forall k :: 0 <= k < 8 ==>
      Coordinates(c)[k] / 256 == ColorHighBytes(b)[k] && Coordinates(c)[k] % 256 == ColorLowBits(b)[k]
    ensures forall k :: 0 <= k < 8 ==> (Coordinates(c)[k] < 1024 <==> ColorHighBytes(b)[k] < 4)
  {
    var hs, ls := ColorHighBytes(b), ColorLowBits(b);
    var c := ColorCharacteristicsData(
      Point(Coordinate(hs[0], ls[0]), Coordinate(hs[1], ls[1])),
      Point(Coordinate(hs[2], ls[2]), Coordinate(hs[3], ls[3])),
      Point(Coordinate(hs[4], ls[4]), Coordinate(hs[5], ls[5])),
      Point(Coordinate(hs[6], ls[6]), Coordinate(hs[7], ls[7])));
    assert forall k :: 0 <= k < 8 ==> Coordinates(c)[k] == Coordinate(hs[k], ls[k]);
    c
  }

  /** `edid_verify_checksum`: adds the first 128 bytes into a `uint8_t`, which
      wraps at 256, and accepts the block when the total is 0. */
  method VerifyChecksum(block: array<byte>) returns (ok: bool)
    requires block.Length >= BlockSize
    ensures ok <==> ChecksumValid(block[..])
  {
    var checksum: byte := 0;
    var i := 0;
    while i < BlockSize
      invariant 0 <= i <= BlockSize
      invariant checksum == Sum(block[..i]) % 0x100
    {
      assert block[..i + 1][..i] == block[..i];
      checksum := ToUint8(checksum + block[i]);
      i := i + 1;
    }
    assert block[..][..BlockSize] == block[..BlockSize];
    ok := checksum == 0;
  }
}
