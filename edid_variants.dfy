/** Where the two decoders differ. `leds/edid.h` and `eds/edid.c` read the same
    fields of the same block; they agree on every detailed-timing field except
    the pixel clock, and disagree on the chromaticity shift and on the gamma.

    The module also holds the ten-bit horizontal sync offset and pulse width of
    the E-EDID standard, which neither decoder computes: both OR the two high
    bits, shifted by four, into the full low byte. */
module EdidVariants {
  import opened Bits
  import opened EdidLayout
  import LedsEdid
  import EdsEdid

  // ---- pixel clock ----

  /** The header's clock is the file's reduced modulo 2^16; the two agree exactly
      for raw values up to 6, that is up to 60 kHz. */
  lemma PixelClocksAgreeIff(d: Descriptor)
    ensures LedsEdid.TimingPixelClock(d) == EdsEdid.DetailedTimingPixelClock(d) % 0x1_0000
    ensures LedsEdid.TimingPixelClock(d) == EdsEdid.DetailedTimingPixelClock(d) <==> PixelClockRaw(d) <= 6
  {
  }

  /** A clock of 70 kHz reads as 4464 Hz from the header, and one of 40.96 MHz
      (raw 0x1000) reads as 0, the value of an unused slot. */
  lemma PixelClockTruncates()
    ensures var d: Descriptor := seq(DescriptorSize, k => if k == 0 then 7 else 0);
      EdsEdid.DetailedTimingPixelClock(d) == 70000 && LedsEdid.TimingPixelClock(d) == 4464
    ensures var d: Descriptor := seq(DescriptorSize, k => if k == 1 then 0x10 else 0);
      EdsEdid.DetailedTimingPixelClock(d) == 40_960_000 && LedsEdid.TimingPixelClock(d) == 0
  {
    var d7: Descriptor := seq(DescriptorSize, k => if k == 0 then 7 else 0);
    assert PixelClockRaw(d7) == 7;
    var d4096: Descriptor := seq(DescriptorSize, k => if k == 1 then 0x10 else 0);
    assert PixelClockRaw(d4096) == 0x1000;
  }

  /** Every other detailed-timing accessor of the file returns what the header's
      accessor of the same field returns. */
  lemma DetailedTimingsAgree(d: Descriptor)
    ensures EdsEdid.DetailedTimingHorizontalBlanking(d) == LedsEdid.TimingHorizontalBlanking(d)
    ensures EdsEdid.DetailedTimingHorizontalActive(d) == LedsEdid.TimingHorizontalActive(d)
    ensures EdsEdid.DetailedTimingVerticalBlanking(d) == LedsEdid.TimingVerticalBlanking(d)
    ensures EdsEdid.DetailedTimingVerticalActive(d) == LedsEdid.TimingVerticalActive(d)
    ensures EdsEdid.DetailedTimingVerticalSyncOffset(d) == LedsEdid.TimingVerticalSyncOffset(d)
    ensures EdsEdid.DetailedTimingVerticalSyncPulseWidth(d) == LedsEdid.TimingVerticalSyncPulseWidth(d)
    ensures EdsEdid.DetailedTimingHorizontalSyncOffset(d) == LedsEdid.TimingHorizontalSyncOffset(d)
    ensures EdsEdid.DetailedTimingHorizontalSyncPulseWidth(d) == LedsEdid.TimingHorizontalSyncPulseWidth(d)
    ensures EdsEdid.DetailedTimingHorizontalImageSize(d) == LedsEdid.TimingHorizontalImageSize(d)
    ensures EdsEdid.DetailedTimingVerticalImageSize(d) == LedsEdid.TimingVerticalImageSize(d)
  {
  }

  // ---- manufacturer ID ----

  /** The header's `manufacturer` bit-fields read the ID with its two bytes
      swapped: they are the letter codes of the block whose bytes 8 and 9 are
      exchanged. */
  lemma ManufacturerBitFieldsSwapped(b: Block)
    ensures ManufacturerBitFields(b)
         == EdsEdid.ManufacturerCodes(b[ManufacturerOffset := b[ManufacturerOffset + 1]]
                                       [ManufacturerOffset + 1 := b[ManufacturerOffset]])
  {
  }

  /** For the bytes 0x10 0xAC, which spell "DEL", the header's bit-fields give
      the codes of "K@P". */
  lemma ManufacturerBitFieldsExample(b: Block)
    requires b[ManufacturerOffset] == 0x10 && b[ManufacturerOffset + 1] == 0xac
    ensures EdsEdid.ManufacturerCodes(b) == [4, 5, 12]
    ensures ManufacturerBitFields(b) == [11, 0, 16]
  {
  }

  // ---- chromaticity ----

  /** The header places the high byte eight bits up instead of two: its
      coordinate exceeds the file's by 252 times the high byte, the two share the
      high byte and the low bits, and they are equal only when the high byte is 0. */
  lemma ChromaticityVariants(b: Block)
    ensures forall k :: 0 <= k < 8 ==>
      Coordinates(LedsEdid.ColorCharacteristics(b))[k]
        == Coordinates(EdsEdid.ColorCharacteristics(b))[k] + 252 * ColorHighBytes(b)[k] as int
    ensures forall k :: 0 <= k < 8 ==>
      Coordinates(LedsEdid.ColorCharacteristics(b))[k] / 256 == Coordinates(EdsEdid.ColorCharacteristics(b))[k] / 4
    ensures forall k :: 0 <= k < 8 ==>
      (Coordinates(LedsEdid.ColorCharacteristics(b))[k] == Coordinates(EdsEdid.ColorCharacteristics(b))[k]
       <==> ColorHighBytes(b)[k] == 0)
  {
  }

  /** A red x of 1/256 (high byte 1, low bits 0) is 4 in the file's ten-bit
      scale and 256 in the header's. */
  lemma ChromaticityExample()
    ensures var b: Block := seq(BlockSize, k => if k == ColorHighBytesOffset then 1 else 0);
      EdsEdid.ColorCharacteristics(b).red.x == 4 && LedsEdid.ColorCharacteristics(b).red.x == 256
  {
    var b: Block := seq(BlockSize, k => if k == ColorHighBytesOffset then 1 else 0);
    assert ColorHighBytes(b)[0] == 1 && ColorLowBits(b)[0] == 0;
    assert Coordinates(EdsEdid.ColorCharacteristics(b))[0] == EdsEdid.ColorCharacteristics(b).red.x;
    assert Coordinates(LedsEdid.ColorCharacteristics(b))[0] == LedsEdid.ColorCharacteristics(b).red.x;
  }

  // ---- gamma ----

  /** The header's integer gamma is the floor of the exact gamma, and the two
      are the same number only for the stored values 0, 100 and 200. */
  lemma GammaVariants(b: Block)
    ensures LedsEdid.Gamma(b) == EdsEdid.Gamma(b).Floor
    ensures LedsEdid.Gamma(b) as real == EdsEdid.Gamma(b) <==> DisplayTransferCharacteristics(b) % 100 == 0
  {
    var v := DisplayTransferCharacteristics(b) as int;
    var g := EdsEdid.Gamma(b);
    var n := LedsEdid.Gamma(b);
    assert g * 100.0 == (v + 100) as real;
    assert n * 100 <= v + 100 < (n + 1) * 100;
    assert n as real <= g < (n + 1) as real;
  }

  /** The common stored value 120 is a gamma of 2.2, which the header reports as 2. */
  lemma GammaExample()
    ensures var b: Block := seq(BlockSize, k => if k == DisplayTransferCharacteristicsOffset then 120 else 0);
      EdsEdid.Gamma(b) == 2.2 && LedsEdid.Gamma(b) == 2
  {
    var b: Block := seq(BlockSize, k => if k == DisplayTransferCharacteristicsOffset then 120 else 0);
    assert DisplayTransferCharacteristics(b) == 120;
  }

  // ---- horizontal sync: the ten-bit fields of the standard ----

  /** `(hi << 8) | lo` for a two-bit hi and an eight-bit lo: a ten-bit value. */
  function Join10(hi: nat, lo: byte): (r: uint16)
    requires hi < 4
    ensures r == 256 * hi + lo && r < 1024
    ensures r / 256 == hi && r % 256 == lo
  {
    OrDisjoint(hi, 8, lo);
    ConversionsKeepSmall(Or(Shl(hi, 8), lo));
    ToUint16(Or(Shl(hi, 8), lo))
  }

  /** The horizontal sync offset the standard defines: byte 8 below bits 7-6 of byte 11. */
  function HorizontalSyncOffset(d: Descriptor): (r: uint16)
    ensures r == 256 * (d[11] as int / 64) + d[8] as int && r < 1024
    ensures r / 256 == HorizontalSyncOffsetHi(d) && r % 256 == HorizontalSyncOffsetLo(d)
  {
    Join10(HorizontalSyncOffsetHi(d), HorizontalSyncOffsetLo(d))
  }

  /** The horizontal sync pulse width the standard defines: byte 9 below bits 5-4 of byte 11. */
  function HorizontalSyncPulseWidth(d: Descriptor): (r: uint16)
    ensures r == 256 * ((d[11] as int / 16) % 4) + d[9] as int && r < 1024
    ensures r / 256 == HorizontalSyncPulseWidthHi(d) && r % 256 == HorizontalSyncPulseWidthLo(d)
  {
    Join10(HorizontalSyncPulseWidthHi(d), HorizontalSyncPulseWidthLo(d))
  }

  /** The decoders' horizontal sync fields are the standard's exactly when the
      two high bits are zero; otherwise they report less than 256. */
  lemma HorizontalSyncAgreeIff(d: Descriptor)
    ensures LedsEdid.TimingHorizontalSyncOffset(d) == HorizontalSyncOffset(d) <==> HorizontalSyncOffsetHi(d) == 0
    ensures LedsEdid.TimingHorizontalSyncPulseWidth(d) == HorizontalSyncPulseWidth(d)
            <==> HorizontalSyncPulseWidthHi(d) == 0
  {
  }

  /** An offset of 256 pixels (byte 8 = 0, bits 7-6 of byte 11 = 01) reads as 16,
      and one of 272 (byte 8 = 0x10) also reads as 16: the high bits land on bit 4
      of the low byte. */
  lemma HorizontalSyncCounterexample()
    ensures var d: Descriptor := seq(DescriptorSize, k => if k == 11 then 0x40 else 0);
      HorizontalSyncOffset(d) == 256 && LedsEdid.TimingHorizontalSyncOffset(d) == 16
    ensures var d: Descriptor := seq(DescriptorSize, k => if k == 11 then 0x40 else if k == 8 then 0x10 else 0);
      HorizontalSyncOffset(d) == 272 && LedsEdid.TimingHorizontalSyncOffset(d) == 16
  {
    var d1: Descriptor := seq(DescriptorSize, k => if k == 11 then 0x40 else 0);
    SyncOverlay(1, 0);
    assert HorizontalSyncOffsetHi(d1) == 1 && HorizontalSyncOffsetLo(d1) == 0;
    var d2: Descriptor := seq(DescriptorSize, k => if k == 11 then 0x40 else if k == 8 then 0x10 else 0);
    SyncOverlay(1, 0x10);
    assert HorizontalSyncOffsetHi(d2) == 1 && HorizontalSyncOffsetLo(d2) == 0x10;
  }

  lemma SyncOverlay(hi: nat, lo: byte)
    requires hi == 1 && (lo == 0 || lo == 0x10)
    ensures LedsEdid.Overlay6(hi, lo) == 16
  {
    assert Shl(1, 4) == 16;
    assert Or(16, 0) == 16;
    assert Or(16, 0x10) == 2 * Or(8, 8) && Or(8, 8) == 2 * Or(4, 4);
    assert Or(4, 4) == 2 * Or(2, 2) && Or(2, 2) == 2 * Or(1, 1) && Or(1, 1) == 1;
  }
}
