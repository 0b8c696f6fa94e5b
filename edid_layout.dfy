/** The declarations of `leds/edid.h`: the 128-byte EDID base block and the
    structures inside it, read as explicit byte offsets and bit-fields.

    Bit-fields are allocated from the least significant bit of each byte, in
    declaration order, and multi-byte integers are little-endian, as the C
    compiler lays out the packed structures on a little-endian target; this is
    also the bit numbering of the VESA E-EDID standard. */
module EdidLayout {
  import opened Bits

  const BlockSize := 0x80

  /** The fixed eight-byte signature that opens every base block. */
  const EdidHeader: seq<byte> := [0x00, 0xff, 0xff, 0xff, 0xff, 0xff, 0xff, 0x00]

  type Block = b: seq<byte> | |b| == BlockSize witness seq(BlockSize, _ => 0)

  /** One 18-byte slot of the detailed-timing array, viewed either as a
      detailed timing descriptor or as a monitor descriptor. */
  type Descriptor = d: seq<byte> | |d| == DescriptorSize witness seq(DescriptorSize, _ => 0)

  /** One two-byte standard timing identifier. */
  type StandardTiming = s: seq<byte> | |s| == StandardTimingSize witness [0, 0]

  // ---- byte offsets within the base block ----

  const ManufacturerOffset := 8
  const DisplayTransferCharacteristicsOffset := 23
  const ColorLowBitsOffset := 25
  const ColorHighBytesOffset := 27
  const EstablishedTimingsOffset := 35
  const ManufacturerTimingsOffset := 37
  const StandardTimingOffset := 38
  const StandardTimingSize := 2
  const StandardTimingCount := 8
  const DetailedTimingOffset := 54
  const DescriptorSize := 18
  const DetailedTimingCount := 4
  const ExtensionsOffset := 126
  const ChecksumOffset := 127

  // ---- the members of the packed structures, in declaration order ----

  /** A structure member with its bit offset and its width in bits. */
  datatype Member = Member(name: string, offset: nat, bits: nat)

  /** The members follow one another without padding, starting at bit 0. */
  predicate Packed(ms: seq<Member>) {
    |ms| > 0 && ms[0].offset == 0 &&
    forall k :: 0 <= k < |ms| - 1 ==> ms[k].offset + ms[k].bits == ms[k + 1].offset
  }

  function SizeInBits(ms: seq<Member>): nat
    requires |ms| > 0
  {
    ms[|ms| - 1].offset + ms[|ms| - 1].bits
  }

  /** `struct edid`, with the colour-characteristics bit-fields spelled out. */
  const EdidMembers: seq<Member> := [
    Member("header", 0, 64), Member("manufacturer", 64, 16), Member("product", 80, 16),
    Member("serial_number", 96, 32), Member("manufacture_week", 128, 8), Member("manufacture_year", 136, 8),
    Member("version", 144, 8), Member("revision", 152, 8), Member("video_input_definition", 160, 8),
    Member("maximum_horizontal_image_size", 168, 8), Member("maximum_vertical_image_size", 176, 8),
    Member("display_transfer_characteristics", 184, 8), Member("feature_support", 192, 8),
    Member("green_y_low", 200, 2), Member("green_x_low", 202, 2),
    Member("red_y_low", 204, 2), Member("red_x_low", 206, 2),
    Member("white_y_low", 208, 2), Member("white_x_low", 210, 2),
    Member("blue_y_low", 212, 2), Member("blue_x_low", 214, 2),
    Member("red_x", 216, 8), Member("red_y", 224, 8), Member("green_x", 232, 8), Member("green_y", 240, 8),
    Member("blue_x", 248, 8), Member("blue_y", 256, 8), Member("white_x", 264, 8), Member("white_y", 272, 8),
    Member("established_timings", 280, 16), Member("manufacturer_timings", 296, 8),
    Member("standard_timing_id", 304, 8 * StandardTimingSize * StandardTimingCount),
    Member("detailed_timings", 432, 8 * DescriptorSize * DetailedTimingCount),
    Member("extensions", 1008, 8), Member("checksum", 1016, 8)]

  /** `struct edid_detailed_timing_descriptor`. */
  const DetailedTimingMembers: seq<Member> := [
    Member("pixel_clock", 0, 16), Member("horizontal_active_lo", 16, 8), Member("horizontal_blanking_lo", 24, 8),
    Member("horizontal_blanking_hi", 32, 4), Member("horizontal_active_hi", 36, 4),
    Member("vertical_active_lo", 40, 8), Member("vertical_blanking_lo", 48, 8),
    Member("vertical_blanking_hi", 56, 4), Member("vertical_active_hi", 60, 4),
    Member("horizontal_sync_offset_lo", 64, 8), Member("horizontal_sync_pulse_width_lo", 72, 8),
    Member("vertical_sync_pulse_width_lo", 80, 4), Member("vertical_sync_offset_lo", 84, 4),
    Member("vertical_sync_pulse_width_hi", 88, 2), Member("vertical_sync_offset_hi", 90, 2),
    Member("horizontal_sync_pulse_width_hi", 92, 2), Member("horizontal_sync_offset_hi", 94, 2),
    Member("horizontal_image_size_lo", 96, 8), Member("vertical_image_size_lo", 104, 8),
    Member("vertical_image_size_hi", 112, 4), Member("horizontal_image_size_hi", 116, 4),
    Member("horizontal_border", 120, 8), Member("vertical_border", 128, 8), Member("flags", 136, 8)]

  /** `struct edid_monitor_descriptor`. */
  const MonitorMembers: seq<Member> := [
    Member("flag0", 0, 16), Member("flag1", 16, 8), Member("tag", 24, 8), Member("flag2", 32, 8),
    Member("data", 40, 8 * 13)]

  /** `struct edid_standard_timing_descriptor`. */
  const StandardTimingMembers: seq<Member> := [
    Member("horizontal_active_pixels", 0, 8), Member("refresh_rate", 8, 6), Member("image_aspect_ratio", 14, 2)]

  /** `struct edid_block_map` and `struct edid_extension`. */
  const BlockMapMembers: seq<Member> := [
    Member("tag", 0, 8), Member("extension_tag", 8, 8 * 126), Member("checksum", 1016, 8)]
  const ExtensionMembers: seq<Member> := [
    Member("tag", 0, 8), Member("revision", 8, 8), Member("extension_data", 16, 8 * 125), Member("checksum", 1016, 8)]

  /** The members of `struct edid` tile the 128-byte block without gaps. */
  lemma EdidStructLayout()
    ensures Packed(EdidMembers) && SizeInBits(EdidMembers) == 8 * BlockSize
  {
  }

  /** The byte offsets the accessors read are those of the members they name. */
  lemma EdidMemberOffsets()
    ensures EdidMembers[0].name == "header" && EdidMembers[0].bits == 8 * |EdidHeader|
    ensures EdidMembers[1].name == "manufacturer" && EdidMembers[1].offset == 8 * ManufacturerOffset
    ensures EdidMembers[11].name == "display_transfer_characteristics"
    ensures EdidMembers[11].offset == 8 * DisplayTransferCharacteristicsOffset
    ensures EdidMembers[13].name == "green_y_low" && EdidMembers[13].offset == 8 * ColorLowBitsOffset
    ensures EdidMembers[17].name == "white_y_low" && EdidMembers[17].offset == 8 * (ColorLowBitsOffset + 1)
    ensures EdidMembers[21].name == "red_x" && EdidMembers[21].offset == 8 * ColorHighBytesOffset
  {
  }

  /** The timing tables, the extension count and the checksum byte are where the
      accessors read them. */
  lemma EdidTimingOffsets()
    ensures EdidMembers[29].name == "established_timings" && EdidMembers[29].offset == 8 * EstablishedTimingsOffset
    ensures EdidMembers[30].name == "manufacturer_timings" && EdidMembers[30].offset == 8 * ManufacturerTimingsOffset
    ensures EdidMembers[31].name == "standard_timing_id" && EdidMembers[31].offset == 8 * StandardTimingOffset
    ensures EdidMembers[32].name == "detailed_timings" && EdidMembers[32].offset == 8 * DetailedTimingOffset
    ensures EdidMembers[33].name == "extensions" && EdidMembers[33].offset == 8 * ExtensionsOffset
    ensures EdidMembers[34].name == "checksum" && EdidMembers[34].offset == 8 * ChecksumOffset
  {
  }

  /** The bit-fields of the detailed timing descriptor fill one 18-byte slot. */
  lemma DetailedTimingLayout()
    ensures Packed(DetailedTimingMembers) && SizeInBits(DetailedTimingMembers) == 8 * DescriptorSize
  {
  }

  /** The shared bytes 4, 7, 10, 11 and 14 hold the fields the accessors read from them. */
  lemma DetailedTimingMemberOffsets()
    ensures DetailedTimingMembers[3].name == "horizontal_blanking_hi" && DetailedTimingMembers[3].offset == 8 * 4
    ensures DetailedTimingMembers[4].name == "horizontal_active_hi" && DetailedTimingMembers[4].offset == 8 * 4 + 4
    ensures DetailedTimingMembers[7].name == "vertical_blanking_hi" && DetailedTimingMembers[7].offset == 8 * 7
    ensures DetailedTimingMembers[8].name == "vertical_active_hi" && DetailedTimingMembers[8].offset == 8 * 7 + 4
    ensures DetailedTimingMembers[11].name == "vertical_sync_pulse_width_lo" && DetailedTimingMembers[11].offset == 8 * 10
    ensures DetailedTimingMembers[12].name == "vertical_sync_offset_lo" && DetailedTimingMembers[12].offset == 8 * 10 + 4
    ensures DetailedTimingMembers[13].name == "vertical_sync_pulse_width_hi" && DetailedTimingMembers[13].offset == 8 * 11
    ensures DetailedTimingMembers[14].name == "vertical_sync_offset_hi" && DetailedTimingMembers[14].offset == 8 * 11 + 2
    ensures DetailedTimingMembers[15].name == "horizontal_sync_pulse_width_hi" && DetailedTimingMembers[15].offset == 8 * 11 + 4
    ensures DetailedTimingMembers[16].name == "horizontal_sync_offset_hi" && DetailedTimingMembers[16].offset == 8 * 11 + 6
    ensures DetailedTimingMembers[19].name == "vertical_image_size_hi" && DetailedTimingMembers[19].offset == 8 * 14
    ensures DetailedTimingMembers[20].name == "horizontal_image_size_hi" && DetailedTimingMembers[20].offset == 8 * 14 + 4
  {
    var ms := DetailedTimingMembers;
    assert ms[3] == Member("horizontal_blanking_hi", 32, 4) && ms[4] == Member("horizontal_active_hi", 36, 4);
    assert ms[7] == Member("vertical_blanking_hi", 56, 4) && ms[8] == Member("vertical_active_hi", 60, 4);
    assert ms[11] == Member("vertical_sync_pulse_width_lo", 80, 4) && ms[12] == Member("vertical_sync_offset_lo", 84, 4);
    assert ms[13] == Member("vertical_sync_pulse_width_hi", 88, 2) && ms[14] == Member("vertical_sync_offset_hi", 90, 2);
    assert ms[15] == Member("horizontal_sync_pulse_width_hi", 92, 2) && ms[16] == Member("horizontal_sync_offset_hi", 94, 2);
    assert ms[19] == Member("vertical_image_size_hi", 112, 4) && ms[20] == Member("horizontal_image_size_hi", 116, 4);
  }

  /** The monitor descriptor fills the same 18 bytes, its tag at byte 3 between
      the flag bytes 0 to 2 and 4. */
  lemma MonitorLayout()
    ensures Packed(MonitorMembers) && SizeInBits(MonitorMembers) == 8 * DescriptorSize
    ensures MonitorMembers[1].name == "flag1" && MonitorMembers[1].offset == 8 * 2
    ensures MonitorMembers[2].name == "tag" && MonitorMembers[2].offset == 8 * 3
    ensures MonitorMembers[3].name == "flag2" && MonitorMembers[3].offset == 8 * 4
  {
  }

  /** A standard timing identifier is two bytes, its 6-bit refresh field and 2-bit
      aspect-ratio field sharing the second; extension blocks and the block map are
      each one block long. */
  lemma OtherStructLayouts()
    ensures Packed(StandardTimingMembers) && SizeInBits(StandardTimingMembers) == 8 * StandardTimingSize
    ensures Packed(BlockMapMembers) && SizeInBits(BlockMapMembers) == 8 * BlockSize
    ensures Packed(ExtensionMembers) && SizeInBits(ExtensionMembers) == 8 * BlockSize
    ensures StandardTimingOffset + StandardTimingCount * StandardTimingSize == DetailedTimingOffset
    ensures DetailedTimingOffset + DetailedTimingCount * DescriptorSize == ExtensionsOffset
  {
  }

  lemma HeaderSignature()
    ensures |EdidHeader| == 8 && EdidHeader[0] == 0x00 && EdidHeader[7] == 0x00
    ensures forall i :: 1 <= i < 7 ==> EdidHeader[i] == 0xff
  {
  }

  // ---- slots of the base block ----

  /** `&edid->detailed_timings[i]`. */
  function DetailedTimingAt(b: Block, i: nat): (d: Descriptor)
    requires i < DetailedTimingCount
    ensures forall k :: 0 <= k < DescriptorSize ==> d[k] == b[DetailedTimingOffset + DescriptorSize * i + k]
  {
    b[DetailedTimingOffset + DescriptorSize * i .. DetailedTimingOffset + DescriptorSize * (i + 1)]
  }

  /** `&edid->standard_timing_id[j]`. */
  function StandardTimingAt(b: Block, j: nat): (s: StandardTiming)
    requires j < StandardTimingCount
    ensures s[0] == b[StandardTimingOffset + StandardTimingSize * j]
    ensures s[1] == b[StandardTimingOffset + StandardTimingSize * j + 1]
  {
    b[StandardTimingOffset + StandardTimingSize * j .. StandardTimingOffset + StandardTimingSize * (j + 1)]
  }

  // ---- the bit-fields of a detailed timing descriptor ----

  /** A little-endian `uint16_t` stored at byte k. */
  function Uint16At(s: seq<byte>, k: nat): (r: uint16)
    requires k + 1 < |s|
    ensures r % 0x100 == s[k] && r / 0x100 == s[k + 1]
  {
    s[k] as int + 0x100 * s[k + 1] as int
  }

  /** The high nibble of byte x, a 4-bit field declared second in its byte. */
  function HighNibble(x: byte): (r: nat)
    ensures r == x / 16 && r < 16
  {
    BitFieldValue(x, 4, 4);
    Pow2Values();
    QuotientBound(x, 16, 16);
    DivModUnique(x / 16, 16, 0, x / 16);
    BitField(x, 4, 4)
  }

  /** The low nibble of byte x, a 4-bit field declared first in its byte. */
  function LowNibble(x: byte): (r: nat)
    ensures r == x % 16
  {
    BitFieldValue(x, 0, 4);
    Pow2Values();
    assert Pow2(0) == 1 && x / 1 == x;
    BitField(x, 0, 4)
  }

  /** The two-bit field at bit pos of byte x. */
  function BitPair(x: byte, pos: nat): (r: nat)
    requires pos <= 6
    ensures r == (x / Pow2(pos)) % 4 && r < 4
  {
    BitFieldValue(x, pos, 2);
    BitField(x, pos, 2)
  }

  function PixelClockRaw(d: Descriptor): uint16 { Uint16At(d, 0) }

  function HorizontalActiveLo(d: Descriptor): byte { d[2] }
  function HorizontalBlankingLo(d: Descriptor): byte { d[3] }
  function HorizontalBlankingHi(d: Descriptor): nat { LowNibble(d[4]) }
  function HorizontalActiveHi(d: Descriptor): nat { HighNibble(d[4]) }

  function VerticalActiveLo(d: Descriptor): byte { d[5] }
  function VerticalBlankingLo(d: Descriptor): byte { d[6] }
  function VerticalBlankingHi(d: Descriptor): nat { LowNibble(d[7]) }
  function VerticalActiveHi(d: Descriptor): nat { HighNibble(d[7]) }

  function HorizontalSyncOffsetLo(d: Descriptor): byte { d[8] }
  function HorizontalSyncPulseWidthLo(d: Descriptor): byte { d[9] }
  function VerticalSyncPulseWidthLo(d: Descriptor): nat { LowNibble(d[10]) }
  function VerticalSyncOffsetLo(d: Descriptor): nat { HighNibble(d[10]) }

  /** The four two-bit fields of byte 11, from bit 0 up. */
  function VerticalSyncPulseWidthHi(d: Descriptor): (r: nat)
    ensures r == d[11] % 4
  {
    assert Pow2(0) == 1 && d[11] / 1 == d[11];
    BitPair(d[11], 0)
  }

  function VerticalSyncOffsetHi(d: Descriptor): (r: nat)
    ensures r == (d[11] / 4) % 4
  {
    Pow2Values();
    BitPair(d[11], 2)
  }

  function HorizontalSyncPulseWidthHi(d: Descriptor): (r: nat)
    ensures r == (d[11] / 16) % 4
  {
    Pow2Values();
    BitPair(d[11], 4)
  }

  function HorizontalSyncOffsetHi(d: Descriptor): (r: nat)
    ensures r == d[11] / 64
  {
    Pow2Values();
    QuotientBound(d[11], 64, 4);
    DivModUnique(d[11] / 64, 4, 0, d[11] / 64);
    BitPair(d[11], 6)
  }

  function HorizontalImageSizeLo(d: Descriptor): byte { d[12] }
  function VerticalImageSizeLo(d: Descriptor): byte { d[13] }
  function VerticalImageSizeHi(d: Descriptor): nat { LowNibble(d[14]) }
  function HorizontalImageSizeHi(d: Descriptor): nat { HighNibble(d[14]) }

  /** The bytes shared by two or four bit-fields are exactly those fields, each at its place. */
  lemma SharedBytesSplit(d: Descriptor)
    ensures d[4] == HorizontalBlankingHi(d) + 16 * HorizontalActiveHi(d)
    ensures d[7] == VerticalBlankingHi(d) + 16 * VerticalActiveHi(d)
    ensures d[10] == VerticalSyncPulseWidthLo(d) + 16 * VerticalSyncOffsetLo(d)
    ensures d[11] == VerticalSyncPulseWidthHi(d) + 4 * VerticalSyncOffsetHi(d)
                     + 16 * HorizontalSyncPulseWidthHi(d) + 64 * HorizontalSyncOffsetHi(d)
    ensures d[14] == VerticalImageSizeHi(d) + 16 * HorizontalImageSizeHi(d)
  {
    var x := d[11];
    var q4, q16 := x / 4, x / 16;
    assert x == 4 * q4 + x % 4;
    DivModUnique(x, 16, q4 / 4, 4 * (q4 % 4) + x % 4);
    assert q4 == 4 * (q4 / 4) + q4 % 4;
    assert q16 == 4 * (q16 / 4) + q16 % 4;
    DivModUnique(x, 64, q16 / 4, 16 * (q16 % 4) + 4 * (q4 % 4) + x % 4);
  }

  /** The bit-field a member of a descriptor table names: `bits` bits at bit
      `offset % 8` of byte `offset / 8`. */
  function MemberField(d: Descriptor, m: Member): nat
    requires m.offset / 8 < DescriptorSize
  {
    BitField(d[m.offset / 8], m.offset % 8, m.bits)
  }

  /** The readers of the nibbles of bytes 4, 7 and 14 take exactly the bit-fields
      their members occupy in `struct edid_detailed_timing_descriptor`. */
  lemma NibbleFieldsFollowTable(d: Descriptor)
    ensures HorizontalBlankingHi(d) == MemberField(d, DetailedTimingMembers[3])
    ensures HorizontalActiveHi(d) == MemberField(d, DetailedTimingMembers[4])
    ensures VerticalBlankingHi(d) == MemberField(d, DetailedTimingMembers[7])
    ensures VerticalActiveHi(d) == MemberField(d, DetailedTimingMembers[8])
    ensures VerticalImageSizeHi(d) == MemberField(d, DetailedTimingMembers[19])
    ensures HorizontalImageSizeHi(d) == MemberField(d, DetailedTimingMembers[20])
  {
    var ms := DetailedTimingMembers;
    assert ms[3].offset == 32 && ms[3].bits == 4 && ms[4].offset == 36 && ms[4].bits == 4;
    assert ms[7].offset == 56 && ms[7].bits == 4 && ms[8].offset == 60 && ms[8].bits == 4;
    assert ms[19].offset == 112 && ms[19].bits == 4 && ms[20].offset == 116 && ms[20].bits == 4;
  }

  /** The same for the sync fields of bytes 10 and 11. */
  lemma SyncFieldsFollowTable(d: Descriptor)
    ensures VerticalSyncPulseWidthLo(d) == MemberField(d, DetailedTimingMembers[11])
    ensures VerticalSyncOffsetLo(d) == MemberField(d, DetailedTimingMembers[12])
    ensures VerticalSyncPulseWidthHi(d) == MemberField(d, DetailedTimingMembers[13])
    ensures VerticalSyncOffsetHi(d) == MemberField(d, DetailedTimingMembers[14])
    ensures HorizontalSyncPulseWidthHi(d) == MemberField(d, DetailedTimingMembers[15])
    ensures HorizontalSyncOffsetHi(d) == MemberField(d, DetailedTimingMembers[16])
  {
    var ms := DetailedTimingMembers;
    assert ms[11].offset == 80 && ms[11].bits == 4 && ms[12].offset == 84 && ms[12].bits == 4;
    assert ms[13].offset == 88 && ms[13].bits == 2 && ms[14].offset == 90 && ms[14].bits == 2;
    assert ms[15].offset == 92 && ms[15].bits == 2 && ms[16].offset == 94 && ms[16].bits == 2;
  }

  // ---- the same slot viewed as a monitor descriptor ----

  function MonitorFlag0(d: Descriptor): uint16 { Uint16At(d, 0) }
  function MonitorFlag1(d: Descriptor): byte { d[2] }
  function MonitorFlag2(d: Descriptor): byte { d[4] }

  // ---- the bit-fields of a standard timing identifier ----

  function HorizontalActivePixels(s: StandardTiming): byte { s[0] }

  function RefreshRateField(s: StandardTiming): (r: nat)
    ensures r == s[1] % 64
  {
    BitFieldValue(s[1], 0, 6);
    Pow2Values();
    assert Pow2(0) == 1 && s[1] / 1 == s[1];
    BitField(s[1], 0, 6)
  }

  function ImageAspectRatioField(s: StandardTiming): (r: nat)
    ensures r == s[1] / 64 && r < 4
  {
    BitFieldValue(s[1], 6, 2);
    Pow2Values();
    QuotientBound(s[1], 64, 4);
    DivModUnique(s[1] / 64, 4, 0, s[1] / 64);
    BitField(s[1], 6, 2)
  }

  /** `enum edid_aspect_ratio`. */
  const AspectRatio16x10 := 0
  const AspectRatio4x3 := 1
  const AspectRatio5x4 := 2
  const AspectRatio16x9 := 3

  // ---- other members of the base block ----

  /** `edid->manufacturer` as the 16-bit little-endian integer it is in the
      header `eds/edid.c` is compiled against. */
  function ManufacturerWord(b: Block): uint16 { Uint16At(b, ManufacturerOffset) }

  /** The bit-fields `id0`, `id1` and `id2` of the `manufacturer` member declared
      in `leds/edid.h`, allocated from the least significant bit of the
      little-endian word: `id2` in bits 0-4, `id1` in bits 5-9, `id0` in bits 10-14. */
  function ManufacturerBitFields(b: Block): (ids: seq<nat>)
    ensures |ids| == 3
    ensures ids[0] == (ManufacturerWord(b) / 1024) % 32
    ensures ids[1] == (ManufacturerWord(b) / 32) % 32
    ensures ids[2] == ManufacturerWord(b) % 32
  {
    var v := ManufacturerWord(b);
    BitFieldValue(v, 10, 5);
    BitFieldValue(v, 5, 5);
    BitFieldValue(v, 0, 5);
    Pow2Values();
    [BitField(v, 10, 5), BitField(v, 5, 5), BitField(v, 0, 5)]
  }

  function DisplayTransferCharacteristics(b: Block): byte { b[DisplayTransferCharacteristicsOffset] }

  /** The eight chromaticity high bytes, red x, red y, green x, green y, blue x,
      blue y, white x and white y. */
  function ColorHighBytes(b: Block): (hs: seq<byte>)
    ensures |hs| == 8 && forall k :: 0 <= k < 8 ==> hs[k] == b[ColorHighBytesOffset + k]
  {
    b[ColorHighBytesOffset .. ColorHighBytesOffset + 8]
  }

  /** The four bit pairs of a byte of low parts, from bits 7-6 down to bits 1-0. */
  function LowPartPairs(x: byte): (ps: seq<nat>)
    ensures |ps| == 4 && ps[0] == x / 64 && ps[1] == (x / 16) % 4 && ps[2] == (x / 4) % 4 && ps[3] == x % 4
  {
    Pow2Values();
    assert Pow2(0) == 1 && x / 1 == x;
    QuotientBound(x, 64, 4);
    DivModUnique(x / 64, 4, 0, x / 64);
    [BitPair(x, 6), BitPair(x, 4), BitPair(x, 2), BitPair(x, 0)]
  }

  /** The eight two-bit low parts in the same order: red and green share byte 25
      (red x in bits 7-6 down to green y in bits 1-0), blue and white byte 26. */
  function ColorLowBits(b: Block): (ls: seq<nat>)
    ensures |ls| == 8 && forall k :: 0 <= k < 8 ==> ls[k] < 4
    ensures var rg := b[ColorLowBitsOffset];
      ls[0] == rg / 64 && ls[1] == (rg / 16) % 4 && ls[2] == (rg / 4) % 4 && ls[3] == rg % 4
    ensures var bw := b[ColorLowBitsOffset + 1];
      ls[4] == bw / 64 && ls[5] == (bw / 16) % 4 && ls[6] == (bw / 4) % 4 && ls[7] == bw % 4
  {
    var rg, bw := LowPartPairs(b[ColorLowBitsOffset]), LowPartPairs(b[ColorLowBitsOffset + 1]);
    [rg[0], rg[1], rg[2], rg[3], bw[0], bw[1], bw[2], bw[3]]
  }

  /** `struct edid_color_characteristics_data`: a CIE x, y pair per primary and
      for the white point. */
  datatype Point = Point(x: uint16, y: uint16)
  datatype ColorCharacteristicsData = ColorCharacteristicsData(red: Point, green: Point, blue: Point, white: Point)

  /** The eight coordinates in the order of the high bytes in the block. */
  function Coordinates(c: ColorCharacteristicsData): (cs: seq<uint16>)
    ensures |cs| == 8
  {
    [c.red.x, c.red.y, c.green.x, c.green.y, c.blue.x, c.blue.y, c.white.x, c.white.y]
  }

  // ---- the block checksum ----

  /** The sum of the bytes, as an unbounded integer. */
  function Sum(s: seq<byte>): nat {
    if s == [] then 0 else Sum(s[..|s| - 1]) + s[|s| - 1]
  }

  /** A block is intact when its first 128 bytes sum to 0 modulo 256. */
  predicate ChecksumValid(s: seq<byte>)
    requires |s| >= BlockSize
  {
    Sum(s[..BlockSize]) % 0x100 == 0
  }

  lemma {:induction false} SumUpdate(s: seq<byte>, k: nat, v: byte)
    requires k < |s|
    ensures Sum(s[k := v]) == Sum(s) - s[k] + v
  {
    var n := |s|;
    assert s[k := v][..n - 1] == if k == n - 1 then s[..n - 1] else s[..n - 1][k := v];
    if k < n - 1 {
      SumUpdate(s[..n - 1], k, v);
    }
  }

  /** Changing any single byte of an intact block to a different value makes
      the checksum fail. */
  lemma ChecksumDetectsSingleByteChange(b: Block, k: nat, v: byte)
    requires ChecksumValid(b) && k < BlockSize && v != b[k]
    ensures !ChecksumValid(b[k := v])
  {
    assert b[..BlockSize] == b;
    assert b[k := v][..BlockSize] == b[k := v];
    SumUpdate(b, k, v);
  }

  /** The checksum byte is the one value that makes the block sum to 0 modulo 256. */
  lemma ChecksumByteDetermined(b: Block)
    ensures ChecksumValid(b) <==> b[ChecksumOffset] == (0x100 - Sum(b[..ChecksumOffset]) % 0x100) % 0x100
  {
    assert b[..BlockSize] == b;
    assert b[..BlockSize][..BlockSize - 1] == b[..ChecksumOffset];
  }
}
