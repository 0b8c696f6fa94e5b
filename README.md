# EDID base-block decoder

A model of the EDID decoder of the `leds`/`eds` repository: the 128-byte base
block of the VESA E-EDID standard, read as a byte sequence with explicit
offsets, and the accessors that compute display parameters from it. The
repository holds two variants of the decoder, modelled separately:

- `src/leds/edid.h`: the structure layouts, the header signature, the inline
  `edid_timing_*` accessors, an integer gamma, chromaticity coordinates built
  with an eight-bit shift, and the block checksum.
- `src/eds/edid.c`: the `edid_detailed_timing_*` accessors with a 32-bit
  pixel clock, the standard-timing decoders, the manufacturer ID, the
  monitor-descriptor test, chromaticity coordinates built with a two-bit shift,
  a gamma with a fractional part, the checksum and the ten-bit fixed-point decoder.

Files:

- `bits.dfy` (`Bits`): the integer types `uint8_t`, `uint16_t` and `uint32_t`,
  and the conversions to them, which wrap.
  - `<<`, `>>`, `|` and `&` on unbounded naturals, and bit-fields allocated
    from the least significant bit.
  - Lemmas relating these operators to multiplication, division and remainder
    by powers of two.
- `edid_layout.dfy` (`EdidLayout`): the declarations of `edid.h`.
  - The packed structures as member tables with bit offsets.
  - The byte offsets and bit-field reads of every member the accessors use.
  - The colour-characteristics record.
  - The checksum predicate: the first 128 bytes sum to 0 modulo 256.
- `leds_edid.dfy` (`LedsEdid`): the accessors of `edid.h`.
- `eds_edid.dfy` (`EdsEdid`): the functions of `edid.c`.
- `edid_variants.dfy` (`EdidVariants`): where the two variants differ, and the
  ten-bit horizontal sync fields of the standard.

Every accessor is written with the C operators of its source expression: the
shift, the `|`, and the conversion to the declared return type. Its contract
states the value in terms of the bytes of the block.

The layout rules:

- Bit-fields are allocated from the least significant bit and multi-byte
  integers are little-endian, as GCC lays out the packed structures on a
  little-endian target. This is also the bit numbering of the standard.
- `edid.c` is compiled against a header in which `manufacturer` is a 16-bit
  integer and the detailed timing has stereo fields. That header is not part of
  this model. The model reads `manufacturer` as the little-endian word at bytes
  8 and 9.

The three loops of the source are methods, each with its loop:

- `VerifyChecksum`, one in each variant, over an `array<byte>` the caller owns.
- `DecodeFixedPoint`, over its shifting `value`.

`edid_manufacturer` is a method that fills the caller's four-character array
in place.

Facts about the code that are easy to get wrong:

- The ID bytes `0x04 0x6D` decode to "ACM", and "DEL" is stored as
  `0x10 0xAC` (`EdsEdid.ManufacturerExample`, `EdsEdid.ManufacturerSecondExample`).
- The raw standard-timing byte `0x31` at 4:3 gives 640×480, and 800×600 is
  `0x45` (`EdsEdid.StandardTimingExamples`).
- `edid_verify_checksum` returns a boolean, and no function compares the
  header signature. The gamma byte 0xFF reads as gamma 3.55, not as a marker
  for an unspecified gamma.

The `manufacturer` bit-fields declared in `edid.h` (`id2`, `id1`, `id0` from
bit 0) would read the ID with its two bytes exchanged. `edid.c` does not use
them (`EdidVariants.ManufacturerBitFieldsSwapped`).

## Model

| member | source | states |
|---|---|---|
| `EdidLayout.HeaderSignature` | src/leds/edid.h:43 | The header constant is exactly 00 FF FF FF FF FF FF 00. |
| `EdidLayout.EdidStructLayout` | src/leds/edid.h:206-310 | The members of `struct edid` follow one another without gaps from bit 0, and their widths add up to 8 × `EDID_BLOCK_SIZE` = 1024 bits. |
| `EdidLayout.EdidMemberOffsets` | src/leds/edid.h:206-271 | Header at byte 0 with 8 bytes, manufacturer at 8, gamma byte at 23, colour low bits at 25-26, high bytes at 27. |
| `EdidLayout.EdidTimingOffsets` | src/leds/edid.h:273-310 | Established timings at byte 35, manufacturer timings at 37, standard timings at 38, detailed timings at 54, extensions at 126, checksum at 127. |
| `EdidLayout.DetailedTimingLayout` | src/leds/edid.h:84-120 | The detailed-timing bit-fields tile one 18-byte slot without gaps. |
| `EdidLayout.DetailedTimingMemberOffsets` | src/leds/edid.h:90-114 | Blanking-hi is the low nibble and active-hi the high nibble of bytes 4 and 7. Pulse-width lo and offset lo share byte 10. The four sync-hi bit pairs are at bits 0, 2, 4 and 6 of byte 11, and the image-size his are the nibbles of byte 14. |
| `EdidLayout.MonitorLayout` | src/leds/edid.h:189-195 | The monitor descriptor fills the same 18 bytes: flag0 at bytes 0-1, flag1 at 2, tag at 3, flag2 at 4. |
| `EdidLayout.OtherStructLayouts` | src/leds/edid.h:198-203 | A standard timing is 2 bytes (refresh in bits 0-5, aspect ratio in bits 6-7 of the second byte). The block map and extension block are each 128 bytes. Eight standard timings end where the four 18-byte descriptors start, and these end at the extension count. |
| `EdidLayout.DetailedTimingAt` | src/leds/edid.h:303-306 | Slot i is the 18 bytes starting at 54 + 18i. |
| `EdidLayout.StandardTimingAt` | src/leds/edid.h:300 | Identifier j is bytes 38 + 2j and 39 + 2j. |
| `EdidLayout.Uint16At` | src/leds/edid.h:85 | A little-endian `uint16_t`: the low byte is the value mod 256 and the high byte the value div 256. |
| `EdidLayout.SharedBytesSplit` | src/leds/edid.h:90-114 | Each byte shared by bit-fields is exactly the sum of its fields, each at its bit position. |
| `EdidLayout.NibbleFieldsFollowTable` | src/leds/edid.h:89-113 | Each reader of a nibble of bytes 4, 7 and 14 returns the bit-field at its table member's offset and width. |
| `EdidLayout.SyncFieldsFollowTable` | src/leds/edid.h:101-107 | Each reader of a sync field of bytes 10 and 11 returns the bit-field at its table member's offset and width. |
| `EdidLayout.RefreshRateField` | src/leds/edid.h:201 | The 6-bit refresh field is the second byte mod 64. |
| `EdidLayout.ImageAspectRatioField` | src/leds/edid.h:202 | The 2-bit aspect-ratio field is the second byte div 64, below 4. |
| `EdidLayout.ManufacturerBitFields` | src/leds/edid.h:211-216 | `id0`, `id1` and `id2` are bits 10-14, 5-9 and 0-4 of the little-endian manufacturer word. |
| `EdidLayout.ColorHighBytes` | src/leds/edid.h:264-271 | The eight chromaticity high bytes are bytes 27 to 34, red x first. |
| `EdidLayout.LowPartPairs` | src/leds/edid.h:254-262 | The four bit pairs of a low-parts byte, from bits 7-6 down to bits 1-0, as div and mod by powers of 4. |
| `EdidLayout.ColorLowBits` | src/leds/edid.h:254-262 | The eight two-bit low parts, each below 4. Red x, red y, green x and green y are bits 7-6, 5-4, 3-2 and 1-0 of byte 25; blue x, blue y, white x and white y are the same pairs of byte 26. |
| `EdidLayout.ChecksumDetectsSingleByteChange` | src/leds/edid.h:367-377 | Changing any one byte of a block whose checksum holds, to any other value, makes the checksum fail. |
| `EdidLayout.ChecksumByteDetermined` | src/leds/edid.h:309 | The checksum holds exactly when byte 127 is (256 − sum of bytes 0-126 mod 256) mod 256. |
| `LedsEdid.TimingPixelClock` | src/leds/edid.h:122-126 | The result is raw × 10000 mod 65536. It equals raw × 10000 exactly when raw ≤ 6. |
| `LedsEdid.TimingHorizontalBlanking` | src/leds/edid.h:128-132 | 256 × (low nibble of byte 4) + byte 3, below 4096. Div 256 gives back the hi field and mod 256 the lo byte. |
| `LedsEdid.TimingHorizontalActive` | src/leds/edid.h:134-138 | 256 × (high nibble of byte 4) + byte 2, below 4096, with hi and lo recovered by div and mod 256. |
| `LedsEdid.TimingVerticalBlanking` | src/leds/edid.h:140-144 | 256 × (low nibble of byte 7) + byte 6, below 4096, with hi and lo recovered. |
| `LedsEdid.TimingVerticalActive` | src/leds/edid.h:146-150 | 256 × (high nibble of byte 7) + byte 5, below 4096, with hi and lo recovered. |
| `LedsEdid.TimingVerticalSyncOffset` | src/leds/edid.h:152-156 | 16 × (bits 2-3 of byte 11) + high nibble of byte 10, below 64, with hi and lo recovered by div and mod 16. |
| `LedsEdid.TimingVerticalSyncPulseWidth` | src/leds/edid.h:158-162 | 16 × (bits 0-1 of byte 11) + low nibble of byte 10, below 64, with hi and lo recovered. |
| `LedsEdid.Overlay6` | src/leds/edid.h:164-174 | `(hi << 4) \| lo` with a full-byte lo is 16 × (hi OR the high nibble of lo) + the low nibble of lo. So it keeps the low nibble of lo, is at least lo and at least 16 × hi, and is lo when hi is 0. |
| `LedsEdid.TimingHorizontalSyncOffset` | src/leds/edid.h:164-168 | 16 × ((bits 6-7 of byte 11) OR (high nibble of byte 8)) + low nibble of byte 8. It is never below byte 8, and equals it when the hi bits are 0. |
| `LedsEdid.TimingHorizontalSyncPulseWidth` | src/leds/edid.h:170-174 | 16 × ((bits 4-5 of byte 11) OR (high nibble of byte 9)) + low nibble of byte 9. It is never below byte 9, and equals it when the hi bits are 0. |
| `LedsEdid.TimingHorizontalImageSize` | src/leds/edid.h:176-180 | 256 × (high nibble of byte 14) + byte 12, below 4096, with hi and lo recovered. |
| `LedsEdid.TimingVerticalImageSize` | src/leds/edid.h:182-186 | 256 × (low nibble of byte 14) + byte 13, below 4096, with hi and lo recovered. |
| `LedsEdid.Gamma` | src/leds/edid.h:312-316 | The integer gamma is 1 exactly for bytes below 100, 2 exactly for 100-199 and 3 exactly for 200-255. |
| `LedsEdid.Coordinate` | src/leds/edid.h:331 | `(high << 8) \| low` is 256 × high + low, and div and mod 256 recover both parts. |
| `LedsEdid.ColorCharacteristics` | src/leds/edid.h:326-349 | Every coordinate is 256 × its high byte + its two low bits, with both recovered. It is below 1024 exactly when the high byte is below 4. |
| `LedsEdid.VerifyChecksum` | src/leds/edid.h:367-377 | Returns true exactly when the first 128 bytes sum to 0 mod 256. The loop keeps the wrapping `uint8_t` accumulator equal to the prefix sum mod 256. |
| `EdsEdid.DetailedTimingPixelClock` | src/eds/edid.c:33-37 | The `uint32_t` result is exactly raw × 10000, at most 655 350 000. Raw is recovered by dividing by 10000, and the result is 0 exactly when raw is 0. |
| `EdsEdid.DetailedTimingHorizontalBlanking` | src/eds/edid.c:39-43 | 256 × (low nibble of byte 4) + byte 3, below 4096, with hi and lo recovered. |
| `EdsEdid.DetailedTimingHorizontalActive` | src/eds/edid.c:45-49 | 256 × (high nibble of byte 4) + byte 2, below 4096, with hi and lo recovered. |
| `EdsEdid.DetailedTimingVerticalBlanking` | src/eds/edid.c:51-55 | 256 × (low nibble of byte 7) + byte 6, below 4096, with hi and lo recovered. |
| `EdsEdid.DetailedTimingVerticalActive` | src/eds/edid.c:57-61 | 256 × (high nibble of byte 7) + byte 5, below 4096, with hi and lo recovered. |
| `EdsEdid.DetailedTimingVerticalSyncOffset` | src/eds/edid.c:63-67 | 16 × (bits 2-3 of byte 11) + high nibble of byte 10, below 64, with hi and lo recovered. |
| `EdsEdid.DetailedTimingVerticalSyncPulseWidth` | src/eds/edid.c:69-73 | 16 × (bits 0-1 of byte 11) + low nibble of byte 10, below 64, with hi and lo recovered. |
| `EdsEdid.DetailedTimingHorizontalSyncOffset` | src/eds/edid.c:75-79 | As in the header: 16 × ((bits 6-7 of byte 11) OR (high nibble of byte 8)) + low nibble of byte 8, never below byte 8, and equal to it when the hi bits are 0. |
| `EdsEdid.DetailedTimingHorizontalSyncPulseWidth` | src/eds/edid.c:81-85 | As in the header, for byte 9 and bits 4-5 of byte 11. |
| `EdsEdid.DetailedTimingHorizontalImageSize` | src/eds/edid.c:87-91 | 256 × (high nibble of byte 14) + byte 12, below 4096, with hi and lo recovered. |
| `EdsEdid.DetailedTimingVerticalImageSize` | src/eds/edid.c:93-97 | 256 × (low nibble of byte 14) + byte 13, below 4096, with hi and lo recovered. |
| `EdsEdid.StandardTimingHorizontalActive` | src/eds/edid.c:105-109 | (raw + 31) × 8, a multiple of 8 in 248..2288, from which raw is recovered. |
| `EdsEdid.StandardTimingVerticalActive` | src/eds/edid.c:111-128 | For the aspect-ratio field's width:height of 16:10, 4:3, 5:4 or 16:9, the result is h × height / width rounded down. It is below h, so the `return hres` fallback is never reached. |
| `EdsEdid.ShiftedScale` | src/eds/edid.c:118-124 | `(h * num) >> k` in `uint32_t` is h × num / 2^k rounded down and below h. |
| `EdsEdid.DividedScale` | src/eds/edid.c:122 | `(h << 2) / 5` is h × 4 / 5 rounded down and below h. |
| `EdsEdid.StandardTimingRefreshRate` | src/eds/edid.c:130-134 | The 6-bit field + 60, in 60..123. |
| `EdsEdid.StandardTimingExamples` | src/eds/edid.c:105-134 | At 4:3, 0x45 0x40 gives 800×600 at 60 Hz, 0x31 0x40 gives 640×480 and 0x3D 0x40 gives 736×552. |
| `EdsEdid.WideStandardTimingExamples` | src/eds/edid.c:105-134 | 0x81 0x80 gives 1280×1024 at 5:4, and 0xD1 0xC0 gives 1920×1080 at 16:9 and 60 Hz. |
| `EdsEdid.VerticalActiveDetermined` | src/eds/edid.c:111-128 | Any v within the rounding bound of the vertical-active contract is its result. |
| `EdsEdid.ManufacturerCodes` | src/eds/edid.c:136-144 | The three 5-bit codes, each below 32, as the standard stores them: a big-endian word with byte 8 first. |
| `EdsEdid.Letter` | src/eds/edid.c:139 | '@' + code lies in '@'..'_', and the code is recovered by subtracting '@'. |
| `EdsEdid.ManufacturerId` | src/eds/edid.c:139-142 | Three letters, each in '@'..'_'. |
| `EdsEdid.Manufacturer` | src/eds/edid.c:136-144 | It fills the four characters with the three letters of the standard's big-endian codes and a NUL, using the source's masks 0x007c, 0x0003, 0xe000 and 0x1f00 on the little-endian word. |
| `EdsEdid.FirstLetterMask` | src/eds/edid.c:139 | `(v & 0x007c) >> 2` is bits 2-6 of v. |
| `EdsEdid.SecondLetterMask` | src/eds/edid.c:140-141 | The middle-letter expression is '@' + 8 × (bits 0-1 of v) + bits 13-15 of v. |
| `EdsEdid.ThirdLetterMask` | src/eds/edid.c:142 | `(v & 0x1f00) >> 8` is bits 8-12 of v. |
| `EdsEdid.AddBindsTighterThanOr` | src/eds/edid.c:140-141 | `'@' + (x << 3) \| y` parses as `('@' + (x << 3)) \| y`. For a 2-bit x and a 3-bit y it still equals '@' + 8x + y. |
| `EdsEdid.WordAndCodes` | src/eds/edid.c:136-144 | Bits 2-6 of the little-endian word the code reads, 8 × bits 0-1 + bits 13-15, and bits 8-12 are the three codes of the standard's big-endian word. |
| `EdsEdid.EncodeManufacturer` | src/eds/edid.c:136-144 | The inverse encoding into two bytes leaves bit 7 of byte 8 clear. |
| `EdsEdid.ManufacturerRoundTrip` | src/eds/edid.c:136-144 | Decoding the encoding of any three 5-bit codes gives back those codes. |
| `EdsEdid.ManufacturerEncodeDecode` | src/eds/edid.c:136-144 | Encoding the decoded codes gives back bytes 8 and 9, apart from bit 7 of byte 8. |
| `EdsEdid.ManufacturerIgnoresBit7` | src/eds/edid.c:139-142 | Clearing bit 7 of byte 8 leaves the ID unchanged. |
| `EdsEdid.ManufacturerExample` | src/eds/edid.c:136-144 | Bytes 0x10 0xAC give "DEL". |
| `EdsEdid.ManufacturerSecondExample` | src/eds/edid.c:136-144 | Bytes 0x04 0x6D give "ACM". |
| `EdsEdid.IsMonitorDescriptor` | src/eds/edid.c:152-162 | For a slot below 4, true exactly when bytes 0, 1, 2 and 4 of the slot are all zero. |
| `EdsEdid.MonitorTestIgnoresTag` | src/eds/edid.c:161 | The tag at byte 3 does not affect the answer. |
| `EdsEdid.MonitorDescriptorHasNoClock` | src/eds/edid.c:152-162 | A monitor descriptor reads as a detailed timing with pixel clock 0. |
| `EdsEdid.ZeroClockNotMonitor` | src/eds/edid.c:161 | A slot with pixel clock 0 and a nonzero byte 2 is not a monitor descriptor. |
| `EdsEdid.Coordinate` | src/eds/edid.c:169 | `(high << 2) \| low` is 4 × high + low, below 1024. Div 4 gives back high and mod 4 gives back low. |
| `EdsEdid.ColorCharacteristics` | src/eds/edid.c:164-187 | Every coordinate is the 10-bit value 4 × high byte + low bits, below 1024. Coordinate div 4 is the high byte and mod 4 the low bits. |
| `EdsEdid.Gamma` | src/eds/edid.c:146-150 | The exact gamma lies in 1.00..3.55, and (gamma − 1) × 100 gives back the stored byte. |
| `EdsEdid.VerifyChecksum` | src/eds/edid.c:189-199 | Returns true exactly when the first 128 bytes sum to 0 mod 256. The loop invariant is the same as the header's. |
| `EdsEdid.DecodeFixedPoint` | src/eds/edid.c:201-212 | For a value below 1024 the result is exactly value / 1024, in [0, 1). The loop may stop early once value reaches 0. Invariant: result is the binary fraction of the bits read so far, and value is the input shifted right by the count. |
| `EdsEdid.FractionStep` | src/eds/edid.c:208-209 | `(1 << (10 - i))` is nonzero. Adding `(value & 0x1) * (1.0 / (1 << (10 - i)))` to the fraction of the first i bits gives the fraction of the first i + 1, whose bit i weighs 2^i / 1024. `value >> 1` is the input shifted by i + 1. |
| `EdsEdid.FractionExit` | src/eds/edid.c:208 | Once value is exhausted or ten bits are read, the bits read are the whole value. |
| `EdsEdid.BinaryFractionValue` | src/eds/edid.c:208-209 | The first n weighted bits sum to (value mod 2^n) / 1024. |
| `EdsEdid.FixedPointIsBinaryFraction` | src/eds/edid.c:201-212 | The ten-bit binary fraction is value / 1024. 0 gives 0 and 0x3FF gives 1023/1024. |
| `EdsEdid.FixedPointMonotone` | src/eds/edid.c:201-212 | The binary fraction grows with the value and stays below 1. |
| `EdidVariants.PixelClocksAgreeIff` | src/leds/edid.h:122-126 | The header's clock is the file's clock mod 65536. The two are equal exactly when raw ≤ 6. |
| `EdidVariants.PixelClockTruncates` | src/leds/edid.h:122-126 | Raw 7 is 70000 Hz in the file and 4464 in the header. Raw 0x1000 is 40 960 000 Hz in the file and 0 in the header. |
| `EdidVariants.DetailedTimingsAgree` | src/eds/edid.c:39-97 | Every other detailed-timing accessor of the file returns exactly what the header's accessor for that field returns. |
| `EdidVariants.ManufacturerBitFieldsSwapped` | src/leds/edid.h:211-216 | The header's `manufacturer` bit-fields are the standard's letter codes of the block with bytes 8 and 9 exchanged. |
| `EdidVariants.ManufacturerBitFieldsExample` | src/leds/edid.h:211-216 | For 0x10 0xAC ("DEL", codes 4, 5, 12) the header's bit-fields give 11, 0, 16 ("K@P"). |
| `EdidVariants.ChromaticityVariants` | src/leds/edid.h:326-349 | The header's coordinate is the file's plus 252 × high byte, and header div 256 equals file div 4. They are equal exactly when the high byte is 0. |
| `EdidVariants.ChromaticityExample` | src/leds/edid.h:331 | High byte 1 with low bits 0 gives red x = 4 in the file and 256 in the header. |
| `EdidVariants.GammaVariants` | src/leds/edid.h:312-316 | The integer gamma is the floor of the exact gamma. The two are equal exactly when the stored byte is a multiple of 100. |
| `EdidVariants.GammaExample` | src/leds/edid.h:315 | Stored byte 120 is gamma 2.2 in the file and 2 in the header. |
| `EdidVariants.Join10` | src/leds/edid.h:164-168 | `(hi << 8) \| lo` with a 2-bit hi is the 10-bit value 256 × hi + lo. |
| `EdidVariants.HorizontalSyncOffset` | src/leds/edid.h:164-168 | The corrected offset: 256 × (bits 6-7 of byte 11) + byte 8, below 1024, with hi and lo recovered. |
| `EdidVariants.HorizontalSyncPulseWidth` | src/leds/edid.h:170-174 | The corrected pulse width: 256 × (bits 4-5 of byte 11) + byte 9, below 1024, with hi and lo recovered. |
| `EdidVariants.HorizontalSyncAgreeIff` | src/leds/edid.h:164-174 | The as-written horizontal sync fields equal the corrected ones exactly when their two hi bits are 0. |
| `EdidVariants.HorizontalSyncCounterexample` | src/leds/edid.h:164-168 | Offsets of 256 and 272 pixels both read as 16 as written. |

## Left out

- `EDID_I2C_DDC_DATA_ADDRESS` and fetching the block over the display data channel: bus I/O is not part of the code modelled.
- `edid_detailed_timing_stereo_mode` (src/eds/edid.c:99-103): it reads `stereo_mode_hi` and `stereo_mode_lo`, which the header in the repository does not declare. Its bit positions are unknown.
- The extension-type and monitor-descriptor tag enumerations, and semantic decoding of monitor-descriptor payloads, video-input, feature-support and established-timing bits. Only their declarations exist, and no accessor reads them.
- Extension-block and block-map traversal: only their layouts exist (`EdidLayout.OtherStructLayouts`). `VerifyChecksum` takes any array of at least 128 bytes, so it covers an extension block as written.
- EdsEdid.Gamma: computed as the exact rational (v + 100) / 100, not as the IEEE double the source returns. The rounding of that division is not modelled, so the result is the value the double approximates.
- EdsEdid.DecodeFixedPoint: also uses exact reals. Every term is a dyadic fraction of at most ten bits, so the double arithmetic of the source is exact, and nothing is lost.
- `assert` in `edid_decode_fixed_point` and `ARRAY_SIZE` in `edid_detailed_timing_is_monitor_descriptor`: modelled as preconditions (value below 1024, slot below 4).
- C `char` signedness in `edid_manufacturer`: every letter lies in 64..95, where it does not matter.
- The C bit-field and `__attribute__((packed))` rules and the union of the two descriptor views: replaced by explicit byte offsets and masks, under the little-endian, least-significant-bit-first allocation.

## Findings

| source | as written | input that shows it | evidently intended | confidence | as-written member | corrected member |
|---|---|---|---|---|---|---|
| src/leds/edid.h:122-126 | `pixel_clock * 10000` returned as `uint16_t`, so it is reduced mod 65536 | raw 7 (70 kHz) gives 4464; raw 0x1000 (40.96 MHz) gives 0 | the clock in Hz, as the `uint32_t` version at src/eds/edid.c:33-37 returns | high; not executed | `EdidVariants.PixelClockTruncates` | `EdsEdid.DetailedTimingPixelClock` |
| src/leds/edid.h:331-344 | `(red_x << 8) \| red_x_low`: the high byte is shifted by 8 over a 2-bit low part | red x high byte 1, low bits 0 gives 256 | the 10-bit coordinate 4 × high + low, as src/eds/edid.c:169-182 computes | high; not executed | `EdidVariants.ChromaticityExample` | `EdsEdid.ColorCharacteristics` |
| src/leds/edid.h:164-174 | `(hi << 4) \| lo` with a full 8-bit lo for the horizontal sync offset and pulse width. `src/eds/edid.c:75-85` has the same expression | byte 8 = 0 and byte 11 = 0x40 (offset 256) gives 16 | the 10-bit value 256 × hi + lo of the E-EDID standard's detailed timing descriptor | high; not executed | `EdidVariants.HorizontalSyncCounterexample` | `EdidVariants.HorizontalSyncOffset` |
| src/leds/edid.h:312-316 | `(value + 100) / 100` in integer arithmetic | stored byte 120 (gamma 2.2) gives 2 | the fractional gamma `(value + 100) / 100.0` of src/eds/edid.c:146-150 | medium; not executed | `EdidVariants.GammaExample` | `EdsEdid.Gamma` |
