/** The decoder of `eds/edid.c`: detailed-timing accessors with a 32-bit pixel
    clock, the standard timing identifiers, the three-letter manufacturer ID,
    the monitor-descriptor test, ten-bit chromaticity coordinates, the block
    checksum, the gamma as an exact quotient and the ten-bit binary fraction.

    The file is compiled against a header in which `manufacturer` is a 16-bit
    integer; the model reads it as the little-endian word at bytes 8 and 9. */
module EdsEdid {
  import opened Bits
  import opened EdidLayout
  import LedsEdid

  // ---- detailed timing descriptor ----

  /** `edid_detailed_timing_pixel_clock`: the product is converted to `uint32_t`,
      which holds every raw value times 10000, so nothing is lost. */
  function DetailedTimingPixelClock(d: Descriptor): (r: uint32)
    ensures r == PixelClockRaw(d) * 10000 && r <= 655_350_000
    ensures r % 10000 == 0 && r / 10000 == PixelClockRaw(d)
    ensures r == 0 <==> PixelClockRaw(d) == 0
  {
    ConversionsKeepSmall(PixelClockRaw(d) * 10000);
    ToUint32(PixelClockRaw(d) * 10000)
  }

  function DetailedTimingHorizontalBlanking(d: Descriptor): (r: uint16)
    ensures r == 256 * (d[4] as int % 16) + d[3] as int && r < 4096
    ensures r / 256 == HorizontalBlankingHi(d) && r % 256 == HorizontalBlankingLo(d)
  {
    LedsEdid.Join12(HorizontalBlankingHi(d), HorizontalBlankingLo(d))
  }

  function DetailedTimingHorizontalActive(d: Descriptor): (r: uint16)
    ensures r == 256 * (d[4] as int / 16) + d[2] as int && r < 4096
    ensures r / 256 == HorizontalActiveHi(d) && r % 256 == HorizontalActiveLo(d)
  {
    LedsEdid.Join12(HorizontalActiveHi(d), HorizontalActiveLo(d))
  }

  function DetailedTimingVerticalBlanking(d: Descriptor): (r: uint16)
    ensures r == 256 * (d[7] as int % 16) + d[6] as int && r < 4096
    ensures r / 256 == VerticalBlankingHi(d) && r % 256 == VerticalBlankingLo(d)
  {
    LedsEdid.Join12(VerticalBlankingHi(d), VerticalBlankingLo(d))
  }

  function DetailedTimingVerticalActive(d: Descriptor): (r: uint16)
    ensures r == 256 * (d[7] as int / 16) + d[5] as int && r < 4096
    ensures r / 256 == VerticalActiveHi(d) && r % 256 == VerticalActiveLo(d)
  {
    LedsEdid.Join12(VerticalActiveHi(d), VerticalActiveLo(d))
  }

  function DetailedTimingVerticalSyncOffset(d: Descriptor): (r: byte)
    ensures r == 16 * ((d[11] / 4) % 4) + d[10] / 16 && r < 64
    ensures r / 16 == VerticalSyncOffsetHi(d) && r % 16 == VerticalSyncOffsetLo(d)
  {
    LedsEdid.Join6(VerticalSyncOffsetHi(d), VerticalSyncOffsetLo(d))
  }

  function DetailedTimingVerticalSyncPulseWidth(d: Descriptor): (r: byte)
    ensures r == 16 * (d[11] % 4) + d[10] % 16 && r < 64
    ensures r / 16 == VerticalSyncPulseWidthHi(d) && r % 16 == VerticalSyncPulseWidthLo(d)
  {
    LedsEdid.Join6(VerticalSyncPulseWidthHi(d), VerticalSyncPulseWidthLo(d))
  }

  function DetailedTimingHorizontalSyncOffset(d: Descriptor): (r: byte)
    ensures r == 16 * Or(d[11] / 64, d[8] / 16) + d[8] % 16
    ensures r % 16 == d[8] % 16 && r >= d[8] && r >= 16 * (d[11] / 64)
    ensures d[11] / 64 == 0 ==> r == d[8]
  {
    LedsEdid.Overlay6(HorizontalSyncOffsetHi(d), HorizontalSyncOffsetLo(d))
  }

  function DetailedTimingHorizontalSyncPulseWidth(d: Descriptor): (r: byte)
    ensures r == 16 * Or((d[11] / 16) % 4, d[9] / 16) + d[9] % 16
    ensures r % 16 == d[9] % 16 && r >= d[9] && r >= 16 * ((d[11] / 16) % 4)
    ensures (d[11] / 16) % 4 == 0 ==> r == d[9]
  {
    LedsEdid.Overlay6(HorizontalSyncPulseWidthHi(d), HorizontalSyncPulseWidthLo(d))
  }

  function DetailedTimingHorizontalImageSize(d: Descriptor): (r: uint16)
    ensures r == 256 * (d[14] as int / 16) + d[12] as int && r < 4096
    ensures r / 256 == HorizontalImageSizeHi(d) && r % 256 == HorizontalImageSizeLo(d)
  {
    LedsEdid.Join12(HorizontalImageSizeHi(d), HorizontalImageSizeLo(d))
  }

  function DetailedTimingVerticalImageSize(d: Descriptor): (r: uint16)
    ensures r == 256 * (d[14] as int % 16) + d[13] as int && r < 4096
    ensures r / 256 == VerticalImageSizeHi(d) && r % 256 == VerticalImageSizeLo(d)
  {
    LedsEdid.Join12(VerticalImageSizeHi(d), VerticalImageSizeLo(d))
  }

  // ---- standard timing identifiers ----

  /** `edid_standard_timing_horizontal_active`: `(raw + 31) << 3`, a multiple of 8
      from which the raw byte is recovered. */
  function StandardTimingHorizontalActive(s: StandardTiming): (r: uint32)
    ensures r == (HorizontalActivePixels(s) + 31) * 8
    ensures 248 <= r <= 2288 && r % 8 == 0
    ensures r / 8 - 31 == HorizontalActivePixels(s)
  {
    ShlIsMul(HorizontalActivePixels(s) + 31, 3);
    ConversionsKeepSmall(Shl(HorizontalActivePixels(s) + 31, 3));
    ToUint32(Shl(HorizontalActivePixels(s) + 31, 3))
  }

  /** Height over width for each value of the two-bit aspect-ratio field, the
      order of `enum edid_aspect_ratio`: 16:10, 4:3, 5:4 and 16:9. */
  function AspectHeight(ar: nat): nat
    requires ar < 4
  {
    if ar == AspectRatio16x10 then 10
    else if ar == AspectRatio4x3 then 3
    else if ar == AspectRatio5x4 then 4
    else 9
  }

  function AspectWidth(ar: nat): (w: nat)
    requires ar < 4
    ensures w > AspectHeight(ar)
  {
    if ar == AspectRatio16x10 then 16
    else if ar == AspectRatio4x3 then 4
    else if ar == AspectRatio5x4 then 5
    else 16
  }

  /** The quotient of h * num by den is h scaled by num / den rounded down. */
  lemma ScaledFloor(h: nat, num: nat, den: nat, r: nat)
    requires den > num && r == (h * num) / den
    ensures r * den <= h * num < (r + 1) * den
    ensures h > 0 ==> r < h
  {
    var x := h * num;
    assert x == r * den + x % den;
    assert (r + 1) * den == r * den + den;
    if h > 0 {
      MulAtLeast(den - num, h);
      assert (h - r) * den > 0;
      PositiveFactor(h - r, den);
    }
  }

  /** `(h * num) >> k` in `uint32_t` arithmetic, for a standard-timing width h,
      is h * num / 2^k rounded down. */
  lemma ShiftedScale(h: uint32, num: nat, k: nat)
    requires 0 < h <= 2288 && num <= 10 && Pow2(k) > num
    ensures var r := Shr(ToUint32(h * num), k);
      r * Pow2(k) <= h * num < (r + 1) * Pow2(k) && r < h
  {
    MulMonotone(num, 10, h);
    MulMonotone(h, 2288, 10);
    ConversionsKeepSmall(h * num);
    ShrLowAreDivMod(h * num, k);
    ScaledFloor(h, num, Pow2(k), Shr(h * num, k));
  }

  lemma MulMonotone(a: nat, b: nat, c: nat)
    requires a <= b
    ensures a * c <= b * c
  {
    var k: nat := b - a;
    assert b * c == a * c + k * c;
  }

  /** `(h << 2) / 5` in `uint32_t` arithmetic is h * 4 / 5 rounded down. */
  lemma DividedScale(h: uint32)
    requires 0 < h <= 2288
    ensures var r := ToUint32(Shl(h, 2)) / 5;
      r * 5 <= h * 4 < (r + 1) * 5 && r < h
  {
    Pow2Values();
    ShlIsMul(h, 2);
    assert Shl(h, 2) == 4 * h;
    ConversionsKeepSmall(4 * h);
    ScaledFloor(h, 4, 5, (h * 4) / 5);
  }

  /** `edid_standard_timing_vertical_active`: the horizontal resolution scaled by
      the aspect ratio with shifts and a division. Every result is the exact
      proportional height rounded down and is below the width, so the fallback
      that returns the width itself is never taken. */
  function StandardTimingVerticalActive(s: StandardTiming): (r: uint32)
    ensures var h, ar := StandardTimingHorizontalActive(s), ImageAspectRatioField(s);
      r * AspectWidth(ar) <= h * AspectHeight(ar) < (r + 1) * AspectWidth(ar)
    ensures r < StandardTimingHorizontalActive(s)
  {
    var hres := StandardTimingHorizontalActive(s);
    var ar := ImageAspectRatioField(s);
    Pow2Values();
    if ar == AspectRatio16x10 then
      ShiftedScale(hres, 10, 4);
      Shr(ToUint32(hres * 10), 4)
    else if ar == AspectRatio4x3 then
      ShiftedScale(hres, 3, 2);
      Shr(ToUint32(hres * 3), 2)
    else if ar == AspectRatio5x4 then
      DividedScale(hres);
      ToUint32(Shl(hres, 2)) / 5
    else if ar == AspectRatio16x9 then
      ShiftedScale(hres, 9, 4);
      Shr(ToUint32(hres * 9), 4)
    else
      hres
  }

  /** `edid_standard_timing_refresh_rate`: the six-bit field plus 60 Hz. */
  function StandardTimingRefreshRate(s: StandardTiming): (r: uint32)
    ensures 60 <= r <= 123
    ensures r - 60 == s[1] % 64
  {
    RefreshRateField(s) + 60
  }

  /** Identifiers of 4:3 modes that appear in monitors' blocks decode to the usual sizes. */
  lemma StandardTimingExamples()
    ensures StandardTimingHorizontalActive([0x45, 0x40]) == 800
    ensures StandardTimingVerticalActive([0x45, 0x40]) == 600
    ensures StandardTimingRefreshRate([0x45, 0x40]) == 60
    ensures StandardTimingHorizontalActive([0x31, 0x40]) == 640
    ensures StandardTimingVerticalActive([0x31, 0x40]) == 480
    ensures StandardTimingHorizontalActive([0x3d, 0x40]) == 736
    ensures StandardTimingVerticalActive([0x3d, 0x40]) == 552
  {
    VerticalActiveDetermined([0x45, 0x40], 1, 600);
    VerticalActiveDetermined([0x31, 0x40], 1, 480);
    VerticalActiveDetermined([0x3d, 0x40], 1, 552);
  }

  /** The 5:4 and 16:9 identifiers of 1280x1024 and 1920x1080 at 60 Hz. */
  lemma WideStandardTimingExamples()
    ensures StandardTimingHorizontalActive([0x81, 0x80]) == 1280
    ensures StandardTimingVerticalActive([0x81, 0x80]) == 1024
    ensures StandardTimingHorizontalActive([0xd1, 0xc0]) == 1920
    ensures StandardTimingVerticalActive([0xd1, 0xc0]) == 1080
    ensures StandardTimingRefreshRate([0xd1, 0xc0]) == 60
  {
    VerticalActiveDetermined([0x81, 0x80], 2, 1024);
    VerticalActiveDetermined([0xd1, 0xc0], 3, 1080);
  }

  /** The vertical size is determined by the aspect-ratio field and the bound
      of the vertical-active contract. */
  lemma VerticalActiveDetermined(s: StandardTiming, ar: nat, v: nat)
    requires ImageAspectRatioField(s) == ar < 4
    requires var h := StandardTimingHorizontalActive(s);
      v * AspectWidth(ar) <= h * AspectHeight(ar) < (v + 1) * AspectWidth(ar)
    ensures StandardTimingVerticalActive(s) == v
  {
  }

  // ---- manufacturer ID ----

  /** The three five-bit letter codes of the ID as the standard stores them: a
      big-endian word, byte 8 first, holding a zero bit and then the codes from
      bit 14 down. */
  function ManufacturerCodes(b: Block): (cs: seq<nat>)
    ensures |cs| == 3 && cs[0] < 32 && cs[1] < 32 && cs[2] < 32
  {
    var w := 256 * b[ManufacturerOffset] as int + b[ManufacturerOffset + 1] as int;
    [(w / 1024) % 32, (w / 32) % 32, w % 32]
  }

  /** Code 1 is 'A'; the codes 0 and 27 to 31 give '@' and the five characters after 'Z'. */
  function Letter(code: nat): (c: char)
    requires code < 32
    ensures '@' <= c <= '_' && c as int - '@' as int == code
  {
    ('@' as int + code) as char
  }

  function ManufacturerId(b: Block): (id: string)
    ensures |id| == 3 && forall k :: 0 <= k < 3 ==> '@' <= id[k] <= '_'
  {
    var cs := ManufacturerCodes(b);
    [Letter(cs[0]), Letter(cs[1]), Letter(cs[2])]
  }

  /** `edid_manufacturer`: fills the caller's four characters with the three
      letters and a terminating NUL, computed with the masks and shifts of the
      source from the 16-bit `manufacturer` member. */
  method Manufacturer(b: Block, manufacturer: array<char>)
    requires manufacturer.Length == 4
    modifies manufacturer
    ensures manufacturer[..] == ManufacturerId(b) + ['\0']
  {
    var v := ManufacturerWord(b);
    ghost var cs := ManufacturerCodes(b);
    LetterMasks(b);
    manufacturer[0] := ('@' as int + Shr(And(v, 0x007c), 2)) as char;
    manufacturer[1] := Or('@' as int + Shl(Shr(And(v, 0x0003), 0), 3), Shl(Shr(And(v, 0xe000), 13), 0)) as char;
    manufacturer[2] := ('@' as int + Shr(And(v, 0x1f00), 8)) as char;
    manufacturer[3] := '\0';
    assert manufacturer[..] == [Letter(cs[0]), Letter(cs[1]), Letter(cs[2]), '\0'];
  }

  /** The three mask expressions of `edid_manufacturer`, applied to the 16-bit
      member, are '@' plus the three codes. */
  lemma LetterMasks(b: Block)
    ensures var v, cs := ManufacturerWord(b), ManufacturerCodes(b);
      '@' as int + Shr(And(v, 0x007c), 2) == Letter(cs[0]) as int &&
      Or('@' as int + Shl(Shr(And(v, 0x0003), 0), 3), Shl(Shr(And(v, 0xe000), 13), 0)) == Letter(cs[1]) as int &&
      '@' as int + Shr(And(v, 0x1f00), 8) == Letter(cs[2]) as int
  {
    var v, cs := ManufacturerWord(b), ManufacturerCodes(b);
    FirstLetterMask(v);
    SecondLetterMask(v);
    ThirdLetterMask(v);
    WordAndCodes(b);
    assert Letter(cs[0]) as int == '@' as int + cs[0];
    assert Letter(cs[1]) as int == '@' as int + cs[1];
    assert Letter(cs[2]) as int == '@' as int + cs[2];
  }

  /** `(v & 0x007c) >> 2` is bits 2 to 6 of v. */
  lemma FirstLetterMask(v: uint16)
    ensures Shr(And(v, 0x007c), 2) == (v / 4) % 32
  {
    Pow2Values();
    assert Shl(31, 2) == 0x007c;
    MaskShift(v, 5, 2);
    BitFieldValue(v, 2, 5);
  }

  /** `(v & 0x1f00) >> 8` is bits 8 to 12 of v. */
  lemma ThirdLetterMask(v: uint16)
    ensures Shr(And(v, 0x1f00), 8) == (v / 256) % 32
  {
    Pow2Values();
    ShlIsMul(31, 8);
    MaskShift(v, 5, 8);
    BitFieldValue(v, 8, 5);
  }

  /** The middle letter: bits 0 and 1 of v above bits 13 to 15. */
  lemma SecondLetterMask(v: uint16)
    ensures Or('@' as int + Shl(Shr(And(v, 0x0003), 0), 3), Shl(Shr(And(v, 0xe000), 13), 0))
         == '@' as int + 8 * (v % 4) + v / 8192
  {
    LowTwoBits(v);
    TopThreeBits(v);
    AddBindsTighterThanOr(v % 4, v / 8192);
  }

  /** `(v & 0x0003) >> 0` is bits 0 and 1 of v. */
  lemma LowTwoBits(v: nat)
    ensures Shr(And(v, 0x0003), 0) == v % 4
  {
    Pow2Values();
    AndLowMask(v, 2);
    ShrLowAreDivMod(v, 2);
  }

  /** `(v & 0xe000) >> 13` is bits 13 to 15 of a 16-bit v. */
  lemma TopThreeBits(v: uint16)
    ensures v / 8192 < 8
    ensures Shl(Shr(And(v, 0xe000), 13), 0) == v / 8192
  {
    Pow2Values();
    ShlIsMul(7, 13);
    MaskShift(v, 3, 13);
    BitFieldValue(v, 13, 3);
    QuotientBound(v, 8192, 8);
    DivModUnique(v / 8192, 8, 0, v / 8192);
  }

  /** At `'@' + (x << 3) | y` C adds before it ORs; for a three-bit y the result is
      nevertheless the sum, because `'@' + (x << 3)` has its three low bits clear. */
  lemma AddBindsTighterThanOr(x: nat, y: nat)
    requires x < 4 && y < 8
    ensures Or('@' as int + Shl(x, 3), y) == '@' as int + Or(Shl(x, 3), y)
    ensures Or('@' as int + Shl(x, 3), y) == '@' as int + 8 * x + y
  {
    Pow2Values();
    assert '@' as int == 64;
    ShlIsMul(x, 3);
    ShlIsMul(8 + x, 3);
    assert '@' as int + Shl(x, 3) == Shl(8 + x, 3);
    OrDisjoint(8 + x, 3, y);
    OrDisjoint(x, 3, y);
  }

  /** The little-endian word the source reads holds the standard's three codes
      at bits 2-6, bits 0-1 above bits 13-15, and bits 8-12. */
  lemma WordAndCodes(b: Block)
    ensures var v, cs := ManufacturerWord(b), ManufacturerCodes(b);
      (v / 4) % 32 == cs[0] && 8 * (v % 4) + v / 8192 == cs[1] && (v / 256) % 32 == cs[2]
  {
    var lo, hi := b[ManufacturerOffset] as int, b[ManufacturerOffset + 1] as int;
    var v := ManufacturerWord(b);
    assert v == lo + 256 * hi;
    CodesOfBytes(b);
    DivModUnique(v, 4, lo / 4 + 64 * hi, lo % 4);
    DivModUnique(lo / 4 + 64 * hi, 32, (lo / 4) / 32 + 2 * hi, (lo / 4) % 32);
    DivModUnique(v, 8192, hi / 32, lo + 256 * (hi % 32));
    DivModUnique(v, 256, hi, lo);
  }

  /** The two ID bytes that store three letter codes, byte 8 first, with the
      reserved bit 7 of byte 8 clear. */
  function EncodeManufacturer(c0: nat, c1: nat, c2: nat): (bs: seq<byte>)
    requires c0 < 32 && c1 < 32 && c2 < 32
    ensures |bs| == 2 && bs[0] < 128
  {
    var w := 1024 * c0 + 32 * c1 + c2;
    [w / 256, w % 256]
  }

  /** Decoding the bytes of any three codes gives back those codes. */
  lemma ManufacturerRoundTrip(b: Block, c0: nat, c1: nat, c2: nat)
    requires c0 < 32 && c1 < 32 && c2 < 32
    requires b[ManufacturerOffset .. ManufacturerOffset + 2] == EncodeManufacturer(c0, c1, c2)
    ensures ManufacturerCodes(b) == [c0, c1, c2]
  {
    var w := 1024 * c0 + 32 * c1 + c2;
    assert b[ManufacturerOffset] == w / 256 && b[ManufacturerOffset + 1] == w % 256;
    assert 256 * (w / 256) + w % 256 == w;
    DivModUnique(w, 1024, c0, 32 * c1 + c2);
    DivModUnique(w, 32, 32 * c0 + c1, c2);
    DivModUnique(32 * c0 + c1, 32, c0, c1);
  }

  /** Encoding the decoded codes gives back the ID bytes, except the reserved bit 7
      of byte 8, which decoding ignores. */
  lemma ManufacturerEncodeDecode(b: Block)
    ensures var cs := ManufacturerCodes(b);
      EncodeManufacturer(cs[0], cs[1], cs[2]) == [b[ManufacturerOffset] % 128, b[ManufacturerOffset + 1]]
  {
    var lo, hi := b[ManufacturerOffset] as int, b[ManufacturerOffset + 1] as int;
    var w := 256 * lo + hi;
    var cs := ManufacturerCodes(b);
    DivModUnique(w, 1024, lo / 4, 256 * (lo % 4) + hi);
    DivModUnique(lo / 4, 32, lo / 128, (lo / 4) % 32);
    DivModUnique(w, 32, 8 * lo + hi / 32, hi % 32);
    DivModUnique(8 * lo + hi / 32, 32, lo / 4, 8 * (lo % 4) + hi / 32);
    DivModUnique(lo, 4, lo / 4, lo % 4);
    DivModUnique(lo % 128, 4, (lo / 4) % 32, lo % 4);
    DivModUnique(lo, 128, lo / 128, lo % 128);
    var e := 1024 * cs[0] + 32 * cs[1] + cs[2];
    assert e == 256 * (lo % 128) + hi;
    DivModUnique(e, 256, lo % 128, hi);
  }

  /** The three codes in terms of the two ID bytes: bits 2-6 of byte 8, bits
      0-1 of byte 8 above bits 5-7 of byte 9, and bits 0-4 of byte 9. */
  lemma CodesOfBytes(b: Block)
    ensures var lo, hi := b[ManufacturerOffset] as int, b[ManufacturerOffset + 1] as int;
      ManufacturerCodes(b) == [(lo / 4) % 32, 8 * (lo % 4) + hi / 32, hi % 32]
  {
    var lo, hi := b[ManufacturerOffset] as int, b[ManufacturerOffset + 1] as int;
    var w := 256 * lo + hi;
    DivModUnique(w, 1024, lo / 4, 256 * (lo % 4) + hi);
    DivModUnique(w, 32, 8 * lo + hi / 32, hi % 32);
    DivModUnique(lo, 4, lo / 4, lo % 4);
    DivModUnique(8 * lo + hi / 32, 32, lo / 4, 8 * (lo % 4) + hi / 32);
  }

  /** Bit 7 of byte 8 does not take part in the ID. */
  lemma ManufacturerIgnoresBit7(b: Block)
    ensures ManufacturerId(b[ManufacturerOffset := b[ManufacturerOffset] % 128]) == ManufacturerId(b)
  {
    var lo := b[ManufacturerOffset] as int;
    var b' := b[ManufacturerOffset := b[ManufacturerOffset] % 128];
    CodesOfBytes(b);
    CodesOfBytes(b');
    assert b'[ManufacturerOffset] as int == lo % 128 && b'[ManufacturerOffset + 1] == b[ManufacturerOffset + 1];
    var q4, r4 := lo / 4, lo % 4;
    var q, c := q4 / 32, q4 % 32;
    assert lo == 128 * q + (4 * c + r4);
    DivModUnique(lo, 128, q, 4 * c + r4);
    DivModUnique(lo % 128, 4, c, r4);
    DivModUnique(c, 32, 0, c);
    assert ((lo % 128) / 4) % 32 == (lo / 4) % 32 && (lo % 128) % 4 == lo % 4;
  }

  /** The ID bytes 0x10 0xAC spell "DEL". */
  lemma ManufacturerExample(b: Block)
    requires b[ManufacturerOffset] == 0x10 && b[ManufacturerOffset + 1] == 0xac
    ensures ManufacturerId(b) == "DEL"
  {
  }

  /** The bytes 0x04 0x6D, read with byte 8 as the high half of the word, spell "ACM". */
  lemma ManufacturerSecondExample(b: Block)
    requires b[ManufacturerOffset] == 0x04 && b[ManufacturerOffset + 1] == 0x6d
    ensures ManufacturerId(b) == "ACM"
  {
  }

  // ---- monitor descriptors ----

  /** `edid_detailed_timing_is_monitor_descriptor`: slot `timing` holds a monitor
      descriptor when its flag bytes 0, 1, 2 and 4 are all zero. */
  function IsMonitorDescriptor(b: Block, timing: byte): (r: bool)
    requires timing < DetailedTimingCount
    ensures var base := DetailedTimingOffset + DescriptorSize * timing;
      r <==> b[base] == 0 && b[base + 1] == 0 && b[base + 2] == 0 && b[base + 4] == 0
  {
    var mon := DetailedTimingAt(b, timing);
    MonitorFlag0(mon) == 0x0000 && MonitorFlag1(mon) == 0x00 && MonitorFlag2(mon) == 0x00
  }

  /** The descriptor tag at byte 3 is not consulted: any tag, including one
      outside the enumeration of tags, leaves the answer unchanged. */
  lemma MonitorTestIgnoresTag(b: Block, timing: byte, tag: byte)
    requires timing < DetailedTimingCount
    ensures IsMonitorDescriptor(b[DetailedTimingOffset + DescriptorSize * timing + 3 := tag], timing)
         == IsMonitorDescriptor(b, timing)
  {
  }

  /** A monitor descriptor reads as a detailed timing with pixel clock 0, but a
      zero pixel clock alone does not make the slot a monitor descriptor. */
  lemma MonitorDescriptorHasNoClock(b: Block, timing: byte)
    requires timing < DetailedTimingCount && IsMonitorDescriptor(b, timing)
    ensures DetailedTimingPixelClock(DetailedTimingAt(b, timing)) == 0
  {
  }

  lemma ZeroClockNotMonitor()
    ensures var b: Block := seq(BlockSize, k => if k == DetailedTimingOffset + 2 then 1 else 0);
      DetailedTimingPixelClock(DetailedTimingAt(b, 0)) == 0 && !IsMonitorDescriptor(b, 0)
  {
    var b: Block := seq(BlockSize, k => if k == DetailedTimingOffset + 2 then 1 else 0);
    assert DetailedTimingAt(b, 0)[0] == 0 && DetailedTimingAt(b, 0)[1] == 0;
  }

  // ---- chromaticity ----

  /** `(high << 2) | low`: a ten-bit coordinate. */
  function Coordinate(high: byte, low: nat): (r: uint16)
    requires low < 4
    ensures r == 4 * high as int + low && r < 1024
    ensures r / 4 == high && r % 4 == low
  {
    OrDisjoint(high, 2, low);
    Pow2Values();
    DivModUnique(4 * high as int + low, 4, high, low);
    ConversionsKeepSmall(Or(Shl(high, 2), low));
    ToUint16(Or(Shl(high, 2), low))
  }

  /** `edid_color_characteristics` of this file: every coordinate is the ten-bit
      value whose eight high bits are the high byte and whose two low bits are
      the matching bit pair, and both parts are recovered from it. */
  function ColorCharacteristics(b: Block): (c: ColorCharacteristicsData)
    ensures forall k :: 0 <= k < 8 ==>
      Coordinates(c)[k] == 4 * ColorHighBytes(b)[k] as int + ColorLowBits(b)[k] && Coordinates(c)[k] < 1024
    ensures forall k :: 0 <= k < 8 ==>
      Coordinates(c)[k] / 4 == ColorHighBytes(b)[k] && Coordinates(c)[k] % 4 == ColorLowBits(b)[k]
  {
    var hs, ls := ColorHighBytes(b), ColorLowBits(b);
    var c := ColorCharacteristicsData(
      Point(Coordinate(hs[0], ls[0]), Coordinate(hs[1], ls[1])),
      Point(Coordinate(hs[2], ls[2]), Coordinate(hs[3], ls[3])),
      Point(Coordinate(hs[4], ls[4]), Coordinate(hs[5], ls[5])),
      Point(Coordinate(hs[6], ls[6]), Coordinate(hs[7], ls[7])));
    assert forall k :: 0 <= k < 8 ==> Coordinates(c)[k] == Coordinate(hs[k], ls[k]);
    c
  }

  // ---- gamma ----

  /** `edid_gamma` of this file, `(value + 100) / 100.0`, as the exact quotient:
      a gamma from 1.00 to 3.55 in steps of 0.01 from which the stored byte is
      recovered. */
  function Gamma(b: Block): (r: real)
    ensures 1.0 <= r <= 3.55
    ensures (r - 1.0) * 100.0 == DisplayTransferCharacteristics(b) as real
  {
    (DisplayTransferCharacteristics(b) + 100) as real / 100.0
  }

  // ---- checksum ----

  /** `edid_verify_checksum`: the same wrapping `uint8_t` sum as the header's. */
  method VerifyChecksum(block: array<byte>) returns (ok: bool)
    requires block.Length >= BlockSize
    ensures ok <==> ChecksumValid(block[..])
  {
    var checksum: byte := 0;
    for i := 0 to BlockSize
      invariant checksum == Sum(block[..i]) % 0x100
    {
      assert block[..i + 1][..i] == block[..i];
      checksum := ToUint8(checksum + block[i]);
    }
    assert block[..][..BlockSize] == block[..BlockSize];
    ok := checksum == 0;
  }

  // ---- ten-bit binary fractions ----

  /** The fraction a ten-bit field denotes by the weights of its bits: bit j
      counts 2^j / 2^10, so bit 9 is one half and bit 0 is 1/1024. This sums bits
      0 to n - 1. */
  function BinaryFraction(value: nat, n: nat): real
    requires n <= 10
  {
    if n == 0 then 0.0
    else BinaryFraction(value, n - 1) + (if (value / Pow2(n - 1)) % 2 == 1 then Pow2(n - 1) as real / 1024.0 else 0.0)
  }

  /** `edid_decode_fixed_point`: adds the weight of each set bit from the least
      significant, shifting `value` right each step and stopping once the
      remaining bits are all zero or ten bits have been read. */
  method DecodeFixedPoint(value: uint16) returns (result: real)
    requires value < 1024
    ensures result == value as real / 1024.0
    ensures 0.0 <= result < 1.0
  {
    result := 0.0;
    var v: uint16 := value;
    var i: byte := 0;
    while v != 0 && i < 10
      invariant 0 <= i <= 10
      invariant v == value / Pow2(i)
      invariant result == BinaryFraction(value, i)
    {
      FractionStep(value, i, v);
      assert result + And(v, 0x1) as real * (1.0 / Shl(1, 10 - i) as real) == BinaryFraction(value, i + 1);
      result := result + (And(v, 0x1) as real * (1.0 / Shl(1, 10 - i) as real));
      i, v := i + 1, Shr(v, 1);
    }
    BinaryFractionValue(value, i);
    FractionExit(value, i);
  }

  /** `v & 0x1` is bit 0 of v and `v >> 1` drops it. */
  lemma LowBit(v: nat)
    ensures And(v, 0x1) == v % 2 && Shr(v, 1) == v / 2
  {
    Pow2Values();
    AndLowMask(v, 1);
    ShrLowAreDivMod(v, 1);
  }

  /** Once the remaining bits are zero, or all ten have been read, the bits read
      are the whole value. */
  lemma FractionExit(value: nat, i: nat)
    requires value < 1024 && i <= 10 && (value / Pow2(i) == 0 || i == 10)
    ensures value % Pow2(i) == value
  {
    var p := Pow2(i);
    if value / p == 0 {
      assert value == p * (value / p) + value % p;
    } else {
      Pow2Values();
    }
    DivModUnique(value, p, 0, value);
  }

  lemma {:induction false} Pow2Add(a: nat, b: nat)
    ensures Pow2(a + b) == Pow2(a) * Pow2(b)
  {
    if b > 0 {
      Pow2Add(a, b - 1);
    }
  }

  /** Doubling the divisor: the remainder by 2p adds bit 0 of the
      quotient by p, and the quotient by 2p is half the quotient by p. */
  lemma DivModStep(value: nat, p: nat)
    requires p > 0
    ensures (value / p) % 2 == 1 ==> value % (2 * p) == value % p + p
    ensures (value / p) % 2 == 0 ==> value % (2 * p) == value % p
    ensures value / (2 * p) == (value / p) / 2
  {
    var q, r, h := value / p, value % p, (value / p) / 2;
    assert value == q * p + r;
    if q % 2 == 1 {
      assert q == 2 * h + 1;
      assert q * p == h * (2 * p) + p;
      DivModUnique(value, 2 * p, h, p + r);
    } else {
      assert q == 2 * h;
      assert q * p == h * (2 * p);
      DivModUnique(value, 2 * p, h, r);
    }
  }

  /** The weight `1.0 / (1 << (10 - i))` of bit i is 2^i / 1024. */
  lemma BitWeight(bit: nat, i: nat)
    requires bit < 2 && i < 10
    ensures Shl(1, 10 - i) > 0
    ensures bit as real * (1.0 / Shl(1, 10 - i) as real) == (if bit == 1 then Pow2(i) as real / 1024.0 else 0.0)
  {
    var w := 1.0 / Shl(1, 10 - i) as real;
    ShiftComplement(i);
    ReciprocalWeight(Pow2(i), Shl(1, 10 - i));
    if bit == 1 {
      assert bit as real * w == w;
    } else {
      assert bit as real * w == 0.0;
    }
  }

  /** `1 << (10 - i)` and 2^i multiply to 2^10. */
  lemma ShiftComplement(i: nat)
    requires i <= 10
    ensures Pow2(i) * Shl(1, 10 - i) == 1024
  {
    ShlIsMul(1, 10 - i);
    Pow2Add(i, 10 - i);
    Pow2Values();
  }

  lemma ReciprocalWeight(p: nat, d: nat)
    requires p * d == 1024
    ensures d > 0 && 1.0 / d as real == p as real / 1024.0
  {
    var pr, dr := p as real, d as real;
    assert pr * dr == 1024.0;
  }

  /** One loop step, with v the bits not yet read: it adds the weight of bit i,
      and the remaining bits shift down by one. */
  lemma FractionStep(value: nat, i: nat, v: nat)
    requires i < 10 && v == value / Pow2(i)
    ensures Shl(1, 10 - i) > 0
    ensures BinaryFraction(value, i) + And(v, 0x1) as real * (1.0 / Shl(1, 10 - i) as real)
         == BinaryFraction(value, i + 1)
    ensures Shr(v, 1) == value / Pow2(i + 1)
  {
    var p := Pow2(i);
    assert Pow2(i + 1) == 2 * p;
    DivModStep(value, p);
    LowBit(v);
    BitWeight(v % 2, i);
    assert BinaryFraction(value, i + 1)
        == BinaryFraction(value, i) + (if v % 2 == 1 then p as real / 1024.0 else 0.0);
  }

  /** The bit weights add up to the value over 1024: a ten-bit binary fraction
      is value / 2^10. */
  lemma {:induction false} BinaryFractionValue(value: nat, n: nat)
    requires n <= 10
    ensures BinaryFraction(value, n) == (value % Pow2(n)) as real / 1024.0
  {
    if n > 0 {
      var j := n - 1;
      var p := Pow2(j);
      BinaryFractionValue(value, j);
      DivModStep(value, p);
      assert Pow2(n) == 2 * p;
    } else {
      assert value % 1 == 0;
    }
  }

  /** So the decoded fraction is the binary fraction of the ten-bit field; it
      grows with the field and stays below one. */
  lemma FixedPointIsBinaryFraction(value: nat)
    requires value < 1024
    ensures BinaryFraction(value, 10) == value as real / 1024.0
    ensures BinaryFraction(0, 10) == 0.0 && BinaryFraction(0x3ff, 10) == 1023.0 / 1024.0
  {
    BinaryFractionValue(value, 10);
    BinaryFractionValue(0, 10);
    BinaryFractionValue(0x3ff, 10);
    Pow2Values();
    DivModUnique(value, 1024, 0, value);
    DivModUnique(0x3ff, 1024, 0, 0x3ff);
  }

  lemma FixedPointMonotone(a: nat, b: nat)
    requires a <= b < 1024
    ensures BinaryFraction(a, 10) <= BinaryFraction(b, 10) < 1.0
  {
    FixedPointIsBinaryFraction(a);
    FixedPointIsBinaryFraction(b);
  }
}
