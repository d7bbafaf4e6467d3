/** G.711 companding (ITU-T G.711): the two encoders, the two decoders, and how close a decoded sample comes. */
module G711 {
  import opened Bytes
  import opened BitReader

  const BIAS := 0x84
  const CLIP := 32635

  type i16 = x: int | -0x8000 <= x < 0x8000

  function Abs(x: int): nat { if x < 0 then -x else x }

  /** A shift by `k`, as a factor. */
  function Shift(k: nat): (f: nat)
    requires k <= 10
    ensures f > 0
  {
    match k
    case 0 => 1 case 1 => 2 case 2 => 4 case 3 => 8 case 4 => 16 case 5 => 32
    case 6 => 64 case 7 => 128 case 8 => 256 case 9 => 512 case 10 => 1024
  }

  // ----- Mu-law -----

  function MulawSegment(mag: nat): (segment: nat)
    ensures segment <= 7
  {
    if mag >= 0x4000 then 7 else if mag >= 0x2000 then 6 else if mag >= 0x1000 then 5 else if mag >= 0x0800 then 4
    else if mag >= 0x0400 then 3 else if mag >= 0x0200 then 2 else if mag >= 0x0100 then 1 else 0
  }

  function MulawMagnitude(sample: i16): nat {
    (if Abs(sample) < CLIP then Abs(sample) else CLIP) + BIAS
  }

  /** Sign, segment and mantissa, all bits inverted. */
  function MulawCode(negative: bool, segment: nat, mantissa: nat): byte
    requires segment <= 7 && mantissa <= 15
  {
    255 - ((if negative then 128 else 0) + segment * 16 + mantissa)
  }

  function PcmToMulaw(sample: i16): byte {
    var mag := MulawMagnitude(sample);
    var segment := MulawSegment(mag);
    MulawCode(sample < 0, segment, mag / Shift(segment + 3) % 16)
  }

  function MulawLevel(segment: nat, mantissa: nat): (mag: int)
    requires segment <= 7 && mantissa <= 15
    ensures 0 <= mag <= 32124
  {
    (mantissa * 8 + BIAS) * Shift(segment) - BIAS
  }

  function MulawToPcm(encoded: byte): i16 {
    var u := 255 - encoded as int;
    var mag := MulawLevel(u / 16 % 8, u % 16);
    if u / 128 != 0 then -mag else mag
  }

  lemma MulawFields(negative: bool, segment: nat, mantissa: nat)
    requires segment <= 7 && mantissa <= 15
    ensures var u := 255 - MulawCode(negative, segment, mantissa) as int;
            u / 128 == (if negative then 1 else 0) && u / 16 % 8 == segment && u % 16 == mantissa
  {
    var n := if negative then 1 else 0;
    var u := 255 - MulawCode(negative, segment, mantissa) as int;
    assert u == n * 128 + segment * 16 + mantissa;
    assert u / 16 == n * 8 + segment;
  }

  /** The level a magnitude decodes to: the middle of its cell, whose width is a sixteenth of its segment's start. */
  lemma MulawCell(mag: nat)
    requires BIAS <= mag <= CLIP + BIAS
    ensures var segment := MulawSegment(mag);
            var level := MulawLevel(segment, mag / Shift(segment + 3) % 16) + BIAS;
            32 * Abs(level - mag) <= mag
  {
  }

  /** Decoding comes within a thirty-second of the biased magnitude of the sample, clipped ones aside. */
  lemma MulawError(sample: i16)
    ensures var clipped := if sample > CLIP then CLIP else if sample < -CLIP then -CLIP else sample;
            32 * Abs(MulawToPcm(PcmToMulaw(sample)) - clipped) <= Abs(clipped) + BIAS
  {
    var mag := MulawMagnitude(sample);
    var segment := MulawSegment(mag);
    MulawFields(sample < 0, segment, mag / Shift(segment + 3) % 16);
    MulawCell(mag);
    hide MulawSegment, Shift, MulawLevel, MulawCode;
  }

  /** Re-encoding a decoded code gives it back, except for 0x7F: it decodes to zero, which encodes as 0xFF. */
  lemma MulawCodeSurvives(encoded: byte)
    ensures PcmToMulaw(MulawToPcm(encoded)) == encoded <==> encoded != 0x7F
    ensures PcmToMulaw(MulawToPcm(0x7F)) == 0xFF
  {
    var u := 255 - encoded as int;
    var segment, mantissa := u / 16 % 8, u % 16;
    MulawLevelField(segment, mantissa);
    hide MulawSegment, MulawLevel, Shift;
    assert MulawMagnitude(MulawToPcm(encoded)) == MulawLevel(segment, mantissa) + BIAS;
    assert encoded == MulawCode(u / 128 != 0, segment, mantissa);
    NegativeZero();
    hide MulawMagnitude, MulawToPcm;
  }

  lemma NegativeZero()
    ensures MulawToPcm(0x7F) == 0 && PcmToMulaw(0) == 0xFF
  {
  }

  lemma MulawLevelField(segment: nat, mantissa: nat)
    requires segment <= 7 && mantissa <= 15
    ensures var mag := MulawLevel(segment, mantissa) + BIAS;
            mag <= CLIP + BIAS && MulawSegment(mag) == segment && mag / Shift(segment + 3) % 16 == mantissa
    ensures MulawLevel(segment, mantissa) == 0 <==> segment == 0 && mantissa == 0
  {
    var mag := MulawLevel(segment, mantissa) + BIAS;
    assert mag / Shift(segment + 3) == mantissa + 16;
  }

  // ----- A-law -----

  /** Exclusive or of the lowest bits. */
  function XorBit(a: nat, b: nat): (bit: nat)
    ensures bit <= 1
  {
    (a % 2 + b % 2) % 2
  }

  /** Exclusive or of the low `width` bits. */
  function Xor(a: nat, b: nat, width: nat): (x: nat)
    ensures x < Pow2(width)
  {
    if width == 0 then 0 else 2 * Xor(a / 2, b / 2, width - 1) + XorBit(a, b)
  }

  function XorByte(a: byte, b: byte): byte {
    assert Pow2(8) == 256;
    Xor(a, b, 8)
  }

  function AlawSegment(mag: nat): (segment: nat)
    ensures segment <= 7
  {
    if mag >= 0x0800 then 7 else if mag >= 0x0400 then 6 else if mag >= 0x0200 then 5 else if mag >= 0x0100 then 4
    else if mag >= 0x0080 then 3 else if mag >= 0x0040 then 2 else if mag >= 0x0020 then 1 else 0
  }

  function AlawStep(mag: nat, segment: nat): (step: nat)
    requires segment <= 7
    ensures step <= 15
  {
    mag / Shift(if segment < 2 then 1 else segment) % 16
  }

  /** The low seven bits under the sign's parity mask. */
  function AlawCode(positive: bool, segment: nat, step: nat): byte
    requires segment <= 7 && step <= 15
  {
    XorByte(segment * 16 + step, if positive then 0xD5 else 0x55)
  }

  /** The 13-bit magnitude: an arithmetic shift, and negatives folded by complement. */
  function AlawMagnitude(sample: i16): (mag: nat)
    ensures mag <= 0xFFF
  {
    var pcm := sample / 8;
    if pcm >= 0 then pcm else -pcm - 1
  }

  function PcmToAlaw(sample: i16): byte {
    var mag := AlawMagnitude(sample);
    AlawCode(sample / 8 >= 0, AlawSegment(mag), AlawStep(mag, AlawSegment(mag)))
  }

  function AlawLevel(segment: nat, step: nat): (level: int)
    requires segment <= 7 && step <= 15
    ensures 8 <= level <= 32256
  {
    if segment == 0 then step * 16 + 8 else (step * 16 + 0x108) * Shift(segment - 1)
  }

  function AlawToPcm(encoded: byte): i16 {
    var a := XorByte(encoded, 0x55);
    var level := AlawLevel(a / 16 % 8, a % 16);
    if a / 128 % 2 != 0 then level else -level
  }

  lemma XorBitAssoc(a: nat, b: nat, c: nat, x: nat, y: nat)
    requires x % 2 == XorBit(a, b) && y % 2 == XorBit(b, c)
    ensures XorBit(x, c) == XorBit(a, y)
  {
  }

  lemma {:induction false} XorAssoc(a: nat, b: nat, c: nat, width: nat)
    ensures Xor(Xor(a, b, width), c, width) == Xor(a, Xor(b, c, width), width)
  {
    hide XorBit, Pow2;
    if width > 0 {
      XorAssoc(a / 2, b / 2, c / 2, width - 1);
      var ab, bc := Xor(a, b, width), Xor(b, c, width);
      assert ab / 2 == Xor(a / 2, b / 2, width - 1) && ab % 2 == XorBit(a, b);
      assert bc / 2 == Xor(b / 2, c / 2, width - 1) && bc % 2 == XorBit(b, c);
      XorBitAssoc(a, b, c, ab, bc);
    }
  }

  lemma {:induction false} XorZero(a: nat, width: nat)
    requires a < Pow2(width)
    ensures Xor(a, 0, width) == a
  {
    if width > 0 { XorZero(a / 2, width - 1); }
  }

  lemma XorSnoc(a: nat, b: nat, width: nat)
    ensures Xor(a, b, width + 1) == 2 * Xor(a / 2, b / 2, width) + if a % 2 == b % 2 then 0 else 1
  {
  }

  lemma {:induction false} XorTop(a: nat, width: nat)
    requires a < Pow2(width)
    ensures Xor(a, Pow2(width), width + 1) == a + Pow2(width)
  {
    if width > 0 {
      XorTop(a / 2, width - 1);
      assert Pow2(width) == 2 * Pow2(width - 1);
      hide Xor, Pow2;
      XorSnoc(a, Pow2(width), width);
    }
  }

  /** The masks cancel: decoding sees the code with its sign bit set for positive samples. */
  lemma AlawUnmasked(positive: bool, segment: nat, step: nat)
    requires segment <= 7 && step <= 15
    ensures XorByte(AlawCode(positive, segment, step), 0x55)
            == (if positive then 128 else 0) + segment * 16 + step
  {
    var low := segment * 16 + step;
    XorAssoc(low, if positive then 0xD5 else 0x55, 0x55, 8);
    MaskConstants();
    if positive { XorTop(low, 7); } else { XorZero(low, 8); }
    hide Xor;
  }

  lemma MaskConstants()
    ensures Pow2(7) == 128 && Pow2(8) == 256
    ensures Xor(0xD5, 0x55, 8) == 0x80 && Xor(0x55, 0x55, 8) == 0 && Xor(0x80, 0x55, 8) == 0xD5
  {
    assert Pow2(8) == 256;
    hide Xor;
    XorSelf(0x55, 8);
    assert Xor(0x80, 0x55, 8) == 0xD5 by {
      XorTop(0x55, 7);
      XorComm(0x80, 0x55, 8);
    }
    XorAssoc(0x80, 0x55, 0x55, 8);
    XorZero(0x80, 8);
  }

  lemma {:induction false} XorSelf(a: nat, width: nat)
    ensures Xor(a, a, width) == 0
  {
    if width > 0 { XorSelf(a / 2, width - 1); }
  }

  lemma {:induction false} XorComm(a: nat, b: nat, width: nat)
    ensures Xor(a, b, width) == Xor(b, a, width)
  {
    if width > 0 { XorComm(a / 2, b / 2, width - 1); }
  }

  /** Half the width of a segment's cells. */
  function AlawHalf(segment: nat): (half: nat)
    requires segment <= 7
    ensures 1 <= half <= 64
  {
    if segment == 0 then 1 else Shift(segment - 1)
  }

  lemma AlawStepOfCell(mag: nat)
    requires mag <= 0xFFF
    ensures var segment := AlawSegment(mag);
            var q := mag / (2 * AlawHalf(segment));
            AlawStep(mag, segment) == (if segment == 0 then q else q - 16)
            && (AlawHalf(segment) == 1 || mag >= 32 * AlawHalf(segment))
  {
    var segment := AlawSegment(mag);
    assert Shift(if segment < 2 then 1 else segment) == 2 * AlawHalf(segment);
  }

  /** In every segment the level is the middle of the magnitude's cell, eight times over. */
  lemma AlawLevelOfCell(mag: nat)
    requires mag <= 0xFFF
    ensures var segment := AlawSegment(mag);
            AlawLevel(segment, AlawStep(mag, segment)) == CellLevel(mag, AlawHalf(segment))
  {
    AlawStepOfCell(mag);
    hide AlawSegment, AlawStep;
  }

  /** Where a magnitude's cell starts, and its middle, in units of half a width. */
  function CellStart(mag: nat, half: nat): int
    requires half > 0
  {
    mag / (2 * half) * half
  }

  function CellLevel(mag: nat, half: nat): int
    requires half > 0
  {
    (mag / (2 * half) * 2 + 1) * (8 * half)
  }

  lemma InCell(mag: nat, half: nat)
    requires half > 0
    ensures 2 * CellStart(mag, half) <= mag < 2 * CellStart(mag, half) + 2 * half
  {
    var q := mag / (2 * half);
    assert mag == q * (2 * half) + mag % (2 * half);
    assert q * (2 * half) == 2 * (q * half);
  }

  lemma LevelOfStart(mag: nat, half: nat)
    requires half > 0
    ensures CellLevel(mag, half) == 16 * CellStart(mag, half) + 8 * half
  {
    var q := mag / (2 * half);
    assert (q * 2 + 1) * (8 * half) == 16 * (q * half) + 8 * half;
  }

  /** No sample of a cell is further from its middle than half its width. */
  lemma CellMiddle(mag: nat, s: nat, half: nat)
    requires half > 0 && mag == s / 8
    ensures Abs(CellLevel(mag, half) - s) <= 8 * half && Abs(CellLevel(mag, half) - (s + 1)) <= 8 * half
  {
    hide CellStart, CellLevel;
    InCell(mag, half);
    LevelOfStart(mag, half);
    MiddleBounds(mag, s, half, CellStart(mag, half), CellLevel(mag, half));
  }

  lemma MiddleBounds(mag: nat, s: nat, half: nat, product: int, level: int)
    requires mag == s / 8 && 2 * product <= mag < 2 * product + 2 * half && level == 16 * product + 8 * half
    ensures Abs(level - s) <= 8 * half && Abs(level - (s + 1)) <= 8 * half
  {
  }

  lemma AlawCell(mag: nat, s: nat)
    requires mag <= 0xFFF && mag == s / 8
    ensures var level := AlawLevel(AlawSegment(mag), AlawStep(mag, AlawSegment(mag)));
            32 * Abs(level - s) <= (if s > 256 then s else 256)
            && 32 * Abs(level - (s + 1)) <= (if s + 1 > 256 then s + 1 else 256)
  {
    hide AlawSegment, AlawStep, AlawLevel, AlawHalf, CellLevel;
    AlawStepOfCell(mag);
    AlawLevelOfCell(mag);
    CellMiddle(mag, s, AlawHalf(AlawSegment(mag)));
  }

  /** Decoding comes within a thirty-second of the sample, or within 8 of a small one; nothing is clipped. */
  lemma AlawError(sample: i16)
    ensures 32 * Abs(AlawToPcm(PcmToAlaw(sample)) as int - sample) <= (if Abs(sample) > 256 then Abs(sample) else 256)
  {
    var mag := AlawMagnitude(sample);
    var segment := AlawSegment(mag);
    var step := AlawStep(mag, segment);
    hide AlawSegment, AlawStep, AlawLevel, AlawCode, XorByte;
    AlawUnmasked(sample / 8 >= 0, segment, step);
    SplitCode(sample / 8 >= 0, segment, step);
    AlawCell(mag, Abs(if sample >= 0 then sample else sample + 1));
  }

  lemma SplitCode(positive: bool, segment: nat, step: nat)
    requires segment <= 7 && step <= 15
    ensures var a := (if positive then 128 else 0) + segment * 16 + step;
            a / 16 % 8 == segment && a % 16 == step && a / 128 % 2 == (if positive then 1 else 0)
  {
    var n := if positive then 1 else 0;
    var a := n * 128 + segment * 16 + step;
    assert a / 16 == n * 8 + segment;
  }

  /** A magnitude in a cell has that cell's fields. */
  lemma AlawFieldsOfCell(mag: nat, segment: nat, step: nat)
    requires segment <= 7 && step <= 15
    requires var half := AlawHalf(segment);
             var q := if segment == 0 then step else step + 16;
             2 * half * q <= mag < 2 * half * q + 2 * half
    ensures AlawSegment(mag) == segment && AlawStep(mag, segment) == step
  {
    var half := AlawHalf(segment);
    var q := if segment == 0 then step else step + 16;
    assert AlawSegment(mag) == segment by {
      assert segment == 0 ==> mag < 32;
      assert segment > 0 ==> 32 * half <= mag < 64 * half;
    }
    assert Shift(if segment < 2 then 1 else segment) == 2 * half;
    QuotientIs(mag, 2 * half, q, mag - 2 * half * q);
  }

  /** Both magnitudes that a level and its negative fold to carry the fields the level came from. */
  lemma AlawLevelField(segment: nat, step: nat)
    requires segment <= 7 && step <= 15
    ensures var level := AlawLevel(segment, step);
            level % 8 == 0
            && AlawSegment(level / 8) == segment && AlawStep(level / 8, segment) == step
            && AlawSegment(level / 8 - 1) == segment && AlawStep(level / 8 - 1, segment) == step
  {
    hide AlawSegment, AlawStep, AlawLevel, AlawHalf;
    AlawLevelMiddle(segment, step);
    var half := AlawHalf(segment);
    var cell := 2 * half * (if segment == 0 then step else step + 16);
    AlawFieldsOfCell(cell + half, segment, step);
    AlawFieldsOfCell(cell + half - 1, segment, step);
  }

  lemma AlawLevelMiddle(segment: nat, step: nat)
    requires segment <= 7 && step <= 15
    ensures var half := AlawHalf(segment);
            AlawLevel(segment, step) == 8 * (2 * half * (if segment == 0 then step else step + 16) + half)
  {
  }

  /** Every A-law code survives decoding and encoding again. */
  lemma AlawCodeSurvives(encoded: byte)
    ensures PcmToAlaw(AlawToPcm(encoded)) == encoded
  {
    var a := XorByte(encoded, 0x55);
    var segment, step, positive := a / 16 % 8, a % 16, a / 128 % 2 != 0;
    AlawLevelField(segment, step);
    Remasked(encoded);
    var level := AlawLevel(segment, step);
    hide AlawSegment, AlawStep, AlawLevel, AlawCode, XorByte;
    assert -level / 8 == -(level / 8);
  }

  /** Masking again after the fields were read gives the code back. */
  lemma Remasked(encoded: byte)
    ensures var a := XorByte(encoded, 0x55);
            AlawCode(a / 128 % 2 != 0, a / 16 % 8, a % 16) == encoded
  {
    var a: int := XorByte(encoded, 0x55);
    var low := a / 16 % 8 * 16 + a % 16;
    MaskConstants();
    JoinCode(a);
    hide Xor, Pow2;
    XorAssoc(encoded, 0x55, 0x55, 8);
    XorZero(encoded, 8);
    if a >= 128 {
      XorTop(low, 7);
      XorAssoc(low, 0x80, 0x55, 8);
    }
  }

  lemma JoinCode(a: byte)
    ensures var low := a / 16 % 8 * 16 + a % 16;
            low < 128 && a == (if a / 128 % 2 != 0 then low + 128 else low)
    ensures a / 128 % 2 != 0 <==> a >= 128
  {
    assert a / 16 == a / 128 * 8 + a / 16 % 8;
  }

  // ----- The tables -----

  /** The ends of the mu-law table, and its zeros. */
  lemma MulawAnchors()
    ensures PcmToMulaw(0) == 0xFF && PcmToMulaw(32124) == 0x80 && PcmToMulaw(-32124) == 0x00
    ensures MulawToPcm(0xFF) == 0 && MulawToPcm(0xFE) == 8 && MulawToPcm(0x80) == 32124 && MulawToPcm(0x00) == -32124
  {
  }

  /** Codes in descending order decode to rising magnitudes, on either side of zero. */
  lemma MulawOrder(a: byte, b: byte)
    requires a < b < 128
    ensures MulawToPcm(128 + a) > MulawToPcm(128 + b)
    ensures MulawToPcm(a) < MulawToPcm(b)
  {
    var u, v: int := 127 - b as int, 127 - a as int;
    assert 255 - (128 + b as int) == u && 255 - b as int == 128 + u;
    HalvesOfCode(u);
    HalvesOfCode(v);
    MulawRises(u / 16, u % 16, v / 16, v % 16);
    hide MulawLevel;
  }

  lemma HalvesOfCode(u: int)
    requires 0 <= u < 128
    ensures (128 + u) / 16 % 8 == u / 16 && (128 + u) % 16 == u % 16 && (128 + u) / 128 == 1
    ensures u / 16 % 8 == u / 16 && u / 128 == 0 && u == u / 16 * 16 + u % 16
  {
  }

  lemma MulawRises(segment: nat, mantissa: nat, segment': nat, mantissa': nat)
    requires segment <= 7 && mantissa <= 15 && segment' <= 7 && mantissa' <= 15
    requires segment * 16 + mantissa < segment' * 16 + mantissa'
    ensures MulawLevel(segment, mantissa) < MulawLevel(segment', mantissa')
  {
    if segment < segment' {
      ShiftDoubles(segment, segment');
      var f, f' := Shift(segment), Shift(segment');
      assert (mantissa * 8 + BIAS) * f <= 252 * f;
      assert (mantissa' * 8 + BIAS) * f' >= BIAS * f';
    }
  }

  lemma ShiftDoubles(a: nat, b: nat)
    requires a < b <= 7
    ensures Shift(b) >= 2 * Shift(a)
  {
  }

  lemma XorNone(a: nat, b: nat)
    ensures Xor(a, b, 0) == 0
  {
  }

  lemma FullScaleMasked()
    ensures Xor(0x7F, 0xD5, 8) == 0xAA
  {
    hide Xor, Pow2;
    XorNone(0, 0);
    XorSnoc(0x0, 0x1, 0);
    XorSnoc(0x1, 0x3, 1);
    XorSnoc(0x3, 0x6, 2);
    XorSnoc(0x7, 0xD, 3);
    XorSnoc(0xF, 0x1A, 4);
    XorSnoc(0x1F, 0x35, 5);
    XorSnoc(0x3F, 0x6A, 6);
    XorSnoc(0x7F, 0xD5, 7);
  }

  lemma NegativeFullScaleMasked()
    ensures Xor(0x7F, 0x55, 8) == 0x2A
  {
    hide Xor, Pow2;
    XorNone(0, 0);
    XorSnoc(0x0, 0x0, 0);
    XorSnoc(0x1, 0x1, 1);
    XorSnoc(0x3, 0x2, 2);
    XorSnoc(0x7, 0x5, 3);
    XorSnoc(0xF, 0xA, 4);
    XorSnoc(0x1F, 0x15, 5);
    XorSnoc(0x3F, 0x2A, 6);
    XorSnoc(0x7F, 0x55, 7);
  }

  /** Silence and both ends of the A-law table. */
  lemma AlawAnchors()
    ensures PcmToAlaw(0) == 0xD5 && PcmToAlaw(32256) == 0xAA && PcmToAlaw(-32256) == 0x2A
    ensures AlawToPcm(0xD5) == 8 && AlawToPcm(0xAA) == 32256 && AlawToPcm(0x2A) == -32256
  {
    hide Xor, Pow2;
    MaskConstants();
    XorComm(0, 0xD5, 8);
    XorZero(0xD5, 8);
    FullScaleMasked();
    NegativeFullScaleMasked();
    AlawUnmasked(true, 0, 0);
    AlawUnmasked(true, 7, 15);
    AlawUnmasked(false, 7, 15);
  }
}
