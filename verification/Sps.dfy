/** The sequence parameter set: the program's parser against the syntax of ITU-T H.264, section 7.3.2.1.1. */
module Sps {
  import opened Bytes
  import opened BitReader

  datatype SpsError = EmptyNal | ForbiddenBitSet | InvalidNalType | NotSps | Bits(error: BitError)

  datatype Cropping = Cropping(left: u32, right: u32, top: u32, bottom: u32)

  /** What the program keeps of an SPS. */
  datatype SpsParams = SpsParams(
    profileIdc: byte, constraintByte: byte, levelIdc: byte, id: u32, chromaFormatIdc: u32,
    widthInMbsMinus1: u32, heightInMapUnitsMinus1: u32, cropping: Option<Cropping>)

  predicate IsHighProfile(profileIdc: byte) {
    profileIdc in {100, 110, 122, 244, 44, 83, 86, 118, 128}
  }

  // ----- What the parser takes, section by section -----

  function WrapI32(x: int): int { (x + 0x8000_0000) % TWO_32 - 0x8000_0000 }

  /** `x % 256` with the sign of `x`. */
  function RemTrunc256(x: int): int { if x >= 0 then x % 256 else -((-x) % 256) }

  function TakeScalingList(s: seq<bool>, size: nat, last: int, next: int): Take<()> {
    if size == 0 then Ok(((), s))
    else if next == 0 then TakeScalingList(s, size - 1, 8, 0)
    else
      var (delta, rest) :- TakeSe(s);
      var next' := RemTrunc256(WrapI32(last + delta));
      TakeScalingList(rest, size - 1, if next' == 0 then 8 else next', next')
  }

  /** The program reads eight scaling lists whatever the chroma format. */
  const LISTS_READ := 8

  /** Coefficients in scaling list `i`: six lists for 4x4 blocks, then those for 8x8 blocks. */
  function ListSize(i: nat): nat { if i < 6 then 16 else 64 }

  /** The scaling lists from list `i` to before list `end`, each behind its flag. */
  function TakeScalingLists(s: seq<bool>, i: nat, end: nat): Take<()>
    requires i <= end
    decreases end - i
  {
    if i == end then Ok(((), s)) else
    var (present, s1) :- TakeBit(s);
    if !present then TakeScalingLists(s1, i + 1, end) else
    var (_, s2) :- TakeScalingList(s1, ListSize(i), 8, 8);
    TakeScalingLists(s2, i + 1, end)
  }

  /** The fields only high profiles have; gives chroma_format_idc. */
  function TakeHighProfile(s: seq<bool>): Take<u32> {
    var (chroma, s1) :- TakeUe(s);
    var (_, s2) :- if chroma == 3 then TakeBit(s1) else Ok((false, s1));
    var (_, s3) :- TakeUe(s2);
    var (_, s4) :- TakeUe(s3);
    var (_, s5) :- TakeBit(s4);
    var (scaling, s6) :- TakeBit(s5);
    var (_, s7) :- if scaling then TakeScalingLists(s6, 0, LISTS_READ) else Ok(((), s6));
    Ok((chroma, s7))
  }

  function TakeSes(s: seq<bool>, n: nat): Take<()> {
    if n == 0 then Ok(((), s)) else
    var (_, rest) :- TakeSe(s);
    TakeSes(rest, n - 1)
  }

  function TakePicOrder(s: seq<bool>): Take<()> {
    var (kind, s1) :- TakeUe(s);
    if kind == 0 then
      var (_, s2) :- TakeUe(s1);
      Ok(((), s2))
    else if kind == 1 then
      var (_, s2) :- TakeBit(s1);
      var (_, s3) :- TakeSe(s2);
      var (_, s4) :- TakeSe(s3);
      var (n, s5) :- TakeUe(s4);
      TakeSes(s5, n)
    else Ok(((), s1))
  }

  function TakeCropping(s: seq<bool>): Take<Option<Cropping>> {
    var (present, s0) :- TakeBit(s);
    if !present then Ok((None, s0)) else
    var (left, s1) :- TakeUe(s0);
    var (right, s2) :- TakeUe(s1);
    var (top, s3) :- TakeUe(s2);
    var (bottom, s4) :- TakeUe(s3);
    Ok((Some(Cropping(left, right, top, bottom)), s4))
  }

  datatype Size = Size(width: u32, height: u32)

  /** From max_num_ref_frames to direct_8x8_inference_flag; gives the picture size. */
  function TakeSize(s: seq<bool>): Take<Size> {
    var (_, s1) :- TakeUe(s);
    var (_, s2) :- TakeBit(s1);
    var (width, s3) :- TakeUe(s2);
    var (height, s4) :- TakeUe(s3);
    var (frameMbsOnly, s5) :- TakeBit(s4);
    var (_, s6) :- if !frameMbsOnly then TakeBit(s5) else Ok((false, s5));
    var (_, s7) :- TakeBit(s6);
    Ok((Size(width, height), s7))
  }

  function TakeSps(s: seq<bool>): Take<SpsParams> {
    var (profile, s1) :- TakeBits(s, 8);
    var (constraints, s2) :- TakeBits(s1, 8);
    var (level, s3) :- TakeBits(s2, 8);
    var (id, s4) :- TakeUe(s3);
    var (chroma, s5) :- if IsHighProfile(profile % 256) then TakeHighProfile(s4) else Ok((1, s4));
    var (_, s6) :- TakeUe(s5);
    var (_, s7) :- TakePicOrder(s6);
    var (size, s8) :- TakeSize(s7);
    var (cropping, s9) :- TakeCropping(s8);
    Ok((SpsParams(profile % 256, constraints % 256, level % 256, id, chroma, size.width, size.height, cropping), s9))
  }

  function CheckHeader(nal: seq<byte>): Option<SpsError> {
    if |nal| == 0 then Some(EmptyNal)
    else if nal[0] / 128 % 2 != 0 then Some(ForbiddenBitSet) else
    var t := nal[0] % 32;
    if t <= 15 || t == 19 || 24 <= t <= 30 then (if t == 7 then None else Some(NotSps)) else Some(InvalidNalType)
  }

  /** Past the header go exactly the NALs of type 7 with a clear forbidden bit. */
  lemma HeaderAcceptedWhen(nal: seq<byte>)
    ensures CheckHeader(nal).None? <==> |nal| > 0 && nal[0] < 128 && nal[0] % 32 == 7
  {
  }

  function ParseSps(nal: seq<byte>): Result<SpsParams, SpsError> {
    if CheckHeader(nal).Some? then Err(CheckHeader(nal).value) else
    match TakeSps(BitsOf(nal[1..]))
    case Ok((params, _)) => Ok(params)
    case Err(e) => Err(Bits(e))
  }

  // ----- The program's parser -----

  method ReadScalingList(bits: BitIter, size: nat) returns (r: Result<(), BitError>)
    requires bits.Valid()
    modifies bits
    ensures bits.Valid() && Agrees(r, bits.Unread(), TakeScalingList(old(bits.Unread()), size, 8, 8))
  {
    hide TakeSe, BitsOf, WrapI32, RemTrunc256;
    var lastScale, nextScale := 8, 8;
    ghost var start := bits.Unread();
    for i := 0 to size
      invariant bits.Valid()
      invariant TakeScalingList(start, size, 8, 8) == TakeScalingList(bits.Unread(), size - i, lastScale, nextScale)
    {
      if nextScale != 0 {
        var delta :- bits.ReadSignedExpGolomb();
        nextScale := RemTrunc256(WrapI32(lastScale + delta));
      }
      if nextScale == 0 {
        lastScale := 8;
      } else {
        lastScale := nextScale;
      }
    }
    r := Ok(());
  }

  method ReadHighProfile(bits: BitIter) returns (r: Result<u32, BitError>)
    requires bits.Valid()
    modifies bits
    ensures bits.Valid() && Agrees(r, bits.Unread(), TakeHighProfile(old(bits.Unread())))
  {
    hide TakeUe, TakeBit, BitsOf, TakeScalingList;
    var chroma :- bits.ReadExpGolomb();
    if chroma == 3 {
      var _ :- bits.ReadBit();
    }
    var _ :- bits.ReadExpGolomb();
    var _ :- bits.ReadExpGolomb();
    var _ :- bits.ReadBit();
    var scaling :- bits.ReadBit();
    if scaling {
      ghost var start := bits.Unread();
      for i := 0 to LISTS_READ
        invariant bits.Valid()
        invariant TakeScalingLists(start, 0, LISTS_READ) == TakeScalingLists(bits.Unread(), i, LISTS_READ)
      {
        var present :- bits.ReadBit();
        if present {
          var _ :- ReadScalingList(bits, ListSize(i));
        }
      }
    }
    r := Ok(chroma);
  }

  method ReadPicOrder(bits: BitIter) returns (r: Result<(), BitError>)
    requires bits.Valid()
    modifies bits
    ensures bits.Valid() && Agrees(r, bits.Unread(), TakePicOrder(old(bits.Unread())))
  {
    hide TakeUe, TakeBit, TakeSe, BitsOf;
    var kind :- bits.ReadExpGolomb();
    if kind == 0 {
      var _ :- bits.ReadExpGolomb();
    } else if kind == 1 {
      var _ :- bits.ReadBit();
      var _ :- bits.ReadSignedExpGolomb();
      var _ :- bits.ReadSignedExpGolomb();
      var numRefFrames :- bits.ReadExpGolomb();
      ghost var start := bits.Unread();
      for i := 0 to numRefFrames
        invariant bits.Valid()
        invariant TakeSes(start, numRefFrames) == TakeSes(bits.Unread(), numRefFrames - i)
      {
        var _ :- bits.ReadSignedExpGolomb();
      }
    }
    r := Ok(());
  }

  method ReadSize(bits: BitIter) returns (r: Result<Size, BitError>)
    requires bits.Valid()
    modifies bits
    ensures bits.Valid() && Agrees(r, bits.Unread(), TakeSize(old(bits.Unread())))
  {
    hide TakeUe, TakeBit, BitsOf;
    var _ :- bits.ReadExpGolomb();
    var _ :- bits.ReadBit();
    var width :- bits.ReadExpGolomb();
    var height :- bits.ReadExpGolomb();
    var frameMbsOnly :- bits.ReadBit();
    if !frameMbsOnly {
      var _ :- bits.ReadBit();
    }
    var _ :- bits.ReadBit();
    r := Ok(Size(width, height));
  }

  method ReadCropping(bits: BitIter) returns (r: Result<Option<Cropping>, BitError>)
    requires bits.Valid()
    modifies bits
    ensures bits.Valid() && Agrees(r, bits.Unread(), TakeCropping(old(bits.Unread())))
  {
    hide TakeUe, TakeBit, BitsOf;
    var present :- bits.ReadBit();
    if !present { return Ok(None); }
    var left :- bits.ReadExpGolomb();
    var right :- bits.ReadExpGolomb();
    var top :- bits.ReadExpGolomb();
    var bottom :- bits.ReadExpGolomb();
    r := Ok(Some(Cropping(left, right, top, bottom)));
  }

  method ReadSps(bits: BitIter) returns (r: Result<SpsParams, BitError>)
    requires bits.Valid()
    modifies bits
    ensures bits.Valid() && Agrees(r, bits.Unread(), TakeSps(old(bits.Unread())))
  {
    hide TakeUe, TakeBits, BitsOf, TakeHighProfile, TakePicOrder, TakeSize, TakeCropping, IsHighProfile;
    var profile :- bits.ReadBits(8);
    var constraints :- bits.ReadBits(8);
    var level :- bits.ReadBits(8);
    var id :- bits.ReadExpGolomb();
    var chroma: u32 := 1;
    if IsHighProfile(profile % 256) {
      chroma :- ReadHighProfile(bits);
    }
    var _ :- bits.ReadExpGolomb();
    var _ :- ReadPicOrder(bits);
    var size :- ReadSize(bits);
    var cropping :- ReadCropping(bits);
    r := Ok(SpsParams(profile % 256, constraints % 256, level % 256, id, chroma, size.width, size.height, cropping));
  }

  method ParseSpsNal(nal: seq<byte>) returns (r: Result<SpsParams, SpsError>)
    ensures r == ParseSps(nal)
  {
    hide TakeSps, BitsOf;
    var fault := CheckHeader(nal);
    if fault.Some? { return Err(fault.value); }
    var bits := new BitIter(nal[1..]);
    var params := ReadSps(bits);
    r := if params.Ok? then Ok(params.value) else Err(Bits(params.error));
  }

  // ----- Picture size -----

  function Wrap(x: int): u32 { x % TWO_32 }

  function CropX(p: SpsParams): u32 {
    if p.cropping.Some? then Wrap(p.cropping.value.left as int + p.cropping.value.right as int) else 0
  }

  function CropY(p: SpsParams): u32 {
    if p.cropping.Some? then Wrap(p.cropping.value.top as int + p.cropping.value.bottom as int) else 0
  }

  /** The program's width: 32-bit arithmetic that wraps at every step. */
  function Width(p: SpsParams): u32 {
    var base := Wrap(Wrap(p.widthInMbsMinus1 as int + 1) as int * 16);
    if p.chromaFormatIdc == 1 || p.chromaFormatIdc == 2 then Wrap(base as int - Wrap(CropX(p) as int * 2) as int)
    else Wrap(base as int - CropX(p) as int)
  }

  function Height(p: SpsParams): u32 {
    var base := Wrap(Wrap(p.heightInMapUnitsMinus1 as int + 1) as int * 16);
    if p.chromaFormatIdc == 1 then Wrap(base as int - Wrap(CropY(p) as int * 2) as int)
    else Wrap(base as int - CropY(p) as int)
  }

  /** Luma samples left after cropping, in section 7.4.2.1.1's crop units for frame pictures. */
  function ExactWidth(p: SpsParams): int {
    16 * (p.widthInMbsMinus1 as int + 1)
    - (if p.chromaFormatIdc == 1 || p.chromaFormatIdc == 2 then 2 else 1)
      * (if p.cropping.Some? then p.cropping.value.left as int + p.cropping.value.right as int else 0)
  }

  function ExactHeight(p: SpsParams): int {
    16 * (p.heightInMapUnitsMinus1 as int + 1)
    - (if p.chromaFormatIdc == 1 then 2 else 1)
      * (if p.cropping.Some? then p.cropping.value.top as int + p.cropping.value.bottom as int else 0)
  }

  lemma WrapOfParts(a: int, b: int, k: int)
    requires k == 1 || k == 2
    ensures Wrap(Wrap(Wrap(a) as int * 16) as int - Wrap(Wrap(b) as int * k) as int) == Wrap(16 * a - k * b)
    ensures Wrap(Wrap(b) as int * 1) == Wrap(b)
  {
    var x: int, y: int := Wrap(a), Wrap(b);
    var p: int, q: int := Wrap(x * 16), Wrap(y * k);
    var m := a / TWO_32 * 16 + x * 16 / TWO_32 - b / TWO_32 * k - y * k / TWO_32;
    assert 16 * a - k * b == m * TWO_32 + (p - q);
    assert (m * TWO_32 + (p - q)) % TWO_32 == (p - q) % TWO_32;
  }

  lemma WidthModulo(p: SpsParams)
    ensures Width(p) == Wrap(ExactWidth(p))
  {
    var c := if p.cropping.Some? then p.cropping.value else Cropping(0, 0, 0, 0);
    var k := if p.chromaFormatIdc == 1 || p.chromaFormatIdc == 2 then 2 else 1;
    WrapOfParts(p.widthInMbsMinus1 as int + 1, c.left as int + c.right as int, k);
    assert Wrap(0) == 0;
    hide Wrap;
  }

  lemma HeightModulo(p: SpsParams)
    ensures Height(p) == Wrap(ExactHeight(p))
  {
    var c := if p.cropping.Some? then p.cropping.value else Cropping(0, 0, 0, 0);
    var k := if p.chromaFormatIdc == 1 then 2 else 1;
    WrapOfParts(p.heightInMapUnitsMinus1 as int + 1, c.top as int + c.bottom as int, k);
    assert Wrap(0) == 0;
    hide Wrap;
  }

  /** The sizes are the exact ones modulo 2^32, hence right if and only if the exact ones are 32-bit numbers. */
  lemma SizeIsExactModulo(p: SpsParams)
    ensures Width(p) == Wrap(ExactWidth(p)) && Height(p) == Wrap(ExactHeight(p))
    ensures Width(p) == ExactWidth(p) <==> 0 <= ExactWidth(p) < TWO_32
    ensures Height(p) == ExactHeight(p) <==> 0 <= ExactHeight(p) < TWO_32
  {
    WidthModulo(p);
    HeightModulo(p);
    hide Width, Height, ExactWidth, ExactHeight;
  }

  /** 120 by 68 macroblocks less four pairs of lines at the bottom, in 4:2:0, are 1920 by 1080. */
  lemma FullHd(p: SpsParams)
    requires p.widthInMbsMinus1 == 119 && p.heightInMapUnitsMinus1 == 67 && p.chromaFormatIdc == 1
    requires p.cropping == Some(Cropping(0, 0, 0, 4))
    ensures Width(p) == 1920 && Height(p) == 1080
  {
  }
}
