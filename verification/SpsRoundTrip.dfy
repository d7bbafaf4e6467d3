/** Writing an SPS by the book (ITU-T H.264, sections 7.3.2.1.1 and 9.1) and reading it with the program's parser. */
module SpsRoundTrip {
  import opened Bytes
  import opened BitReader
  import opened ScalingLists
  import opened Sps
  import opened SyntaxElements

  datatype PicOrder =
    | Type0(log2MaxLsbMinus4: nat)
    | Type1(deltaAlwaysZero: bool, nonRef: int, topToBottom: int, refFrames: seq<int>)
    | Type2

  datatype HighFields = HighFields(
    chromaFormatIdc: nat, separateColourPlane: bool, lumaDepthMinus8: nat, chromaDepthMinus8: nat, bypass: bool,
    matrix: Option<Matrix>)

  /** The syntax elements of an SPS; `high` is written for high profiles only. */
  datatype SpsFields = SpsFields(
    profileIdc: byte, constraintByte: byte, levelIdc: byte, id: nat, high: HighFields, log2MaxFrameNumMinus4: nat,
    picOrder: PicOrder, maxRefFrames: nat, gapsAllowed: bool, width: nat, height: nat, frameMbsOnly: bool,
    mbAdaptive: bool, direct8x8: bool, cropping: Option<Cropping>)

  /** The standard's list of profiles with the extra fields, in section 7.3.2.1.1. */
  predicate HasHighFields(profileIdc: byte) {
    profileIdc in {100, 110, 122, 244, 44, 83, 86, 118, 128, 138, 139, 134, 135}
  }

  /** The program's list is the standard's but for four. */
  lemma FourProfilesMissing(profileIdc: byte)
    ensures IsHighProfile(profileIdc) <==> HasHighFields(profileIdc) && profileIdc !in {134, 135, 138, 139}
  {
  }

  // ----- The writer -----

  function WriteHigh(h: HighFields, rest: seq<bool>): seq<bool> {
    var tail := Ue(h.lumaDepthMinus8, Ue(h.chromaDepthMinus8, Flag(h.bypass, WriteMatrix(h.matrix, rest))));
    Ue(h.chromaFormatIdc, if h.chromaFormatIdc == 3 then Flag(h.separateColourPlane, tail) else tail)
  }

  function WritePicOrder(p: PicOrder, rest: seq<bool>): seq<bool> {
    match p
    case Type0(lsb) => Ue(0, Ue(lsb, rest))
    case Type1(zero, nonRef, topToBottom, refFrames) =>
      Ue(1, Flag(zero, Se(nonRef, Se(topToBottom, Ue(|refFrames|, Ses(refFrames, rest))))))
    case Type2 => Ue(2, rest)
  }

  function WriteSize(f: SpsFields, rest: seq<bool>): seq<bool> {
    var tail := Flag(f.direct8x8, rest);
    Ue(f.maxRefFrames, Flag(f.gapsAllowed, Ue(f.width, Ue(f.height,
      Flag(f.frameMbsOnly, if f.frameMbsOnly then tail else Flag(f.mbAdaptive, tail))))))
  }

  function WriteCropping(c: Option<Cropping>, rest: seq<bool>): seq<bool> {
    match c
    case None => Flag(false, rest)
    case Some(c) => Flag(true, Ue(c.left, Ue(c.right, Ue(c.top, Ue(c.bottom, rest)))))
  }

  /** The SPS's bits; `rest` is the VUI flag, whatever it brings, and the trailing bits. */
  function WriteSps(f: SpsFields, rest: seq<bool>): seq<bool> {
    var tail := Ue(f.log2MaxFrameNumMinus4,
                   WritePicOrder(f.picOrder, WriteSize(f, WriteCropping(f.cropping, rest))));
    U8(f.profileIdc, U8(f.constraintByte, U8(f.levelIdc, Ue(f.id,
      if HasHighFields(f.profileIdc) then WriteHigh(f.high, tail) else tail))))
  }

  // ----- What may be written -----

  predicate ValidPicOrder(p: PicOrder) {
    match p
    case Type0(lsb) => IsUe(lsb)
    case Type1(_, nonRef, topToBottom, refFrames) =>
      IsSe(nonRef) && IsSe(topToBottom) && IsUe(|refFrames|) && forall i | 0 <= i < |refFrames| :: IsSe(refFrames[i])
    case Type2 => true
  }

  predicate ValidHigh(h: HighFields) {
    && IsUe(h.chromaFormatIdc) && IsUe(h.lumaDepthMinus8) && IsUe(h.chromaDepthMinus8)
    && (h.matrix.Some? ==> LegalMatrix(h.matrix.value, if h.chromaFormatIdc == 3 then 12 else 8))
  }

  predicate ValidCropping(c: Option<Cropping>) {
    c.Some? ==> IsUe(c.value.left) && IsUe(c.value.right) && IsUe(c.value.top) && IsUe(c.value.bottom)
  }

  /** Every value is one its code can carry. */
  predicate Valid(f: SpsFields) {
    && IsUe(f.id) && IsUe(f.log2MaxFrameNumMinus4) && IsUe(f.maxRefFrames) && IsUe(f.width) && IsUe(f.height)
    && ValidHigh(f.high) && ValidPicOrder(f.picOrder) && ValidCropping(f.cropping)
  }

  function ParamsOf(f: SpsFields): SpsParams
    requires Valid(f)
  {
    SpsParams(f.profileIdc, f.constraintByte, f.levelIdc, f.id,
              if HasHighFields(f.profileIdc) then f.high.chromaFormatIdc else 1, f.width, f.height, f.cropping)
  }

  // ----- Reading back, section by section -----

  /** Everything before the lists is read as it was written, so all that matters is what becomes of the lists. */
  lemma ReadHigh(h: HighFields, rest: seq<bool>)
    requires ValidHigh(h)
    ensures TakeHighProfile(WriteHigh(h, rest)) ==
            if h.matrix.None? then Ok((h.chromaFormatIdc, rest)) else
            var (_, left) :- TakeScalingLists(WriteLists(h.matrix.value, rest), 0, LISTS_READ);
            Ok((h.chromaFormatIdc, left))
  {
    hide TakeUe, Ue, TakeBit, Flag, TakeScalingLists, WriteLists, LegalMatrix;
    var s6 := if h.matrix.None? then rest else WriteLists(h.matrix.value, rest);
    var s5 := Flag(h.matrix.Some?, s6);
    var s4 := Flag(h.bypass, s5);
    var s3 := Ue(h.chromaDepthMinus8, s4);
    var s2 := Ue(h.lumaDepthMinus8, s3);
    ReadFlag(h.matrix.Some?, s6);
    ReadFlag(h.bypass, s5);
    ReadUe(h.chromaDepthMinus8, s4);
    ReadUe(h.lumaDepthMinus8, s3);
    ReadFlag(h.separateColourPlane, s2);
    ReadUe(h.chromaFormatIdc, if h.chromaFormatIdc == 3 then Flag(h.separateColourPlane, s2) else s2);
  }

  lemma ReadPicOrder(p: PicOrder, rest: seq<bool>)
    requires ValidPicOrder(p)
    ensures TakePicOrder(WritePicOrder(p, rest)) == Ok(((), rest))
  {
    hide TakeUe, Ue, TakeBit, Flag, TakeSe, Se, Ses, TakeSes;
    match p
    case Type0(lsb) =>
      ReadUe(0, Ue(lsb, rest));
      ReadUe(lsb, rest);
    case Type1(zero, nonRef, topToBottom, refFrames) =>
      var s5 := Ses(refFrames, rest);
      var s4 := Ue(|refFrames|, s5);
      var s3 := Se(topToBottom, s4);
      var s2 := Se(nonRef, s3);
      ReadUe(1, Flag(zero, s2));
      ReadFlag(zero, s2);
      ReadSe(nonRef, s3);
      ReadSe(topToBottom, s4);
      ReadUe(|refFrames|, s5);
      ReadSes(refFrames, rest);
    case Type2 =>
      ReadUe(2, rest);
  }

  lemma ReadSize(f: SpsFields, rest: seq<bool>)
    requires Valid(f)
    ensures TakeSize(WriteSize(f, rest)) == Ok((Size(f.width, f.height), rest))
  {
    hide TakeUe, Ue, TakeBit, Flag;
    var s6 := Flag(f.direct8x8, rest);
    var s5 := if f.frameMbsOnly then s6 else Flag(f.mbAdaptive, s6);
    var s4 := Flag(f.frameMbsOnly, s5);
    var s3 := Ue(f.height, s4);
    var s2 := Ue(f.width, s3);
    ReadUe(f.maxRefFrames, Flag(f.gapsAllowed, s2));
    ReadFlag(f.gapsAllowed, s2);
    ReadUe(f.width, s3);
    ReadUe(f.height, s4);
    ReadFlag(f.frameMbsOnly, s5);
    ReadFlag(f.mbAdaptive, s6);
    ReadFlag(f.direct8x8, rest);
  }

  lemma ReadCropping(c: Option<Cropping>, rest: seq<bool>)
    requires ValidCropping(c)
    ensures TakeCropping(WriteCropping(c, rest)) == Ok((c, rest))
  {
    hide TakeUe, Ue, TakeBit, Flag;
    match c
    case None => ReadFlag(false, rest);
    case Some(c) =>
      var s4 := Ue(c.bottom, rest);
      var s3 := Ue(c.top, s4);
      var s2 := Ue(c.right, s3);
      ReadFlag(true, Ue(c.left, s2));
      ReadUe(c.left, s2);
      ReadUe(c.right, s3);
      ReadUe(c.top, s4);
      ReadUe(c.bottom, rest);
  }

  /** The profile is none of the four, and the scaling matrix, if there is one, is one the program reads whole. */
  predicate Readable(f: SpsFields) {
    HasHighFields(f.profileIdc) ==>
      f.profileIdc !in {134, 135, 138, 139} && (f.high.matrix.Some? ==> MatrixReadsWhole(f.high.matrix.value))
  }

  lemma ReadMatrix(h: HighFields, rest: seq<bool>)
    requires ValidHigh(h) && h.matrix.Some? && MatrixReadsWhole(h.matrix.value)
    ensures TakeScalingLists(WriteLists(h.matrix.value, rest), 0, LISTS_READ) == Ok(((), rest))
  {
    MatrixReadsInStep(h.matrix.value, |h.matrix.value|, rest);
  }

  /** The parser reads back every such SPS, whatever bits follow. */
  lemma ReadSps(f: SpsFields, rest: seq<bool>)
    requires Valid(f) && Readable(f)
    ensures TakeSps(WriteSps(f, rest)) == Ok((ParamsOf(f), rest))
  {
    hide TakeUe, Ue, TakeBits, U8, TakeHighProfile, WriteHigh, TakePicOrder, WritePicOrder, TakeSize, WriteSize,
         TakeCropping, WriteCropping, IsHighProfile, HasHighFields, TakeScalingLists, WriteLists,
         MatrixReadsWhole, LegalMatrix;
    FourProfilesMissing(f.profileIdc);
    var s8 := WriteCropping(f.cropping, rest);
    var s7 := WriteSize(f, s8);
    var s6 := WritePicOrder(f.picOrder, s7);
    var s5 := Ue(f.log2MaxFrameNumMinus4, s6);
    var s4 := if HasHighFields(f.profileIdc) then WriteHigh(f.high, s5) else s5;
    var s3 := Ue(f.id, s4);
    var s2 := U8(f.levelIdc, s3);
    ReadU8(f.profileIdc, U8(f.constraintByte, s2));
    ReadU8(f.constraintByte, s2);
    ReadU8(f.levelIdc, s3);
    ReadUe(f.id, s4);
    ReadHigh(f.high, s5);
    if HasHighFields(f.profileIdc) && f.high.matrix.Some? { ReadMatrix(f.high, s5); }
    ReadUe(f.log2MaxFrameNumMinus4, s6);
    ReadPicOrder(f.picOrder, s7);
    ReadSize(f, s8);
    ReadCropping(f.cropping, rest);
  }

  lemma SpsHeaderAccepted(nal: seq<byte>)
    requires |nal| > 0 && nal[0] < 128 && nal[0] % 32 == 7
    ensures CheckHeader(nal).None?
  {
  }

  /** Any SPS written out whole, with trailing bits that fill the last byte, comes back from the NAL's bytes. */
  lemma ParseWrittenSps(header: byte, f: SpsFields, rest: seq<bool>)
    requires Valid(f) && Readable(f)
    requires header < 128 && header % 32 == 7 && |WriteSps(f, rest)| % 8 == 0
    ensures ParseSps([header] + Pack(WriteSps(f, rest))) == Ok(ParamsOf(f))
  {
    var b := WriteSps(f, rest);
    var nal := [header] + Pack(b);
    SpsHeaderAccepted(nal);
    assert nal[1..] == Pack(b);
    hide TakeSps, WriteSps, BitsOf, Pack, CheckHeader, ParamsOf, Valid, Readable;
    BitsOfPack(b);
    ReadSps(f, rest);
  }

  /** For the four profiles missing from the program's list the parser cannot be right
      unless the chroma format happens to be 1. */
  lemma MissingProfilesMisread(f: SpsFields, rest: seq<bool>)
    requires Valid(f) && f.profileIdc in {134, 135, 138, 139}
    requires f.high.chromaFormatIdc != 1
    ensures TakeSps(WriteSps(f, rest)) != Ok((ParamsOf(f), rest))
  {
    FourProfilesMissing(f.profileIdc);
    assert HasHighFields(f.profileIdc);
    hide TakeSps, WriteSps, Valid, IsHighProfile, HasHighFields;
    if TakeSps(WriteSps(f, rest)).Ok? { DefaultChroma(WriteSps(f, rest)); }
  }

  /** For a profile not on its list the program takes the chroma format to be 1. */
  lemma DefaultChroma(s: seq<bool>)
    requires TakeSps(s).Ok?
    ensures var p := TakeSps(s).value.0;
            !IsHighProfile(p.profileIdc) ==> p.chromaFormatIdc == 1
  {
    hide TakeUe, TakeBits, TakePicOrder, TakeSize, TakeCropping, TakeHighProfile, IsHighProfile;
  }

  // ----- SPSs with lists the program reads past -----

  /** Nothing but the one list. */
  function Smallest(profileIdc: byte, i: nat, ds: seq<int>): SpsFields
    requires i < LISTS_READ
  {
    SpsFields(profileIdc, 0, 0, 0, HighFields(0, false, 0, 0, false, Some(Alone(i, ds))), 0, Type0(0), 0, false, 0, 0,
              true, false, false, None)
  }

  lemma PicOrderTakes(s: seq<bool>)
    ensures var r := TakePicOrder(s);
            r.Ok? ==> |r.value.1| + 2 <= |s|
  {
    hide TakeUe;
    UeShortens(s);
    if TakeUe(s).Ok? {
      var (kind, s1) := TakeUe(s).value;
      if kind == 0 {
        UeShortens(s1);
      } else {
        LongerCode(s);
        if kind == 1 && |s1| > 0 { SignedTakes(s1[1..]); }
      }
    }
  }

  lemma LongerCode(s: seq<bool>)
    requires TakeUe(s).Ok? && TakeUe(s).value.0 != 0
    ensures |TakeUe(s).value.1| + 2 <= |s|
  {
    hide UeValue, SuffixWidth, LeadingZeros;
  }

  lemma SignedTakes(s: seq<bool>)
    ensures TakeSe(s).Ok? ==> |TakeSe(s).value.1| <= |s|
    ensures TakeSe(s).Ok? && TakeSe(TakeSe(s).value.1).Ok? ==>
              var s2 := TakeSe(TakeSe(s).value.1).value.1;
              TakeUe(s2).Ok? ==>
                var (n, s3) := TakeUe(s2).value;
                TakeSes(s3, n).Ok? ==> |TakeSes(s3, n).value.1| <= |s|
  {
    hide SeValue, TakeUe;
    UeShortens(s);
    if TakeSe(s).Ok? {
      var s1 := TakeSe(s).value.1;
      UeShortens(s1);
      if TakeSe(s1).Ok? {
        var s2 := TakeSe(s1).value.1;
        UeShortens(s2);
        if TakeUe(s2).Ok? { SesTake(TakeUe(s2).value.1, TakeUe(s2).value.0); }
      }
    }
  }

  lemma {:induction false} SesTake(s: seq<bool>, n: nat)
    ensures TakeSes(s, n).Ok? ==> |TakeSes(s, n).value.1| <= |s|
    decreases n
  {
    hide SeValue, TakeUe;
    UeShortens(s);
    if n > 0 && TakeSe(s).Ok? { SesTake(TakeSe(s).value.1, n - 1); }
  }

  lemma SizeTakes(s: seq<bool>)
    ensures var r := TakeSize(s);
            r.Ok? ==> |r.value.1| + 6 <= |s|
  {
    hide TakeUe;
    forall t: seq<bool> ensures TakeUe(t).Ok? ==> |TakeUe(t).value.1| < |t| { UeShortens(t); }
  }

  lemma CroppingTakes(s: seq<bool>)
    ensures var r := TakeCropping(s);
            r.Ok? ==> |r.value.1| + 1 <= |s|
  {
    hide TakeUe;
    forall t: seq<bool> ensures TakeUe(t).Ok? ==> |TakeUe(t).value.1| < |t| { UeShortens(t); }
  }

  /** What follows the lists takes ten bits at least. */
  lemma TenBitsFollow(s: seq<bool>)
    requires |s| < 10
    ensures TakeUe(s).Ok? && TakePicOrder(TakeUe(s).value.1).Ok? ==>
              var s2 := TakePicOrder(TakeUe(s).value.1).value.1;
              TakeSize(s2).Ok? ==> TakeCropping(TakeSize(s2).value.1).Err?
  {
    hide TakeUe, TakePicOrder, TakeSize, TakeCropping;
    UeShortens(s);
    if TakeUe(s).Ok? {
      var s1 := TakeUe(s).value.1;
      PicOrderTakes(s1);
      if TakePicOrder(s1).Ok? {
        var s2 := TakePicOrder(s1).value.1;
        SizeTakes(s2);
        if TakeSize(s2).Ok? { CroppingTakes(TakeSize(s2).value.1); }
      }
    }
  }

  /** Wherever a list ends early for the standard and not for the program, some SPS with that list is refused. */
  lemma EarlyEndRefused(profileIdc: byte, i: nat, ds: seq<int>)
    requires HasHighFields(profileIdc) && profileIdc !in {134, 135, 138, 139} && i < LISTS_READ
    requires LegalList(ds, StandardSize(i)) && |ds| < StandardSize(i) && NoEarlyEnd(ds, 8)
    ensures Valid(Smallest(profileIdc, i, ds)) && TakeSps(WriteSps(Smallest(profileIdc, i, ds), [])).Err?
  {
    hide TakeUe, Ue, TakeBits, U8, TakeHighProfile, WriteHigh, TakePicOrder, TakeSize, TakeCropping, IsHighProfile,
         TakeScalingLists, WriteLists, LegalList, NoEarlyEnd;
    FourProfilesMissing(profileIdc);
    var f := Smallest(profileIdc, i, ds);
    var s5 := TenBits(f);
    var s4 := WriteHigh(f.high, s5);
    var s3 := Ue(f.id, s4);
    ReadU8(f.profileIdc, U8(f.constraintByte, U8(f.levelIdc, s3)));
    ReadU8(f.constraintByte, U8(f.levelIdc, s3));
    ReadU8(f.levelIdc, s3);
    ReadUe(f.id, s4);
    ReadHigh(f.high, s5);
    AloneOverruns(i, ds, s5);
    var r := TakeScalingLists(WriteLists(Alone(i, ds), s5), 0, LISTS_READ);
    if r.Ok? { TenBitsFollow(r.value.1); }
  }

  /** What `Smallest` puts after the lists. */
  lemma TenBits(f: SpsFields) returns (b: seq<bool>)
    requires f.log2MaxFrameNumMinus4 == 0 && f.picOrder == Type0(0) && f.maxRefFrames == 0
    requires f.width == 0 && f.height == 0 && f.frameMbsOnly && f.cropping.None?
    ensures b == Ue(f.log2MaxFrameNumMinus4, WritePicOrder(f.picOrder, WriteSize(f, WriteCropping(f.cropping, []))))
    ensures |b| == 10
  {
    assert |UeCode(0)| == 1;
    hide UeCode;
    b := Ue(f.log2MaxFrameNumMinus4, WritePicOrder(f.picOrder, WriteSize(f, WriteCropping(f.cropping, []))));
  }

  // ----- Which SPSs read back -----

  /** All SPSs of a profile come back, with or without a scaling matrix, whatever their fields and whatever follows. */
  ghost predicate ProfileReadsBack(profileIdc: byte, matrix: bool) {
    forall f: SpsFields, rest: seq<bool> | Valid(f) && f.profileIdc == profileIdc && f.high.matrix.Some? == matrix ::
      TakeSps(WriteSps(f, rest)) == Ok((ParamsOf(f), rest))
  }

  /** The parser reads all SPSs of a profile right if and only if the profile has no high fields, or is not one of the
      four missing from its list and the SPSs carry no scaling matrix. */
  lemma WhichProfilesReadBack(profileIdc: byte, matrix: bool)
    ensures ProfileReadsBack(profileIdc, matrix) <==>
            !HasHighFields(profileIdc) || (profileIdc !in {134, 135, 138, 139} && !matrix)
  {
    hide TakeSps, WriteSps, ParamsOf, IsHighProfile;
    if profileIdc in {134, 135, 138, 139} {
      NoListsLegal();
      var f := SpsFields(profileIdc, 0, 0, 0,
                         HighFields(0, false, 0, 0, false, if matrix then Some(seq(8, _ => None)) else None),
                         0, Type2, 0, false, 0, 0, true, false, false, None);
      MissingProfilesMisread(f, []);
      assert Valid(f) && f.profileIdc == profileIdc && f.high.matrix.Some? == matrix;
    } else if HasHighFields(profileIdc) && matrix {
      DefaultListLegal();
      EarlyEndRefused(profileIdc, 0, [-8]);
      var f := Smallest(profileIdc, 0, [-8]);
      assert Valid(f) && f.profileIdc == profileIdc && f.high.matrix.Some? == matrix;
    } else {
      forall f: SpsFields, rest: seq<bool> | Valid(f) && f.profileIdc == profileIdc && f.high.matrix.Some? == matrix
        ensures TakeSps(WriteSps(f, rest)) == Ok((ParamsOf(f), rest))
      {
        ReadSps(f, rest);
      }
    }
  }

  lemma NoListsLegal()
    ensures LegalMatrix(seq(8, _ => None), 8)
  {
  }

  /** The single delta -8 says: use the default list. The program reads on. */
  lemma DefaultListLegal()
    ensures LegalList([-8], StandardSize(0)) && NoEarlyEnd([-8], 8)
  {
    assert Sum([-8]) == -8;
  }
}
