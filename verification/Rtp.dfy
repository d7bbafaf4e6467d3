/** RTP packets (RFC 3550, sections 5.1 and 5.3.1): the parser, the printer, and how far they undo each other. */
module Rtp {
  import opened Bytes

  const RTP_HEADER_SIZE := 12
  const RTP_VERSION := 2

  datatype Flags = Flags(
    version: byte, padding: bool, extension: bool, csrcCount: byte, marker: bool, payloadType: byte)

  datatype Header = Header(flags: Flags, sequenceNumber: u16, timestamp: u32, ssrc: u32)

  datatype Packet = Packet(
    header: Header, csrcList: seq<u32>,
    extensionProfile: Option<u16>, extensionData: seq<byte>, payload: seq<byte>)

  datatype ParseError =
    | TooShort | UnsupportedVersion | MissingCsrc | MissingExtensionHeader | TruncatedExtension
    | PaddingWithoutPayload | InvalidPaddingLength

  datatype Extension = Extension(profile: Option<u16>, data: seq<byte>, next: nat)

  function Bit(b: bool): byte { if b then 1 else 0 }

  function Zeros(n: nat): (z: seq<byte>)
    ensures |z| == n && forall i | 0 <= i < n :: z[i] == 0
  {
    seq(n, _ => 0)
  }

  // ----- The wire form -----

  /** `(n + 3) & !3` */
  function RoundUp4(n: nat): (r: nat)
    ensures n <= r < n + 4 && r % 4 == 0
  {
    (n + 3) / 4 * 4
  }

  /** Fields are OR-ed together; each is masked, or cut off by the shift, to bits the others do not use. */
  function FirstByte(f: Flags): byte {
    f.version * 64 % 256 + Bit(f.padding) * 32 + Bit(f.extension) * 16 + f.csrcCount % 16
  }

  function SecondByte(f: Flags): byte {
    Bit(f.marker) * 128 + f.payloadType % 128
  }

  function HeaderBytes(h: Header): (b: seq<byte>)
    ensures |b| == RTP_HEADER_SIZE
  {
    [FirstByte(h.flags), SecondByte(h.flags)] + U16Be(h.sequenceNumber) + U32Be(h.timestamp) + U32Be(h.ssrc)
  }

  function ExtensionBytes(extension: bool, profile: Option<u16>, data: seq<byte>): (b: seq<byte>)
    ensures |b| == if extension then 4 + RoundUp4(|data|) else 0
  {
    if !extension then [] else
    U16Be(if profile.Some? then profile.value else 0) + U16Be(RoundUp4(|data|) / 4 % 0x1_0000)
    + data + Zeros(RoundUp4(|data|) - |data|)
  }

  /** The bytes of a packet, section by section. */
  function Wire(p: Packet): (b: seq<byte>)
  {
    HeaderBytes(p.header) + WordBytes(p.csrcList)
    + ExtensionBytes(p.header.flags.extension, p.extensionProfile, p.extensionData) + p.payload
  }

  /** Prints a packet the way the program does, keeping to the size it announced. */
  method ToBytes(p: Packet) returns (buf: seq<byte>)
    ensures buf == Wire(p)
    ensures |buf| == RTP_HEADER_SIZE + 4 * |p.csrcList|
                     + (if p.header.flags.extension then 4 + RoundUp4(|p.extensionData|) else 0) + |p.payload|
  {
    hide FirstByte, SecondByte;
    var extDataLen := if p.header.flags.extension then RoundUp4(|p.extensionData|) else 0;
    buf := [FirstByte(p.header.flags)];
    buf := buf + [SecondByte(p.header.flags)];
    buf := buf + U16Be(p.header.sequenceNumber);
    buf := buf + U32Be(p.header.timestamp);
    buf := buf + U32Be(p.header.ssrc);
    assert buf == HeaderBytes(p.header);
    hide HeaderBytes;
    for i := 0 to |p.csrcList|
      invariant buf == HeaderBytes(p.header) + WordBytes(p.csrcList[..i])
    {
      assert p.csrcList[..i + 1][..i] == p.csrcList[..i];
      buf := buf + U32Be(p.csrcList[i]);
    }
    assert p.csrcList[..|p.csrcList|] == p.csrcList;
    ghost var start := buf;
    if p.header.flags.extension {
      buf := buf + U16Be(if p.extensionProfile.Some? then p.extensionProfile.value else 0);
      buf := buf + U16Be(extDataLen / 4 % 0x1_0000);
      buf := buf + p.extensionData;
      buf := buf + Zeros(extDataLen - |p.extensionData|);
    }
    assert buf == start + ExtensionBytes(p.header.flags.extension, p.extensionProfile, p.extensionData);
    buf := buf + p.payload;
  }

  // ----- Parsing -----

  function FlagsOf(first: byte, second: byte): Flags {
    Flags(first / 64 % 4, first / 32 % 2 != 0, first / 16 % 2 != 0, first % 16, second / 128 % 2 != 0, second % 128)
  }

  function HeaderOf(b: seq<byte>): Header
    requires |b| == RTP_HEADER_SIZE
  {
    Header(FlagsOf(b[0], b[1]), FromU16Be(b[2..4]), FromU32Be(b[4..8]), FromU32Be(b[8..12]))
  }

  function ParseExtension(data: seq<byte>, extension: bool, offset: nat): (r: Result<Extension, ParseError>)
    requires offset <= |data|
    ensures r.Ok? ==> offset <= r.value.next <= |data|
  {
    if !extension then Ok(Extension(None, [], offset))
    else if offset + 4 > |data| then Err(MissingExtensionHeader)
    else
      var words: int := FromU16Be(data[offset + 2..offset + 4]);
      var end := offset + 4 + words * 4;
      if end > |data| then Err(TruncatedExtension)
      else Ok(Extension(Some(FromU16Be(data[offset..offset + 2])), data[offset + 4..end], end))
  }

  function StripPadding(raw: seq<byte>, padding: bool): Result<seq<byte>, ParseError>
  {
    if !padding then Ok(raw)
    else if |raw| == 0 then Err(PaddingWithoutPayload)
    else
      var n: int := raw[|raw| - 1];
      if n == 0 || n > |raw| then Err(InvalidPaddingLength) else Ok(raw[..|raw| - n])
  }

  /** What a datagram means: the parsed packet, or the first thing wrong with it. */
  function Parse(data: seq<byte>): Result<Packet, ParseError>
  {
    if |data| < RTP_HEADER_SIZE then Err(TooShort) else
    var header := HeaderOf(data[..RTP_HEADER_SIZE]);
    if header.flags.version != RTP_VERSION then Err(UnsupportedVersion) else
    var csrcEnd := RTP_HEADER_SIZE + 4 * header.flags.csrcCount;
    if csrcEnd > |data| then Err(MissingCsrc) else
    var extension := ParseExtension(data, header.flags.extension, csrcEnd);
    if extension.Err? then Err(extension.error) else
    var payload := StripPadding(data[extension.value.next..], header.flags.padding);
    if payload.Err? then Err(payload.error) else
    Ok(Packet(header, Words(data[RTP_HEADER_SIZE..csrcEnd]), extension.value.profile, extension.value.data,
              payload.value))
  }

  method ParseCsrcList(data: seq<byte>, csrcCount: byte) returns (r: Result<seq<u32>, ParseError>)
    requires RTP_HEADER_SIZE <= |data|
    ensures r == if RTP_HEADER_SIZE + 4 * csrcCount > |data| then Err(MissingCsrc)
                 else Ok(Words(data[RTP_HEADER_SIZE..RTP_HEADER_SIZE + 4 * csrcCount]))
  {
    var offset := RTP_HEADER_SIZE;
    var csrcList: seq<u32> := [];
    for i := 0 to csrcCount
      invariant offset == RTP_HEADER_SIZE + 4 * i <= |data|
      invariant csrcList == Words(data[RTP_HEADER_SIZE..offset])
    {
      if offset + 4 > |data| { return Err(MissingCsrc); }
      csrcList := csrcList + [FromU32Be(data[offset..offset + 4])];
      ghost var b := data[RTP_HEADER_SIZE..offset + 4];
      assert b[..|b| - 4] == data[RTP_HEADER_SIZE..offset] && b[|b| - 4..] == data[offset..offset + 4];
      offset := offset + 4;
    }
    r := Ok(csrcList);
  }

  /** The program's parser: a cursor that moves over the CSRC list, the extension and the payload in turn. */
  method ParsePacket(data: seq<byte>) returns (r: Result<Packet, ParseError>)
    ensures r == Parse(data)
  {
    hide HeaderOf, Words;
    if |data| < RTP_HEADER_SIZE { return Err(TooShort); }
    var header := HeaderOf(data[..RTP_HEADER_SIZE]);
    if header.flags.version != RTP_VERSION { return Err(UnsupportedVersion); }
    var csrcList := ParseCsrcList(data, header.flags.csrcCount);
    if csrcList.Err? { return Err(csrcList.error); }
    var offset := RTP_HEADER_SIZE + 4 * |csrcList.value|;

    var profile: Option<u16>, extensionData: seq<byte> := None, [];
    if header.flags.extension {
      if offset + 4 > |data| { return Err(MissingExtensionHeader); }
      profile := Some(FromU16Be(data[offset..offset + 2]));
      var words: int := FromU16Be(data[offset + 2..offset + 4]);
      offset := offset + 4;
      var end := offset + words * 4;
      if end > |data| { return Err(TruncatedExtension); }
      extensionData := data[offset..end];
      offset := end;
    }

    var payload := data[offset..];
    if header.flags.padding {
      if |payload| == 0 { return Err(PaddingWithoutPayload); }
      var padLen: int := payload[|payload| - 1];
      if padLen == 0 || padLen > |payload| { return Err(InvalidPaddingLength); }
      payload := payload[..|payload| - padLen];
    }
    r := Ok(Packet(header, csrcList.value, profile, extensionData, payload));
  }

  // ----- The fixed header -----

  lemma SplitByte(b: int)
    requires 0 <= b < 256
    ensures b / 64 % 4 == b / 64 && b / 128 % 2 == b / 128
    ensures b == b / 64 * 64 + b / 32 % 2 * 32 + b / 16 % 2 * 16 + b % 16
    ensures b == b / 128 * 128 + b % 128
  {
    var a, c := b / 64, b / 32;
    assert b / 16 == c * 2 + b / 16 % 2 && c == a * 2 + c % 2;
  }

  lemma JoinByte(b: int, v: int, p: int, e: int, c: int)
    requires 0 <= v < 4 && 0 <= p < 2 && 0 <= e < 2 && 0 <= c < 16 && b == v * 64 + p * 32 + e * 16 + c
    ensures b / 64 == v && b / 32 % 2 == p && b / 16 % 2 == e && b % 16 == c
  {
    assert b / 32 == v * 2 + p && b / 16 == v * 4 + p * 2 + e;
  }

  lemma BytesOfFlagsOf(first: byte, second: byte)
    ensures FirstByte(FlagsOf(first, second)) == first && SecondByte(FlagsOf(first, second)) == second
  {
    SplitByte(first);
    SplitByte(second);
  }

  lemma FlagsOfBytes(f: Flags)
    requires f.version < 4 && f.csrcCount < 16 && f.payloadType < 128
    ensures FlagsOf(FirstByte(f), SecondByte(f)) == f
  {
    JoinByte(FirstByte(f), f.version, Bit(f.padding), Bit(f.extension), f.csrcCount);
    var b: int, m: int, pt: int := SecondByte(f), Bit(f.marker), f.payloadType;
    assert b == m * 128 + pt;
    assert b / 128 == m && b % 128 == pt;
  }

  lemma HeaderBytesOfHeaderOf(b: seq<byte>)
    requires |b| == RTP_HEADER_SIZE
    ensures HeaderBytes(HeaderOf(b)) == b
  {
    BytesOfFlagsOf(b[0], b[1]);
    U16Inverse(0, b[2..4]);
    U32Inverse(0, b[4..8]);
    U32Inverse(0, b[8..12]);
  }

  lemma ParsedFlagsFit(b: seq<byte>)
    requires |b| == RTP_HEADER_SIZE
    ensures HeaderOf(b).flags.version < 4 && HeaderOf(b).flags.csrcCount < 16 && HeaderOf(b).flags.payloadType < 128
  {
  }

  lemma HeaderOfHeaderBytes(h: Header)
    requires h.flags.version < 4 && h.flags.csrcCount < 16 && h.flags.payloadType < 128
    ensures HeaderOf(HeaderBytes(h)) == h
  {
    hide FirstByte, SecondByte, FlagsOf;
    var b := HeaderBytes(h);
    FlagsOfBytes(h.flags);
    assert b[2..4] == U16Be(h.sequenceNumber) && b[4..8] == U32Be(h.timestamp) && b[8..12] == U32Be(h.ssrc);
    U16Inverse(h.sequenceNumber, b[2..4]);
    U32Inverse(h.timestamp, b[4..8]);
    U32Inverse(h.ssrc, b[8..12]);
  }

  // ----- Round trips -----

  /** The padding octets the parser drops from a datagram it accepts. */
  function PaddingLength(data: seq<byte>): nat
    requires |data| >= RTP_HEADER_SIZE
  {
    if HeaderOf(data[..RTP_HEADER_SIZE]).flags.padding then data[|data| - 1] else 0
  }

  lemma ExtensionOfParsed(data: seq<byte>, extension: bool, at: nat)
    requires at <= |data| && ParseExtension(data, extension, at).Ok?
    ensures var e := ParseExtension(data, extension, at).value;
            ExtensionBytes(extension, e.profile, e.data) == data[at..e.next]
    ensures var e := ParseExtension(data, extension, at).value;
            |e.data| % 4 == 0 && |e.data| <= 4 * 0xFFFF
  {
    if extension {
      var e := ParseExtension(data, extension, at).value;
      U16Inverse(0, data[at..at + 2]);
      U16Inverse(0, data[at + 2..at + 4]);
      var words: int := FromU16Be(data[at + 2..at + 4]);
      assert |e.data| == words * 4;
      assert Zeros(RoundUp4(|e.data|) - |e.data|) == [];
      assert data[at..at + 2] + data[at + 2..at + 4] == data[at..at + 4];
    }
  }

  lemma ExtensionParses(extension: bool, profile: Option<u16>, ext: seq<byte>, data: seq<byte>, at: nat, next: nat)
    requires at <= next <= |data| && |ext| <= 4 * 0xFFFF
    requires data[at..next] == ExtensionBytes(extension, profile, ext)
    ensures ParseExtension(data, extension, at) == Ok(
              if extension
              then Extension(Some(if profile.Some? then profile.value else 0),
                             ext + Zeros(RoundUp4(|ext|) - |ext|), next)
              else Extension(None, [], next))
  {
    if extension {
      var e := data[at..next];
      var profile' := if profile.Some? then profile.value else 0;
      var words := RoundUp4(|ext|) / 4;
      var head, padded := U16Be(profile') + U16Be(words), ext + Zeros(RoundUp4(|ext|) - |ext|);
      ConcatAssoc(head, ext, Zeros(RoundUp4(|ext|) - |ext|));
      assert e == head + padded;
      hide U16Be;
      assert head[..2] == U16Be(profile') && head[2..] == U16Be(words);
      assert e[..2] == head[..2];
      assert e[2..4] == head[2..];
      assert e[4..] == padded;
      SliceOfSlice(data, at, next, 0, 2);
      SliceOfSlice(data, at, next, 2, 4);
      SliceOfSlice(data, at, next, 4, |e|);
      U16Inverse(profile', e[..2]);
      U16Inverse(words, e[2..4]);
    }
  }

  /** Every accepted datagram prints back to itself with its padding cut off,
      so printing restores the datagram exactly when there was no padding. */
  lemma PrintAfterParse(data: seq<byte>)
    requires Parse(data).Ok?
    ensures PaddingLength(data) <= |data| && Wire(Parse(data).value) == data[..|data| - PaddingLength(data)]
    ensures Wire(Parse(data).value) == data <==> !Parse(data).value.header.flags.padding
  {
    hide HeaderOf, HeaderBytes, Words, WordBytes, ParseExtension, ExtensionBytes;
    var p := Parse(data).value;
    var csrcEnd := RTP_HEADER_SIZE + 4 * p.header.flags.csrcCount;
    var next := ParseExtension(data, p.header.flags.extension, csrcEnd).value.next;
    var end := |data| - PaddingLength(data);
    HeaderBytesOfHeaderOf(data[..RTP_HEADER_SIZE]);
    ParsedFlagsFit(data[..RTP_HEADER_SIZE]);
    WordBytesOfWords(data[RTP_HEADER_SIZE..csrcEnd]);
    ExtensionOfParsed(data, p.header.flags.extension, csrcEnd);
    assert p.payload == data[next..end];
    assert data[..RTP_HEADER_SIZE] + data[RTP_HEADER_SIZE..csrcEnd] == data[..csrcEnd];
    assert data[..csrcEnd] + data[csrcEnd..next] == data[..next];
    assert data[..next] + data[next..end] == data[..end];
    assert |Wire(p)| == end;
  }

  /** The packets a sender may build: every field fits its place on the wire and no padding is asked for. */
  predicate WellFormed(p: Packet) {
    && p.header.flags.version == RTP_VERSION
    && !p.header.flags.padding
    && p.header.flags.csrcCount == |p.csrcList| < 16
    && p.header.flags.payloadType < 128
    && (p.header.flags.extension ==> |p.extensionData| <= 4 * 0xFFFF)
  }

  /** What survives the wire: extension data padded to whole words, an absent profile read as 0. */
  function Canonical(p: Packet): Packet {
    if !p.header.flags.extension then p.(extensionProfile := None, extensionData := [])
    else p.(
      extensionProfile := Some(if p.extensionProfile.Some? then p.extensionProfile.value else 0),
      extensionData := p.extensionData + Zeros(RoundUp4(|p.extensionData|) - |p.extensionData|))
  }

  /** Every field fits its place on the wire; padding may be announced. */
  predicate Fits(p: Packet) {
    && p.header.flags.version == RTP_VERSION
    && p.header.flags.csrcCount == |p.csrcList| < 16
    && p.header.flags.payloadType < 128
    && (p.header.flags.extension ==> |p.extensionData| <= 4 * 0xFFFF)
  }

  /** A printed packet with more bytes behind it parses to itself, its payload what padding leaves of the whole. */
  lemma ParsePrinted(p: Packet, more: seq<byte>)
    requires Fits(p)
    ensures Parse(Wire(p) + more) ==
            var payload := StripPadding(p.payload + more, p.header.flags.padding);
            if payload.Err? then Err(payload.error) else Ok(Canonical(p).(payload := payload.value))
  {
    hide HeaderOf, HeaderBytes, Words, WordBytes, ParseExtension, ExtensionBytes, StripPadding;
    var data, f := Wire(p) + more, p.header.flags;
    var csrcEnd, next := RTP_HEADER_SIZE + 4 * |p.csrcList|, |Wire(p)| - |p.payload|;
    HeaderOfHeaderBytes(p.header);
    assert data[..RTP_HEADER_SIZE] == HeaderBytes(p.header);
    WordsOfWordBytes(p.csrcList);
    assert data[RTP_HEADER_SIZE..csrcEnd] == WordBytes(p.csrcList);
    assert ExtensionBytes(f.extension, p.extensionProfile, p.extensionData) == data[csrcEnd..next];
    if f.extension {
      ExtensionParses(f.extension, p.extensionProfile, p.extensionData, data, csrcEnd, next);
    } else {
      assert data[csrcEnd..next] == ExtensionBytes(false, p.extensionProfile, []);
      ExtensionParses(false, p.extensionProfile, [], data, csrcEnd, next);
    }
    assert data[next..] == p.payload + more;
  }

  /** Every well-formed packet comes back from the wire in its canonical form. */
  lemma ParseAfterPrint(p: Packet)
    requires WellFormed(p)
    ensures Parse(Wire(p)) == Ok(Canonical(p))
  {
    ParsePrinted(p, []);
    assert Wire(p) + [] == Wire(p) && p.payload + [] == p.payload;
    hide Parse, Wire;
  }

  /** A packet that announces padding comes back when padding follows it: any octets, the last of them their number. */
  lemma PaddedArrives(p: Packet, padding: seq<byte>)
    requires Fits(p) && p.header.flags.padding
    requires |padding| > 0 && padding[|padding| - 1] == |padding|
    ensures Parse(Wire(p) + padding) == Ok(Canonical(p))
  {
    ParsePrinted(p, padding);
    var raw := p.payload + padding;
    assert raw[|raw| - 1] == |padding| && raw[..|raw| - |padding|] == p.payload;
    hide Parse, Wire;
  }

  /** The unpadded datagrams the parser accepts and the canonical well-formed packets match one to one. */
  lemma ParsedIsCanonical(data: seq<byte>)
    requires Parse(data).Ok? && !Parse(data).value.header.flags.padding
    ensures WellFormed(Parse(data).value) && Canonical(Parse(data).value) == Parse(data).value
  {
    hide HeaderOf;
    var p := Parse(data).value;
    HeaderBytesOfHeaderOf(data[..RTP_HEADER_SIZE]);
    ParsedFlagsFit(data[..RTP_HEADER_SIZE]);
    ExtensionOfParsed(data, p.header.flags.extension, RTP_HEADER_SIZE + 4 * p.header.flags.csrcCount);
    if p.header.flags.extension {
      assert Zeros(RoundUp4(|p.extensionData|) - |p.extensionData|) == [];
    }
  }

  lemma CanonicalLength(p: Packet)
    ensures |Wire(Canonical(p))| == |Wire(p)|
  {
    hide HeaderBytes, WordBytes, U16Be;
  }

  /** Well-formedness is also needed: anything else is lost or misread on the wire. */
  lemma RoundTripNeedsWellFormed(p: Packet)
    ensures Parse(Wire(p)) == Ok(Canonical(p)) <==> WellFormed(p)
  {
    hide Parse, Wire;
    if WellFormed(p) {
      ParseAfterPrint(p);
    }
    if Parse(Wire(p)) == Ok(Canonical(p)) {
      CanonicalLength(p);
      PrintAfterParse(Wire(p));
      ParsedIsCanonical(Wire(p));
    }
  }

  // ----- The layout on the wire, octet by octet -----

  function Short(data: seq<byte>, i: nat): nat
    requires i + 2 <= |data|
  {
    0x100 * data[i] as int + data[i + 1] as int
  }

  function Long(data: seq<byte>, i: nat): nat
    requires i + 4 <= |data|
  {
    0x100_0000 * data[i] as int + 0x1_0000 * data[i + 1] as int + 0x100 * data[i + 2] as int + data[i + 3] as int
  }

  /** Where the CSRC list ends. */
  function CsrcEnd(data: seq<byte>): nat
    requires |data| > 0
  {
    12 + 4 * (data[0] as int % 16)
  }

  predicate HasExtension(data: seq<byte>)
    requires |data| > 0
  {
    data[0] / 16 % 2 == 1
  }

  predicate HasPadding(data: seq<byte>)
    requires |data| > 0
  {
    data[0] / 32 % 2 == 1
  }

  /** Where the payload starts, if the datagram is that long. */
  function PayloadStart(data: seq<byte>): nat
    requires |data| > 0 && (HasExtension(data) ==> CsrcEnd(data) + 4 <= |data|)
  {
    if HasExtension(data) then CsrcEnd(data) + 4 + 4 * Short(data, CsrcEnd(data) + 2) else CsrcEnd(data)
  }

  /** The datagrams there are: version 2, long enough for what they announce, and properly padded if at all. */
  predicate Acceptable(data: seq<byte>) {
    && |data| >= 12 && data[0] / 64 == 2
    && CsrcEnd(data) <= |data|
    && (HasExtension(data) ==> CsrcEnd(data) + 4 <= |data|)
    && PayloadStart(data) <= |data|
    && (HasPadding(data) ==>
          PayloadStart(data) < |data| && 1 <= data[|data| - 1] as int <= |data| - PayloadStart(data))
  }

  lemma ExtensionPlaced(data: seq<byte>, extension: bool, offset: nat)
    requires offset <= |data|
    ensures var r := ParseExtension(data, extension, offset);
            if extension then
              var end := if offset + 4 <= |data| then offset + 4 + 4 * Short(data, offset + 2) else 0;
              && (r.Ok? <==> offset + 4 <= |data| && end <= |data|)
              && (r.Ok? ==> r.value == Extension(Some(Short(data, offset)), data[offset + 4..end], end))
            else r == Ok(Extension(None, [], offset))
  {
  }

  lemma PaddingPlaced(raw: seq<byte>, padding: bool)
    ensures var r := StripPadding(raw, padding);
            && (r.Ok? <==> padding ==> |raw| > 0 && 1 <= raw[|raw| - 1] as int <= |raw|)
            && (r.Ok? ==> r.value == raw[..|raw| - if padding then raw[|raw| - 1] as int else 0])
  {
  }

  lemma {:induction false} WordsPlaced(b: seq<byte>, k: nat)
    requires |b| % 4 == 0 && k < |b| / 4
    ensures Words(b)[k] == Long(b, 4 * k)
  {
    if k < |b| / 4 - 1 {
      WordsPlaced(b[..|b| - 4], k);
      hide FromU32Be;
    }
  }

  lemma FlagsPlaced(first: byte, second: byte)
    ensures var f := FlagsOf(first, second);
            && f.version == first / 64 && f.padding == (first / 32 % 2 == 1) && f.extension == (first / 16 % 2 == 1)
            && f.csrcCount == first % 16 && f.marker == (second >= 128) && f.payloadType == second % 128
  {
    var x: int, y: int := first, second;
    assert x / 64 < 4 && y / 128 < 2;
  }

  /** The fixed header: flags in two octets, then number, time and source, each most significant octet first. */
  lemma HeaderPlaced(data: seq<byte>)
    requires |data| >= 12
    ensures var h := HeaderOf(data[..12]);
            && h.flags.version == data[0] / 64 && h.flags.padding == HasPadding(data)
            && h.flags.extension == HasExtension(data) && h.flags.csrcCount == data[0] % 16
            && h.flags.marker == (data[1] >= 128) && h.flags.payloadType == data[1] % 128
            && h.sequenceNumber == Short(data, 2) && h.timestamp == Long(data, 4) && h.ssrc == Long(data, 8)
  {
    FlagsPlaced(data[0], data[1]);
    hide FlagsOf;
  }

  /** Exactly the acceptable datagrams are accepted. */
  lemma AcceptedWhen(data: seq<byte>)
    ensures Parse(data).Ok? <==> Acceptable(data)
  {
    hide HeaderOf, ParseExtension, StripPadding, Words, Short, HasExtension, HasPadding;
    if |data| >= 12 {
      HeaderPlaced(data);
      var e := 12 + 4 * HeaderOf(data[..12]).flags.csrcCount;
      if e <= |data| {
        ExtensionPlaced(data, HasExtension(data), e);
        var r := ParseExtension(data, HasExtension(data), e);
        if r.Ok? { PaddingPlaced(data[r.value.next..], HasPadding(data)); }
      }
    }
  }

  /** Where each field of an accepted datagram is read from. */
  lemma FieldsPlaced(data: seq<byte>)
    requires Parse(data).Ok?
    ensures Acceptable(data)
    ensures var p := Parse(data).value;
            && p.header == HeaderOf(data[..12])
            && |p.csrcList| == data[0] as int % 16
            && (forall k: nat | k < |p.csrcList| :: p.csrcList[k] == Long(data, 12 + 4 * k))
            && p.extensionProfile == (if HasExtension(data) then Some(Short(data, CsrcEnd(data))) else None)
            && p.extensionData == (if HasExtension(data) then data[CsrcEnd(data) + 4..PayloadStart(data)] else [])
            && p.payload ==
               data[PayloadStart(data)..|data| - if HasPadding(data) then data[|data| - 1] as int else 0]
  {
    AcceptedWhen(data);
    hide HeaderOf, ParseExtension, StripPadding, Words, Short, Long, HasExtension, HasPadding;
    HeaderPlaced(data);
    var e := CsrcEnd(data);
    ExtensionPlaced(data, HasExtension(data), e);
    var start := ParseExtension(data, HasExtension(data), e).value.next;
    PaddingPlaced(data[start..], HasPadding(data));
    var words := data[12..e];
    forall k: nat | k < |words| / 4 ensures Words(words)[k] == Long(data, 12 + 4 * k) {
      WordsPlaced(words, k);
      LongOfSlice(data, 12, e, 4 * k);
    }
  }

  lemma LongOfSlice(data: seq<byte>, from: nat, end: nat, i: nat)
    requires from <= end <= |data| && i + 4 <= end - from
    ensures Long(data[from..end], i) == Long(data, from + i)
  {
  }
}
