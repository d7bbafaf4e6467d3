/** FU-A fragmentation of H.264 NAL units (RFC 6184, section 5.8), from the sender's NAL to the receiver's. */
module FuA {
  import opened Bytes
  import opened Rtp

  datatype FragmentError = EmptyNal | MtuTooSmall

  datatype ReassembleError =
    | NoPackets | PayloadTooShort(at: nat) | ForbiddenBitSet | MissingStart
    | RefIdcMismatch(at: nat) | TypeMismatch(at: nat) | MissingEnd(at: nat) | FlaggedMiddle(at: nat)

  // ----- Indicator and header bytes -----

  function FuIndicator(refIdc: byte): byte { refIdc % 4 * 32 + 28 }

  function FuHeader(start: bool, end: bool, nalType: byte): byte {
    Bit(start) * 128 + Bit(end) * 64 + nalType % 32
  }

  function ForbiddenBit(indicator: byte): byte { indicator / 128 % 2 }
  function RefIdc(indicator: byte): byte { indicator / 32 % 4 }
  predicate IsStart(header: byte) { header / 128 % 2 != 0 }
  predicate IsEnd(header: byte) { header / 64 % 2 != 0 }
  function NalType(header: byte): byte { header % 32 }

  /** The NAL header byte the receiver rebuilds from a first fragment's two bytes. */
  function NalHeaderByte(indicator: byte, header: byte): byte {
    ForbiddenBit(indicator) * 128 + RefIdc(indicator) * 32 + NalType(header)
  }

  lemma FuBytesReadBack(refIdc: byte, start: bool, end: bool, nalType: byte)
    ensures ForbiddenBit(FuIndicator(refIdc)) == 0 && RefIdc(FuIndicator(refIdc)) == refIdc % 4
    ensures FuIndicator(refIdc) % 32 == 28
    ensures var h := FuHeader(start, end, nalType);
            IsStart(h) == start && IsEnd(h) == end && NalType(h) == nalType % 32
  {
    var r: int, t: int, s: int, e: int := refIdc % 4, nalType % 32, Bit(start), Bit(end);
    var i: int, h: int := FuIndicator(refIdc), FuHeader(start, end, nalType);
    assert i == r * 32 + 28 && i / 32 == r && i / 128 == 0;
    assert h == s * 128 + e * 64 + t;
    assert h / 64 == s * 2 + e && h / 128 == s && h % 32 == t;
  }

  // ----- Fragmenting -----

  /** Everything the fragments of one NAL have in common. */
  datatype Stream = Stream(
    refIdc: byte, nalType: byte, payloadType: byte, sequenceNumber: u16, timestamp: u32, ssrc: u32)

  /** `wrapping_add` on a sequence number. */
  function SequenceAt(first: u16, i: nat): u16 { (first + i) % 0x1_0000 }

  /** The two fields as they fit the FU bytes. */
  function RefIdcOf(s: Stream): byte { s.refIdc % 4 }
  function NalTypeOf(s: Stream): byte { s.nalType % 32 }

  /** The NAL header byte with the F bit clear. */
  function NalHeader(s: Stream): byte { s.refIdc % 4 * 32 + s.nalType % 32 }

  /** The NAL body cut into pieces of `max` bytes, the last one shorter. */
  function Chunks(nal: seq<byte>, max: nat): (c: seq<seq<byte>>)
    requires max > 0
    ensures |c| > 0
    decreases |nal|
  {
    if |nal| <= max then [nal] else [nal[..max]] + Chunks(nal[max..], max)
  }

  function Fragment(s: Stream, chunks: seq<seq<byte>>, i: nat): Packet
    requires i < |chunks|
  {
    Packet(
      Header(Flags(RTP_VERSION, false, false, 0, i == |chunks| - 1, s.payloadType),
             SequenceAt(s.sequenceNumber, i), s.timestamp, s.ssrc),
      [], None, [],
      [FuIndicator(s.refIdc), FuHeader(i == 0, i == |chunks| - 1, s.nalType)] + chunks[i])
  }

  function Fragments(s: Stream, chunks: seq<seq<byte>>): (f: seq<Packet>)
    ensures |f| == |chunks|
  {
    seq(|chunks|, i requires 0 <= i < |chunks| => Fragment(s, chunks, i))
  }

  function CeilDiv(n: nat, d: nat): nat
    requires d > 0
  {
    (n + d - 1) / d
  }

  lemma MultipleOfNonzero(d: int, k: int)
    requires d > 0
    ensures k >= 1 ==> d * k >= d
    ensures k <= -1 ==> d * k <= -d
  {
  }

  lemma DivStep(x: int, d: int)
    requires d > 0
    ensures (x + d) / d == x / d + 1
  {
    var q := (x + d) / d;
    assert d * (q - (x / d + 1)) == x % d - (x + d) % d by {
      assert x == d * (x / d) + x % d && x + d == d * q + (x + d) % d;
    }
    MultipleOfNonzero(d, q - (x / d + 1));
  }

  lemma CeilDivStep(n: nat, d: nat)
    requires d > 0
    ensures 0 < n <= d ==> CeilDiv(n, d) == 1
    ensures n > d ==> CeilDiv(n, d) == CeilDiv(n - d, d) + 1
  {
    DivStep(n - 1, d);
    if 0 < n <= d {
      assert (n - 1) / d == 0;
    }
  }

  /** There are as many pieces as the program counts beforehand. */
  lemma {:induction false} ChunkCount(nal: seq<byte>, max: nat)
    requires max > 0 && |nal| > 0
    ensures |Chunks(nal, max)| == CeilDiv(|nal|, max)
    decreases |nal|
  {
    CeilDivStep(|nal|, max);
    hide CeilDiv;
    if |nal| > max {
      ChunkCount(nal[max..], max);
    }
  }

  /** No piece is too long, and all but the last are full. */
  lemma {:induction false} ChunkSizes(nal: seq<byte>, max: nat)
    requires max > 0
    ensures var c := Chunks(nal, max);
            forall i | 0 <= i < |c| :: |c[i]| <= max && (i < |c| - 1 ==> |c[i]| == max)
    decreases |nal|
  {
    if |nal| > max {
      var rest := nal[max..];
      ChunkSizes(rest, max);
      assert Chunks(nal, max) == [nal[..max]] + Chunks(rest, max);
      hide Chunks;
    }
  }

  method FragmentNal(s: Stream, nal: seq<byte>, mtu: nat) returns (r: Result<seq<Packet>, FragmentError>)
    ensures r == if |nal| == 0 then Err(EmptyNal)
                 else if mtu <= RTP_HEADER_SIZE + 2 then Err(MtuTooSmall)
                 else Ok(Fragments(s, Chunks(nal, mtu - RTP_HEADER_SIZE - 2)))
    ensures r.Ok? ==> |r.value| == CeilDiv(|nal|, mtu - RTP_HEADER_SIZE - 2)
  {
    if |nal| == 0 { return Err(EmptyNal); }
    if mtu <= RTP_HEADER_SIZE + 2 { return Err(MtuTooSmall); }
    var maxPayload := mtu - RTP_HEADER_SIZE - 2;
    var numPackets := CeilDiv(|nal|, maxPayload);
    ghost var chunks := Chunks(nal, maxPayload);
    ChunkCount(nal, maxPayload);
    hide FuIndicator, FuHeader, CeilDiv, Chunks, SequenceAt;
    var packets: seq<Packet> := [];
    var offset, seqNo := 0, s.sequenceNumber;
    FirstSequence(seqNo);
    assert nal[0..] == nal && chunks[0..] == chunks;
    for i := 0 to numPackets
      invariant |packets| == i && forall k | 0 <= k < i :: packets[k] == Fragment(s, chunks, k)
      invariant offset <= |nal| && seqNo == SequenceAt(s.sequenceNumber, i)
      invariant i < |chunks| ==> chunks[i..] == Chunks(nal[offset..], maxPayload)
    {
      var isFirst, isLast := i == 0, i == numPackets - 1;
      var chunkEnd := if offset + maxPayload < |nal| then offset + maxPayload else |nal|;
      NextChunk(nal, offset, maxPayload, chunks, i);
      var header := Header(Flags(RTP_VERSION, false, false, 0, isLast, s.payloadType), seqNo, s.timestamp, s.ssrc);
      var payload := [FuIndicator(s.refIdc), FuHeader(isFirst, isLast, s.nalType)] + nal[offset..chunkEnd];
      packets := packets + [Packet(header, [], None, [], payload)];
      offset := chunkEnd;
      NextSequence(s.sequenceNumber, i);
      seqNo := SequenceAt(seqNo, 1);
    }
    assert packets == Fragments(s, chunks);
    r := Ok(packets);
  }

  lemma FirstSequence(n: u16)
    ensures SequenceAt(n, 0) == n
  {
  }

  lemma NextSequence(n: u16, i: nat)
    ensures SequenceAt(SequenceAt(n, i), 1) == SequenceAt(n, i + 1)
  {
  }

  lemma NextChunk(nal: seq<byte>, offset: nat, max: nat, chunks: seq<seq<byte>>, i: nat)
    requires offset <= |nal| && max > 0 && i < |chunks| && chunks[i..] == Chunks(nal[offset..], max)
    ensures var end := if offset + max < |nal| then offset + max else |nal|;
            && chunks[i] == nal[offset..end]
            && (i + 1 < |chunks| ==> chunks[i + 1..] == Chunks(nal[end..], max))
  {
    var rest := nal[offset..];
    assert chunks[i] == chunks[i..][0] && chunks[i + 1..] == chunks[i..][1..];
    if |rest| > max {
      assert rest[..max] == nal[offset..offset + max] && rest[max..] == nal[offset + max..];
    } else {
      assert rest == nal[offset..|nal|];
    }
  }

  // ----- Reassembling -----

  /** The first thing wrong with fragment `i`, in the order the program looks. */
  function FaultAt(packets: seq<Packet>, refIdc: byte, nalType: byte, i: nat): Option<ReassembleError>
    requires i < |packets|
  {
    var p := packets[i].payload;
    if |p| < 2 then Some(PayloadTooShort(i))
    else if RefIdc(p[0]) != refIdc then Some(RefIdcMismatch(i))
    else if NalType(p[1]) != nalType then Some(TypeMismatch(i))
    else if i == 0 && !IsStart(p[1]) then Some(MissingStart)
    else if i == |packets| - 1 && !IsEnd(p[1]) then Some(MissingEnd(i))
    else if 0 < i < |packets| - 1 && (IsStart(p[1]) || IsEnd(p[1])) then Some(FlaggedMiddle(i))
    else None
  }

  function FirstFault(packets: seq<Packet>, refIdc: byte, nalType: byte, i: nat): (r: Option<ReassembleError>)
    requires i <= |packets|
    ensures r.None? <==> forall k | i <= k < |packets| :: FaultAt(packets, refIdc, nalType, k).None?
    ensures r.None? ==> forall k | i <= k < |packets| :: |packets[k].payload| >= 2
    decreases |packets| - i
  {
    if i == |packets| then None
    else if FaultAt(packets, refIdc, nalType, i).Some? then FaultAt(packets, refIdc, nalType, i)
    else FirstFault(packets, refIdc, nalType, i + 1)
  }

  predicate AllFu(packets: seq<Packet>) {
    forall i | 0 <= i < |packets| :: |packets[i].payload| >= 2
  }

  /** The fragment bodies, joined: each payload without its two FU bytes. */
  function Bodies(packets: seq<Packet>): seq<byte>
    requires AllFu(packets)
  {
    if |packets| == 0 then [] else Bodies(packets[..|packets| - 1]) + packets[|packets| - 1].payload[2..]
  }

  function Reassemble(packets: seq<Packet>): Result<seq<byte>, ReassembleError>
  {
    if |packets| == 0 then Err(NoPackets) else
    var p := packets[0].payload;
    if |p| < 2 then Err(PayloadTooShort(0))
    else if ForbiddenBit(p[0]) != 0 then Err(ForbiddenBitSet)
    else if !IsStart(p[1]) then Err(MissingStart) else
    var fault := FirstFault(packets, RefIdc(p[0]), NalType(p[1]), 0);
    if fault.Some? then Err(fault.value) else
    Ok([NalHeaderByte(p[0], p[1])] + Bodies(packets))
  }

  method ReassembleFua(packets: seq<Packet>) returns (r: Result<seq<byte>, ReassembleError>)
    ensures r == Reassemble(packets)
  {
    if |packets| == 0 { return Err(NoPackets); }
    var first := packets[0].payload;
    if |first| < 2 { return Err(PayloadTooShort(0)); }
    var refIdc, nalType := RefIdc(first[0]), NalType(first[1]);
    if ForbiddenBit(first[0]) != 0 { return Err(ForbiddenBitSet); }
    if !IsStart(first[1]) { return Err(MissingStart); }
    hide RefIdc, NalType, ForbiddenBit, IsStart, IsEnd, NalHeaderByte;
    for i := 0 to |packets|
      invariant AllFu(packets[..i])
      invariant FirstFault(packets, refIdc, nalType, 0) == FirstFault(packets, refIdc, nalType, i)
    {
      var p := packets[i].payload;
      if |p| < 2 { return Err(PayloadTooShort(i)); }
      if RefIdc(p[0]) != refIdc { return Err(RefIdcMismatch(i)); }
      if NalType(p[1]) != nalType { return Err(TypeMismatch(i)); }
      if i == 0 && !IsStart(p[1]) { return Err(MissingStart); }
      if i == |packets| - 1 && !IsEnd(p[1]) { return Err(MissingEnd(i)); }
      if i > 0 && i < |packets| - 1 && (IsStart(p[1]) || IsEnd(p[1])) { return Err(FlaggedMiddle(i)); }
    }
    var nal := [NalHeaderByte(first[0], first[1])];
    for i := 0 to |packets|
      invariant nal == [NalHeaderByte(first[0], first[1])] + Bodies(packets[..i])
    {
      assert packets[..i + 1][..i] == packets[..i];
      nal := nal + packets[i].payload[2..];
    }
    assert packets[..|packets|] == packets;
    r := Ok(nal);
  }

  /** What the receiver asks of two FU bytes: the flags that fit its place, and the first fragment's fields. */
  predicate BytesFit(indicator: byte, header: byte, firstIndicator: byte, firstHeader: byte, first: bool, last: bool) {
    && indicator / 32 % 4 == firstIndicator / 32 % 4
    && header % 32 == firstHeader % 32
    && (first ==> header >= 128)
    && (last ==> header / 64 % 2 == 1)
    && (!first && !last ==> header < 64)
  }

  lemma NoFaultBytes(f: seq<Packet>, i: nat)
    requires i < |f| && |f[0].payload| >= 2 && |f[i].payload| >= 2
    ensures var a, p := f[0].payload, f[i].payload;
            FaultAt(f, RefIdc(a[0]), NalType(a[1]), i).None? <==>
            BytesFit(p[0], p[1], a[0], a[1], i == 0, i == |f| - 1)
  {
  }

  /** The top three bits of one byte, the low five of the other. */
  function FieldsTogether(indicator: byte, header: byte): byte {
    var i: int, h: int := indicator, header;
    i / 32 * 32 + h % 32
  }

  predicate AllFit(f: seq<Packet>)
    requires |f| > 0 && AllFu(f)
  {
    forall i | 0 <= i < |f| ::
      BytesFit(f[i].payload[0], f[i].payload[1], f[0].payload[0], f[0].payload[1], i == 0, i == |f| - 1)
  }

  lemma NoFaultWhen(f: seq<Packet>)
    requires |f| > 0 && |f[0].payload| >= 2
    ensures FirstFault(f, RefIdc(f[0].payload[0]), NalType(f[0].payload[1]), 0).None? <==> AllFu(f) && AllFit(f)
  {
    hide FaultAt, RefIdc, NalType, BytesFit;
    var refIdc, nalType := RefIdc(f[0].payload[0]), NalType(f[0].payload[1]);
    forall i: nat | i < |f| && |f[i].payload| >= 2 { NoFaultBytes(f, i); }
    if FirstFault(f, refIdc, nalType, 0).None? {
      forall i: nat | i < |f| ensures FaultAt(f, refIdc, nalType, i).None? {}
    }
    if AllFu(f) && AllFit(f) {
      forall i: nat | i < |f| ensures FaultAt(f, refIdc, nalType, i).None? {}
    }
  }

  /** Whatever packets arrive, from one NAL or from several: they are accepted if and only if each has its two FU bytes,
      the forbidden bit is clear in the first, reference and type agree throughout, the first has the start flag, the
      last the end flag, and none between has either. The NAL then starts with that reference and type. */
  lemma AcceptedWhen(f: seq<Packet>)
    ensures Reassemble(f).Ok? <==> |f| > 0 && AllFu(f) && AllFit(f) && f[0].payload[0] < 128
    ensures Reassemble(f).Ok? ==>
              Reassemble(f).value == [FieldsTogether(f[0].payload[0], f[0].payload[1])] + Bodies(f)
  {
    hide FirstFault, RefIdc, NalType, ForbiddenBit, IsStart, NalHeaderByte, Bodies, BytesFit, FieldsTogether;
    if |f| > 0 && |f[0].payload| >= 2 {
      FirstBytes(f[0].payload[0], f[0].payload[1]);
      NoFaultWhen(f);
      if AllFu(f) && AllFit(f) { StartFits(f[0].payload[0], f[0].payload[1], |f| == 1); }
      hide AllFit;
    }
  }

  lemma FirstBytes(indicator: byte, header: byte)
    ensures ForbiddenBit(indicator) == 0 <==> indicator < 128
    ensures IsStart(header) <==> header >= 128
    ensures indicator < 128 ==> NalHeaderByte(indicator, header) == FieldsTogether(indicator, header)
  {
  }

  lemma StartFits(indicator: byte, header: byte, last: bool)
    requires BytesFit(indicator, header, indicator, header, true, last)
    ensures header >= 128
  {
  }

  // ----- Over the wire -----

  function Join(chunks: seq<seq<byte>>): seq<byte> {
    if |chunks| == 0 then [] else chunks[0] + Join(chunks[1..])
  }

  lemma {:induction false} JoinOfChunks(nal: seq<byte>, max: nat)
    requires max > 0
    ensures Join(Chunks(nal, max)) == nal
    decreases |nal|
  {
    if |nal| <= max {
      assert [nal][1..] == [];
    } else {
      var rest := nal[max..];
      JoinOfChunks(rest, max);
      assert Chunks(nal, max)[1..] == Chunks(rest, max);
      hide Chunks;
      assert nal == nal[..max] + rest;
    }
  }

  lemma {:induction false} JoinConcat(a: seq<seq<byte>>, b: seq<seq<byte>>)
    ensures Join(a + b) == Join(a) + Join(b)
  {
    if |a| == 0 {
      assert a + b == b;
    } else {
      JoinConcat(a[1..], b);
      assert (a + b)[1..] == a[1..] + b;
      ConcatAssoc(a[0], Join(a[1..]), Join(b));
    }
  }

  lemma JoinSingle(c: seq<byte>)
    ensures Join([c]) == c
  {
    assert [c][1..] == [];
  }

  /** Fragments that carry the given pieces, whatever is in their headers. */
  ghost predicate Carries(f: seq<Packet>, chunks: seq<seq<byte>>) {
    |f| == |chunks| && forall i | 0 <= i < |f| :: |f[i].payload| >= 2 && f[i].payload[2..] == chunks[i]
  }

  lemma {:induction false} BodiesJoin(f: seq<Packet>, chunks: seq<seq<byte>>)
    requires Carries(f, chunks)
    ensures AllFu(f) && Bodies(f) == Join(chunks)
  {
    if |f| > 0 {
      var n := |f| - 1;
      BodiesJoin(f[..n], chunks[..n]);
      assert chunks == chunks[..n] + [chunks[n]];
      JoinConcat(chunks[..n], [chunks[n]]);
      JoinSingle(chunks[n]);
    }
  }

  lemma FragmentPayload(s: Stream, chunks: seq<seq<byte>>, i: nat)
    requires i < |chunks|
    ensures var p := Fragment(s, chunks, i).payload;
            && |p| == 2 + |chunks[i]| && p[2..] == chunks[i]
            && p[0] == FuIndicator(s.refIdc) && p[1] == FuHeader(i == 0, i == |chunks| - 1, s.nalType)
  {
  }

  lemma FragmentReadsBack(s: Stream, chunks: seq<seq<byte>>, i: nat)
    requires i < |chunks|
    ensures var p := Fragment(s, chunks, i).payload;
            && |p| >= 2 && p[2..] == chunks[i]
            && RefIdc(p[0]) == RefIdcOf(s) && NalType(p[1]) == NalTypeOf(s) && ForbiddenBit(p[0]) == 0
            && IsStart(p[1]) == (i == 0) && IsEnd(p[1]) == (i == |chunks| - 1)
  {
    FuBytesReadBack(s.refIdc, i == 0, i == |chunks| - 1, s.nalType);
    FragmentPayload(s, chunks, i);
    hide FuIndicator, FuHeader, RefIdc, NalType, IsStart, IsEnd, ForbiddenBit, Fragment;
  }

  /** Payloads that read back as one NAL's start, middles and end. */
  ghost predicate Coherent(f: seq<Packet>, s: Stream) {
    && |f| > 0 && AllFu(f)
    && forall i | 0 <= i < |f| ::
         var p := f[i].payload;
         && RefIdc(p[0]) == RefIdcOf(s) && NalType(p[1]) == NalTypeOf(s) && ForbiddenBit(p[0]) == 0
         && IsStart(p[1]) == (i == 0) && IsEnd(p[1]) == (i == |f| - 1)
  }

  lemma HeaderOfFirst(indicator: byte, header: byte, s: Stream)
    requires RefIdc(indicator) == RefIdcOf(s) && NalType(header) == NalTypeOf(s) && ForbiddenBit(indicator) == 0
    ensures NalHeaderByte(indicator, header) == NalHeader(s)
  {
  }

  lemma CoherentHasNoFault(f: seq<Packet>, s: Stream)
    requires Coherent(f, s)
    ensures FirstFault(f, RefIdcOf(s), NalTypeOf(s), 0).None?
  {
    hide RefIdc, NalType, IsStart, IsEnd, ForbiddenBit, RefIdcOf, NalTypeOf;
    forall i: nat | i < |f| ensures FaultAt(f, RefIdcOf(s), NalTypeOf(s), i).None? {}
    hide FaultAt;
  }

  lemma CoherentReassembles(f: seq<Packet>, s: Stream)
    requires Coherent(f, s)
    ensures Reassemble(f) == Ok([NalHeader(s)] + Bodies(f))
  {
    hide RefIdc, NalType, IsStart, IsEnd, ForbiddenBit, Bodies, RefIdcOf, NalTypeOf, NalHeader, NalHeaderByte,
         FirstFault;
    CoherentHasNoFault(f, s);
    HeaderOfFirst(f[0].payload[0], f[0].payload[1], s);
  }

  lemma FragmentsCoherent(s: Stream, chunks: seq<seq<byte>>)
    requires |chunks| > 0
    ensures Coherent(Fragments(s, chunks), s) && Carries(Fragments(s, chunks), chunks)
  {
    hide Fragment, RefIdc, NalType, IsStart, IsEnd, ForbiddenBit, RefIdcOf, NalTypeOf;
    forall i: nat | i < |chunks| {
      FragmentReadsBack(s, chunks, i);
    }
  }

  lemma FragmentsReassemble(s: Stream, nal: seq<byte>, max: nat)
    requires max > 0
    ensures Reassemble(Fragments(s, Chunks(nal, max))) == Ok([NalHeader(s)] + nal)
  {
    var chunks := Chunks(nal, max);
    var f := Fragments(s, chunks);
    FragmentsCoherent(s, chunks);
    hide Fragments, Coherent, Carries, Reassemble, Chunks, Bodies, Join, NalHeader;
    CoherentReassembles(f, s);
    BodiesJoin(f, chunks);
    JoinOfChunks(nal, max);
  }

  lemma FragmentSurvives(s: Stream, chunks: seq<seq<byte>>, i: nat)
    requires s.payloadType < 128 && i < |chunks|
    ensures var p := Fragment(s, chunks, i);
            |Wire(p)| == RTP_HEADER_SIZE + 2 + |chunks[i]| && Parse(Wire(p)) == Ok(p)
  {
    hide Parse, HeaderBytes, FuIndicator, FuHeader, SequenceAt;
    ParseAfterPrint(Fragment(s, chunks, i));
  }

  /** One fragment on the wire. */
  ghost predicate Arrives(s: Stream, chunks: seq<seq<byte>>, i: nat, p: Packet, mtu: nat) {
    && |Wire(p)| <= mtu
    && Parse(Wire(p)) == Ok(p)
    && p.header.sequenceNumber == (s.sequenceNumber + i) % 0x1_0000
    && p.header.flags.marker == (i == |chunks| - 1)
    && p.header.timestamp == s.timestamp && p.header.ssrc == s.ssrc && p.header.flags.payloadType == s.payloadType
  }

  lemma FragmentArrives(s: Stream, chunks: seq<seq<byte>>, i: nat, mtu: nat)
    requires s.payloadType < 128 && i < |chunks| && RTP_HEADER_SIZE + 2 + |chunks[i]| <= mtu
    ensures Arrives(s, chunks, i, Fragment(s, chunks, i), mtu)
  {
    FragmentSurvives(s, chunks, i);
    hide Wire, Parse, SequenceAt, FuIndicator, FuHeader;
  }

  /** The sender's NAL reaches the receiver: every fragment fits the MTU and survives printing and parsing, the
      sequence numbers run on modulo 2^16, only the last fragment is marked, and reassembly gives back the NAL. */
  lemma OverTheWire(s: Stream, nal: seq<byte>, mtu: nat)
    requires mtu > RTP_HEADER_SIZE + 2 && s.payloadType < 128
    ensures var chunks := Chunks(nal, mtu - RTP_HEADER_SIZE - 2);
            var f := Fragments(s, chunks);
            && (forall i: nat | i < |f| :: Arrives(s, chunks, i, f[i], mtu))
            && Reassemble(f) == Ok([NalHeader(s)] + nal)
  {
    hide Chunks, Reassemble, NalHeader, Arrives, Fragment, Wire, Parse, SequenceAt;
    var max := mtu - RTP_HEADER_SIZE - 2;
    var chunks := Chunks(nal, max);
    FragmentsReassemble(s, nal, max);
    ChunkSizes(nal, max);
    forall i: nat | i < |chunks| ensures Arrives(s, chunks, i, Fragment(s, chunks, i), mtu) {
      FragmentArrives(s, chunks, i, mtu);
    }
  }

  // ----- Loss, duplication, reordering -----

  /** What arrives: the elements at the given places, in that order. */
  function Pick<T>(s: seq<T>, at: seq<nat>): (r: seq<T>)
    requires forall k | 0 <= k < |at| :: at[k] < |s|
    ensures |r| == |at|
  {
    seq(|at|, k requires 0 <= k < |at| => s[at[k]])
  }

  /** Deliveries that pass for whole: the first fragment at the front, the last at the back, neither between. */
  predicate LooksWhole(at: seq<nat>, n: nat) {
    && |at| > 0 && at[0] == 0 && at[|at| - 1] == n - 1
    && forall k | 0 < k < |at| - 1 :: 0 < at[k] < n - 1
  }

  /** One arrived fragment passes the receiver's checks for its place exactly when its flags fit there. */
  lemma ArrivedFault(s: Stream, chunks: seq<seq<byte>>, at: seq<nat>, k: nat)
    requires k < |at| && forall j | 0 <= j < |at| :: at[j] < |chunks|
    ensures var g := Pick(Fragments(s, chunks), at);
            var n := |chunks|;
            && |g[k].payload| >= 2 && g[k].payload[2..] == chunks[at[k]]
            && (FaultAt(g, RefIdcOf(s), NalTypeOf(s), k).None? <==>
                  && (k == 0 ==> at[k] == 0) && (k == |at| - 1 ==> at[k] == n - 1)
                  && (0 < k < |at| - 1 ==> 0 < at[k] < n - 1))
  {
    FragmentReadsBack(s, chunks, at[k]);
    hide Fragment, RefIdc, NalType, IsStart, IsEnd, ForbiddenBit, RefIdcOf, NalTypeOf;
  }

  lemma ArrivedFaults(s: Stream, chunks: seq<seq<byte>>, at: seq<nat>)
    requires |at| > 0 && forall j | 0 <= j < |at| :: at[j] < |chunks|
    ensures var g := Pick(Fragments(s, chunks), at);
            && Carries(g, Pick(chunks, at))
            && (FirstFault(g, RefIdcOf(s), NalTypeOf(s), 0).None? <==> LooksWhole(at, |chunks|))
  {
    hide Fragments, RefIdcOf, NalTypeOf, FaultAt;
    var g := Pick(Fragments(s, chunks), at);
    forall k: nat | k < |at| { ArrivedFault(s, chunks, at, k); }
    if FirstFault(g, RefIdcOf(s), NalTypeOf(s), 0).None? {
      forall k: nat | k < |at| ensures FaultAt(g, RefIdcOf(s), NalTypeOf(s), k).None? {}
    }
  }

  /** What the receiver reads off the first arrived fragment. */
  lemma ArrivedFirst(s: Stream, chunks: seq<seq<byte>>, at: seq<nat>)
    requires |at| > 0 && forall j | 0 <= j < |at| :: at[j] < |chunks|
    ensures var p := Pick(Fragments(s, chunks), at)[0].payload;
            && |p| >= 2 && RefIdc(p[0]) == RefIdcOf(s) && NalType(p[1]) == NalTypeOf(s) && ForbiddenBit(p[0]) == 0
            && IsStart(p[1]) == (at[0] == 0) && NalHeaderByte(p[0], p[1]) == NalHeader(s)
  {
    FragmentReadsBack(s, chunks, at[0]);
    hide Fragment, RefIdc, NalType, IsStart, ForbiddenBit, RefIdcOf, NalTypeOf, NalHeader, NalHeaderByte;
    var p := Pick(Fragments(s, chunks), at)[0].payload;
    assert p == Fragment(s, chunks, at[0]).payload;
    HeaderOfFirst(p[0], p[1], s);
  }

  /** Reassembly never looks at sequence numbers. Whatever of a NAL's fragments arrives, in whatever order and however
      often, an error is raised if and only if the delivery does not look whole; otherwise the receiver gets the
      pieces in the order they came. */
  lemma DeliveryChecked(s: Stream, nal: seq<byte>, max: nat, at: seq<nat>)
    requires max > 0 && forall k | 0 <= k < |at| :: at[k] < |Chunks(nal, max)|
    ensures var chunks := Chunks(nal, max);
            Join(chunks) == nal
            && var r := Reassemble(Pick(Fragments(s, chunks), at));
               if LooksWhole(at, |chunks|) then r == Ok([NalHeader(s)] + Join(Pick(chunks, at))) else r.Err?
  {
    var chunks := Chunks(nal, max);
    JoinOfChunks(nal, max);
    hide Chunks, Join, NalHeader, NalHeaderByte, Fragments, RefIdc, NalType, IsStart, ForbiddenBit, RefIdcOf,
         NalTypeOf, Bodies, Carries, LooksWhole, FirstFault;
    if |at| > 0 {
      var g := Pick(Fragments(s, chunks), at);
      ArrivedFirst(s, chunks, at);
      ArrivedFaults(s, chunks, at);
      BodiesJoin(g, Pick(chunks, at));
      if at[0] != 0 { NotWhole(at, |chunks|); }
    } else {
      NotWhole(at, |chunks|);
    }
  }

  lemma NotWhole(at: seq<nat>, n: nat)
    requires |at| == 0 || at[0] != 0
    ensures !LooksWhole(at, n)
  {
  }

  /** What is left, in order, when the fragments in `lost` do not arrive. */
  function Kept(n: nat, lost: set<nat>): (at: seq<nat>)
    ensures forall k | 0 <= k < |at| :: at[k] < n && at[k] !in lost
  {
    if n == 0 then [] else Kept(n - 1, lost) + if n - 1 in lost then [] else [n - 1]
  }

  lemma {:induction false} KeptEnds(n: nat, lost: set<nat>)
    requires n > 0
    ensures 0 !in lost <==> |Kept(n, lost)| > 0 && Kept(n, lost)[0] == 0
    ensures n - 1 !in lost <==> |Kept(n, lost)| > 0 && Kept(n, lost)[|Kept(n, lost)| - 1] == n - 1
    ensures forall j, k | 0 <= j < k < |Kept(n, lost)| :: Kept(n, lost)[j] < Kept(n, lost)[k]
  {
    if n > 1 {
      KeptEnds(n - 1, lost);
    } else {
      assert Kept(0, lost) == [];
    }
  }

  /** Losing any set of fragments is noticed if and only if the first or the last is among them; otherwise the NAL
      silently arrives with those pieces cut out. */
  lemma LossDetection(s: Stream, nal: seq<byte>, max: nat, lost: set<nat>)
    requires max > 0
    ensures var chunks := Chunks(nal, max);
            var at := Kept(|chunks|, lost);
            var r := Reassemble(Pick(Fragments(s, chunks), at));
            && (r.Err? <==> 0 in lost || |chunks| - 1 in lost)
            && Join(chunks) == nal
            && (r.Ok? ==> r.value == [NalHeader(s)] + Join(Pick(chunks, at)))
            && (r.Ok? ==> forall i: nat | i < |chunks| && i in lost :: |chunks[i]| == max)
  {
    var chunks := Chunks(nal, max);
    var at := Kept(|chunks|, lost);
    ChunkSizes(nal, max);
    hide Reassemble, Fragments, NalHeader, Join, Pick, Chunks, Kept;
    DeliveryChecked(s, nal, max, at);
    KeptEnds(|chunks|, lost);
    assert LooksWhole(at, |chunks|) <==> 0 !in lost && |chunks| - 1 !in lost by {
      if 0 !in lost && |chunks| - 1 !in lost {
        forall k | 0 < k < |at| - 1 ensures 0 < at[k] < |chunks| - 1 {
          assert at[0] < at[k] < at[|at| - 1];
        }
      }
    }
  }
}
