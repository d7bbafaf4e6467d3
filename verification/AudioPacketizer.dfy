/** Packetizing G.711 audio: what the packets of one call, and of a run of calls, hold and carry to the far end. */
module AudioPacketizer {
  import opened Bytes
  import opened G711
  import Rtp
  import FuA

  const TWO_32 := 0x1_0000_0000
  const CLOCK_RATE := 8000

  /** What a caller hands over beside the samples. */
  datatype Stream = Stream(sampleRate: u32, timestamp: u32, ssrc: u32, payloadType: byte)

  function Min(a: nat, b: nat): nat { if a <= b then a else b }

  function SamplesPerPacket(sampleRate: u32): (n: nat)
    ensures n > 0
  {
    if sampleRate / 50 > 1 then sampleRate / 50 else 1
  }

  /** `(offset as u32).saturating_mul(8000) / sample_rate.max(1)` */
  function ClockAdvance(offset: nat, sampleRate: u32): u32 {
    Min(offset % TWO_32 * CLOCK_RATE, TWO_32 - 1) / (if sampleRate > 1 then sampleRate else 1)
  }

  function TimestampAt(s: Stream, offset: nat): u32 {
    (s.timestamp + ClockAdvance(offset, s.sampleRate)) % TWO_32
  }

  function NextSequence(sequenceNumber: u16): u16 { (sequenceNumber + 1) % 0x1_0000 }

  function SequenceAfter(sequenceNumber: u16, k: nat): u16 { (sequenceNumber + k) % 0x1_0000 }

  lemma SequenceSteps(sequenceNumber: u16, k: nat)
    ensures SequenceAfter(sequenceNumber, 0) == sequenceNumber
    ensures NextSequence(SequenceAfter(sequenceNumber, k)) == SequenceAfter(sequenceNumber, k + 1)
    ensures SequenceAfter(NextSequence(sequenceNumber), k) == SequenceAfter(sequenceNumber, k + 1)
  {
  }

  lemma SequenceSum(sequenceNumber: u16, j: nat, k: nat)
    ensures SequenceAfter(SequenceAfter(sequenceNumber, j), k) == SequenceAfter(sequenceNumber, j + k)
  {
  }

  function NewHeader(payloadType: byte, sequenceNumber: u16, timestamp: u32, ssrc: u32): Rtp.Header {
    Rtp.Header(Rtp.Flags(2, false, false, 0, false, payloadType), sequenceNumber, timestamp, ssrc)
  }

  /** This file's own header printer, which ORs the fields unmasked: they must fit their slots to stay apart. */
  function HeaderToBytes(h: Rtp.Header): (b: seq<byte>)
    requires h.flags.version < 4 && h.flags.csrcCount < 16 && h.flags.payloadType < 128
    ensures |b| == 12
  {
    [h.flags.version * 64 + Rtp.Bit(h.flags.padding) * 32 + Rtp.Bit(h.flags.extension) * 16 + h.flags.csrcCount,
     Rtp.Bit(h.flags.marker) * 128 + h.flags.payloadType]
    + U16Be(h.sequenceNumber) + U32Be(h.timestamp) + U32Be(h.ssrc)
  }

  function EncodeSample(sample: i16, payloadType: byte): byte {
    if payloadType == 0 then PcmToMulaw(sample) else PcmToAlaw(sample)
  }

  function Encode(samples: seq<i16>, payloadType: byte): (encoded: seq<byte>)
    ensures |encoded| == |samples|
  {
    seq(|samples|, i requires 0 <= i < |samples| => EncodeSample(samples[i], payloadType))
  }

  function PacketBytes(samples: seq<i16>, s: Stream, sequenceNumber: u16, offset: nat): seq<byte>
    requires s.payloadType < 128
  {
    HeaderToBytes(NewHeader(s.payloadType, sequenceNumber, TimestampAt(s, offset), s.ssrc))
    + Encode(samples, s.payloadType)
  }

  /** The packets for the samples from `offset` on. */
  function Packets(pcm: seq<i16>, s: Stream, sequenceNumber: u16, offset: nat): seq<seq<byte>>
    requires offset <= |pcm| && s.payloadType < 128
    decreases |pcm| - offset
  {
    if offset == |pcm| then [] else
    var end := Min(offset + SamplesPerPacket(s.sampleRate), |pcm|);
    [PacketBytes(pcm[offset..end], s, sequenceNumber, offset)] + Packets(pcm, s, NextSequence(sequenceNumber), end)
  }

  class RtpAudioPacketizer {
    var sequenceNumber: u16

    constructor ()
      ensures sequenceNumber == 0
    {
      sequenceNumber := 0;
    }

    method Reset()
      modifies this
      ensures sequenceNumber == 0
    {
      sequenceNumber := 0;
    }

    /** Cuts the samples into packets; both guarded divisions keep it terminating and total at any rate. */
    method PacketizePcm(pcm: seq<i16>, s: Stream) returns (packets: seq<seq<byte>>)
      requires s.payloadType < 128
      modifies this
      ensures packets == Packets(pcm, s, old(sequenceNumber), 0)
      ensures sequenceNumber == SequenceAfter(old(sequenceNumber), |packets|)
    {
      hide PacketBytes, NextSequence, SequenceAfter;
      SequenceSteps(sequenceNumber, 0);
      var samplesPerPacket := SamplesPerPacket(s.sampleRate);
      hide SamplesPerPacket;
      packets := [];
      var sampleOffset := 0;
      while sampleOffset < |pcm|
        invariant sampleOffset <= |pcm|
        invariant packets + Packets(pcm, s, sequenceNumber, sampleOffset) == Packets(pcm, s, old(sequenceNumber), 0)
        invariant sequenceNumber == SequenceAfter(old(sequenceNumber), |packets|)
      {
        var endOffset := Min(sampleOffset + samplesPerPacket, |pcm|);
        var packet := PacketBytes(pcm[sampleOffset..endOffset], s, sequenceNumber, sampleOffset);
        ghost var rest := Packets(pcm, s, NextSequence(sequenceNumber), endOffset);
        ConcatAssoc(packets, [packet], rest);
        SequenceSteps(old(sequenceNumber), |packets|);
        packets := packets + [packet];
        sequenceNumber := NextSequence(sequenceNumber);
        sampleOffset := endOffset;
      }
    }
  }

  // ----- What arrives -----

  /** The far end: every packet parsed, the payloads joined. */
  function Receive(packets: seq<seq<byte>>): Result<seq<byte>, Rtp.ParseError> {
    if packets == [] then Ok([]) else
    var first := Rtp.Parse(packets[0]);
    if first.Err? then Err(first.error) else
    var rest := Receive(packets[1..]);
    if rest.Err? then rest else Ok(first.value.payload + rest.value)
  }

  /** The packet that stands behind the bytes of one piece. */
  function PacketOf(samples: seq<i16>, s: Stream, sequenceNumber: u16, offset: nat): Rtp.Packet {
    Rtp.Packet(NewHeader(s.payloadType, sequenceNumber, TimestampAt(s, offset), s.ssrc), [], None, [],
               Encode(samples, s.payloadType))
  }

  /** For fields that fit, the two header printers of the repository agree. */
  lemma PrintersAgree(h: Rtp.Header)
    requires h.flags.version < 4 && h.flags.csrcCount < 16 && h.flags.payloadType < 128
    ensures HeaderToBytes(h) == Rtp.HeaderBytes(h)
  {
  }

  /** The audio packetizer's printer agrees with the video path's parser. */
  lemma PacketParses(samples: seq<i16>, s: Stream, sequenceNumber: u16, offset: nat)
    requires s.payloadType < 128
    ensures Rtp.Parse(PacketBytes(samples, s, sequenceNumber, offset))
         == Ok(PacketOf(samples, s, sequenceNumber, offset))
  {
    hide Encode, TimestampAt, Rtp.Parse, Rtp.HeaderBytes, HeaderToBytes;
    var p := PacketOf(samples, s, sequenceNumber, offset);
    Rtp.ParseAfterPrint(p);
    PrintersAgree(p.header);
    assert Rtp.Wire(p) == PacketBytes(samples, s, sequenceNumber, offset);
  }

  lemma EncodePieces(pcm: seq<i16>, payloadType: byte, from: nat, end: nat)
    requires from <= end <= |pcm|
    ensures Encode(pcm[from..end], payloadType) + Encode(pcm[end..], payloadType) == Encode(pcm[from..], payloadType)
  {
    hide EncodeSample;
    assert pcm[from..] == pcm[from..end] + pcm[end..];
  }

  /** Whatever the rate and the length, the receiver joins the payloads to the sample-wise encoding. */
  lemma {:induction false} StreamArrives(pcm: seq<i16>, s: Stream, sequenceNumber: u16, offset: nat)
    requires offset <= |pcm| && s.payloadType < 128
    ensures Receive(Packets(pcm, s, sequenceNumber, offset)) == Ok(Encode(pcm[offset..], s.payloadType))
    decreases |pcm| - offset
  {
    hide PacketBytes, Rtp.Parse, Encode, SamplesPerPacket;
    if offset < |pcm| {
      var end := Min(offset + SamplesPerPacket(s.sampleRate), |pcm|);
      var packets, rest := Packets(pcm, s, sequenceNumber, offset), Packets(pcm, s, NextSequence(sequenceNumber), end);
      assert packets[1..] == rest;
      PacketParses(pcm[offset..end], s, sequenceNumber, offset);
      StreamArrives(pcm, s, NextSequence(sequenceNumber), end);
      EncodePieces(pcm, s.payloadType, offset, end);
    }
  }

  function Decode(encoded: byte, payloadType: byte): i16 {
    if payloadType == 0 then MulawToPcm(encoded) else AlawToPcm(encoded)
  }

  /** How far a decoded sample may lie from the original: a thirty-second, measured as each law measures it. */
  predicate Close(sample: i16, decoded: i16, payloadType: byte) {
    if payloadType == 0 then
      var clipped := if sample > CLIP then CLIP else if sample < -CLIP then -CLIP else sample;
      32 * Abs(decoded - clipped) <= Abs(clipped) + BIAS
    else 32 * Abs(decoded - sample) <= (if Abs(sample) > 256 then Abs(sample) else 256)
  }

  /** What the receiver decodes has the original length and is close to it sample by sample. */
  lemma StreamIsClose(pcm: seq<i16>, s: Stream, sequenceNumber: u16)
    requires s.payloadType == 0 || s.payloadType == 8
    ensures var received := Receive(Packets(pcm, s, sequenceNumber, 0));
            received.Ok? && |received.value| == |pcm|
            && forall k | 0 <= k < |pcm| :: Close(pcm[k], Decode(received.value[k], s.payloadType), s.payloadType)
  {
    hide Packets, Receive, PcmToMulaw, PcmToAlaw, MulawToPcm, AlawToPcm;
    StreamArrives(pcm, s, sequenceNumber, 0);
    assert pcm[0..] == pcm;
    forall k | 0 <= k < |pcm|
      ensures Close(pcm[k], Decode(Encode(pcm, s.payloadType)[k], s.payloadType), s.payloadType)
    {
      if s.payloadType == 0 { MulawError(pcm[k]); } else { AlawError(pcm[k]); }
    }
  }

  // ----- Shape and numbering -----

  function PacketOffset(s: Stream, k: nat): nat { k * SamplesPerPacket(s.sampleRate) }

  lemma OffsetSteps(s: Stream, j: nat, k: nat)
    requires j <= k
    ensures PacketOffset(s, j) <= PacketOffset(s, k)
    ensures PacketOffset(s, k + 1) == PacketOffset(s, k) + SamplesPerPacket(s.sampleRate)
    ensures PacketOffset(s, 0) == 0
  {
  }

  /** The k-th packet of a call, as the receiver reads it: number, time, and full except perhaps at the end. */
  lemma {:induction false} PacketAt(pcm: seq<i16>, s: Stream, sequenceNumber: u16, offset: nat, k: nat)
    requires offset <= |pcm| && s.payloadType < 128
    requires k < |Packets(pcm, s, sequenceNumber, offset)|
    ensures var n := SamplesPerPacket(s.sampleRate);
            var from := offset + PacketOffset(s, k);
            from < |pcm|
            && Rtp.Parse(Packets(pcm, s, sequenceNumber, offset)[k])
               == Ok(PacketOf(pcm[from..Min(from + n, |pcm|)], s, SequenceAfter(sequenceNumber, k), from))
    decreases k
  {
    hide PacketBytes, Rtp.Parse, PacketOf, SamplesPerPacket, NextSequence, SequenceAfter, PacketOffset;
    var n := SamplesPerPacket(s.sampleRate);
    var end := Min(offset + n, |pcm|);
    OffsetSteps(s, 0, 0);
    if k == 0 {
      PacketParses(pcm[offset..end], s, sequenceNumber, offset);
      SequenceSteps(sequenceNumber, 0);
    } else {
      OffsetSteps(s, k - 1, k - 1);
      PacketAt(pcm, s, NextSequence(sequenceNumber), end, k - 1);
      SequenceSteps(sequenceNumber, k - 1);
      assert end == offset + n;
    }
  }

  lemma {:induction false} PacketCount(pcm: seq<i16>, s: Stream, sequenceNumber: u16, offset: nat)
    requires offset <= |pcm| && s.payloadType < 128
    ensures |Packets(pcm, s, sequenceNumber, offset)| == FuA.CeilDiv(|pcm| - offset, SamplesPerPacket(s.sampleRate))
    decreases |pcm| - offset
  {
    hide PacketBytes, SamplesPerPacket;
    var n := SamplesPerPacket(s.sampleRate);
    if offset < |pcm| {
      FuA.CeilDivStep(|pcm| - offset, n);
      PacketCount(pcm, s, NextSequence(sequenceNumber), Min(offset + n, |pcm|));
    }
  }

  /** All packets of a run of calls on one packetizer. */
  function Run(calls: seq<(seq<i16>, Stream)>, sequenceNumber: u16): seq<seq<byte>>
    requires forall i | 0 <= i < |calls| :: calls[i].1.payloadType < 128
  {
    if calls == [] then [] else
    var packets := Packets(calls[0].0, calls[0].1, sequenceNumber, 0);
    packets + Run(calls[1..], SequenceAfter(sequenceNumber, |packets|))
  }

  /** Across calls the numbers go on where they stopped: the k-th packet of a run parses to the k-th number. */
  lemma {:induction false} RunIsNumbered(calls: seq<(seq<i16>, Stream)>, sequenceNumber: u16, k: nat)
    requires forall i | 0 <= i < |calls| :: calls[i].1.payloadType < 128
    requires k < |Run(calls, sequenceNumber)|
    ensures var p := Rtp.Parse(Run(calls, sequenceNumber)[k]);
            p.Ok? && p.value.header.sequenceNumber == SequenceAfter(sequenceNumber, k)
  {
    hide Packets, Rtp.Parse, SequenceAfter;
    var packets := Packets(calls[0].0, calls[0].1, sequenceNumber, 0);
    if k < |packets| {
      PacketAt(calls[0].0, calls[0].1, sequenceNumber, 0, k);
    } else {
      SequenceSum(sequenceNumber, |packets|, k - |packets|);
      RunIsNumbered(calls[1..], SequenceAfter(sequenceNumber, |packets|), k - |packets|);
    }
  }

  function Rate(s: Stream): (rate: nat)
    ensures rate > 0
  {
    if s.sampleRate > 1 then s.sampleRate else 1
  }

  lemma QuotientMonotone(a: nat, b: nat, d: nat)
    requires d > 0 && a <= b
    ensures a / d <= b / d
  {
    var k := a / d - b / d;
    assert d * k == (a - a % d) - (b - b % d) by { assert a == d * (a / d) + a % d && b == d * (b / d) + b % d; }
    FuA.MultipleOfNonzero(d, k);
  }

  lemma QuotientBelow(a: nat, d: nat, bound: nat)
    requires d > 0 && a < bound * d
    ensures a / d < bound
  {
    assert a / d * d <= a;
  }

  /** The position of a sample on the 8 kHz clock. */
  function ExactTicks(s: Stream, offset: nat): nat { offset * CLOCK_RATE / Rate(s) }

  /** How far the saturated product takes the clock. */
  function LastTick(s: Stream): nat { (TWO_32 - 1) / Rate(s) }

  function ExactClock(s: Stream, offset: nat): u32 { (s.timestamp + ExactTicks(s, offset)) % TWO_32 }

  /** A timestamp is exact as long as the saturated product reaches its position, and wrong for 2^32 ticks after. */
  lemma ClockIsExact(s: Stream, offset: nat)
    requires offset < TWO_32
    ensures ExactTicks(s, offset) <= LastTick(s) ==> TimestampAt(s, offset) == ExactClock(s, offset)
    ensures LastTick(s) < ExactTicks(s, offset) < LastTick(s) + TWO_32 ==>
              TimestampAt(s, offset) != ExactClock(s, offset)
  {
    var ticks, top := offset * CLOCK_RATE, TWO_32 - 1;
    var rate := Rate(s);
    AdvanceIs(s, offset);
    hide ClockAdvance, Rate;
    if ticks <= top {
      QuotientMonotone(ticks, top, rate);
    } else {
      QuotientMonotone(top, ticks, rate);
      if ticks / rate < top / rate + TWO_32 { NotCongruent(s.timestamp, top / rate, ticks / rate); }
    }
  }

  lemma TicksMonotone(s: Stream, a: nat, b: nat)
    requires a <= b
    ensures ExactTicks(s, a) <= ExactTicks(s, b)
  {
    QuotientMonotone(a * CLOCK_RATE, b * CLOCK_RATE, Rate(s));
  }

  /** From one packet to the next the clock moves by no more than 8001 ticks: 161 of them at 50 Hz and above. */
  lemma TicksPerPacket(s: Stream, offset: nat)
    ensures ExactTicks(s, offset + SamplesPerPacket(s.sampleRate)) <= ExactTicks(s, offset) + 8001
  {
    var rate, n := Rate(s), SamplesPerPacket(s.sampleRate);
    assert n * CLOCK_RATE <= 8000 * rate;
    var q := offset * CLOCK_RATE / rate;
    assert offset * CLOCK_RATE < q * rate + rate;
    assert (offset + n) * CLOCK_RATE < (q + 8001) * rate by {
      assert (q + 8001) * rate == q * rate + rate + 8000 * rate;
    }
    QuotientBelow((offset + n) * CLOCK_RATE, rate, q + 8001);
  }

  /** All packets up to number `k` carry the exact clock if and only if the saturated product reaches that one. */
  lemma {:induction false} ClocksUpTo(s: Stream, k: nat)
    requires PacketOffset(s, k) < TWO_32
    ensures (forall j: nat | j <= k :: TimestampAt(s, PacketOffset(s, j)) == ExactClock(s, PacketOffset(s, j))) <==>
            ExactTicks(s, PacketOffset(s, k)) <= LastTick(s)
  {
    hide TimestampAt, ExactClock, ExactTicks, PacketOffset, LastTick, SamplesPerPacket;
    OffsetSteps(s, 0, k);
    ClockIsExact(s, PacketOffset(s, k));
    if k == 0 {
      NoTicksYet(s);
    } else {
      OffsetSteps(s, k - 1, k - 1);
      OffsetSteps(s, k - 1, k);
      ClocksUpTo(s, k - 1);
      TicksMonotone(s, PacketOffset(s, k - 1), PacketOffset(s, k));
      TicksPerPacket(s, PacketOffset(s, k - 1));
    }
  }

  lemma NoTicksYet(s: Stream)
    ensures ExactTicks(s, 0) == 0 <= LastTick(s)
  {
  }

  /** Every packet of a call parses to the exact 8 kHz clock of its first sample. */
  predicate ClockRight(packets: seq<seq<byte>>, s: Stream) {
    forall k: nat | k < |packets| ::
      var p := Rtp.Parse(packets[k]);
      p.Ok? && p.value.header.timestamp == ExactClock(s, PacketOffset(s, k))
  }

  /** At any rate, the packets of a call all carry the exact clock, modulo 2^32, if and only if the saturated product
      still reaches the position of the last one. */
  lemma CallClockIsExact(pcm: seq<i16>, s: Stream, sequenceNumber: u16)
    requires 0 < |pcm| <= TWO_32 && s.payloadType < 128
    ensures var packets := Packets(pcm, s, sequenceNumber, 0);
            |packets| > 0
            && (ClockRight(packets, s) <==> ExactTicks(s, PacketOffset(s, |packets| - 1)) <= LastTick(s))
  {
    var packets := Packets(pcm, s, sequenceNumber, 0);
    hide Packets, Rtp.Parse, TimestampAt, ExactClock, ExactTicks, LastTick, Encode;
    forall k: nat | k < |packets|
      ensures PacketOffset(s, k) < TWO_32
      ensures var p := Rtp.Parse(packets[k]);
              p.Ok? && p.value.header.timestamp == TimestampAt(s, PacketOffset(s, k))
    {
      PacketAt(pcm, s, sequenceNumber, 0, k);
    }
    hide PacketOffset, SamplesPerPacket;
    ClocksUpTo(s, |packets| - 1);
  }

  lemma AdvanceIs(s: Stream, offset: nat)
    requires offset < TWO_32
    ensures ClockAdvance(offset, s.sampleRate) == Min(offset * CLOCK_RATE, TWO_32 - 1) / Rate(s)
  {
  }

  lemma NotCongruent(t: nat, a: nat, b: nat)
    requires a <= b < a + TWO_32
    ensures (t + a) % TWO_32 == (t + b) % TWO_32 ==> a == b
  {
  }

  /** Each packet, as parsed: version 2, the caller's payload type, source and nothing else set; its number and clock
      counted from the caller's. */
  lemma PacketFields(pcm: seq<i16>, s: Stream, sequenceNumber: u16, k: nat)
    requires s.payloadType < 128 && k < |Packets(pcm, s, sequenceNumber, 0)|
    ensures var p := Rtp.Parse(Packets(pcm, s, sequenceNumber, 0)[k]);
            && p.Ok?
            && var h := p.value.header;
               && h.flags.version == 2 && h.flags.payloadType == s.payloadType && h.ssrc == s.ssrc
               && !h.flags.marker && !h.flags.padding && !h.flags.extension && p.value.csrcList == []
               && h.sequenceNumber == (sequenceNumber + k) % 0x1_0000
               && (k == 0 ==> h.timestamp == s.timestamp)
  {
    hide Packets, Rtp.Parse, Encode, TimestampAt, SamplesPerPacket;
    PacketAt(pcm, s, sequenceNumber, 0, k);
    StartsAtTimestamp(s);
  }

  lemma StartsAtTimestamp(s: Stream)
    ensures TimestampAt(s, 0) == s.timestamp
  {
    AdvanceIs(s, 0);
    hide ClockAdvance, Rate;
    NoneOf(Rate(s));
  }

  lemma NoneOf(rate: nat)
    requires rate > 0
    ensures 0 / rate == 0
  {
  }

  /** A full packet holds the whole samples of a fiftieth of a second, and one sample at rates below that. */
  lemma TwentyMilliseconds(rate: u32)
    ensures var n := SamplesPerPacket(rate);
            && (rate >= 50 ==> 50 * n <= rate < 50 * (n + 1))
            && (rate < 50 ==> n == 1)
            && (rate == 8000 ==> n == 160)
  {
  }
}
