# Media plane and decision kernels: a Dafny verification

This project models the parts of the program that carry media and make small, repeated decisions, and proves what
they promise over all inputs, all runs and all interleavings.

- **RTP and the H.264 payload format** (`Bytes`, `Rtp`, `FuA`, `StapA`): packets are printed and parsed (RFC 3550,
  sections 5.1 and 5.3.1), NAL units are cut into FU-A fragments and put together again (RFC 6184, section 5.8), and
  small ones are aggregated into STAP-A payloads (section 5.7.1).
- **The H.264 bitstream** (`AnnexB`, `BitReader`, `Sps`, `SyntaxElements`, `ScalingLists`,
  `SpsRoundTrip`): start-code scanning and AVCC splitting
  (ITU-T H.264, Annex B), the bit reader, the Exp-Golomb code (section 9.1) and the SPS parser (section 7.3.2.1.1).
- **The audio path** (`Resampler`, `G711`, `AudioPacketizer`, `LevelMeter`): the streaming resampler and its chunker,
  G.711 companding, the RTP audio packetizer, the microphone level meter.
- **Decisions and shared state** (`DescGate`, `VoiceRounds`, `Elastic`, `ElasticRuns`, `RateLimit`, `ConfigMerge`,
  `BufferPool`): the description gate and the voice bridge's round slot as interleaved atomic steps, the elastic tier
  controller over whole runs, the login rate limiter, the configuration merge, the buffer pool among its tasks.

Code that changes state step by step is a method or a class here, proved equal to a specification function; what the
program promises is then proved of that function. Bytes and machine words are bounded integers, bit operations are
written as division and remainder, and arithmetic wraps, saturates or truncates where the release build does.
`dafny verify dfyconfig.toml` checks everything.

## What the proofs found

Each of these is stated with the exact condition under which the code does meet the expectation, where there is one.

- `parse_sps` misreads SPSs of two kinds. It does not know profiles 134, 135, 138 and 139, which carry the extra fields.
  And it turns the sign of every `se(v)` round (`SyntaxElements.ReadSe`), which decides where a scaling list ends: a
  list the standard allows is read to its end if and only if it is full and no proper prefix of its deltas adds up to 8
  modulo 256 (`ScalingLists.ListReadsBack`). A matrix is read in step if and only if each of its lists is, and there
  are eight of them; for chroma format 3 there are twelve, and the program reads eight (`ScalingLists.MatrixReadsInStep`).
  So all SPSs of a profile read back if and only if the profile has no extra fields, or it is none of the four and there
  is no matrix (`SpsRoundTrip.WhichProfilesReadBack`): the list -8, which asks for the default list, already
  breaks it. Every SPS whose matrix is read in step comes back (`SpsRoundTrip.ReadSps`). Out of step the outcome hangs
  on the bits that follow; two misread lists can even make up for each other (`ScalingLists.MisreadsCanCancel`).
- `read_exp_golomb` reads a code back if and only if its value is at most 2^32 - 2; the one above wraps to zero
  (`BitReader.ReadUeOfCode`).
- A four-byte start code that ends the stream is reported, with its data position at the very end; a three-byte one
  is not (`AnnexB.ScanIsExact`).
- `reassemble_fua` never looks at sequence numbers: whatever arrives, in any order and any number of times, passes if and
  only if the first fragment is in front, the last at the back and neither between (`FuA.DeliveryChecked`). So losing
  fragments is noticed if and only if the first or the last is lost (`FuA.LossDetection`).
- `build_stapa` accepts NALs longer than 65535 bytes and cuts their size field, so they do not parse back
  (`StapA.ParseAfterBuild`).
- The resampler's `drain` stays in range for every input if and only if the step is at most 2
  (`Resampler.DrainAlwaysInRange`); above that some input makes it panic. At 48 kHz, three times the target rate, the
  first buffer of the 2048 samples it asks for does (`Resampler.TripleRateFails`).
- The rate limiter's window does not slide, as its documentation and `docs/en/configuration.md` say it does. At most
  `max` requests in any span of one window's length is true if and only if the window is empty, or `max` is not 0 and
  either `max` is 1, or the window is one second long, or it fills half of the 64-bit clock (`RateLimit.SlidesOnlyWhen`). In general the bound is `2 * max - 1`, and
  it is met (`RateLimit.RateBound`, `RateLimit.RateBoundIsTight`). With `max` 0 the first request of a window passes
  (`RateLimit.ZeroStillAdmits`); validating the configuration rejects that value (`src/config.rs:494`).
- The saturated table turns away known clients too, although its log message speaks of new ones (`RateLimit.TableBound`,
  `RateLimit.FloodSaturates`).
- The elastic controller's critical streak outlasts battery sessions, unlike the other two (`ElasticRuns.AdviceWhen`,
  `ElasticRuns.AdviceAcrossBattery`).
- The round slot protects its rounds if and only if interrupts are enabled (`VoiceRounds.ProtectsIffEnabled`). A
  reply task that dies leaves its round in the slot until a stop word or a new question takes it out
  (`VoiceRounds.CrashedRoundStays`).
- Mu-law code 0x7F is the only G.711 code that does not survive decoding and encoding (`G711.MulawCodeSurvives`).
- The packet clock of one `packetize_pcm` call stops once the saturated product is reached, after about 67 seconds of
  8 kHz audio: at any rate, the packets all carry the exact clock if and only if the product still reaches the last one
  (`AudioPacketizer.CallClockIsExact`).
- The buffer pool takes the first cached buffer that is large enough; its comment speaks of the largest and of the best
  fit. It is a largest for every request if and only if the first buffer is one (`BufferPool.LargestFirstWhen`), and a
  tightest if and only if no buffer stands before a smaller one, unless one as small stands before both
  (`BufferPool.TightestFirstWhen`); two buffers suffice to break either (`BufferPool.NeitherLargestNorTightest`).
- Two additions of the configuration merge can share one reported name. Two paths do if and only if they agree once every
  key is split at its dots and the empty keys in front are left out (`ConfigMerge.SameNameWhen`), so keys with dots can
  collide (`ConfigMerge.NamesCollide`), empty ones too (`ConfigMerge.EmptyKeyCollides`), and plain ones never do
  (`ConfigMerge.DottedInjective`).

## Model

| member | source | states |
|---|---|---|
| Rtp.ToBytes | crates/protocols/src/rtp.rs:188-244 | the printer emits header, CSRC words, padded extension and payload, and is exactly as long as announced |
| Rtp.ParseCsrcList | crates/protocols/src/rtp.rs:68-182 | the CSRC loop reads the words up to the count or fails when they are cut short |
| Rtp.ParsePacket | crates/protocols/src/rtp.rs:68-182 | the cursor-moving parser computes the sectioned specification, with each error in the order the code raises it |
| Rtp.PrintAfterParse | crates/protocols/src/rtp.rs:68-244 | printing any parsed bytes gives them back without their padding, so exactly when there is none, gives them back |
| Rtp.ParseAfterPrint | crates/protocols/src/rtp.rs:68-244 | every well-formed packet comes back, extension data zero-padded to words and an absent profile as 0 |
| Rtp.ParsedIsCanonical | crates/protocols/src/rtp.rs:68-182 | whatever parses without padding is well-formed and already in canonical form |
| Rtp.RoundTripNeedsWellFormed | crates/protocols/src/rtp.rs:68-244 | a packet survives the wire in its canonical form if and only if it is well-formed |
| Rtp.PaddedArrives | crates/protocols/src/rtp.rs:68-244 | a packet that announces padding comes back when any octets follow it, the last of them their number |
| Rtp.AcceptedWhen | crates/protocols/src/rtp.rs:68-182 | exactly the datagrams of version 2 that are as long as their counts say and properly padded are accepted, octet by octet |
| Rtp.FieldsPlaced | crates/protocols/src/rtp.rs:68-182 | every field of an accepted datagram is read from its own octets, most significant first |
| Rtp.HeaderPlaced | crates/protocols/src/rtp.rs:68-182 | flags, number, time and source each have their octets in the fixed header |
| Rtp.HeaderBytesOfHeaderOf | crates/protocols/src/rtp.rs:68-244 | the twelve header bytes are recovered from their parsed fields |
| Rtp.HeaderOfHeaderBytes | crates/protocols/src/rtp.rs:68-244 | header fields that fit their slots are recovered from the printed bytes |
| Rtp.ExtensionParses | crates/protocols/src/rtp.rs:68-244 | a printed extension anywhere in the data parses to its padded self and ends where it ended |
| FuA.FuBytesReadBack | crates/protocols/src/rtp.rs:289-315 | indicator and header bytes give back the two flags and the fields cut to their widths |
| FuA.FragmentNal | crates/protocols/src/rtp.rs:355-427 | the fragmenting loop yields the fragments of the pieces, as many as it counted, and its two errors |
| FuA.ReassembleFua | crates/protocols/src/rtp.rs:436-532 | reassembly checks every fragment in order, first fault first, and joins the bodies behind the rebuilt header |
| FuA.ChunkCount | crates/protocols/src/rtp.rs:355-427 | there are ceil(n / max) pieces |
| FuA.ChunkSizes | crates/protocols/src/rtp.rs:355-427 | no piece is longer than the limit, and all but the last are full |
| FuA.FragmentsReassemble | crates/protocols/src/rtp.rs:355-532 | the fragments of any NAL reassemble to its header byte and body |
| FuA.FragmentSurvives | crates/protocols/src/rtp.rs:68-427 | a fragment printed and parsed is the same packet, of exactly the computed size |
| FuA.OverTheWire | crates/protocols/src/rtp.rs:68-532 | end to end: each fragment fits the MTU and survives the wire with the stream's type, time and source, numbers run on modulo 2^16, only the last is marked, and the receiver gets the NAL back |
| FuA.CoherentReassembles | crates/protocols/src/rtp.rs:436-532 | any packets that agree on type and reference and are flagged at their ends only reassemble to their bodies in order |
| FuA.AcceptedWhen | crates/protocols/src/rtp.rs:436-532 | packets of one NAL or of several are accepted if and only if their bytes agree in reference and type and are flagged at the two ends only; the header byte joins the two fields |
| FuA.DeliveryChecked | crates/protocols/src/rtp.rs:436-532 | of any delivery of a NAL's fragments, lost, doubled or reordered, exactly those pass that have the first in front, the last at the back and neither between; the result is the pieces as they came |
| FuA.LossDetection | crates/protocols/src/rtp.rs:436-532 | losing a set of fragments is an error if and only if the first or the last is among them; otherwise the result lacks exactly those pieces, all of them full |
| StapA.BuildStapa | crates/protocols/src/rtp.rs:589-632 | both loops: the first unacceptable NAL is the error, otherwise indicator and units |
| StapA.ParseStapa | crates/protocols/src/rtp.rs:538-583 | the parse loop reads the units in order with its errors; the unread part shrinks each time |
| StapA.BuildAccepts | crates/protocols/src/rtp.rs:589-632 | a list can be built if and only if it is non-empty, holds no empty NAL and shares one NRI |
| StapA.ParseAfterBuild | crates/protocols/src/rtp.rs:538-632 | what was built parses back if and only if every length fits 16 bits |
| StapA.BuildAfterParse | crates/protocols/src/rtp.rs:538-632 | rebuilding a parsed payload gives its bytes back if and only if F is clear and every NAL has the indicator's NRI |
| StapA.UnitsOfParsed | crates/protocols/src/rtp.rs:538-632 | printing the units of any parsed run gives the run back byte for byte |
| StapA.ParseOfUnits | crates/protocols/src/rtp.rs:538-632 | printed units parse back to their NALs |
| StapA.ParsedSizes | crates/protocols/src/rtp.rs:538-583 | every parsed NAL holds between 1 and 65535 bytes |
| StapA.FirstUnitPlaced | crates/protocols/src/rtp.rs:538-583 | a payload has type 24, then each NAL behind its two length octets |
| StapA.BuiltIndicator | crates/protocols/src/rtp.rs:589-632 | a built payload has type 24, the forbidden bit clear, and the NALs' reference |
| BitReader.BitIter.constructor | crates/protocols/src/h264.rs:169-184 | a new reader has all the bits, most significant first, unread |
| BitReader.BitIter.ReadBit | crates/protocols/src/h264.rs:186-197 | takes the next unread bit, or fails at the end |
| BitReader.BitIter.ReadBits | crates/protocols/src/h264.rs:200-209 | takes n bits as a number modulo 2^32, or fails when they run out |
| BitReader.BitIter.ReadExpGolomb | crates/protocols/src/h264.rs:212-224 | takes one code, with the release build's masked shift and wrapping for long ones |
| BitReader.BitIter.ReadSignedExpGolomb | crates/protocols/src/h264.rs:227-232 | takes one code and maps it to a signed value as the program does |
| BitReader.ReadUeOfCode | crates/protocols/src/h264.rs:212-224 | the section 9.1 code of k, before any bits, reads back as k and is consumed whole if and only if k <= 2^32 - 2 |
| BitReader.CodeOfReadUe | crates/protocols/src/h264.rs:212-224 | conversely every short code the reader accepts is the section 9.1 code of what it returned |
| BitReader.BitsOfPack | crates/protocols/src/h264.rs:186-197 | packing bits into bytes and reading them one by one gives them back |
| BitReader.BitsOfByte | crates/protocols/src/h264.rs:186-197 | a byte's eight bits are its binary digits, the greatest first |
| Sps.ReadScalingList | crates/protocols/src/h264.rs:496-514 | the skipping loop consumes what the specification takes, delta by delta |
| Sps.ReadHighProfile | crates/protocols/src/h264.rs:382-409 | the high-profile block: chroma format kept, everything else consumed |
| Sps.ReadPicOrder | crates/protocols/src/h264.rs:411-433 | the three picture-order forms are consumed, including the loop over reference-frame offsets |
| Sps.ReadSize | crates/protocols/src/h264.rs:435-456 | sizes are kept, the flags around them consumed |
| Sps.ReadCropping | crates/protocols/src/h264.rs:458-474 | four offsets or none |
| Sps.ReadSps | crates/protocols/src/h264.rs:344-493 | the sections follow each other in the standard's order |
| Sps.ParseSpsNal | crates/protocols/src/h264.rs:318-493 | header errors first, then the fields or the reader's error |
| Sps.SizeIsExactModulo | crates/protocols/src/h264.rs:128-157 | width and height are the cropped sizes modulo 2^32, so right if and only if those are 32-bit numbers |
| Sps.HeaderAcceptedWhen | crates/protocols/src/h264.rs:318-352 | the parser goes past the header if and only if the forbidden bit is clear and the type is 7 |
| Sps.FullHd | crates/protocols/src/h264.rs:128-157 | 120 by 68 macroblocks cropped by four in 4:2:0 are 1920 by 1080 |
| ScalingLists.ListReadsBack | crates/protocols/src/h264.rs:496-514 | a list the standard allows is read to its end if and only if it is full and no proper prefix of its deltas adds up to 8 modulo 256 |
| ScalingLists.MatrixReadsInStep | crates/protocols/src/h264.rs:397-408 | a scaling matrix is read in step, list by list, if and only if it has eight lists and each one present is read to its end |
| ScalingLists.Overruns | crates/protocols/src/h264.rs:496-514 | a list that ends early for the standard but not for the program swallows bits of what follows |
| ScalingLists.MisreadsCanCancel | crates/protocols/src/h264.rs:397-408 | a matrix with misread lists that the program still leaves where it ends, whatever follows |
| SpsRoundTrip.ReadSps | crates/protocols/src/h264.rs:344-493 | an SPS written by the standard, with a scaling matrix read in step or none, reads back in all its fields, with the following bits untouched |
| SpsRoundTrip.ParseWrittenSps | crates/protocols/src/h264.rs:318-493 | the same from the NAL's bytes |
| SpsRoundTrip.ReadHigh | crates/protocols/src/h264.rs:382-409 | the high fields before the lists are always read as written, so the block fails only with its lists |
| SpsRoundTrip.EarlyEndRefused | crates/protocols/src/h264.rs:344-514 | for every early-ended list the program reads past, at every place in the matrix, an SPS with that list is refused |
| SpsRoundTrip.WhichProfilesReadBack | crates/protocols/src/h264.rs:344-514 | all SPSs of a profile read back if and only if it has no high fields, or is none of 134, 135, 138, 139 and there is no scaling matrix |
| SpsRoundTrip.FourProfilesMissing | crates/protocols/src/h264.rs:370-378 | the program's list is the standard's thirteen profiles but for 134, 135, 138 and 139 |
| SpsRoundTrip.MissingProfilesMisread | crates/protocols/src/h264.rs:370-409 | for those four, any chroma format but 1 is certain to be misread |
| SyntaxElements.ReadSe | crates/protocols/src/h264.rs:227-232 | a signed code is consumed whole and read as its negative |
| AnnexB.FindStartCodes | crates/protocols/src/h264.rs:236-259 | the scanning loop reports the specification's codes |
| AnnexB.ScanIsExact | crates/protocols/src/h264.rs:236-259 | the codes found are exactly those there are, four-byte when a zero precedes, in order and disjoint |
| AnnexB.SplitNalUnits | crates/protocols/src/h264.rs:262-287 | the loop returns the non-empty pieces between codes, or the whole data when there is no code |
| AnnexB.SplitOfStream | crates/protocols/src/h264.rs:236-287 | any mix of three- and four-byte codes before valid NALs splits into those NALs |
| AnnexB.SplitAfterJunk | crates/protocols/src/h264.rs:236-287 | bytes in front of the first code are dropped |
| AnnexB.SplitOfCodeless | crates/protocols/src/h264.rs:262-287 | data without a code is one unit, and no data none |
| AnnexB.UnitsNonEmpty | crates/protocols/src/h264.rs:262-287 | no unit is empty |
| AnnexB.SplitNalUnitsAvcc | crates/protocols/src/h264.rs:290-315 | the loop returns the complete frames up to the first empty or cut one |
| AnnexB.SplitOfAvcc | crates/protocols/src/h264.rs:290-315 | length-framed NALs split into themselves |
| AnnexB.AvccIsPrefix | crates/protocols/src/h264.rs:290-315 | whatever the bytes, the frames found, framed again, are a prefix of them |
| AnnexB.FramingsAgree | crates/protocols/src/h264.rs:236-315 | both framings of one list of valid NALs split to the same result |
| Resampler.LinearResampler.constructor | crates/capture/src/audio_monitor.rs:378-384 | starts with nothing consumed and the step kept away from zero |
| Resampler.LinearResampler.Interpolations | crates/capture/src/audio_monitor.rs:395-402 | the inner loop emits exactly the next interpolations of the whole stream |
| Resampler.LinearResampler.Process | crates/capture/src/audio_monitor.rs:389-407 | output so far plus this output is the whole stream's sequence; it panics exactly when the drain is out of range |
| Resampler.CountUnique | crates/capture/src/audio_monitor.rs:389-407 | how many samples are out depends on the total length alone |
| Resampler.OutputsOfPrefix | crates/capture/src/audio_monitor.rs:367-407 | more input never changes what has been put out |
| Resampler.UnitRatioCopies | crates/capture/src/audio_monitor.rs:362-407 | at equal rates no sample is lost or duplicated: all but the last come out unchanged |
| Resampler.LinesAreKept | crates/capture/src/audio_monitor.rs:389-407 | on samples a + b * i the k-th output is a + b * (k * step), between the samples too |
| Resampler.BetweenNeighbours | crates/capture/src/audio_monitor.rs:395-402 | every output lies between the two samples around its position |
| Resampler.StepIsRatio | crates/capture/src/audio_monitor.rs:378-384 | the step is the ratio, down to a millionth |
| Resampler.QuantisedClosely | crates/capture/src/audio_monitor.rs:239-242 | a sample is clipped to one, keeps its sign, and is within one of 32767 times itself |
| Resampler.DrainAlwaysInRange | crates/capture/src/audio_monitor.rs:403-405 | the drain is in range for every length if and only if the step is at most 2 |
| Resampler.TripleRateFails | crates/capture/src/audio_monitor.rs:403-405 | at step 3 a first buffer of 2048 samples puts the drain out of range |
| Resampler.TakeChunks | crates/capture/src/audio_monitor.rs:240-251 | whole chunks of 512 leave the accumulator, nothing is lost or reordered |
| Resampler.Work | crates/capture/src/audio_monitor.rs:235-253 | over any split into callbacks, chunks and leftover are the quantised whole-stream sequence; the worker survives if and only if every drain on the way was in range |
| G711.MulawError | crates/protocols/src/audio_codec.rs:11-51 | decoding comes within 1/32 of the biased magnitude of the clipped sample, for all samples |
| G711.MulawCodeSurvives | crates/protocols/src/audio_codec.rs:11-51 | a mu-law code decodes and encodes to itself if and only if it is not 0x7F |
| G711.AlawError | crates/protocols/src/audio_codec.rs:60-115 | decoding comes within 1/32 of the sample, or within 8 of a small one |
| G711.AlawCodeSurvives | crates/protocols/src/audio_codec.rs:60-115 | every A-law code decodes and encodes to itself |
| G711.AlawUnmasked | crates/protocols/src/audio_codec.rs:60-115 | the parity masks cancel and leave sign, segment and step |
| G711.MulawAnchors | crates/protocols/src/audio_codec.rs:11-51 | zero and the two ends of the mu-law table |
| G711.MulawOrder | crates/protocols/src/audio_codec.rs:43-51 | codes in descending order decode to rising magnitudes on either side |
| G711.AlawAnchors | crates/protocols/src/audio_codec.rs:60-115 | silence and the two ends of the A-law table |
| AudioPacketizer.RtpAudioPacketizer.constructor | crates/protocols/src/audio_codec.rs:179-181 | numbering starts at 0 |
| AudioPacketizer.RtpAudioPacketizer.Reset | crates/protocols/src/audio_codec.rs:184-186 | numbering restarts at 0 |
| AudioPacketizer.RtpAudioPacketizer.PacketizePcm | crates/protocols/src/audio_codec.rs:228-289 | the loop ends at any rate and yields the call's packets; the counter moves on by their number modulo 2^16 |
| AudioPacketizer.PrintersAgree | crates/protocols/src/audio_codec.rs:146-168 | this header printer and the video path's agree on fields that fit |
| AudioPacketizer.PacketParses | crates/protocols/src/audio_codec.rs:257-283 | every packet parses with the video path's parser to its header and encoding |
| AudioPacketizer.StreamArrives | crates/protocols/src/audio_codec.rs:228-289 | the parsed payloads join to the sample-wise encoding, for any length and rate |
| AudioPacketizer.StreamIsClose | crates/protocols/src/audio_codec.rs:11-289 | what the receiver decodes has the original length and is within the law's error of it, sample by sample |
| AudioPacketizer.PacketAt | crates/protocols/src/audio_codec.rs:228-289 | packet k carries number first + k, the clock of sample k * n, and n samples unless it is the last |
| AudioPacketizer.PacketFields | crates/protocols/src/audio_codec.rs:131-144 | every packet carries version 2, the caller's payload type and source, its own number, and nothing else set |
| AudioPacketizer.TwentyMilliseconds | crates/protocols/src/audio_codec.rs:246-254 | a full packet holds the whole samples of a fiftieth of a second, or one below 50 Hz |
| AudioPacketizer.PacketCount | crates/protocols/src/audio_codec.rs:228-289 | there are ceil(length / n) packets |
| AudioPacketizer.RunIsNumbered | crates/protocols/src/audio_codec.rs:171-289 | over any run of calls the packets are numbered consecutively modulo 2^16 |
| AudioPacketizer.ClockIsExact | crates/protocols/src/audio_codec.rs:272-273 | a timestamp is the exact 8 kHz position modulo 2^32 while the saturated product reaches it, and wrong for 2^32 ticks after |
| AudioPacketizer.CallClockIsExact | crates/protocols/src/audio_codec.rs:228-289 | at any rate, all packets of a call of up to 2^32 samples carry the exact clock if and only if the saturated product reaches the last one's |
| LevelMeter.ClipDetector.Feed | crates/streaming/src/audio_level.rs:45-65 | one window lengthens or ends the streak, and warns when the streak first is long enough |
| LevelMeter.LevelMeter.Update | crates/streaming/src/audio_level.rs:108-148 | the running sums publish what a meter keeping the samples themselves would publish |
| LevelMeter.EverySampleOnce | crates/streaming/src/audio_level.rs:108-148 | windows and pending samples together are all samples heard, in order |
| LevelMeter.EmitsSpaced | crates/streaming/src/audio_level.rs:118-126 | emits are at least 100 ms apart by any clock, each over at least 1600 samples |
| LevelMeter.EmitsWhen | crates/streaming/src/audio_level.rs:108-127 | a level comes out if and only if 1600 samples are pending and 100 ms have passed |
| LevelMeter.ClippedWhen | crates/streaming/src/audio_level.rs:45-65 | a window is clipped if and only if a tenth of its samples or more reach 32600 |
| LevelMeter.MeanSquareOfSteady | crates/streaming/src/audio_level.rs:108-128 | a steady window's mean square is its sample's, full scale being one |
| LevelMeter.WarnsOncePerEpisode | crates/streaming/src/audio_level.rs:45-65 | a window warns if and only if it is the fifth clipped one after a clean one or the start |
| LevelMeter.LevelBounded | crates/streaming/src/audio_level.rs:139-147 | a published level is exactly zero or between the floor and one |
| LevelMeter.SilenceFades | crates/streaming/src/audio_level.rs:139-147 | n silent windows leave 0.7^n of the level, or exactly zero once that is below the floor |
| LevelMeter.SilenceReachesZero | crates/streaming/src/audio_level.rs:139-147 | thirteen silent windows bring any level to exactly zero |
| LevelMeter.LoudnessRises | crates/streaming/src/audio_level.rs:139-147 | under n windows of one louder level the meter closes in on it, keeping 0.4^n of the gap |
| DescGate.DescGate.TryAdmit | src/desc_gate.rs:156-178 | run alone, the method is the thread's atomic steps in order, with the same answer |
| DescGate.DescGate.DropLease | src/desc_gate.rs:86-91 | dropping the lease lowers the flag and nothing else |
| DescGate.RunKeepsInv | src/desc_gate.rs:86-178 | in every interleaving of any number of threads: one critical thread at most, flag and start times as they should be |
| DescGate.SingleFlight | src/desc_gate.rs:86-178 | at most one lease; the flag is up if and only if some thread is between its swap and its release |
| DescGate.StartFloor | src/desc_gate.rs:156-178 | the j-th and k-th start are (k - j) floors apart, whatever the clock does |
| DescGate.TurnedAwayExactly | src/desc_gate.rs:156-178 | a swap winner is throttled if and only if an earlier start lies less than the floor before it |
| DescGate.OnlyOwnLease | src/desc_gate.rs:156-178 | while one thread is past the swap every other is told Busy and changes nothing |
| DescGate.AnswerComes | src/desc_gate.rs:156-178 | each own step brings a winner nearer to its answer |
| Elastic.ElasticState.constructor | src/runtime/elastic.rs:155-168 | the fresh state |
| Elastic.ElasticState.DecideInPlace | src/runtime/elastic.rs:170-254 | the in-place update with its early returns is the decision by bands |
| ElasticRuns.StreakKept | src/runtime/elastic.rs:213-253 | a streak is the number of samples at the end of the run that were on AC in its band without a step |
| ElasticRuns.LastActionKept | src/runtime/elastic.rs:170-254 | no applied action is younger than the remembered time |
| ElasticRuns.TierKept | src/runtime/elastic.rs:176-202 | the tier stays on the ladder, and is lite while latched on battery |
| ElasticRuns.StepWhen | src/runtime/elastic.rs:213-253 | a step is taken if and only if the sample ends a long enough unbroken run in its memory range, the cooldown is over, and there is a rung left |
| ElasticRuns.StepSafety | src/runtime/elastic.rs:213-270 | each step is one rung, after enough AC samples between the critical and the low mark, or above the high one, none stepped on before, a cooldown after every applied action |
| ElasticRuns.StepsSpread | src/runtime/elastic.rs:210-253 | n steps between two times spread over (n - 1) cooldowns |
| ElasticRuns.StepRate | src/runtime/elastic.rs:210-253 | a span T sees at most T / cooldown + 1 steps |
| ElasticRuns.OnePinPerSession | src/runtime/elastic.rs:176-198 | between two battery pins there is an AC sample |
| ElasticRuns.PinWhen | src/runtime/elastic.rs:176-198 | a pin is made if and only if a battery session begins above lite; on battery the tier is lite |
| ElasticRuns.Settles | src/runtime/elastic.rs:212-270 | from any point of the wait, steady samples reach the end of the ladder in the samples its rungs need |
| ElasticRuns.Convergence | src/runtime/elastic.rs:212-270 | from any reached state, 2 * max(sustain, ceil(cooldown / d)) steady samples suffice, down or up |
| ElasticRuns.AdviceWhen | src/runtime/elastic.rs:199-208 | the minimal form is advised if and only if the sample is critical and ends a long enough critical streak |
| ElasticRuns.AdviceAcrossBattery | src/runtime/elastic.rs:189-208 | two critical samples with a battery session of any length between them are advised on as two in a row |
| RateLimit.RateLimiter.CheckRateLimit | crates/security/src/rate_limit.rs:30-79 | one request on the table: prune, ceiling, count, reset or insert |
| RateLimit.RateLimiter.ResetRateLimit | crates/security/src/rate_limit.rs:94-97 | the key is forgotten, so its next request starts a window |
| RateLimit.TableBound | crates/security/src/rate_limit.rs:40-55 | the table keeps its ceiling; a request is turned away unseen if and only if that many windows are still open |
| RateLimit.ForgottenExactly | crates/security/src/rate_limit.rs:40-42 | below 4096 entries nothing is forgotten, from there on exactly the expired entries are |
| RateLimit.TableNeverExceeds | crates/security/src/rate_limit.rs:30-79 | in every run the table holds at most 8192 entries |
| RateLimit.NextAgrees | crates/security/src/rate_limit.rs:30-79 | after a request the pruned table and the plain limiter still hold the same live entries |
| RateLimit.RefinesPlain | crates/security/src/rate_limit.rs:30-79 | on every run the requests not turned away as saturated are answered as the unbounded, never pruned limiter answers them |
| RateLimit.PruningIsInvisible | crates/security/src/rate_limit.rs:40-78 | without saturation the answers are exactly the plain limiter's |
| RateLimit.RateBound | crates/security/src/rate_limit.rs:56-79 | any span of one window's length accepts fewer than 2 * max requests of one key |
| RateLimit.RateBoundIsTight | crates/security/src/rate_limit.rs:56-79 | for every max and window of at least 2 some run accepts 2 * max - 1 of one key in one window's length |
| RateLimit.SlidesOnlyWhen | crates/security/src/rate_limit.rs:28-79 | at most max in any window's length holds in all runs if and only if the window is empty, or max is not 0 and either max is 1, or windows last a second, or one fills half the 64-bit clock |
| RateLimit.ZeroStillAdmits | crates/security/src/rate_limit.rs:68-79 | with max 0 the first request is accepted |
| RateLimit.FloodSaturates | crates/security/src/rate_limit.rs:40-55 | 8192 clients in one second saturate the table, and then it turns away every key, tracked ones too |
| VoiceRounds.RoundSlot.TakeAndCancel | src/runtime/voice_bridge.rs:245-311 | stop or supersede: the round is taken out and its flag raised |
| VoiceRounds.RoundSlot.Fill | src/runtime/voice_bridge.rs:539-549 | a new number goes into the slot, whatever was there |
| VoiceRounds.RoundSlot.Release | src/runtime/voice_bridge.rs:1044-1061 | a finished round clears the slot only when it still owns it |
| VoiceRounds.RunKeepsInv | src/runtime/voice_bridge.rs:200-320 | the protocol's invariant in every interleaving of the loop and the reply tasks |
| VoiceRounds.OneLiveRound | src/runtime/voice_bridge.rs:200-320 | with interrupts on, a round between fill and release is cancelled or in the slot, so one uncancelled round at most |
| VoiceRounds.FillsEmptySlot | src/runtime/voice_bridge.rs:539-549 | the slot is empty whenever it is filled, and the number is new |
| VoiceRounds.FinishSparesSuccessor | src/runtime/voice_bridge.rs:1044-1061 | a finishing round never clears a successor, and finds itself in the slot if and only if it is uncancelled |
| VoiceRounds.ProtectsIffEnabled | src/runtime/voice_bridge.rs:200-320 | the slot protects its rounds in all runs if and only if interrupts are enabled |
| VoiceRounds.CrashedRoundStays | src/runtime/voice_bridge.rs:200-320 | a round whose task died uncancelled stays in the slot, and every utterance meets the interruption gate, until one stops or supersedes it |
| VoiceRounds.WhatHearingDoes | src/runtime/voice_bridge.rs:200-210 | with nothing running or interrupts off an utterance is answered; during a round it is ignored if blank and decided on if not |
| VoiceRounds.WhatInterruptsDo | src/runtime/voice_bridge.rs:245-320 | stop cancels and waits, a new question cancels and goes on, a backchannel changes nothing |
| VoiceRounds.RoundStarts | src/runtime/voice_bridge.rs:539-549 | an answer started undisturbed holds the slot under the next number |
| ConfigMerge.MergeTables | src/config_migrate.rs:29-71 | the recursive loop, keys in any order, computes the merged tree and adds the names of what it inserted |
| ConfigMerge.MergedAt | src/config_migrate.rs:29-71 | path by path: local values stay, local tables stay tables, and where nothing is local the default shows unless a local value above hides it |
| ConfigMerge.NamesAreRoots | src/config_migrate.rs:60-67 | the reported names are exactly the dotted paths of the inserted subtrees' roots |
| ConfigMerge.RootIsInserted | src/config_migrate.rs:60-67 | with each root its whole default subtree is there |
| ConfigMerge.NothingAddedMeansUnchanged | src/config_migrate.rs:99-102 | nothing is reported if and only if the tree is unchanged, so skipping the write is sound |
| ConfigMerge.SecondMergeAddsNothing | src/config_migrate.rs:29-71 | merging the same defaults again changes and reports nothing |
| ConfigMerge.MigrateLocalConfig | src/config_migrate.rs:82-125 | one pass with its errors: what is reported, backed up and written, and that it writes exactly when the tree changed |
| ConfigMerge.RunKeepsLocalValues | src/config_migrate.rs:91-113 | something is written, with the old file as backup, if and only if a default is missing; it holds every local value and table, and the default wherever nothing local hides it |
| ConfigMerge.RunReportsRoots | src/config_migrate.rs:99-102 | the report is exactly the dotted roots of what was missing |
| ConfigMerge.RunSeeds | src/config_migrate.rs:113-121 | an absent file becomes the defaults, reported by top-level key |
| ConfigMerge.RunFailsWhen | src/config_migrate.rs:86-121 | a run fails if and only if the defaults or a present local file cannot be read as a table must |
| ConfigMerge.SecondRunIsANoOp | src/config_migrate.rs:82-125 | after a successful run the next reports, backs up and writes nothing |
| ConfigMerge.DottedInjective | src/config_migrate.rs:44-67 | with plain keys a reported name stands for one path |
| ConfigMerge.SameNameWhen | src/config_migrate.rs:44-67 | two paths are reported under one name if and only if their keys, split at dots and without empty ones in front, agree |
| ConfigMerge.NamesCollide | src/config_migrate.rs:44-67 | with dots inside keys two additions can share a name |
| ConfigMerge.EmptyKeyCollides | src/config_migrate.rs:44-67 | with an empty key two additions can share a name |
| BufferPool.FirstFit | crates/streaming/src/buffer.rs:65-69 | the first buffer large enough, if any |
| BufferPool.LargestFirstWhen | crates/streaming/src/buffer.rs:67-69 | it is a largest buffer for every request if and only if the first buffer is a largest |
| BufferPool.TightestFirstWhen | crates/streaming/src/buffer.rs:67-69 | it is a tightest fit for every request if and only if no buffer stands before a smaller one, unless one as small stands before both |
| BufferPool.NeitherLargestNorTightest | crates/streaming/src/buffer.rs:67-69 | any two buffers of different size fail one promise in one order and the other in the other |
| BufferPool.PoolInner.Position | crates/streaming/src/buffer.rs:65-69 | the scan finds that buffer |
| BufferPool.PoolInner.Acquire | crates/streaming/src/buffer.rs:65-84 | the locked section takes a cached buffer or the new one; either way empty and large enough |
| BufferPool.PoolInner.Return | crates/streaming/src/buffer.rs:179-195 | the locked section caches a dropped buffer if the budget allows |
| BufferPool.RunKeepsInv | crates/streaming/src/buffer.rs:65-196 | in every interleaving the recorded capacity is the cached buffers' sum and within budget, and no allocation has two owners |
| BufferPool.DroppedIsCachedExactly | crates/streaming/src/buffer.rs:179-195 | a dropped buffer is cached if and only if the lock was free and the cached capacities leave room for it |
| BufferPool.AcquiredFits | crates/streaming/src/buffer.rs:65-84 | a buffer handed out is empty, large enough and nobody else's; it is a new one if and only if no cached one would do |

## Left out

- BitReader.CodeOfReadUe: only for codes with fewer than 32 leading zeros; longer ones are not codes of 32-bit values.
- AudioPacketizer.CallClockIsExact: for calls of up to 2^32 samples, beyond which the offset itself is cut to 32 bits.
- Rounding: samples, positions, levels and filters are real numbers, not `f32` or `f64`; the level meter's root and logarithm are one arbitrary function into [0, 1] that sends 0 to 0.
- Overflow checks of debug builds: where the debug build panics (timestamps, crop sums, long Exp-Golomb codes) the release build's wrapping is modelled.
- Counters that would take too long to wrap: the elastic streaks, the cooldown product, and the voice bridge's round counter are unbounded.
- The text of error messages, and logging.
- `parse_pps`, `find_keyframes`, NAL type names, RTCP, VUI, emulation-prevention removal, field-coded heights: not modelled.
- Values inside scaling lists, which the program skips.
- Resets in the rate limiter's runs: the method is modelled, but runs are of requests only.
- The audio monitor's device callbacks and the broadcast that ends its worker when nobody listens.
- The channel count of the audio packetizer, which only a debug assertion reads.
- The table lock of the rate limiter and the system clock behind it: requests come one at a time with their time.
- The voice bridge's transcripts, decisions, speech and records: only the slot, the cancel flags and the round numbers.
- The elastic controller's sampling, persistence and live swap around its decision.
- Reading, parsing, printing and writing configuration files, and failing writes: a file is the tree it parses to, and one that was written parses to the tree written.
- The bytes in pooled buffers, and the allocator: a buffer is its allocation, capacity and length, and live capacities fit the address space.
