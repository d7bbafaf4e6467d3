/** Splitting a byte stream into NAL units: Annex B start codes (ITU-T H.264, section B.1) and AVCC lengths. */
module AnnexB {
  import opened Bytes

  /** A start code and the first byte after it. */
  datatype StartCode = StartCode(start: nat, data: nat)

  predicate LongCodeAt(data: seq<byte>, i: nat) {
    i + 3 < |data| && data[i] == 0 && data[i + 1] == 0 && data[i + 2] == 0 && data[i + 3] == 1
  }

  predicate ShortCodeAt(data: seq<byte>, i: nat) {
    i + 2 < |data| && data[i] == 0 && data[i + 1] == 0 && data[i + 2] == 1
  }

  // ----- The scan -----

  /** The codes met from `i` on; near the end the scan stops as soon as fewer than four bytes are left. */
  function Scan(data: seq<byte>, i: nat): seq<StartCode>
    decreases |data| - i
  {
    if i + 3 >= |data| then []
    else if LongCodeAt(data, i) then [StartCode(i, i + 4)] + Scan(data, i + 4)
    else if ShortCodeAt(data, i) then [StartCode(i, i + 3)] + Scan(data, i + 3)
    else Scan(data, i + 1)
  }

  method FindStartCodes(data: seq<byte>) returns (results: seq<StartCode>)
    ensures results == Scan(data, 0)
  {
    results := [];
    var i := 0;
    while i + 3 < |data|
      invariant Scan(data, 0) == results + Scan(data, i)
    {
      if data[i] == 0 && data[i + 1] == 0 && data[i + 2] == 0 && data[i + 3] == 1 {
        results := results + [StartCode(i, i + 4)];
        i := i + 4;
        continue;
      }
      if data[i] == 0 && data[i + 1] == 0 && data[i + 2] == 1 {
        results := results + [StartCode(i, i + 3)];
        i := i + 3;
        continue;
      }
      i := i + 1;
    }
  }

  /** Where the scan should report a code: at every 00 00 01, taking in one more zero in front when there is one.
      A code that ends the stream is reported only in its four-byte form. */
  predicate Reported(data: seq<byte>, c: StartCode) {
    && c.data >= 3 && ShortCodeAt(data, c.data - 3)
    && (if c.data >= 4 && data[c.data - 4] == 0 then c.start == c.data - 4
        else c.start == c.data - 3 && c.data < |data|)
  }

  /** One step of the scan accounts for the codes that start before it goes on. */
  lemma ReportedStep(data: seq<byte>, i: nat, c: StartCode)
    requires 0 < i <= |data| && data[i - 1] == 0 ==> !ShortCodeAt(data, i)
    ensures Reported(data, c) && c.start >= i <==>
            if i + 3 >= |data| then false
            else if LongCodeAt(data, i) then c == StartCode(i, i + 4) || (Reported(data, c) && c.start >= i + 4)
            else if ShortCodeAt(data, i) then c == StartCode(i, i + 3) || (Reported(data, c) && c.start >= i + 3)
            else Reported(data, c) && c.start >= i + 1
  {
  }

  lemma {:induction false} ScanFrom(data: seq<byte>, i: nat)
    requires 0 < i <= |data| && data[i - 1] == 0 ==> !ShortCodeAt(data, i)
    ensures forall c :: c in Scan(data, i) <==> Reported(data, c) && c.start >= i
    decreases |data| - i
  {
    forall c { ReportedStep(data, i, c); }
    if i + 3 < |data| {
      var next := if LongCodeAt(data, i) then i + 4 else if ShortCodeAt(data, i) then i + 3 else i + 1;
      ScanFrom(data, next);
      hide Reported;
    }
  }

  /** Codes inside the data from `i` on, each ending before the next begins. */
  ghost predicate InOrder(data: seq<byte>, i: nat, s: seq<StartCode>) {
    && (forall k | 0 <= k < |s| :: i <= s[k].start && s[k].start < s[k].data && s[k].data <= |data|)
    && (forall j, k | 0 <= j < k < |s| :: s[j].data <= s[k].start)
  }

  lemma InOrderCons(data: seq<byte>, i: nat, next: nat, rest: seq<StartCode>)
    requires i < next <= |data| && InOrder(data, next, rest)
    ensures InOrder(data, i, [StartCode(i, next)] + rest) && InOrder(data, i, rest)
  {
    var s := [StartCode(i, next)] + rest;
    assert forall k | 1 <= k < |s| :: s[k] == rest[k - 1];
  }

  lemma {:induction false} ScanOrdered(data: seq<byte>, i: nat)
    ensures InOrder(data, i, Scan(data, i)) && InOrder(data, 0, Scan(data, i))
    decreases |data| - i
  {
    if i + 3 < |data| {
      var next := if LongCodeAt(data, i) then i + 4 else if ShortCodeAt(data, i) then i + 3 else i + 1;
      ScanOrdered(data, next);
      InOrderCons(data, i, next, Scan(data, next));
    }
    hide Scan;
  }

  /** The scan reports exactly the codes there are, in order and without overlap. */
  lemma ScanIsExact(data: seq<byte>)
    ensures forall c :: c in Scan(data, 0) <==> Reported(data, c)
    ensures InOrder(data, 0, Scan(data, 0))
  {
    ScanFrom(data, 0);
    ScanOrdered(data, 0);
  }

  // ----- Annex B splitting -----

  /** The bytes of one unit; an empty unit is not reported. */
  function Piece(data: seq<byte>, from: nat, end: nat): seq<seq<byte>>
    requires end <= |data|
  {
    if from < end then [data[from..end]] else []
  }

  /** The bytes between each code and the next. */
  function Slices(data: seq<byte>, codes: seq<StartCode>): seq<seq<byte>>
    requires InOrder(data, 0, codes)
  {
    if |codes| == 0 then [] else
    Piece(data, codes[0].data, if |codes| > 1 then codes[1].start else |data|) + Slices(data, codes[1..])
  }

  function Split(data: seq<byte>): seq<seq<byte>> {
    var codes := Scan(data, 0);
    if |codes| == 0 then (if |data| > 0 then [data] else [])
    else ScanOrdered(data, 0); Slices(data, codes)
  }

  lemma {:induction false} SlicesSnoc(data: seq<byte>, codes: seq<StartCode>, i: nat)
    requires InOrder(data, 0, codes)
    requires i <= |codes|
    ensures Slices(data, codes) == SlicesUpTo(data, codes, i) + Slices(data, codes[i..])
  {
    if i == 0 {
      assert codes[0..] == codes;
    } else {
      SlicesSnoc(data, codes, i - 1);
      var rest := codes[i - 1..];
      hide InOrder, Piece;
      assert rest[1..] == codes[i..];
      assert i < |codes| ==> rest[1] == codes[i];
      ConcatAssoc(SlicesUpTo(data, codes, i - 1), PieceAt(data, codes, i - 1), Slices(data, codes[i..]));
    }
  }

  function PieceAt(data: seq<byte>, codes: seq<StartCode>, i: nat): seq<seq<byte>>
    requires InOrder(data, 0, codes) && i < |codes|
  {
    Piece(data, codes[i].data, if i + 1 < |codes| then codes[i + 1].start else |data|)
  }

  function SlicesUpTo(data: seq<byte>, codes: seq<StartCode>, i: nat): seq<seq<byte>>
    requires InOrder(data, 0, codes)
    requires i <= |codes|
  {
    if i == 0 then [] else
    SlicesUpTo(data, codes, i - 1) + PieceAt(data, codes, i - 1)
  }

  method SplitNalUnits(data: seq<byte>) returns (units: seq<seq<byte>>)
    ensures units == Split(data)
  {
    var codes := FindStartCodes(data);
    if |codes| == 0 {
      return if |data| > 0 then [data] else [];
    }
    ScanOrdered(data, 0);
    units := [];
    for i := 0 to |codes|
      invariant units == SlicesUpTo(data, codes, i)
    {
      var end := if i + 1 < |codes| then codes[i + 1].start else |data|;
      if codes[i].data < end {
        units := units + [data[codes[i].data..end]];
      }
    }
    SlicesSnoc(data, codes, |codes|);
  }

  // ----- Valid streams -----

  /** A NAL unit as section 7.4.1 has it: no start code or run of three zeros inside, no zero at the end. */
  predicate ValidNal(nal: seq<byte>) {
    && |nal| > 0 && nal[|nal| - 1] != 0
    && forall i | 0 <= i && i + 2 < |nal| :: !(nal[i] == 0 && nal[i + 1] == 0 && nal[i + 2] <= 1)
  }

  datatype CodedNal = CodedNal(long: bool, nal: seq<byte>)

  function Code(long: bool): seq<byte> { if long then [0, 0, 0, 1] else [0, 0, 1] }

  function Stream(units: seq<CodedNal>): seq<byte> {
    if |units| == 0 then [] else Code(units[0].long) + (units[0].nal + Stream(units[1..]))
  }

  function Nals(units: seq<CodedNal>): (nals: seq<seq<byte>>)
    ensures |nals| == |units|
  {
    seq(|units|, i requires 0 <= i < |units| => units[i].nal)
  }

  /** Inside a valid NAL, up to the end or the next code, the scan finds nothing. */
  lemma {:induction false} ScanSkips(data: seq<byte>, i: nat, end: nat, nal: seq<byte>)
    requires i <= end <= |data| && |nal| <= end && data[end - |nal|..end] == nal && ValidNal(nal)
    requires end - |nal| <= i
    ensures Scan(data, i) == Scan(data, end)
    decreases end - i
  {
    if i < end {
      var base := end - |nal|;
      forall j | base <= j < end ensures data[j] == nal[j - base] {}
      assert data[end - 1] != 0;
      if i + 2 < end {
        assert !(nal[i - base] == 0 && nal[i - base + 1] == 0 && nal[i - base + 2] <= 1);
      }
      assert !LongCodeAt(data, i) && !ShortCodeAt(data, i);
      ScanSkips(data, i + 1, end, nal);
    }
  }

  /** A code with a byte after it is met where it stands, in the form it has. */
  lemma CodeScans(data: seq<byte>, at: nat, long: bool)
    requires at + |Code(long)| < |data| && forall k | 0 <= k < |Code(long)| :: data[at + k] == Code(long)[k]
    ensures var start := at + |Code(long)|;
            Scan(data, at) == [StartCode(at, start)] + Scan(data, start)
  {
    var code := Code(long);
    assert data[at] == code[0] && data[at + 1] == code[1] && data[at + 2] == code[2];
    assert long ==> data[at + 3] == code[3];
  }

  lemma UnitBytes(data: seq<byte>, at: nat, u: CodedNal, rest: seq<byte>)
    requires at <= |data| && data[at..] == Code(u.long) + (u.nal + rest) && |u.nal| > 0
    ensures var start := at + |Code(u.long)|;
            && start + |u.nal| <= |data|
            && Scan(data, at) == [StartCode(at, start)] + Scan(data, start)
            && data[start..start + |u.nal|] == u.nal && data[start + |u.nal|..] == rest
  {
    hide Code, Scan;
    var tail, code := data[at..], Code(u.long);
    var start := at + |code|;
    assert |tail| == |code| + (|u.nal| + |rest|);
    forall k | 0 <= k < |code| ensures data[at + k] == code[k] {
      assert tail[k] == code[k];
    }
    CodeScans(data, at, u.long);
    SliceOfSlice(data, at, |data|, |code|, |code| + |u.nal|);
    SliceOfSlice(data, at, |data|, |code| + |u.nal|, |tail|);
    SplitThree(code, u.nal, rest);
  }

  lemma SplitThree(a: seq<byte>, b: seq<byte>, c: seq<byte>)
    ensures var s := a + (b + c);
            s[|a|..|a| + |b|] == b && s[|a| + |b|..|s|] == c
  {
  }

  lemma NalsCons(units: seq<CodedNal>)
    requires |units| > 0
    ensures Nals(units) == [units[0].nal] + Nals(units[1..])
  {
  }

  lemma FirstSlice(data: seq<byte>, codes: seq<StartCode>, start: nat, end: nat)
    requires |codes| > 0 && InOrder(data, 0, codes) && start < end <= |data|
    requires codes[0].data == start && end == if |codes| > 1 then codes[1].start else |data|
    ensures InOrder(data, 0, codes[1..])
    ensures Slices(data, codes) == [data[start..end]] + Slices(data, codes[1..])
  {
  }

  /** The stream from byte `at` on is scanned and cut into exactly its NALs. */
  lemma {:induction false} StreamScans(data: seq<byte>, at: nat, units: seq<CodedNal>)
    requires at <= |data| && data[at..] == Stream(units)
    requires forall k | 0 <= k < |units| :: ValidNal(units[k].nal)
    ensures var codes := Scan(data, at);
            && |codes| == |units|
            && (|codes| > 0 ==> codes[0].start == at)
            && InOrder(data, 0, codes)
            && Slices(data, codes) == Nals(units)
    decreases |units|
  {
    ScanOrdered(data, at);
    if |units| > 0 {
      hide Scan, Code, ValidNal, Nals, InOrder, Slices;
      var u, rest := units[0], Stream(units[1..]);
      var start := at + |Code(u.long)|;
      var end := start + |u.nal|;
      UnitBytes(data, at, u, rest);
      ScanSkips(data, start, end, u.nal);
      StreamScans(data, end, units[1..]);
      NalsCons(units);
      var codes := Scan(data, at);
      assert codes[1..] == Scan(data, end);
      assert codes[0] == StartCode(at, start);
      hide Stream;
      FirstSlice(data, codes, start, end);
    }
  }

  /** Any mix of three- and four-byte codes before valid NALs splits into those NALs. */
  lemma SplitOfStream(units: seq<CodedNal>)
    requires forall k | 0 <= k < |units| :: ValidNal(units[k].nal)
    ensures Split(Stream(units)) == Nals(units)
  {
    assert Stream(units)[0..] == Stream(units);
    StreamScans(Stream(units), 0, units);
  }

  lemma {:induction false} SlicesNonEmpty(data: seq<byte>, codes: seq<StartCode>)
    requires InOrder(data, 0, codes)
    ensures forall k | 0 <= k < |Slices(data, codes)| :: |Slices(data, codes)[k]| > 0
  {
    if |codes| > 0 { SlicesNonEmpty(data, codes[1..]); }
  }

  /** No unit is empty, whatever stands between the codes. */
  lemma UnitsNonEmpty(data: seq<byte>)
    ensures forall k | 0 <= k < |Split(data)| :: |Split(data)[k]| > 0
  {
    ScanOrdered(data, 0);
    SlicesNonEmpty(data, Scan(data, 0));
  }

  /** Data without a start code is one unit, and no data none. */
  lemma SplitOfCodeless(data: seq<byte>)
    requires forall c :: !Reported(data, c)
    ensures Split(data) == if |data| > 0 then [data] else []
  {
    FirstIsReported(data);
    hide Scan, Reported;
  }

  lemma FirstIsReported(data: seq<byte>)
    ensures |Scan(data, 0)| > 0 ==> Reported(data, Scan(data, 0)[0])
  {
    ScanIsExact(data);
    hide Scan, Reported;
    var codes := Scan(data, 0);
    if |codes| > 0 { assert codes[0] in codes; }
  }

  /** Bytes in front of the first code are dropped, here any that a NAL could be made of. */
  lemma SplitAfterJunk(junk: seq<byte>, units: seq<CodedNal>)
    requires ValidNal(junk) && |units| > 0 && forall k | 0 <= k < |units| :: ValidNal(units[k].nal)
    ensures Split(junk + Stream(units)) == Nals(units)
  {
    hide Stream, ValidNal, Nals;
    var data := junk + Stream(units);
    assert data[0..|junk|] == junk && data[|junk|..] == Stream(units);
    ScanSkips(data, 0, |junk|, junk);
    StreamScans(data, |junk|, units);
    hide Scan, Slices;
    ScanOrdered(data, 0);
  }

  // ----- AVCC -----

  /** The frames from byte `pos` on, up to the first that is empty or cut short. */
  function SplitAvcc(data: seq<byte>): seq<seq<byte>> {
    if |data| < 4 then [] else
    var length: int := FromU32Be(data[..4]);
    if length == 0 || 4 + length > |data| then [] else
    [data[4..4 + length]] + SplitAvcc(data[4 + length..])
  }

  function Avcc(nals: seq<seq<byte>>): seq<byte> {
    if |nals| == 0 then [] else Frame(nals[0]) + Avcc(nals[1..])
  }

  lemma ReadFrame(data: seq<byte>, pos: nat)
    requires pos + 4 <= |data|
    ensures SplitAvcc(data[pos..]) ==
            var length: int := FromU32Be(data[pos..pos + 4]);
            if length == 0 || pos + 4 + length > |data| then []
            else [data[pos + 4..pos + 4 + length]] + SplitAvcc(data[pos + 4 + length..])
  {
    hide FromU32Be;
    var rest := data[pos..];
    assert rest[..4] == data[pos..pos + 4];
    var length: int := FromU32Be(rest[..4]);
    if 0 < length <= |data| - pos - 4 {
      assert rest[4..4 + length] == data[pos + 4..pos + 4 + length];
      assert rest[4 + length..] == data[pos + 4 + length..];
    }
  }

  lemma JoinFrame(a: seq<seq<byte>>, u: seq<byte>, b: seq<seq<byte>>)
    ensures a + ([u] + b) == (a + [u]) + b && a + [] == a
  {
  }

  lemma NoFrameIn(data: seq<byte>)
    requires |data| < 4
    ensures SplitAvcc(data) == []
  {
  }

  method SplitNalUnitsAvcc(data: seq<byte>) returns (units: seq<seq<byte>>)
    ensures units == SplitAvcc(data)
  {
    hide SplitAvcc, FromU32Be;
    units := [];
    var pos := 0;
    assert data[0..] == data;
    while pos + 4 <= |data|
      invariant pos <= |data| && SplitAvcc(data) == units + SplitAvcc(data[pos..])
      decreases |data| - pos
    {
      ReadFrame(data, pos);
      var length: int := FromU32Be(data[pos..pos + 4]);
      if length == 0 { return; }
      var nalStart := pos + 4;
      var nalEnd := nalStart + length;
      if nalEnd > |data| { return; }
      JoinFrame(units, data[nalStart..nalEnd], SplitAvcc(data[nalEnd..]));
      units := units + [data[nalStart..nalEnd]];
      pos := nalEnd;
    }
    NoFrameIn(data[pos..]);
    JoinFrame(units, [], []);
  }

  function Frame(nal: seq<byte>): seq<byte> { U32Be(|nal| % 0x1_0000_0000) + nal }

  lemma ReadWrittenFrame(nal: seq<byte>, rest: seq<byte>)
    requires 0 < |nal| < 0x1_0000_0000
    ensures SplitAvcc(Frame(nal) + rest) == [nal] + SplitAvcc(rest)
  {
    var data, n := Frame(nal) + rest, |nal|;
    U32Inverse(n, U32Be(n));
    assert data[..4] == U32Be(n);
    hide U32Be, FromU32Be;
    assert data[4..4 + n] == nal;
    assert data[4 + n..] == rest;
  }

  lemma WriteReadFrame(data: seq<byte>, n: nat)
    requires |data| >= 4 && n == FromU32Be(data[..4]) && 4 + n <= |data|
    ensures Frame(data[4..4 + n]) == data[..4 + n]
  {
    U32Inverse(0, data[..4]);
    hide U32Be, FromU32Be;
    assert data[..4] + data[4..4 + n] == data[..4 + n];
  }

  /** Framing non-empty NALs with their 32-bit lengths and splitting gives them back. */
  lemma {:induction false} SplitOfAvcc(nals: seq<seq<byte>>)
    requires forall k | 0 <= k < |nals| :: 0 < |nals[k]| < 0x1_0000_0000
    ensures SplitAvcc(Avcc(nals)) == nals
  {
    if |nals| > 0 {
      ReadWrittenFrame(nals[0], Avcc(nals[1..]));
      SplitOfAvcc(nals[1..]);
      hide Frame, SplitAvcc;
      assert nals == [nals[0]] + nals[1..];
    }
  }

  /** Whatever the bytes, the frames found are a prefix of them, and what is left over starts with no full frame. */
  lemma {:induction false} AvccIsPrefix(data: seq<byte>)
    ensures var n := |Avcc(SplitAvcc(data))|;
            && n <= |data| && Avcc(SplitAvcc(data)) == data[..n]
            && SplitAvcc(data[n..]) == []
    decreases |data|
  {
    var length: int := if |data| >= 4 then FromU32Be(data[..4]) else 0;
    if 0 < length <= |data| - 4 {
      var rest := data[4 + length..];
      WriteReadFrame(data, length);
      AvccIsPrefix(rest);
      assert SplitAvcc(data)[1..] == SplitAvcc(rest);
      hide Frame, SplitAvcc, FromU32Be;
      var n := |Avcc(SplitAvcc(rest))|;
      assert data[..4 + length] + rest[..n] == data[..4 + length + n];
      assert data[4 + length + n..] == rest[n..];
    } else {
      assert data[0..] == data;
    }
  }

  /** The two framings of one list of valid NALs are split alike. */
  lemma FramingsAgree(units: seq<CodedNal>)
    requires forall k | 0 <= k < |units| :: ValidNal(units[k].nal) && |units[k].nal| < 0x1_0000_0000
    ensures Split(Stream(units)) == SplitAvcc(Avcc(Nals(units))) == Nals(units)
  {
    SplitOfStream(units);
    SplitOfAvcc(Nals(units));
  }
}
