/** STAP-A aggregation of H.264 NAL units (RFC 6184, section 5.7.1). */
module StapA {
  import opened Bytes

  datatype BuildError = NoNals | EmptyNal(at: nat) | NriMismatch(at: nat)
  datatype ParseError = EmptyPayload | NotStapA | MissingSize | ZeroLengthNal | TruncatedNal

  function Nri(b: byte): (nri: byte)
    ensures nri < 4
  {
    b / 32 % 4
  }

  // ----- Building -----

  /** One aggregation unit. The size field is the length cut to 16 bits. */
  function Unit(nal: seq<byte>): (b: seq<byte>)
    ensures |b| == 2 + |nal|
  {
    U16Be(|nal| % 0x1_0000) + nal
  }

  function Units(nals: seq<seq<byte>>): seq<byte> {
    if |nals| == 0 then [] else Unit(nals[0]) + Units(nals[1..])
  }

  /** The first NAL, from `i` on, that stops the list from being built. */
  function FirstFault(nals: seq<seq<byte>>, nri: byte, i: nat): (r: Option<BuildError>)
    requires i <= |nals|
    ensures r.None? <==> forall k | i <= k < |nals| :: |nals[k]| > 0 && Nri(nals[k][0]) == nri
    decreases |nals| - i
  {
    if i == |nals| then None
    else if |nals[i]| == 0 then Some(EmptyNal(i))
    else if Nri(nals[i][0]) != nri then Some(NriMismatch(i))
    else FirstFault(nals, nri, i + 1)
  }

  function Build(nals: seq<seq<byte>>): Result<seq<byte>, BuildError> {
    if |nals| == 0 then Err(NoNals)
    else if |nals[0]| == 0 then Err(EmptyNal(0)) else
    var nri := Nri(nals[0][0]);
    var fault := FirstFault(nals, nri, 0);
    if fault.Some? then Err(fault.value) else Ok([nri * 32 + 24] + Units(nals))
  }

  lemma {:induction false} UnitsSnoc(nals: seq<seq<byte>>, nal: seq<byte>)
    ensures Units(nals + [nal]) == Units(nals) + Unit(nal)
  {
    hide Unit;
    if |nals| == 0 {
      assert (nals + [nal])[1..] == [];
    } else {
      UnitsSnoc(nals[1..], nal);
      assert (nals + [nal])[1..] == nals[1..] + [nal];
    }
  }

  method BuildStapa(nals: seq<seq<byte>>) returns (r: Result<seq<byte>, BuildError>)
    ensures r == Build(nals)
  {
    hide Nri, Unit;
    if |nals| == 0 { return Err(NoNals); }
    if |nals[0]| == 0 { return Err(EmptyNal(0)); }
    var nri := Nri(nals[0][0]);
    for i := 0 to |nals|
      invariant FirstFault(nals, nri, 0) == FirstFault(nals, nri, i)
    {
      if |nals[i]| == 0 { return Err(EmptyNal(i)); }
      if Nri(nals[i][0]) != nri { return Err(NriMismatch(i)); }
    }
    var payload := [nri * 32 + 24];
    for i := 0 to |nals|
      invariant payload == [nri * 32 + 24] + Units(nals[..i])
    {
      UnitsSnoc(nals[..i], nals[i]);
      assert nals[..i + 1] == nals[..i] + [nals[i]];
      payload := payload + Unit(nals[i]);
    }
    assert nals[..|nals|] == nals;
    r := Ok(payload);
  }

  // ----- Parsing -----

  /** The NALs in a run of aggregation units. */
  function ParseUnits(b: seq<byte>): Result<seq<seq<byte>>, ParseError> {
    if |b| == 0 then Ok([])
    else if |b| < 2 then Err(MissingSize) else
    var size: int := FromU16Be(b[..2]);
    if size == 0 then Err(ZeroLengthNal)
    else if 2 + size > |b| then Err(TruncatedNal) else
    var rest := ParseUnits(b[2 + size..]);
    if rest.Err? then rest else Ok([b[2..2 + size]] + rest.value)
  }

  function Parse(payload: seq<byte>): Result<seq<seq<byte>>, ParseError> {
    if |payload| == 0 then Err(EmptyPayload)
    else if payload[0] % 32 != 24 then Err(NotStapA)
    else ParseUnits(payload[1..])
  }

  function Prepend(nals: seq<seq<byte>>, r: Result<seq<seq<byte>>, ParseError>): Result<seq<seq<byte>>, ParseError> {
    if r.Err? then r else Ok(nals + r.value)
  }

  lemma PrependTwice(a: seq<seq<byte>>, b: seq<seq<byte>>, r: Result<seq<seq<byte>>, ParseError>)
    ensures Prepend(a, Prepend(b, r)) == Prepend(a + b, r) && Prepend([], r) == r
  {
    if r.Ok? {
      assert a + (b + r.value) == (a + b) + r.value;
      assert [] + r.value == r.value;
    }
  }

  lemma ReadUnit(payload: seq<byte>, offset: nat)
    requires offset < |payload|
    ensures ParseUnits(payload[offset..])
         == if offset + 2 > |payload| then Err(MissingSize) else
            var size: int := FromU16Be(payload[offset..offset + 2]);
            if size == 0 then Err(ZeroLengthNal)
            else if offset + 2 + size > |payload| then Err(TruncatedNal)
            else Prepend([payload[offset + 2..offset + 2 + size]], ParseUnits(payload[offset + 2 + size..]))
  {
    hide FromU16Be;
    var unread := payload[offset..];
    if offset + 2 <= |payload| {
      assert unread[..2] == payload[offset..offset + 2];
      var size: int := FromU16Be(unread[..2]);
      if 0 < size <= |unread| - 2 {
        assert unread[2..2 + size] == payload[offset + 2..offset + 2 + size];
        assert unread[2 + size..] == payload[offset + 2 + size..];
      }
    }
  }

  /** The program's parse loop; the unread part of the payload shrinks with every unit. */
  method ParseStapa(payload: seq<byte>) returns (r: Result<seq<seq<byte>>, ParseError>)
    ensures r == Parse(payload)
  {
    if |payload| == 0 { return Err(EmptyPayload); }
    if payload[0] % 32 != 24 { return Err(NotStapA); }
    var nals: seq<seq<byte>>, offset := [], 1;
    PrependTwice([], [], ParseUnits(payload[1..]));
    while offset < |payload|
      invariant 1 <= offset <= |payload|
      invariant ParseUnits(payload[1..]) == Prepend(nals, ParseUnits(payload[offset..]))
      decreases |payload| - offset
    {
      ReadUnit(payload, offset);
      hide ParseUnits, FromU16Be;
      if offset + 2 > |payload| { return Err(MissingSize); }
      var size: int := FromU16Be(payload[offset..offset + 2]);
      offset := offset + 2;
      if size == 0 { return Err(ZeroLengthNal); }
      if offset + size > |payload| { return Err(TruncatedNal); }
      PrependTwice(nals, [payload[offset..offset + size]], ParseUnits(payload[offset + size..]));
      nals := nals + [payload[offset..offset + size]];
      offset := offset + size;
    }
    assert nals + [] == nals;
    r := Ok(nals);
  }

  // ----- Round trips -----

  lemma UnitReadBack(b: seq<byte>, size: nat)
    requires |b| >= 2 && size == FromU16Be(b[..2]) && 2 + size <= |b|
    ensures Unit(b[2..2 + size]) == b[..2 + size]
  {
    U16Inverse(0, b[..2]);
    hide U16Be, FromU16Be;
    assert b[..2] + b[2..2 + size] == b[..2 + size];
  }

  /** A parsed run of units is its first unit and the parse of the rest. */
  lemma FirstUnit(b: seq<byte>)
    requires ParseUnits(b).Ok? && |b| > 0
    ensures |b| >= 2
    ensures var size: int := FromU16Be(b[..2]);
            && 0 < size <= |b| - 2 && ParseUnits(b[2 + size..]).Ok?
            && ParseUnits(b).value == [b[2..2 + size]] + ParseUnits(b[2 + size..]).value
  {
    hide FromU16Be;
  }

  lemma {:induction false} ParsedSizes(b: seq<byte>)
    requires ParseUnits(b).Ok?
    ensures forall nal <- ParseUnits(b).value :: 1 <= |nal| <= 0xFFFF
  {
    if |b| > 0 {
      FirstUnit(b);
      ParsedSizes(b[2 + FromU16Be(b[..2]) as int..]);
      hide ParseUnits;
    } else {
      assert ParseUnits(b).value == [];
    }
  }

  lemma {:induction false} UnitsOfParsed(b: seq<byte>)
    requires ParseUnits(b).Ok?
    ensures Units(ParseUnits(b).value) == b
  {
    if |b| > 0 {
      FirstUnit(b);
      hide ParseUnits, FromU16Be, Unit;
      var size: int := FromU16Be(b[..2]);
      UnitsOfParsed(b[2 + size..]);
      UnitReadBack(b, size);
      assert ParseUnits(b).value[1..] == ParseUnits(b[2 + size..]).value;
      assert b == b[..2 + size] + b[2 + size..];
    } else {
      assert ParseUnits(b).value == [];
    }
  }

  lemma UnitParts(nal: seq<byte>, rest: seq<byte>)
    requires |nal| <= 0xFFFF
    ensures var b := Unit(nal) + rest;
            FromU16Be(b[..2]) == |nal| && b[2..2 + |nal|] == nal && b[2 + |nal|..] == rest
  {
    var b, n := Unit(nal) + rest, |nal|;
    U16Inverse(n, U16Be(n));
    hide U16Be, FromU16Be;
    assert b[..2] == U16Be(n);
  }

  lemma ParseUnit(nal: seq<byte>, rest: seq<byte>)
    requires 1 <= |nal| <= 0xFFFF && ParseUnits(rest).Ok?
    ensures ParseUnits(Unit(nal) + rest) == Ok([nal] + ParseUnits(rest).value)
  {
    UnitParts(nal, rest);
    hide Unit, FromU16Be;
  }

  lemma {:induction false} ParseOfUnits(nals: seq<seq<byte>>)
    requires forall k | 0 <= k < |nals| :: 1 <= |nals[k]| <= 0xFFFF
    ensures ParseUnits(Units(nals)) == Ok(nals)
  {
    if |nals| > 0 {
      ParseOfUnits(nals[1..]);
      ParseUnit(nals[0], Units(nals[1..]));
      hide Unit, ParseUnits;
      assert nals == [nals[0]] + nals[1..];
    }
  }

  /** What was built parses back to the same NALs, exactly when every length fits the 16-bit size field. */
  lemma ParseAfterBuild(nals: seq<seq<byte>>)
    requires Build(nals).Ok?
    ensures Parse(Build(nals).value) == Ok(nals) <==> forall k | 0 <= k < |nals| :: |nals[k]| <= 0xFFFF
  {
    var b := Build(nals).value;
    var nri: int := Nri(nals[0][0]);
    assert (nri * 32 + 24) % 32 == 24;
    assert b[1..] == Units(nals);
    hide Build, Units, ParseUnits, Nri;
    if forall k | 0 <= k < |nals| :: |nals[k]| <= 0xFFFF {
      ParseOfUnits(nals);
    }
    if Parse(b) == Ok(nals) {
      ParsedSizes(b[1..]);
      forall k | 0 <= k < |nals| ensures |nals[k]| <= 0xFFFF {
        assert nals[k] in nals;
      }
    }
  }

  /** A list can be built if and only if it is not empty, holds no empty NAL and all its NALs share one NRI. */
  lemma BuildAccepts(nals: seq<seq<byte>>)
    ensures Build(nals).Ok? <==>
            && |nals| > 0
            && (forall k | 0 <= k < |nals| :: |nals[k]| > 0)
            && (forall j, k | 0 <= j < |nals| && 0 <= k < |nals| :: Nri(nals[j][0]) == Nri(nals[k][0]))
  {
    hide Nri;
  }

  /** Rebuilding what a payload was parsed into gives the payload back, exactly when its F bit is clear
      and its NALs all carry the indicator's NRI. */
  lemma BuildAfterParse(payload: seq<byte>)
    requires Parse(payload).Ok? && |Parse(payload).value| > 0
    ensures var nals := Parse(payload).value;
            && (forall k | 0 <= k < |nals| :: |nals[k]| > 0)
            && (Build(nals) == Ok(payload) <==>
                  payload[0] < 128 && forall k | 0 <= k < |nals| :: Nri(nals[k][0]) == Nri(payload[0]))
  {
    var nals := Parse(payload).value;
    ParsedSizes(payload[1..]);
    UnitsOfParsed(payload[1..]);
    assert forall k | 0 <= k < |nals| :: nals[k] in nals;
    var nri := Nri(nals[0][0]);
    IndicatorByte(payload[0], nri);
    assert payload == [payload[0]] + payload[1..];
    assert nri * 32 + 24 != payload[0] ==> ([nri * 32 + 24] + Units(nals))[0] != payload[0];
  }

  lemma IndicatorByte(b: byte, nri: byte)
    requires b % 32 == 24 && nri < 4
    ensures nri * 32 + 24 == b <==> b < 128 && Nri(b) == nri
  {
    var q: int := b / 32;
    assert b == q * 32 + 24;
  }

  /** On the wire: an indicator of type 24, then each NAL behind its length, most significant octet first. */
  lemma FirstUnitPlaced(payload: seq<byte>)
    requires Parse(payload).Ok?
    ensures |payload| > 0 && payload[0] % 32 == 24
    ensures |payload| == 1 <==> Parse(payload).value == []
    ensures |payload| > 1 ==>
              && |payload| >= 3
              && var size := 0x100 * payload[1] as int + payload[2] as int;
                 && 0 < size <= |payload| - 3
                 && Parse(payload).value[0] == payload[3..3 + size]
                 && Parse([payload[0]] + payload[3 + size..]) == Ok(Parse(payload).value[1..])
  {
    hide Unit;
    var b := payload[1..];
    if |b| > 0 {
      FirstUnit(b);
      var size: int := FromU16Be(b[..2]);
      assert b[2..2 + size] == payload[3..3 + size] && b[2 + size..] == payload[3 + size..];
      var rest := [payload[0]] + payload[3 + size..];
      assert rest[1..] == payload[3 + size..];
      hide ParseUnits;
      assert ([payload[3..3 + size]] + ParseUnits(rest[1..]).value)[1..] == ParseUnits(rest[1..]).value;
    }
  }

  /** A built payload has type 24, a clear forbidden bit and the NALs' reference. */
  lemma BuiltIndicator(nals: seq<seq<byte>>)
    requires Build(nals).Ok?
    ensures var p := Build(nals).value;
            |p| > 0 && p[0] < 128 && p[0] % 32 == 24 && p[0] / 32 == nals[0][0] / 32 % 4
  {
    hide Units;
  }
}
