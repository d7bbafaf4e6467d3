/** The audio monitor's streaming resampler and its 512-sample chunker, against one definition over the whole
    stream. Sample values and positions are real numbers. */
module Resampler {
  import opened Bytes

  const CHUNK_SAMPLES := 512

  // ----- The whole stream -----

  /** Position of output `n` in the input. */
  function Position(step: real, n: nat): real { n as real * step }

  function Blend(prev: real, cur: real, frac: real): real { prev + (cur - prev) * frac }

  /** Linear interpolation at position `x`. */
  function Interpolate(s: seq<real>, x: real): real
    requires 0.0 <= x && x + 1.0 < |s| as real
  {
    var k := x.Floor;
    Blend(s[k], s[k + 1], x - k as real)
  }

  /** `n` is the number of positions 0, step, 2 * step, ... whose right-hand neighbour is among `len` samples. */
  predicate IsCount(len: nat, step: real, n: nat) {
    && (n > 0 ==> Position(step, n - 1) + 1.0 < len as real)
    && !(Position(step, n) + 1.0 < len as real)
  }

  /** The interpolations at positions 0 to n - 1. */
  function Outputs(s: seq<real>, step: real, n: nat): (out: seq<real>)
    requires step > 0.0 && (n > 0 ==> Position(step, n - 1) + 1.0 < |s| as real)
    ensures |out| == n
  {
    if n == 0 then [] else
    Positions(step, n - 1);
    Outputs(s, step, n - 1) + [Interpolate(s, Position(step, n - 1))]
  }

  lemma Positions(step: real, n: nat)
    requires step > 0.0
    ensures Position(step, 0) == 0.0 <= Position(step, n)
    ensures Position(step, n + 1) == Position(step, n) + step
    ensures n > 0 ==> Position(step, n) == Position(step, n - 1) + step
  {
  }

  lemma OutputsSnoc(s: seq<real>, step: real, n: nat)
    requires step > 0.0 && (n > 0 ==> Position(step, n - 1) + 1.0 < |s| as real)
    requires Position(step, n) + 1.0 < |s| as real
    ensures 0.0 <= Position(step, n)
    ensures Outputs(s, step, n + 1) == Outputs(s, step, n) + [Interpolate(s, Position(step, n))]
  {
    Positions(step, n);
  }

  lemma {:induction false} PositionsOrdered(step: real, a: nat, b: nat)
    requires step > 0.0 && a <= b
    ensures Position(step, a) <= Position(step, b)
    decreases b
  {
    if a < b {
      PositionsOrdered(step, a, b - 1);
      Positions(step, b);
    }
  }

  lemma CountUnique(len: nat, step: real, m: nat, n: nat)
    requires step > 0.0 && IsCount(len, step, m) && IsCount(len, step, n)
    ensures m == n
  {
    hide Position;
    if m < n { PositionsOrdered(step, m, n - 1); }
    if n < m { PositionsOrdered(step, n, m - 1); }
  }

  lemma InterpolateOfPrefix(s: seq<real>, more: seq<real>, x: real)
    requires 0.0 <= x && x + 1.0 < |s| as real
    ensures Interpolate(s + more, x) == Interpolate(s, x)
  {
    assert x.Floor + 1 < |s|;
  }

  /** More input never changes what has been put out. */
  lemma {:induction false} OutputsOfPrefix(s: seq<real>, more: seq<real>, step: real, n: nat)
    requires step > 0.0 && (n > 0 ==> Position(step, n - 1) + 1.0 < |s| as real)
    ensures Outputs(s + more, step, n) == Outputs(s, step, n)
  {
    hide Position;
    if n > 0 {
      Positions(step, n - 1);
      OutputsOfPrefix(s, more, step, n - 1);
      InterpolateOfPrefix(s, more, Position(step, n - 1));
      hide Interpolate;
    }
  }

  lemma UnitPosition(n: nat)
    ensures Position(1.0, n) == n as real && Position(1.0, n).Floor == n
  {
  }

  lemma AtSample(s: seq<real>, k: nat)
    requires k + 1 < |s|
    ensures Interpolate(s, k as real) == s[k]
  {
  }

  lemma {:induction false} UnitOutputs(s: seq<real>, n: nat)
    requires n > 0 ==> n < |s|
    ensures n > 0 ==> Position(1.0, n - 1) + 1.0 < |s| as real
    ensures Outputs(s, 1.0, n) == s[..n]
  {
    if n > 0 {
      UnitPosition(n - 1);
      UnitOutputs(s, n - 1);
      AtSample(s, n - 1);
      hide Position, Interpolate;
      assert s[..n] == s[..n - 1] + [s[n - 1]];
    }
  }

  /** At equal rates no sample is lost or duplicated: all but the last, which waits for its neighbour, come out. */
  lemma UnitRatioCopies(s: seq<real>, n: nat)
    requires IsCount(|s|, 1.0, n)
    ensures n == (if |s| == 0 then 0 else |s| - 1) && Outputs(s, 1.0, n) == s[..n]
  {
    UnitPosition(n);
    if n > 0 { UnitPosition(n - 1); }
    hide Position;
    UnitOutputs(s, n);
  }

  /** Output `k` is taken at position `k` times the step. */
  lemma {:induction false} OutputAt(s: seq<real>, step: real, n: nat, k: nat)
    requires step > 0.0 && (n > 0 ==> Position(step, n - 1) + 1.0 < |s| as real) && k < n
    ensures var x := k as real * step;
            0.0 <= x && x + 1.0 < |s| as real && Outputs(s, step, n)[k] == Interpolate(s, x)
  {
    Positions(step, k);
    PositionsOrdered(step, k, n - 1);
    assert Position(step, k) == k as real * step;
    hide Interpolate, Position;
    if n > 0 {
      Positions(step, n - 1);
      if k < n - 1 { OutputAt(s, step, n - 1, k); }
    }
  }

  lemma BlendOnLine(a: real, b: real, i: real, f: real)
    ensures Blend(a + b * i, a + b * (i + 1.0), f) == a + b * (i + f)
  {
    assert b * (i + 1.0) == b * i + b;
    assert b * (i + f) == b * i + b * f;
  }

  /** Samples on a straight line. */
  ghost predicate IsLine(s: seq<real>, a: real, b: real) {
    forall i | 0 <= i < |s| :: s[i] == a + b * i as real
  }

  lemma InterpolateLine(s: seq<real>, x: real, a: real, b: real)
    requires 0.0 <= x && x + 1.0 < |s| as real
    requires IsLine(s, a, b)
    ensures Interpolate(s, x) == a + b * x
  {
    var i := x.Floor;
    var f := x - i as real;
    assert s[i] == a + b * i as real && s[i + 1] == a + b * (i + 1) as real;
    hide Blend;
    assert (i + 1) as real == i as real + 1.0 && x == i as real + f;
    BlendOnLine(a, b, i as real, f);
  }

  /** On a straight line the resampler stays on the line, between the samples too. */
  lemma LinesAreKept(s: seq<real>, step: real, n: nat, k: nat, a: real, b: real)
    requires step > 0.0 && IsCount(|s|, step, n) && k < n
    requires IsLine(s, a, b)
    ensures Outputs(s, step, n)[k] == a + b * (k as real * step)
  {
    hide Outputs, Interpolate, Position, IsLine;
    OutputAt(s, step, n, k);
    InterpolateLine(s, k as real * step, a, b);
  }

  lemma PartOf(w: real, f: real)
    requires 0.0 <= w && 0.0 <= f <= 1.0
    ensures 0.0 <= Product(w, f) <= w
  {
    assert w * f + w * (1.0 - f) == w;
    assert w * (1.0 - f) >= 0.0;
  }

  lemma BlendIs(prev: real, cur: real, f: real)
    ensures Blend(prev, cur, f) == prev + Product(cur - prev, f) == prev - Product(prev - cur, f)
  {
    var w := cur - prev;
    assert prev - cur == -w;
    assert -w * f == -(w * f);
  }

  lemma BlendBetween(prev: real, cur: real, f: real)
    requires 0.0 <= f <= 1.0
    ensures prev <= Blend(prev, cur, f) <= cur || cur <= Blend(prev, cur, f) <= prev
  {
    hide Blend, Product;
    BlendIs(prev, cur, f);
    if prev <= cur { PartOf(cur - prev, f); } else { PartOf(prev - cur, f); }
  }

  /** Every output lies between the two samples around its position. */
  lemma BetweenNeighbours(s: seq<real>, step: real, n: nat, k: nat)
    requires step > 0.0 && IsCount(|s|, step, n) && k < n
    ensures var i := (k as real * step).Floor;
            && 0 <= i && i + 1 < |s|
            && var y := Outputs(s, step, n)[k];
               s[i] <= y <= s[i + 1] || s[i + 1] <= y <= s[i]
  {
    OutputAt(s, step, n, k);
    hide Outputs;
    var x := k as real * step;
    var i := x.Floor;
    assert Outputs(s, step, n)[k] == Blend(s[i], s[i + 1], x - i as real);
    hide Interpolate, Blend;
    BlendBetween(s[i], s[i + 1], x - i as real);
  }

  /** The samples to drop after `len` samples of input are there to be dropped. */
  predicate DrainInRange(len: nat, step: real, n: nat) {
    Position(step, n).Floor <= len
  }

  // ----- The resampler -----

  function StepOf(ratio: real): (step: real)
    ensures step > 0.0
  {
    if ratio > 0.000001 then ratio else 0.000001
  }

  class LinearResampler {
    const step: real
    var pos: real
    var carry: seq<real>
    ghost var stream: seq<real>  // everything put in so far
    ghost var emitted: nat       // how many samples have come out
    ghost var dropped: nat       // how much of the stream has left `carry`

    constructor (ratio: real)
      ensures Valid() && step == StepOf(ratio) && stream == [] && emitted == 0
    {
      step := StepOf(ratio);
      pos, carry := 0.0, [];
      stream, emitted, dropped := [], 0, 0;
      new;
      Positions(step, 0);
    }

    ghost predicate Valid()
      reads this
    {
      && step > 0.0
      && dropped <= |stream| && carry == stream[dropped..]
      && 0.0 <= pos < 1.0 && pos == Position(step, emitted) - dropped as real
      && IsCount(|stream|, step, emitted)
    }

    /** Everything put out so far, as the definition over the whole stream gives it. */
    ghost function Emitted(): seq<real>
      requires Valid()
      reads this
    {
      Outputs(stream, step, emitted)
    }

    /** Between the two ends of a call: the new input is in `carry`, not all of it has been used. */
    ghost predicate Filled()
      reads this
    {
      && step > 0.0
      && dropped <= |stream| && carry == stream[dropped..]
      && 0.0 <= pos == Position(step, emitted) - dropped as real
      && (emitted > 0 ==> Position(step, emitted - 1) + 1.0 < |stream| as real)
    }

    method Interpolations() returns (samples: seq<real>)
      requires Filled()
      modifies this`pos, this`emitted
      ensures Filled() && IsCount(|stream|, step, emitted)
      ensures Outputs(stream, step, emitted) == old(Outputs(stream, step, emitted)) + samples
    {
      hide Position, Interpolate, Outputs, StepsLeft, Blend;
      samples := [];
      ghost var before := Outputs(stream, step, emitted);
      while pos + 1.0 < |carry| as real
        invariant Filled() && Outputs(stream, step, emitted) == before + samples
        decreases StepsLeft(|carry| as real - pos, step)
      {
        var k := pos.Floor;
        var frac := pos - k as real;
        var prev, cur := carry[k], carry[k + 1];
        NextOutput(stream, step, emitted, dropped, pos);
        StepsDecrease(|carry| as real - pos, step);
        var sample := Blend(prev, cur, frac);
        ConcatAssoc(before, samples, [sample]);
        samples := samples + [sample];
        pos := pos + step;
        emitted := emitted + 1;
      }
    }

    /** Resamples one buffer. `None` is the panic of a drain past the end of `carry`. */
    method Process(input: seq<real>) returns (out: Option<seq<real>>)
      requires Valid()
      modifies this
      ensures stream == old(stream) + input && IsCount(|stream|, step, emitted)
      ensures out.Some? <==> DrainInRange(|stream|, step, emitted)
      ensures out.Some? ==> Valid() && Emitted() == old(Emitted()) + out.value
    {
      FloorShift(pos, dropped);
      if |input| == 0 {
        assert stream + input == stream;
        return Some([]);
      }
      hide Position, Outputs;
      OutputsOfPrefix(stream, input, step, emitted);
      assert (stream + input)[dropped..] == carry + input;
      stream := stream + input;
      carry := carry + input;
      var samples := Interpolations();
      var drop := pos.Floor;
      FloorShift(pos, dropped);
      if drop > |carry| { return None; }
      carry := carry[drop..];
      pos := pos - drop as real;
      dropped := dropped + drop;
      out := Some(samples);
    }
  }

  lemma FloorShift(x: real, d: int)
    ensures (x + d as real).Floor == x.Floor + d
  {
    assert (x.Floor + d) as real == x.Floor as real + d as real;
  }

  lemma InterpolateAt(s: seq<real>, dropped: nat, pos: real)
    requires dropped <= |s| && 0.0 <= pos && pos + 1.0 < (|s| - dropped) as real
    ensures var k := pos.Floor;
            && 0 <= k && k + 1 < |s| - dropped
            && Interpolate(s, pos + dropped as real)
            == Blend(s[dropped..][k], s[dropped..][k + 1], pos - k as real)
  {
    FloorShift(pos, dropped);
    assert (pos.Floor + dropped) as real == pos.Floor as real + dropped as real;
  }

  /** The sample computed from `carry` is the next one of the whole stream. */
  lemma NextOutput(s: seq<real>, step: real, n: nat, dropped: nat, pos: real)
    requires step > 0.0 && (n > 0 ==> Position(step, n - 1) + 1.0 < |s| as real) && dropped <= |s|
    requires 0.0 <= pos == Position(step, n) - dropped as real && pos + 1.0 < (|s| - dropped) as real
    ensures Position(step, n) + 1.0 < |s| as real && Position(step, n + 1) == Position(step, n) + step
    ensures var k, carry := pos.Floor, s[dropped..];
            && 0 <= k && k + 1 < |carry|
            && Outputs(s, step, n + 1)
            == Outputs(s, step, n) + [Blend(carry[k], carry[k + 1], pos - k as real)]
  {
    Positions(step, n);
    OutputsSnoc(s, step, n);
    InterpolateAt(s, dropped, pos);
    hide Position, Outputs, Interpolate;
  }

  function StepsLeft(gap: real, step: real): int
    requires step > 0.0
  {
    (gap / step).Floor
  }

  lemma QuotientIs(x: real, d: real, q: real)
    requires d > 0.0 && q * d == x
    ensures x / d == q
  {
    assert (x / d - q) * d == 0.0;
  }

  lemma StepsDecrease(gap: real, step: real)
    requires step > 0.0 && gap > 1.0
    ensures 0 <= StepsLeft(gap, step) && StepsLeft(gap - step, step) == StepsLeft(gap, step) - 1
  {
    var q := gap / step;
    assert (q - 1.0) * step == gap - step;
    QuotientIs(gap - step, step, q - 1.0);
    assert q >= 0.0;
  }

  // ----- When the drain stays in range -----

  lemma {:induction false} DrainSafe(step: real, len: nat, n: nat)
    requires 0.0 < step <= 2.0 && IsCount(len, step, n)
    ensures DrainInRange(len, step, n)
  {
    Positions(step, n);
    hide Position;
    var x := Position(step, n);
    assert x < (len + 1) as real;
    assert x.Floor as real <= x;
    assert x.Floor as real < (len + 1) as real;
    assert x.Floor < len + 1;
  }

  function Product(a: real, d: real): real { a * d }

  /** The multiple of `d` at which one is reached. */
  lemma ReachOne(d: real) returns (m: nat)
    requires 0.0 < d < 1.0
    ensures Product(m as real, d) < 1.0 <= Product((m + 1) as real, d)
  {
    hide Product;
    var q := Reciprocal(d);
    m := FloorBelow(q);
    BelowOne(m as real, q, d);
    BelowOne(q, (m + 1) as real, d);
  }

  lemma Reciprocal(d: real) returns (q: real)
    requires 0.0 < d < 1.0
    ensures Product(q, d) == 1.0 && q > 1.0
  {
    q := 1.0 / d;
  }

  lemma FloorBelow(q: real) returns (m: nat)
    requires q > 1.0
    ensures m as real < q <= (m + 1) as real
  {
    m := if q == q.Floor as real then q.Floor - 1 else q.Floor;
  }

  /** For a step above 2 some first buffer makes the resampler drain past the end of what it holds. */
  lemma DrainUnsafe(step: real) returns (len: nat, n: nat)
    requires step > 2.0
    ensures IsCount(len, step, n) && !DrainInRange(len, step, n)
  {
    if step >= 3.0 {
      len, n := 2, 1;
    } else {
      var d := step - 2.0;
      var m := ReachOne(d);
      len, n := 2 * m + 2, m + 1;
      PositionOf(step, m, d);
      PositionOf(step, m + 1, d);
      hide Position, Product;
      assert Position(step, m + 1) >= (len + 1) as real;
    }
  }

  lemma BelowOne(a: real, q: real, d: real)
    requires a <= q && d > 0.0
    ensures Product(a, d) <= Product(q, d) && (a < q ==> Product(a, d) < Product(q, d))
  {
  }

  lemma PositionOf(step: real, n: nat, d: real)
    requires step == 2.0 + d
    ensures Position(step, n) == (2 * n) as real + Product(n as real, d)
  {
  }

  /** The resampler can never drain out of range if and only if its step is at most 2. */
  lemma DrainAlwaysInRange(step: real)
    requires step > 0.0
    ensures (forall len: nat, n: nat :: IsCount(len, step, n) ==> DrainInRange(len, step, n)) <==> step <= 2.0
  {
    if step <= 2.0 {
      forall len: nat, n: nat | IsCount(len, step, n) { DrainSafe(step, len, n); }
    } else {
      var len, n := DrainUnsafe(step);
    }
  }

  /** The step is the ratio itself, down to a millionth. */
  lemma StepIsRatio(ratio: real)
    ensures ratio >= 0.000001 ==> StepOf(ratio) == ratio
    ensures ratio < 0.000001 ==> StepOf(ratio) == 0.000001
  {
  }

  /** The plain case: 48 kHz in, 16 kHz out, a first buffer of 2048 samples. */
  lemma TripleRateFails()
    ensures IsCount(2048, 3.0, 683) && !DrainInRange(2048, 3.0, 683)
  {
  }

  // ----- The worker -----

  function Join<T>(xs: seq<seq<T>>): seq<T> {
    if |xs| == 0 then [] else Join(xs[..|xs| - 1]) + xs[|xs| - 1]
  }

  /** `(s.clamp(-1, 1) * 32767) as i16`: the cast drops the fraction. */
  function Quantise(s: real): (v: int)
    ensures -32767 <= v <= 32767
  {
    var x := (if s < -1.0 then -1.0 else if s > 1.0 then 1.0 else s) * 32767.0;
    if x >= 0.0 then x.Floor else -((-x).Floor)
  }

  /** Full scale is 32767; a sample beyond it is clipped, and any other keeps its sign and loses less than one step. */
  lemma QuantisedClosely(s: real)
    ensures var scaled := 32767.0 * (if s > 1.0 then 1.0 else if s < -1.0 then -1.0 else s);
            && -1.0 < Quantise(s) as real - scaled < 1.0
            && (s >= 0.0 ==> 0 <= Quantise(s) && Quantise(s) as real <= scaled)
            && (s <= 0.0 ==> Quantise(s) <= 0 && scaled <= Quantise(s) as real)
  {
  }

  function QuantiseAll(s: seq<real>): (v: seq<int>)
    ensures |v| == |s|
  {
    seq(|s|, i requires 0 <= i < |s| => Quantise(s[i]))
  }

  lemma JoinSnoc<T>(xs: seq<seq<T>>, x: seq<T>)
    ensures Join(xs + [x]) == Join(xs) + x
  {
    assert (xs + [x])[..|xs|] == xs;
  }

  /** Moves whole chunks out of the accumulator. */
  method TakeChunks(acc: seq<int>) returns (chunks: seq<seq<int>>, rest: seq<int>)
    ensures Join(chunks) + rest == acc && |rest| < 512
    ensures forall i | 0 <= i < |chunks| :: |chunks[i]| == 512
  {
    chunks, rest := [], acc;
    while |rest| >= CHUNK_SAMPLES
      invariant Join(chunks) + rest == acc
      invariant forall i | 0 <= i < |chunks| :: |chunks[i]| == CHUNK_SAMPLES
    {
      JoinSnoc(chunks, rest[..CHUNK_SAMPLES]);
      chunks := chunks + [rest[..CHUNK_SAMPLES]];
      rest := rest[CHUNK_SAMPLES..];
    }
  }

  lemma JoinConcat<T>(a: seq<seq<T>>, b: seq<seq<T>>)
    ensures Join(a + b) == Join(a) + Join(b)
  {
    if |b| == 0 {
      assert a + b == a;
    } else {
      var init, last := b[..|b| - 1], b[|b| - 1];
      assert a + b == (a + init) + [last];
      JoinSnoc(a + init, last);
      JoinConcat(a, init);
      ConcatAssoc(Join(a), Join(init), last);
    }
  }

  lemma QuantiseConcat(a: seq<real>, b: seq<real>)
    ensures QuantiseAll(a + b) == QuantiseAll(a) + QuantiseAll(b)
  {
  }

  /** The samples of the whole stream so far, quantised. */
  function WholeStream(s: seq<real>, step: real, n: nat): seq<int>
    requires step > 0.0 && IsCount(|s|, step, n)
  {
    QuantiseAll(Outputs(s, step, n))
  }

  /** No drain was out of range after the first `n` callbacks or before. */
  ghost predicate DrainsInRange(callbacks: seq<seq<real>>, step: real, n: nat)
    requires n <= |callbacks|
  {
    forall i: nat, m: nat | i <= n && IsCount(|Join(callbacks[..i])|, step, m) ::
      DrainInRange(|Join(callbacks[..i])|, step, m)
  }

  lemma NothingToDrain(callbacks: seq<seq<real>>, step: real)
    requires step > 0.0
    ensures DrainsInRange(callbacks, step, 0)
  {
    forall i: nat, m: nat | i <= 0 && IsCount(|Join(callbacks[..i])|, step, m)
      ensures DrainInRange(|Join(callbacks[..i])|, step, m)
    {
      Positions(step, 0);
      CountUnique(0, step, 0, m);
    }
  }

  lemma DrainedOnce(callbacks: seq<seq<real>>, step: real, n: nat, emitted: nat)
    requires step > 0.0 && n < |callbacks|
    requires IsCount(|Join(callbacks[..n + 1])|, step, emitted)
    ensures DrainsInRange(callbacks, step, n + 1) <==>
            DrainsInRange(callbacks, step, n) && DrainInRange(|Join(callbacks[..n + 1])|, step, emitted)
  {
    var len := |Join(callbacks[..n + 1])|;
    forall m: nat | IsCount(len, step, m) ensures m == emitted {
      CountUnique(len, step, m, emitted);
    }
    hide IsCount, DrainInRange, Join;
  }

  lemma DrainsBefore(callbacks: seq<seq<real>>, step: real, n: nat)
    requires n <= |callbacks|
    ensures DrainsInRange(callbacks, step, |callbacks|) ==> DrainsInRange(callbacks, step, n)
  {
  }

  /** The worker thread over a run of callbacks. Its chunks and what it still holds are the quantised whole stream,
      wherever the callbacks cut it; it dies exactly when a drain goes out of range, so never for a ratio up to 2. */
  method Work(ratio: real, callbacks: seq<seq<real>>)
    returns (chunks: seq<seq<int>>, acc: seq<int>, alive: bool, ghost n: nat)
    ensures alive ==> IsCount(|Join(callbacks)|, StepOf(ratio), n)
    ensures alive ==> Join(chunks) + acc == WholeStream(Join(callbacks), StepOf(ratio), n)
    ensures |acc| < 512 && forall i | 0 <= i < |chunks| :: |chunks[i]| == 512
    ensures ratio <= 2.0 ==> alive
    ensures alive <==> DrainsInRange(callbacks, StepOf(ratio), |callbacks|)
  {
    var resampler := new LinearResampler(ratio);
    chunks, acc, alive, n := [], [], true, 0;
    NothingToDrain(callbacks, StepOf(ratio));
    hide IsCount, DrainInRange, DrainsInRange, Outputs, Quantise;
    for i := 0 to |callbacks|
      invariant resampler.Valid() && resampler.step == StepOf(ratio)
      invariant resampler.stream == Join(callbacks[..i])
      invariant DrainsInRange(callbacks, StepOf(ratio), i)
      invariant Join(chunks) + acc == QuantiseAll(resampler.Emitted())
      invariant |acc| < CHUNK_SAMPLES && forall i | 0 <= i < |chunks| :: |chunks[i]| == CHUNK_SAMPLES
    {
      ghost var before := resampler.Emitted();
      var out := resampler.Process(callbacks[i]);
      assert callbacks[..i + 1] == callbacks[..i] + [callbacks[i]];
      JoinSnoc(callbacks[..i], callbacks[i]);
      DrainedOnce(callbacks, StepOf(ratio), i, resampler.emitted);
      if out.None? {
        alive := false;
        DrainsBefore(callbacks, StepOf(ratio), i + 1);
        if ratio <= 2.0 {
          DrainSafe(resampler.step, |resampler.stream|, resampler.emitted);
        }
        return;
      }
      QuantiseConcat(before, out.value);
      ghost var held := acc;
      var more: seq<seq<int>>;
      more, acc := TakeChunks(acc + QuantiseAll(out.value));
      JoinConcat(chunks, more);
      ConcatAssoc(Join(chunks), held, QuantiseAll(out.value));
      ConcatAssoc(Join(chunks), Join(more), acc);
      chunks := chunks + more;
    }
    assert callbacks[..|callbacks|] == callbacks;
    n := resampler.emitted;
  }
}
