/** The microphone level meter: accumulating windows, a minimum interval between emits, smoothing, clip warnings.
    Levels are real numbers, and the decibel mapping of a window's mean square is any function into [0, 1] that sends
    silence to zero. */
module LevelMeter {
  import opened Bytes
  import opened G711

  const WINDOW_SAMPLES := 1600
  const MIN_EMIT_INTERVAL_MS := 100
  const ATTACK := 0.6
  const RELEASE := 0.3
  const FLOOR := 0.01
  const CLIP_SAMPLE := 32600
  const RATIO := 10
  const WARN_STREAK := 5
  const U32_MAX := 0xFFFF_FFFF

  ghost predicate IsScale(scale: real -> real) {
    scale(0.0) == 0.0 && forall x :: 0.0 <= scale(x) <= 1.0
  }

  // ----- A window of samples -----

  function Square(sample: i16): (sq: real)
    ensures sq >= 0.0
  {
    var f := sample as real / 32768.0;
    f * f
  }

  function Energy(window: seq<i16>): (e: real)
    ensures e >= 0.0
  {
    if window == [] then 0.0 else Energy(window[..|window| - 1]) + Square(window[|window| - 1])
  }

  function ClipCount(window: seq<i16>): (n: nat)
    ensures n <= |window|
  {
    if window == [] then 0 else
    ClipCount(window[..|window| - 1]) + if Abs(window[|window| - 1]) >= CLIP_SAMPLE then 1 else 0
  }

  lemma Tally(window: seq<i16>, sample: i16)
    ensures Energy([]) == 0.0 && ClipCount([]) == 0
    ensures Energy(window + [sample]) == Energy(window) + Square(sample)
    ensures ClipCount(window + [sample]) == ClipCount(window) + if Abs(sample) >= CLIP_SAMPLE then 1 else 0
  {
    assert (window + [sample])[..|window|] == window;
  }

  function MeanSquare(window: seq<i16>): real
    requires window != []
  {
    Energy(window) / |window| as real
  }

  predicate Clipped(window: seq<i16>) { |window| > 0 && ClipCount(window) * RATIO >= |window| }

  predicate Silent(window: seq<i16>) { forall i | 0 <= i < |window| :: window[i] == 0 }

  // ----- The steps -----

  function Smoothed(level: real, target: real): real {
    var alpha := if target > level then ATTACK else RELEASE;
    var next := level + alpha * (target - level);
    if next < FLOOR then 0.0 else next
  }

  datatype Clips = Clips(streak: nat, warned: bool)

  function Fed(c: Clips, clipped: bool): (Clips, bool) {
    if !clipped then (Clips(0, false), false) else
    var streak := if c.streak < U32_MAX then c.streak + 1 else U32_MAX;
    if streak >= WARN_STREAK && !c.warned then (Clips(streak, true), true) else (Clips(streak, c.warned), false)
  }

  /** The meter as a plain definition would keep it: the pending samples themselves. */
  datatype Meter = Meter(window: seq<i16>, clips: Clips, level: real, lastEmitMs: Option<nat>)

  datatype Emit = Emit(window: seq<i16>, level: real, warned: bool, at: nat)

  predicate Due(m: Meter, now: nat) {
    m.lastEmitMs.None? || (now >= m.lastEmitMs.value && now - m.lastEmitMs.value >= MIN_EMIT_INTERVAL_MS)
  }

  function Updated(scale: real -> real, m: Meter, samples: seq<i16>, now: nat): (Meter, Option<Emit>) {
    var window := m.window + samples;
    if |window| < WINDOW_SAMPLES || !Due(m, now) then (m.(window := window), None) else
    var (clips, warned) := Fed(m.clips, Clipped(window));
    var level := Smoothed(m.level, scale(MeanSquare(window)));
    (Meter([], clips, level, Some(now)), Some(Emit(window, level, warned, now)))
  }

  class ClipDetector {
    var streak: nat
    var warned: bool

    constructor ()
      ensures View() == Clips(0, false)
    {
      streak, warned := 0, false;
    }

    ghost function View(): Clips
      reads this
    {
      Clips(streak, warned)
    }

    method Feed(clippedSamples: nat, windowSamples: nat) returns (warn: bool)
      modifies this
      ensures (View(), warn) == Fed(old(View()), windowSamples > 0 && clippedSamples * RATIO >= windowSamples)
    {
      if windowSamples > 0 && clippedSamples * RATIO >= windowSamples {
        streak := if streak < U32_MAX then streak + 1 else U32_MAX;
        if streak >= WARN_STREAK && !warned {
          warned := true;
          return true;
        }
      } else {
        streak, warned := 0, false;
      }
      return false;
    }
  }

  /** The program's meter keeps running sums only; the ghost window says which samples they stand for. */
  class LevelMeter {
    var pending: nat
    var pendingSq: real
    var pendingClips: nat
    const clips: ClipDetector
    var level: real
    var lastEmitMs: Option<nat>
    const scale: real -> real
    ghost var window: seq<i16>

    ghost predicate Valid()
      reads this
    {
      pending == |window| && pendingSq == Energy(window) && pendingClips == ClipCount(window)
    }

    ghost function View(): Meter
      reads this, clips
    {
      Meter(window, clips.View(), level, lastEmitMs)
    }

    constructor (scale: real -> real)
      ensures Valid() && View() == Meter([], Clips(0, false), 0.0, None) && this.scale == scale && fresh(clips)
    {
      pending, pendingSq, pendingClips := 0, 0.0, 0;
      clips := new ClipDetector();
      level, lastEmitMs := 0.0, None;
      this.scale := scale;
      window := [];
    }

    /** Adds a chunk to the sums, and publishes a level when the window is full and the last emit long enough ago. */
    method Update(samples: seq<i16>, now: nat) returns (emitted: Option<real>)
      requires Valid()
      modifies this, clips
      ensures Valid()
      ensures var (m, emit) := Updated(scale, old(View()), samples, now);
              View() == m && emitted == if emit.Some? then Some(emit.value.level) else None
    {
      hide Smoothed, Fed, Square, Energy, ClipCount;
      assert window + samples[..0] == window;
      for i := 0 to |samples|
        invariant pendingSq == Energy(window + samples[..i]) && pendingClips == ClipCount(window + samples[..i])
        invariant unchanged(clips) && unchanged(`pending, `window, `level, `lastEmitMs)
      {
        Tally(window + samples[..i], samples[i]);
        assert window + samples[..i + 1] == window + samples[..i] + [samples[i]];
        pendingSq := pendingSq + Square(samples[i]);
        if Abs(samples[i]) >= CLIP_SAMPLE { pendingClips := pendingClips + 1; }
      }
      assert window + samples[..|samples|] == window + samples;
      pending := pending + |samples|;
      window := window + samples;
      if pending < WINDOW_SAMPLES { return None; }
      if lastEmitMs.Some? && (if now >= lastEmitMs.value then now - lastEmitMs.value else 0) < MIN_EMIT_INTERVAL_MS {
        return None;
      }
      var target := scale(pendingSq / pending as real);
      assert target == scale(MeanSquare(window));
      Tally([], 0);
      hide MeanSquare;
      var _ := clips.Feed(pendingClips, pending);
      pending, pendingSq, pendingClips, window := 0, 0.0, 0, [];
      lastEmitMs := Some(now);
      level := Smoothed(level, target);
      return Some(level);
    }
  }

  // ----- Runs -----

  type Input = (seq<i16>, nat)

  /** The meter after a run of chunks at any times, and what it emitted. */
  function Run(scale: real -> real, inputs: seq<Input>): (Meter, seq<Emit>) {
    if inputs == [] then (Meter([], Clips(0, false), 0.0, None), []) else
    var (m, emits) := Run(scale, inputs[..|inputs| - 1]);
    var (next, emit) := Updated(scale, m, inputs[|inputs| - 1].0, inputs[|inputs| - 1].1);
    (next, if emit.Some? then emits + [emit.value] else emits)
  }

  function Heard(inputs: seq<Input>): seq<i16> {
    if inputs == [] then [] else Heard(inputs[..|inputs| - 1]) + inputs[|inputs| - 1].0
  }

  function Windows(emits: seq<Emit>): seq<i16> {
    if emits == [] then [] else Windows(emits[..|emits| - 1]) + emits[|emits| - 1].window
  }

  /** Every sample is in exactly one window, in order, or still pending. */
  lemma {:induction false} EverySampleOnce(scale: real -> real, inputs: seq<Input>)
    ensures var (m, emits) := Run(scale, inputs);
            Windows(emits) + m.window == Heard(inputs)
  {
    hide Smoothed, Fed, MeanSquare;
    if inputs != [] {
      var before, samples := inputs[..|inputs| - 1], inputs[|inputs| - 1].0;
      EverySampleOnce(scale, before);
      var (m, emits) := Run(scale, before);
      var (next, after) := Run(scale, inputs);
      ConcatAssoc(Windows(emits), m.window, samples);
      if |after| > |emits| {
        assert after[..|after| - 1] == emits;
        assert Windows(after) == Windows(emits) + (m.window + samples);
        assert Windows(after) + next.window == Windows(after);
      }
    }
  }

  function StreakOf(emits: seq<Emit>): nat {
    if emits == [] || !Clipped(emits[|emits| - 1].window) then 0 else StreakOf(emits[..|emits| - 1]) + 1
  }

  function LevelOf(emits: seq<Emit>): real { if emits == [] then 0.0 else emits[|emits| - 1].level }

  /** One emit against those before it. */
  ghost predicate EmitFits(scale: real -> real, emits: seq<Emit>, k: nat)
    requires k < |emits|
  {
    var e := emits[k];
    && |e.window| >= WINDOW_SAMPLES
    && (k > 0 ==> e.at >= emits[k - 1].at + MIN_EMIT_INTERVAL_MS)
    && e.level == Smoothed(if k > 0 then emits[k - 1].level else 0.0, scale(MeanSquare(e.window)))
    && (e.warned <==> StreakOf(emits[..k + 1]) == WARN_STREAK)
  }

  ghost predicate RunFits(scale: real -> real, m: Meter, emits: seq<Emit>) {
    && (forall k: nat | k < |emits| :: EmitFits(scale, emits, k))
    && m.lastEmitMs == (if emits == [] then None else Some(emits[|emits| - 1].at))
    && m.level == LevelOf(emits)
    && m.clips.streak == (if StreakOf(emits) < U32_MAX then StreakOf(emits) else U32_MAX)
    && (m.clips.warned <==> StreakOf(emits) >= WARN_STREAK)
  }

  lemma {:induction false} RunKeepsFit(scale: real -> real, inputs: seq<Input>)
    ensures var (m, emits) := Run(scale, inputs);
            RunFits(scale, m, emits)
  {
    hide Smoothed, MeanSquare, Clipped;
    if inputs != [] {
      var before := inputs[..|inputs| - 1];
      RunKeepsFit(scale, before);
      var (m, emits) := Run(scale, before);
      var (next, after) := Run(scale, inputs);
      if |after| > |emits| {
        assert after[..|emits|] == emits && after[..|after|] == after;
        forall k: nat | k < |after| ensures EmitFits(scale, after, k) {
          if k < |emits| {
            assert EmitFits(scale, emits, k);
            assert after[..k + 1] == emits[..k + 1];
          }
        }
      }
    }
  }

  /** Any two consecutive emits are at least 100 ms apart, by whatever clock, and each averages a full window. */
  lemma EmitsSpaced(scale: real -> real, inputs: seq<Input>, j: nat, k: nat)
    requires j < k < |Run(scale, inputs).1|
    ensures var emits := Run(scale, inputs).1;
            emits[k].at >= emits[j].at + (k - j) * 100 && |emits[k].window| >= 1600
    decreases k
  {
    RunKeepsFit(scale, inputs);
    var emits := Run(scale, inputs).1;
    hide Run, Smoothed, MeanSquare, StreakOf;
    assert EmitFits(scale, emits, k);
    if j < k - 1 { EmitsSpaced(scale, inputs, j, k - 1); }
  }

  lemma {:induction false} StreakAtLeast(emits: seq<Emit>, n: nat)
    ensures StreakOf(emits) >= n <==>
            n <= |emits| && forall i | |emits| - n <= i < |emits| :: Clipped(emits[i].window)
    decreases |emits|
  {
    hide Clipped;
    if n > 0 && emits != [] && Clipped(emits[|emits| - 1].window) {
      var before := emits[..|emits| - 1];
      StreakAtLeast(before, n - 1);
      assert forall i | 0 <= i < |before| :: before[i] == emits[i];
    }
  }

  /** A level comes out exactly when a hundred milliseconds of samples are there and as much time has passed. */
  lemma EmitsWhen(scale: real -> real, m: Meter, samples: seq<i16>, now: nat)
    ensures Updated(scale, m, samples, now).1.Some? <==>
            && |m.window| + |samples| >= 1600
            && (m.lastEmitMs.None? || now >= m.lastEmitMs.value + 100)
  {
  }

  /** Where a window is within half a percent of full scale. */
  function LoudAt(window: seq<i16>): set<nat> {
    set i: nat | i < |window| && (window[i] >= 32600 || window[i] <= -32600)
  }

  lemma {:induction false} LoudCounted(window: seq<i16>)
    ensures ClipCount(window) == |LoudAt(window)|
  {
    if window != [] {
      var n := |window| - 1;
      LoudCounted(window[..n]);
      var before := LoudAt(window[..n]);
      assert LoudAt(window) == if Abs(window[n]) >= 32600 then before + {n} else before;
    } else {
      assert LoudAt(window) == {};
    }
  }

  /** A window is clipped when a tenth of its samples or more are that loud. */
  lemma ClippedWhen(window: seq<i16>)
    ensures Clipped(window) <==> |window| > 0 && 10 * |LoudAt(window)| >= |window|
  {
    LoudCounted(window);
  }

  /** A steady window's mean square is its sample's square, full scale being one. */
  lemma MeanSquareOfSteady(window: seq<i16>, v: i16)
    requires window != [] && forall i | 0 <= i < |window| :: window[i] == v
    ensures MeanSquare(window) == (v as real / 32768.0) * (v as real / 32768.0)
  {
    EnergyOfSteady(window, v);
    var n, sq := |window| as real, Square(v);
    assert MeanSquare(window) == n * sq / n;
    Cancelled(n, sq);
  }

  lemma Cancelled(n: real, x: real)
    requires n > 0.0
    ensures n * x / n == x
  {
    var q := n * x / n;
    assert (q - x) * n == 0.0;
  }

  lemma {:induction false} EnergyOfSteady(window: seq<i16>, v: i16)
    requires forall i | 0 <= i < |window| :: window[i] == v
    ensures Energy(window) == |window| as real * Square(v)
  {
    hide Square;
    if window != [] {
      EnergyOfSteady(window[..|window| - 1], v);
      OneMoreTimes(|window| - 1, Square(v));
    }
  }

  lemma OneMoreTimes(n: nat, x: real)
    ensures n as real * x + x == (n + 1) as real * x
  {
    var r := n as real;
    assert (n + 1) as real == r + 1.0;
    assert (r + 1.0) * x == r * x + x;
  }

  /** One warning per episode: a window warns exactly when it is the fifth clipped one since a clean one. */
  lemma WarnsOncePerEpisode(scale: real -> real, inputs: seq<Input>, k: nat)
    requires k < |Run(scale, inputs).1|
    ensures var emits := Run(scale, inputs).1;
            emits[k].warned <==>
            && k >= 4 && (forall i | k - 4 <= i <= k :: Clipped(emits[i].window))
            && (k >= 5 ==> !Clipped(emits[k - 5].window))
  {
    RunKeepsFit(scale, inputs);
    var emits := Run(scale, inputs).1;
    hide Run, Smoothed, MeanSquare, StreakOf, Clipped;
    assert EmitFits(scale, emits, k);
    StreakAtLeast(emits[..k + 1], 5);
    StreakAtLeast(emits[..k + 1], 6);
  }

  lemma SmoothedBounds(level: real, target: real)
    requires 0.0 <= level <= 1.0 && 0.0 <= target <= 1.0
    ensures var next := Smoothed(level, target);
            next == 0.0 || FLOOR <= next <= 1.0
  {
  }

  /** The published level is exactly zero or between the floor and one. */
  lemma {:induction false} LevelBounded(scale: real -> real, inputs: seq<Input>, k: nat)
    requires IsScale(scale) && k < |Run(scale, inputs).1|
    ensures var level := Run(scale, inputs).1[k].level;
            level == 0.0 || 0.01 <= level <= 1.0
    decreases k
  {
    RunKeepsFit(scale, inputs);
    var emits := Run(scale, inputs).1;
    hide Run, Smoothed, MeanSquare, StreakOf;
    assert EmitFits(scale, emits, k);
    if k > 0 { LevelBounded(scale, inputs, k - 1); }
    SmoothedBounds(if k > 0 then emits[k - 1].level else 0.0, scale(MeanSquare(emits[k].window)));
  }

  // ----- Silence -----

  /** How much of a level is left after `n` silent windows. */
  function Fade(n: nat): (f: real)
    ensures 0.0 < f <= 1.0
  {
    if n == 0 then 1.0 else Fade(n - 1) * 0.7
  }

  function Faded(level: real, n: nat): real { level * Fade(n) }

  lemma {:induction false} SilentEnergy(window: seq<i16>)
    requires Silent(window)
    ensures Energy(window) == 0.0
  {
    if window != [] { SilentEnergy(window[..|window| - 1]); }
  }

  lemma SilentStep(level: real)
    requires 0.0 <= level
    ensures Smoothed(level, 0.0) == if level * 0.7 < 0.01 then 0.0 else level * 0.7
  {
  }

  function LevelBefore(emits: seq<Emit>, k: nat): real
    requires k <= |emits|
  {
    if k > 0 then emits[k - 1].level else 0.0
  }

  /** Each level comes from the one before it and its own window. */
  lemma EmitLevel(scale: real -> real, inputs: seq<Input>, k: nat)
    requires IsScale(scale) && k < |Run(scale, inputs).1|
    ensures var emits := Run(scale, inputs).1;
            && emits[k].window != []
            && emits[k].level == Smoothed(LevelBefore(emits, k), scale(MeanSquare(emits[k].window)))
            && 0.0 <= LevelBefore(emits, k) <= 1.0
  {
    RunKeepsFit(scale, inputs);
    if k > 0 { LevelBounded(scale, inputs, k - 1); }
    hide Run, Smoothed, StreakOf, MeanSquare;
    assert EmitFits(scale, Run(scale, inputs).1, k);
  }

  /** After `n` silent windows the level has faded by 0.7^n, or is exactly zero once that falls below the floor. */
  lemma {:induction false} SilenceFades(scale: real -> real, inputs: seq<Input>, k: nat, n: nat)
    requires IsScale(scale) && n > 0 && k + n <= |Run(scale, inputs).1|
    requires var emits := Run(scale, inputs).1; forall i | k <= i < k + n :: Silent(emits[i].window)
    ensures var emits := Run(scale, inputs).1;
            var left := Faded(LevelBefore(emits, k), n);
            emits[k + n - 1].level == if left < 0.01 then 0.0 else left
    decreases n
  {
    hide Run, Smoothed, Silent, Faded;
    var emits, last := Run(scale, inputs).1, k + n - 1;
    var before := LevelBefore(emits, k);
    EmitLevel(scale, inputs, k);
    EmitLevel(scale, inputs, last);
    SilentEnergy(emits[last].window);
    FadeSteps(before, n);
    if n > 1 { SilenceFades(scale, inputs, k, n - 1); }
    SilentStep(LevelBefore(emits, last));
  }

  lemma FadeSteps(level: real, n: nat)
    requires 0.0 <= level && n > 0
    ensures 0.0 <= Faded(level, n - 1) && Faded(level, n) == Faded(level, n - 1) * 0.7 && Faded(level, 0) == level
  {
    var f := Fade(n - 1);
    assert level * (f * 0.7) == (level * f) * 0.7;
  }

  /** Thirteen silent windows always bring the level to exactly zero. */
  lemma SilenceReachesZero(scale: real -> real, inputs: seq<Input>, k: nat, n: nat)
    requires IsScale(scale) && n >= 13 && k + n <= |Run(scale, inputs).1|
    requires var emits := Run(scale, inputs).1; forall i | k <= i < k + n :: Silent(emits[i].window)
    ensures Run(scale, inputs).1[k + n - 1].level == 0.0
  {
    hide Run, Faded, Silent;
    SilenceFades(scale, inputs, k, n);
    EmitLevel(scale, inputs, k);
    FadesOut(LevelBefore(Run(scale, inputs).1, k), n);
  }

  lemma FadesOut(level: real, n: nat)
    requires 0.0 <= level <= 1.0 && n >= 13
    ensures Faded(level, n) < 0.01
  {
    FadeAt(n);
    var f := Fade(n);
    assert level * f <= 1.0 * f;
  }

  /** Twelve are not enough from full scale. */
  lemma {:induction false} FadeAt(n: nat)
    requires n >= 13
    ensures Fade(n) < 0.01 && Fade(12) >= 0.01
  {
    if n > 13 {
      FadeAt(n - 1);
    } else {
      assert Fade(4) == 0.2401;
      assert Fade(8) == 0.05764801;
      assert Fade(12) == 0.013841287201;
    }
  }

  // ----- Loudness -----

  /** How much of the gap to a louder target is left after `n` windows. */
  function Gap(n: nat): (g: real)
    ensures 0.0 < g <= 1.0
  {
    if n == 0 then 1.0 else Gap(n - 1) * 0.4
  }

  lemma LoudStep(level: real, target: real)
    requires 0.0 <= level < target && target * ATTACK >= 0.01
    ensures Smoothed(level, target) == target - (target - level) * 0.4
  {
  }

  lemma GapSteps(gap: real, n: nat)
    requires 0.0 < gap && n > 0
    ensures gap * Gap(n) == (gap * Gap(n - 1)) * 0.4 && 0.0 < gap * Gap(n - 1) <= gap && gap * Gap(0) == gap
  {
    var g := Gap(n - 1);
    assert gap * (g * 0.4) == (gap * g) * 0.4;
  }

  /** Under `n` windows of one louder level the meter closes in on it, keeping 0.4^n of the gap. */
  lemma {:induction false} LoudnessRises(scale: real -> real, inputs: seq<Input>, k: nat, n: nat, target: real)
    requires IsScale(scale) && n > 0 && k + n <= |Run(scale, inputs).1|
    requires var emits := Run(scale, inputs).1;
             LevelBefore(emits, k) < target && target * ATTACK >= 0.01
             && forall i | k <= i < k + n :: emits[i].window != [] && scale(MeanSquare(emits[i].window)) == target
    ensures var emits := Run(scale, inputs).1;
            emits[k + n - 1].level == target - (target - LevelBefore(emits, k)) * Gap(n)
    decreases n
  {
    hide Run, Smoothed, MeanSquare, Gap;
    var emits, last := Run(scale, inputs).1, k + n - 1;
    var gap := target - LevelBefore(emits, k);
    EmitLevel(scale, inputs, k);
    EmitLevel(scale, inputs, last);
    GapSteps(gap, n);
    if n > 1 { LoudnessRises(scale, inputs, k, n - 1, target); }
    assert LevelBefore(emits, last) == target - gap * Gap(n - 1);
    LoudStep(LevelBefore(emits, last), target);
  }
}
