/** The elastic controller over whole runs: when it may step, how often, and that it settles. */
module ElasticRuns {
  import opened Bytes
  import opened Elastic

  datatype Sample = Sample(sig: Signals, at: nat)

  // ----- Runs -----

  function RunFrom(s: State, xs: seq<Sample>, p: Policy): State {
    if |xs| == 0 then s else
    var n := |xs| - 1;
    Decide(RunFrom(s, xs[..n], p), xs[n].sig, p, xs[n].at).0
  }

  /** The state a run reaches from a fresh controller. */
  function After(tier: Tier, xs: seq<Sample>, p: Policy): State { RunFrom(Initial(tier), xs, p) }

  /** What the controller answers to sample `i` of a run. */
  function ActionAt(tier: Tier, xs: seq<Sample>, p: Policy, i: nat): Action
    requires i < |xs|
  {
    Decide(After(tier, xs[..i], p), xs[i].sig, p, xs[i].at).1
  }

  predicate OnLadder(t: Tier) { t == Full || t == Mid || t == Lite }

  /** Positive times that do not go back. */
  ghost predicate Timed(xs: seq<Sample>) {
    && (forall i | 0 <= i < |xs| :: xs[i].at > 0)
    && (forall i, j | 0 <= i < j < |xs| :: xs[i].at <= xs[j].at)
  }

  predicate IsStep(a: Action) { a.TierDown? || a.TierUp? }
  predicate IsApplied(a: Action) { IsStep(a) || a.BatteryPin? }

  /** On AC, with so much memory free. */
  predicate InBand(x: Sample, band: Band, p: Policy) {
    var mem := x.sig.memAvailableMib;
    && !x.sig.battery
    && match band
       case Critical => mem < p.criticalMib
       case Low => p.criticalMib <= mem < p.enterLowMib
       case Middle => p.criticalMib <= mem && p.enterLowMib <= mem <= p.exitLowMib
       case High => p.criticalMib <= mem && p.enterLowMib <= mem && p.exitLowMib < mem
  }

  /** The two directions, treated alike below. */
  function BandFor(down: bool): Band { if down then Low else High }
  predicate StepsWay(a: Action, down: bool) { if down then a.TierDown? else a.TierUp? }
  function Streak(s: State, down: bool): nat { if down then s.lowStreak else s.highStreak }

  // ----- What every run keeps -----

  /** How many samples at the end of a run were on AC in the band, without a step that way. */
  function TrailingRun(tier: Tier, xs: seq<Sample>, p: Policy, down: bool): nat {
    if |xs| == 0 then 0 else
    var n := |xs| - 1;
    if InBand(xs[n], BandFor(down), p) && !StepsWay(ActionAt(tier, xs, p, n), down)
    then TrailingRun(tier, xs[..n], p, down) + 1 else 0
  }

  /** No applied action is younger than the remembered one. */
  ghost predicate LastActionIsLast(tier: Tier, xs: seq<Sample>, p: Policy) {
    forall j | 0 <= j < |xs| && IsApplied(ActionAt(tier, xs, p, j)) ::
      0 < xs[j].at <= After(tier, xs, p).lastActionAtMs
  }

  lemma ActionOfPrefix(tier: Tier, xs: seq<Sample>, p: Policy, n: nat, j: nat)
    requires j < n <= |xs|
    ensures ActionAt(tier, xs[..n], p, j) == ActionAt(tier, xs, p, j)
  {
    assert xs[..n][..j] == xs[..j];
  }

  lemma LastDecision(tier: Tier, xs: seq<Sample>, p: Policy)
    requires |xs| > 0
    ensures var n := |xs| - 1;
            Decide(After(tier, xs[..n], p), xs[n].sig, p, xs[n].at) == (After(tier, xs, p), ActionAt(tier, xs, p, n))
  {
  }

  /** The streaks count exactly those samples. */
  lemma {:induction false} StreakKept(tier: Tier, xs: seq<Sample>, p: Policy, down: bool)
    ensures Streak(After(tier, xs, p), down) == TrailingRun(tier, xs, p, down)
    ensures After(tier, xs, p).batteryLatched ==> Streak(After(tier, xs, p), down) == 0
  {
    if |xs| > 0 {
      hide Decide, After, ActionAt, RunFrom, InBand, StepsWay, Streak;
      var n := |xs| - 1;
      StreakKept(tier, xs[..n], p, down);
      StreakStep(After(tier, xs[..n], p), xs[n], p, down);
      LastDecision(tier, xs, p);
    }
  }

  /** One decision lengthens a streak on a sample of its band that it does not step on, and ends it on any other. */
  lemma StreakStep(s: State, x: Sample, p: Policy, down: bool)
    requires s.batteryLatched ==> Streak(s, down) == 0
    ensures var (t, a) := Decide(s, x.sig, p, x.at);
            && Streak(t, down) ==
               (if InBand(x, BandFor(down), p) && !StepsWay(a, down) then Streak(s, down) + 1 else 0)
            && (t.batteryLatched ==> Streak(t, down) == 0)
  {
  }

  lemma {:induction false} TrailingRunIsReal(tier: Tier, xs: seq<Sample>, p: Policy, down: bool)
    ensures var n := TrailingRun(tier, xs, p, down);
            && n <= |xs|
            && forall j | |xs| - n <= j < |xs| ::
                 InBand(xs[j], BandFor(down), p) && !StepsWay(ActionAt(tier, xs, p, j), down)
  {
    hide ActionAt, InBand, StepsWay;
    if |xs| > 0 {
      var n := |xs| - 1;
      TrailingRunIsReal(tier, xs[..n], p, down);
      forall j: nat | j < n { ActionOfPrefix(tier, xs, p, n, j); }
      assert forall j | 0 <= j < n :: xs[..n][j] == xs[j];
    }
  }

  lemma TimedPrefix(xs: seq<Sample>)
    requires Timed(xs) && |xs| > 0
    ensures var n := |xs| - 1;
            Timed(xs[..n]) && xs[n].at > 0 && (n > 0 ==> xs[..n][n - 1].at <= xs[n].at)
  {
  }

  lemma {:induction false} LastActionKept(tier: Tier, xs: seq<Sample>, p: Policy)
    requires Timed(xs)
    ensures LastActionIsLast(tier, xs, p)
    ensures |xs| > 0 ==> After(tier, xs, p).lastActionAtMs <= xs[|xs| - 1].at
    ensures |xs| == 0 ==> After(tier, xs, p).lastActionAtMs == 0
  {
    if |xs| > 0 {
      var n := |xs| - 1;
      hide Decide, ActionAt, After, RunFrom, IsApplied, Timed;
      TimedPrefix(xs);
      LastActionKept(tier, xs[..n], p);
      forall j: nat | j < n { ActionOfPrefix(tier, xs, p, n, j); }
      TimeStep(After(tier, xs[..n], p), xs[n], p);
      LastDecision(tier, xs, p);
      assert forall j | 0 <= j < n :: xs[..n][j] == xs[j];
    }
  }

  lemma TimeStep(s: State, x: Sample, p: Policy)
    ensures var (t, a) := Decide(s, x.sig, p, x.at);
            t.lastActionAtMs == if IsApplied(a) then x.at else s.lastActionAtMs
  {
  }

  /** A controller that starts on the ladder stays on it, and sits at its foot while latched on battery. */
  lemma {:induction false} TierKept(tier: Tier, xs: seq<Sample>, p: Policy)
    ensures After(tier, xs, p).batteryLatched ==> After(tier, xs, p).tier == Lite
    ensures OnLadder(tier) ==> OnLadder(After(tier, xs, p).tier)
    ensures |xs| > 0 ==> After(tier, xs, p).batteryLatched == xs[|xs| - 1].sig.battery
  {
    if |xs| > 0 {
      TierKept(tier, xs[..|xs| - 1], p);
    }
  }

  // ----- Steps -----

  /** No action applied before sample `i` is younger than the cooldown then. */
  ghost predicate CooledDown(tier: Tier, xs: seq<Sample>, p: Policy, i: nat)
    requires i < |xs|
  {
    forall j | 0 <= j < i && IsApplied(ActionAt(tier, xs, p, j)) :: xs[i].at - xs[j].at >= p.cooldownSecs * 1000
  }

  /** The remembered time is that of some applied action, once there is one. */
  lemma {:induction false} LastActionIsSome(tier: Tier, xs: seq<Sample>, p: Policy)
    ensures var last := After(tier, xs, p).lastActionAtMs;
            last > 0 ==> exists j :: 0 <= j < |xs| && IsApplied(ActionAt(tier, xs, p, j)) && xs[j].at == last
  {
    if |xs| > 0 {
      hide Decide, ActionAt, After, RunFrom, IsApplied;
      var n := |xs| - 1;
      LastActionIsSome(tier, xs[..n], p);
      TimeStep(After(tier, xs[..n], p), xs[n], p);
      LastDecision(tier, xs, p);
      if After(tier, xs, p).lastActionAtMs > 0 && !IsApplied(ActionAt(tier, xs, p, n)) {
        var j :| 0 <= j < n && IsApplied(ActionAt(tier, xs[..n], p, j))
                 && xs[..n][j].at == After(tier, xs[..n], p).lastActionAtMs;
        ActionOfPrefix(tier, xs, p, n, j);
        assert xs[..n][j] == xs[j];
      }
    } else {
      assert After(tier, xs, p).lastActionAtMs == 0;
    }
  }

  lemma CooledDownWhen(tier: Tier, xs: seq<Sample>, p: Policy, i: nat)
    requires Timed(xs) && i < |xs|
    ensures CooldownOpen(After(tier, xs[..i], p), p, xs[i].at) <==> CooledDown(tier, xs, p, i)
  {
    hide Decide, ActionAt, After, RunFrom, IsApplied;
    var last := After(tier, xs[..i], p).lastActionAtMs;
    assert Timed(xs[..i]);
    LastActionKept(tier, xs[..i], p);
    LastActionIsSome(tier, xs[..i], p);
    forall j: nat | j < i { ActionOfPrefix(tier, xs, p, i, j); }
    assert forall j | 0 <= j < i :: xs[..i][j] == xs[j];
    assert i > 0 ==> xs[..i][i - 1].at <= xs[i].at;
  }

  /** Exactly when a step is taken: the sample ends an unbroken run of `sustainSamples` AC samples in the band, none of
      them stepped on, the cooldown is over, and there is a rung to go to. */
  lemma StepWhen(tier: Tier, xs: seq<Sample>, p: Policy, i: nat, down: bool)
    requires Timed(xs) && i < |xs| && OnLadder(tier)
    ensures StepsWay(ActionAt(tier, xs, p, i), down) <==>
            && InBand(xs[i], BandFor(down), p) && TrailingRun(tier, xs[..i], p, down) + 1 >= p.sustainSamples
            && CooledDown(tier, xs, p, i) && After(tier, xs[..i], p).tier != Foot(down)
  {
    var before := After(tier, xs[..i], p);
    StreakKept(tier, xs[..i], p, down);
    CooledDownWhen(tier, xs, p, i);
    TierKept(tier, xs[..i], p);
    DecideSteps(before, xs[i], p, down);
    assert xs[..i + 1][..i] == xs[..i];
    hide Decide, InBand, RunFrom, CooledDown, CooldownOpen, After, TrailingRun;
  }

  lemma DecideSteps(s: State, x: Sample, p: Policy, down: bool)
    requires OnLadder(s.tier)
    ensures StepsWay(Decide(s, x.sig, p, x.at).1, down) <==>
            && InBand(x, BandFor(down), p) && Streak(s, down) + 1 >= p.sustainSamples
            && CooldownOpen(s, p, x.at) && s.tier != Foot(down)
  {
  }

  /** Every step is one rung, on a run of `sustainSamples` AC samples in its band of which none was stepped on
      before, and at least the cooldown after every action applied before it. */
  lemma StepSafety(tier: Tier, xs: seq<Sample>, p: Policy, i: nat, down: bool)
    requires Timed(xs) && i < |xs| && StepsWay(ActionAt(tier, xs, p, i), down)
    ensures var a, before, after := ActionAt(tier, xs, p, i), After(tier, xs[..i], p), After(tier, xs[..i + 1], p);
            && a.from == before.tier && a.to == after.tier
            && (if down then (a.from, a.to) == (Full, Mid) || (a.from, a.to) == (Mid, Lite)
                else (a.from, a.to) == (Lite, Mid) || (a.from, a.to) == (Mid, Full))
    ensures p.sustainSamples <= i + 1
    ensures forall j | i - p.sustainSamples < j <= i ::
              && !xs[j].sig.battery
              && (down ==> p.criticalMib <= xs[j].sig.memAvailableMib < p.enterLowMib)
              && (!down ==> p.criticalMib <= xs[j].sig.memAvailableMib && p.enterLowMib <= xs[j].sig.memAvailableMib
                            && p.exitLowMib < xs[j].sig.memAvailableMib)
              && (j < i ==> !StepsWay(ActionAt(tier, xs, p, j), down))
    ensures CooledDown(tier, xs, p, i)
  {
    var before := After(tier, xs[..i], p);
    assert xs[..i + 1][..i] == xs[..i];
    StreakKept(tier, xs[..i], p, down);
    TrailingRunIsReal(tier, xs[..i], p, down);
    CooledDownWhen(tier, xs, p, i);
    StepNeeds(before, xs[i], p, down);
    forall j: nat | j < i { ActionOfPrefix(tier, xs, p, i, j); }
    assert forall j | 0 <= j < i :: xs[..i][j] == xs[j];
    hide Decide, RunFrom, CooledDown, CooldownOpen, Timed;
  }

  lemma StepNeeds(s: State, x: Sample, p: Policy, down: bool)
    requires StepsWay(Decide(s, x.sig, p, x.at).1, down)
    ensures var (t, a) := Decide(s, x.sig, p, x.at);
            && a.from == s.tier && a.to == t.tier
            && (if down then (a.from, a.to) == (Full, Mid) || (a.from, a.to) == (Mid, Lite)
                else (a.from, a.to) == (Lite, Mid) || (a.from, a.to) == (Mid, Full))
    ensures Streak(s, down) + 1 >= p.sustainSamples && InBand(x, BandFor(down), p) && CooldownOpen(s, p, x.at)
  {
  }

  /** Steps taken at times between `a` and `b`. */
  function StepsBetween(tier: Tier, xs: seq<Sample>, p: Policy, a: nat, b: nat): nat {
    if |xs| == 0 then 0 else
    var n := |xs| - 1;
    StepsBetween(tier, xs[..n], p, a, b)
    + if a <= xs[n].at <= b && IsStep(ActionAt(tier, xs, p, n)) then 1 else 0
  }

  /** Where the last of `n` steps no closer than `c` can be at the earliest. */
  function Earliest(a: nat, n: nat, c: nat): int { a + (n - 1) * c }

  /** `n` steps since `a`, the last of them not after `b` nor after the last action. */
  predicate Spread(n: nat, a: nat, b: nat, c: nat, last: nat) {
    n > 0 ==> Earliest(a, n, c) <= b && Earliest(a, n, c) <= last && last > 0
  }

  lemma {:induction false} StepsSpread(tier: Tier, xs: seq<Sample>, p: Policy, a: nat, b: nat)
    requires Timed(xs)
    ensures Spread(StepsBetween(tier, xs, p, a, b), a, b, CooldownMs(p), After(tier, xs, p).lastActionAtMs)
  {
    if |xs| > 0 {
      hide Decide, ActionAt, After, RunFrom, CooldownMs, Timed, Spread, IsStep;
      var k := |xs| - 1;
      TimedPrefix(xs);
      StepsSpread(tier, xs[..k], p, a, b);
      LastActionKept(tier, xs[..k], p);
      LastDecision(tier, xs, p);
      var s := After(tier, xs[..k], p);
      assert s.lastActionAtMs <= xs[k].at;
      SpreadStep(s, xs[k], p, StepsBetween(tier, xs[..k], p, a, b), a, b);
    } else {
      hide Decide;
    }
  }

  lemma SpreadStep(s: State, x: Sample, p: Policy, n: nat, a: nat, b: nat)
    requires Spread(n, a, b, CooldownMs(p), s.lastActionAtMs) && s.lastActionAtMs <= x.at && x.at > 0
    ensures var (t, action) := Decide(s, x.sig, p, x.at);
            var n' := n + if a <= x.at <= b && IsStep(action) then 1 else 0;
            Spread(n', a, b, CooldownMs(p), t.lastActionAtMs)
  {
    TimeStep(s, x, p);
    StepGap(s, x, p);
    hide Decide, CooldownMs, Earliest;
    EarliestNext(a, n, CooldownMs(p));
  }

  lemma StepGap(s: State, x: Sample, p: Policy)
    ensures IsStep(Decide(s, x.sig, p, x.at).1) && s.lastActionAtMs > 0 && x.at >= s.lastActionAtMs ==>
              x.at - s.lastActionAtMs >= CooldownMs(p)
  {
  }

  lemma EarliestNext(a: nat, n: nat, c: nat)
    ensures Earliest(a, 1, c) == a && Earliest(a, n + 1, c) == Earliest(a, n, c) + c
  {
  }

  /** In any span of `b - a` milliseconds at most (b - a) / cooldown + 1 steps are taken. */
  lemma StepRate(tier: Tier, xs: seq<Sample>, p: Policy, a: nat, b: nat)
    requires Timed(xs) && a <= b && p.cooldownSecs > 0
    ensures StepsBetween(tier, xs, p, a, b) <= (b - a) / CooldownMs(p) + 1
  {
    StepsSpread(tier, xs, p, a, b);
    hide StepsBetween, Earliest;
    SpreadBound(a, b, StepsBetween(tier, xs, p, a, b), CooldownMs(p));
  }

  lemma SpreadBound(a: nat, b: nat, n: nat, c: nat)
    requires a <= b && c > 0 && (n > 0 ==> Earliest(a, n, c) <= b)
    ensures n <= (b - a) / c + 1
  {
    var q := (b - a) / c;
    assert b - a < (q + 1) * c;
    if n > q + 1 { MulMonotone(q + 1, n - 1, c); }
  }

  lemma MulMonotone(x: int, y: int, c: nat)
    requires x <= y
    ensures x * c <= y * c
  {
  }

  // ----- Battery -----

  /** Two battery pins have an AC sample between them: one pin at most in a battery session. */
  lemma OnePinPerSession(tier: Tier, xs: seq<Sample>, p: Policy, i: nat, j: nat)
    requires i < j < |xs| && ActionAt(tier, xs, p, i).BatteryPin? && ActionAt(tier, xs, p, j).BatteryPin?
    ensures exists k :: i < k < j && !xs[k].sig.battery
  {
    TierKept(tier, xs[..j], p);
    TierKept(tier, xs[..i + 1], p);
    assert !After(tier, xs[..j], p).batteryLatched;
    assert !xs[j - 1].sig.battery;
    assert xs[i].sig.battery;
  }

  /** Exactly when a pin is made: on the first battery sample of a session, unless the tier is lite already. */
  lemma PinWhen(tier: Tier, xs: seq<Sample>, p: Policy, i: nat)
    requires i < |xs|
    ensures var a, before, after := ActionAt(tier, xs, p, i), After(tier, xs[..i], p), After(tier, xs[..i + 1], p);
            && (a.BatteryPin? <==>
                  xs[i].sig.battery && (i == 0 || !xs[i - 1].sig.battery) && before.tier != Lite)
            && (a.BatteryPin? ==> a.from == before.tier && a.to == Lite && after.tier == Lite)
            && (xs[i].sig.battery ==> after.tier == Lite)
  {
    TierKept(tier, xs[..i], p);
    TierKept(tier, xs[..i + 1], p);
    assert i > 0 ==> xs[..i][i - 1] == xs[i - 1];
    assert xs[..i + 1][i] == xs[i];
    LastDecision(tier, xs[..i + 1], p);
    assert xs[..i + 1][..i] == xs[..i];
    assert i == 0 ==> !After(tier, xs[..i], p).batteryLatched;
    PinStep(After(tier, xs[..i], p), xs[i], p);
    hide Decide, After, RunFrom;
  }

  lemma PinStep(s: State, x: Sample, p: Policy)
    requires s.batteryLatched ==> s.tier == Lite
    ensures var (t, a) := Decide(s, x.sig, p, x.at);
            && (a.BatteryPin? <==> x.sig.battery && !s.batteryLatched && s.tier != Lite)
            && (a.BatteryPin? ==> a.from == s.tier && a.to == Lite && t.tier == Lite)
  {
  }

  // ----- Settling -----

  /** Samples on AC in one band, each at least `d` after the one before it, the first at least `d` after `t`. */
  ghost predicate Steady(ys: seq<Sample>, p: Policy, down: bool, t: nat, d: nat) {
    && (forall i | 0 <= i < |ys| :: InBand(ys[i], BandFor(down), p))
    && (|ys| > 0 ==> ys[0].at >= t + d)
    && (forall i | 0 <= i && i + 1 < |ys| :: ys[i + 1].at >= ys[i].at + d)
  }

  /** Rungs left in a direction. */
  function Rungs(t: Tier, down: bool): nat {
    match t
    case Full => if down then 2 else 0
    case Mid => 1
    case Lite => if down then 0 else 2
    case Other(_) => 0
  }

  function Foot(down: bool): Tier { if down then Lite else Full }

  /** Enough samples for one step: the sustain count, and the cooldown at `d` milliseconds a sample. */
  function SamplesPerStep(p: Policy, d: nat): (m: nat)
    requires d > 0
    ensures m > 0 && m >= p.sustainSamples
  {
    var wait := (CooldownMs(p) + d - 1) / d;
    if wait > p.sustainSamples then wait else if p.sustainSamples > 0 then p.sustainSamples else 1
  }

  lemma SamplesPerStepWait(p: Policy, d: nat)
    requires d > 0
    ensures SamplesPerStep(p, d) * d >= CooldownMs(p)
  {
    var wait := (CooldownMs(p) + d - 1) / d;
    assert wait * d >= CooldownMs(p);
    MulMonotone(wait, SamplesPerStep(p, d), d);
  }

  /** `k` samples into the wait for the next step: the streak is that long and the last action that old. */
  ghost predicate Waited(s: State, down: bool, t: nat, d: nat, k: nat) {
    Streak(s, down) >= k && (s.lastActionAtMs > 0 ==> t >= s.lastActionAtMs + k * d)
  }

  lemma SteadyStep(s: State, y: Sample, p: Policy, down: bool, t: nat, d: nat, k: nat)
    requires d > 0 && y.at >= t + d && InBand(y, BandFor(down), p)
    requires Waited(s, down, t, d, k) && k < SamplesPerStep(p, d)
    ensures var s' := Decide(s, y.sig, p, y.at).0;
            || (Rungs(s.tier, down) == 0 && s'.tier == s.tier)
            || (Rungs(s.tier, down) > 0 && Rungs(s'.tier, down) == Rungs(s.tier, down) - 1
                && (Rungs(s'.tier, down) == 0 ==> s'.tier == Foot(down)) && Waited(s', down, y.at, d, 0))
            || (s'.tier == s.tier && k + 1 < SamplesPerStep(p, d) && Waited(s', down, y.at, d, k + 1))
  {
    SamplesPerStepWait(p, d);
    assert (k + 1) * d == k * d + d;
    if k + 1 >= SamplesPerStep(p, d) { MulMonotone(SamplesPerStep(p, d), k + 1, d); }
    hide SamplesPerStep;
  }

  lemma {:induction false} RunCons(s: State, xs: seq<Sample>, p: Policy)
    requires |xs| > 0
    ensures RunFrom(s, xs, p) == RunFrom(Decide(s, xs[0].sig, p, xs[0].at).0, xs[1..], p)
  {
    hide Decide;
    if |xs| > 1 {
      var init := xs[..|xs| - 1];
      RunCons(s, init, p);
      assert init[1..] == xs[1..][..|xs| - 2];
    } else {
      assert xs[..0] == [] == xs[1..];
    }
  }

  lemma {:induction false} RunConcat(s: State, xs: seq<Sample>, ys: seq<Sample>, p: Policy)
    ensures RunFrom(s, xs + ys, p) == RunFrom(RunFrom(s, xs, p), ys, p)
  {
    hide Decide;
    if |ys| == 0 {
      assert xs + ys == xs;
    } else {
      var n := |ys| - 1;
      assert (xs + ys)[..|xs| + n] == xs + ys[..n];
      RunConcat(s, xs, ys[..n], p);
    }
  }

  lemma {:induction false} StaysAtEnd(s: State, ys: seq<Sample>, p: Policy, down: bool)
    requires Rungs(s.tier, down) == 0 && forall i | 0 <= i < |ys| :: InBand(ys[i], BandFor(down), p)
    ensures RunFrom(s, ys, p).tier == s.tier
  {
    if |ys| > 0 {
      StaysAtEnd(s, ys[..|ys| - 1], p, down);
    }
  }

  /** Samples needed from `rungs` rungs away. */
  function Need(rungs: nat, m: nat): nat { if rungs == 0 then 0 else if rungs == 1 then m else 2 * m }

  lemma {:induction false} Settles(s: State, ys: seq<Sample>, p: Policy, down: bool, t: nat, d: nat, k: nat)
    requires d > 0 && OnLadder(s.tier) && Steady(ys, p, down, t, d)
    requires Waited(s, down, t, d, k) && k < SamplesPerStep(p, d)
    requires |ys| + k >= Need(Rungs(s.tier, down), SamplesPerStep(p, d))
    ensures RunFrom(s, ys, p).tier == Foot(down)
    decreases |ys|
  {
    if Rungs(s.tier, down) == 0 {
      StaysAtEnd(s, ys, p, down);
    } else {
      var y, rest := ys[0], ys[1..];
      var s' := Decide(s, y.sig, p, y.at).0;
      SteadyStep(s, y, p, down, t, d, k);
      RunCons(s, ys, p);
      hide Decide, SamplesPerStep, Waited;
      Settles(s', rest, p, down, y.at, d, if s'.tier == s.tier then k + 1 else 0);
    }
  }

  /** From whatever state a run has reached, steady pressure brings the tier to the foot of the ladder, and steady
      recovery to its head, within twice the samples one step needs. */
  lemma Convergence(tier: Tier, xs: seq<Sample>, ys: seq<Sample>, p: Policy, down: bool, d: nat)
    requires OnLadder(tier) && Timed(xs) && d > 0
    requires Steady(ys, p, down, if |xs| > 0 then xs[|xs| - 1].at else 0, d)
    requires |ys| >= 2 * SamplesPerStep(p, d)
    ensures After(tier, xs + ys, p).tier == Foot(down)
  {
    TierKept(tier, xs, p);
    LastActionKept(tier, xs, p);
    RunConcat(Initial(tier), xs, ys, p);
    Settles(After(tier, xs, p), ys, p, down, if |xs| > 0 then xs[|xs| - 1].at else 0, d, 0);
  }

  // ----- Advice -----

  /** Critical AC samples at the end of a run, battery samples not counted either way. */
  function TrailingCritical(xs: seq<Sample>, p: Policy): nat {
    if |xs| == 0 then 0 else
    var init, x := xs[..|xs| - 1], xs[|xs| - 1];
    if x.sig.battery then TrailingCritical(init, p)
    else if InBand(x, Critical, p) then 1 + TrailingCritical(init, p)
    else 0
  }

  lemma {:induction false} CriticalStreakKept(tier: Tier, xs: seq<Sample>, p: Policy)
    ensures After(tier, xs, p).criticalStreak == TrailingCritical(xs, p)
  {
    if |xs| > 0 {
      CriticalStreakKept(tier, xs[..|xs| - 1], p);
    }
  }

  /** The minimal form is advised exactly at a critical AC sample that makes the streak long enough; unlike the
      other streaks this one outlasts battery sessions, so the samples need not be consecutive. */
  lemma AdviceWhen(tier: Tier, xs: seq<Sample>, p: Policy, i: nat)
    requires i < |xs|
    ensures ActionAt(tier, xs, p, i) == RecommendMinimalForm <==>
            InBand(xs[i], Critical, p) && TrailingCritical(xs[..i + 1], p) >= p.sustainSamples
  {
    CriticalStreakKept(tier, xs[..i], p);
    assert xs[..i + 1][..i] == xs[..i];
  }

  /** Two critical samples with a battery session between them, however long, are advised on as two in a row are. */
  lemma AdviceAcrossBattery(tier: Tier, xs: seq<Sample>, p: Policy)
    requires p.sustainSamples == 2 && |xs| >= 2
    requires InBand(xs[0], Critical, p) && InBand(xs[|xs| - 1], Critical, p)
    requires forall i | 0 < i < |xs| - 1 :: xs[i].sig.battery
    ensures ActionAt(tier, xs, p, |xs| - 1) == RecommendMinimalForm
  {
    var n := |xs| - 1;
    BatteryKeepsCount(xs[..n], p);
    AdviceWhen(tier, xs, p, n);
    assert xs[..n + 1] == xs;
  }

  lemma {:induction false} BatteryKeepsCount(xs: seq<Sample>, p: Policy)
    requires |xs| > 0 && InBand(xs[0], Critical, p) && forall i | 0 < i < |xs| :: xs[i].sig.battery
    ensures TrailingCritical(xs, p) == 1
  {
    if |xs| > 1 {
      BatteryKeepsCount(xs[..|xs| - 1], p);
    } else {
      assert xs[..0] == [];
    }
  }
}
