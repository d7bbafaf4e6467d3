/** The elastic tier controller: one decision per sample, and what holds over every run of samples. */
module Elastic {
  import opened Bytes

  // ----- One decision -----

  datatype Tier = Full | Mid | Lite | Other(name: string)

  datatype Signals = Signals(memAvailableMib: nat, battery: bool)

  datatype Policy = Policy(
    enterLowMib: nat, exitLowMib: nat, criticalMib: nat, cooldownSecs: nat, sustainSamples: nat)

  datatype Action =
    | TierDown(from: Tier, to: Tier)
    | TierUp(from: Tier, to: Tier)
    | BatteryPin(from: Tier, to: Tier)
    | RecommendMinimalForm
    | Noop

  datatype State = State(
    tier: Tier, lowStreak: nat, highStreak: nat, criticalStreak: nat, batteryLatched: bool, lastActionAtMs: nat)

  function StepDown(tier: Tier): Option<Tier> {
    match tier
    case Full => Some(Mid)
    case Mid => Some(Lite)
    case _ => None
  }

  function StepUp(tier: Tier): Option<Tier> {
    match tier
    case Lite => Some(Mid)
    case Mid => Some(Full)
    case _ => None
  }

  function Initial(tier: Tier): State { State(tier, 0, 0, 0, false, 0) }

  function CooldownMs(p: Policy): nat { p.cooldownSecs * 1000 }

  predicate CooldownOpen(s: State, p: Policy, now: nat) {
    s.lastActionAtMs == 0 || (if now >= s.lastActionAtMs then now - s.lastActionAtMs else 0) >= CooldownMs(p)
  }

  datatype Band = Critical | Low | Middle | High

  function BandOf(mem: nat, p: Policy): Band {
    if mem < p.criticalMib then Critical
    else if mem < p.enterLowMib then Low
    else if mem > p.exitLowMib then High
    else Middle
  }

  /** Whether a streak is long enough and old enough to act on. */
  predicate Ripe(s: State, streak: nat, p: Policy, now: nat) {
    streak >= p.sustainSamples && CooldownOpen(s, p, now)
  }

  function DecideOnAc(s: State, mem: nat, p: Policy, now: nat): (State, Action) {
    var s := s.(batteryLatched := false);
    match BandOf(mem, p)
    case Critical =>
      (s.(criticalStreak := s.criticalStreak + 1, lowStreak := 0, highStreak := 0),
       if s.criticalStreak + 1 >= p.sustainSamples then RecommendMinimalForm else Noop)
    case Low =>
      var s := s.(criticalStreak := 0, lowStreak := s.lowStreak + 1, highStreak := 0);
      if Ripe(s, s.lowStreak, p, now) && StepDown(s.tier).Some? then
        var to := StepDown(s.tier).value;
        (s.(tier := to, lastActionAtMs := now, lowStreak := 0), TierDown(s.tier, to))
      else (s, Noop)
    case High =>
      var s := s.(criticalStreak := 0, lowStreak := 0, highStreak := s.highStreak + 1);
      if Ripe(s, s.highStreak, p, now) && StepUp(s.tier).Some? then
        var to := StepUp(s.tier).value;
        (s.(tier := to, lastActionAtMs := now, highStreak := 0), TierUp(s.tier, to))
      else (s, Noop)
    case Middle =>
      (s.(criticalStreak := 0, lowStreak := 0, highStreak := 0), Noop)
  }

  function DecideOnBattery(s: State, now: nat): (State, Action) {
    if s.batteryLatched then (s, Noop) else
    var s := s.(batteryLatched := true, highStreak := 0, lowStreak := 0);
    if s.tier == Lite then (s, Noop)
    else (s.(tier := Lite, lastActionAtMs := now), BatteryPin(s.tier, Lite))
  }

  function Decide(s: State, sig: Signals, p: Policy, now: nat): (State, Action) {
    if sig.battery then DecideOnBattery(s, now) else DecideOnAc(s, sig.memAvailableMib, p, now)
  }

  /** The controller's state, updated in place by each decision. */
  class ElasticState {
    var tier: Tier
    var lowStreak: nat
    var highStreak: nat
    var criticalStreak: nat
    var batteryLatched: bool
    var lastActionAtMs: nat

    constructor (initialTier: Tier)
      ensures View() == Initial(initialTier)
    {
      tier := initialTier;
      lowStreak, highStreak, criticalStreak := 0, 0, 0;
      batteryLatched, lastActionAtMs := false, 0;
    }

    ghost function View(): State
      reads this
    {
      State(tier, lowStreak, highStreak, criticalStreak, batteryLatched, lastActionAtMs)
    }

    method DecideInPlace(sig: Signals, p: Policy, now: nat) returns (action: Action)
      modifies this
      ensures (View(), action) == Decide(old(View()), sig, p, now)
    {
      if sig.battery && !batteryLatched {
        batteryLatched := true;
        highStreak := 0;
        lowStreak := 0;
        if tier != Lite {
          var from := tier;
          tier := Lite;
          lastActionAtMs := now;
          return BatteryPin(from, Lite);
        }
        return Noop;
      }
      if !sig.battery {
        batteryLatched := false;
      } else {
        return Noop;
      }
      if sig.memAvailableMib < p.criticalMib {
        criticalStreak := criticalStreak + 1;
        lowStreak := 0;
        highStreak := 0;
        if criticalStreak >= p.sustainSamples {
          return RecommendMinimalForm;
        }
        return Noop;
      }
      criticalStreak := 0;
      var cooldownOpen := lastActionAtMs == 0
                          || (if now >= lastActionAtMs then now - lastActionAtMs else 0) >= p.cooldownSecs * 1000;
      if sig.memAvailableMib < p.enterLowMib {
        lowStreak := lowStreak + 1;
        highStreak := 0;
        if lowStreak >= p.sustainSamples && cooldownOpen && StepDown(tier).Some? {
          var from, to := tier, StepDown(tier).value;
          tier := to;
          lastActionAtMs := now;
          lowStreak := 0;
          return TierDown(from, to);
        }
        return Noop;
      }
      lowStreak := 0;
      if sig.memAvailableMib > p.exitLowMib {
        highStreak := highStreak + 1;
        if highStreak >= p.sustainSamples && cooldownOpen && StepUp(tier).Some? {
          var from, to := tier, StepUp(tier).value;
          tier := to;
          lastActionAtMs := now;
          highStreak := 0;
          return TierUp(from, to);
        }
      } else {
        highStreak := 0;
      }
      return Noop;
    }
  }
}
