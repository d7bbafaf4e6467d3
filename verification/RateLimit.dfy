/** The login rate limiter: a bounded table, pruned on the way, against a plain fixed-window limiter. */
module RateLimit {

  const MAX_TRACKED_CLIENTS := 8192
  const TWO_64 := 0x1_0000_0000_0000_0000

  type Key = string

  datatype Entry = Entry(count: nat, windowStart: nat)

  datatype Decision = Accepted | Limited | Saturated

  datatype Config = Config(max: nat, windowSecs: nat)

  /** `wrapping_add` on 64 bits. */
  function WindowEnd(e: Entry, cfg: Config): nat { (e.windowStart + cfg.windowSecs) % TWO_64 }

  predicate Expired(e: Entry, now: nat, cfg: Config) { now >= WindowEnd(e, cfg) }

  // ----- One request -----

  function Prune(t: map<Key, Entry>, now: nat, cfg: Config): map<Key, Entry> {
    map k | k in t && !Expired(t[k], now, cfg) :: t[k]
  }

  function PruneWhenLarge(t: map<Key, Entry>, now: nat, cfg: Config): map<Key, Entry> {
    if |t| >= MAX_TRACKED_CLIENTS / 2 then Prune(t, now, cfg) else t
  }

  /** A fixed-window limiter's answer for one key, and the entry it leaves behind. */
  function Count(t: map<Key, Entry>, key: Key, now: nat, cfg: Config): (Entry, Decision) {
    if key in t && !Expired(t[key], now, cfg) then
      if t[key].count < cfg.max then (t[key].(count := t[key].count + 1), Accepted) else (t[key], Limited)
    else (Entry(1, now), Accepted)
  }

  function Check(t: map<Key, Entry>, key: Key, now: nat, cfg: Config): (map<Key, Entry>, Decision) {
    var pruned := PruneWhenLarge(t, now, cfg);
    if |pruned| >= MAX_TRACKED_CLIENTS then (pruned, Saturated) else
    var (entry, d) := Count(pruned, key, now, cfg);
    (pruned[key := entry], d)
  }

  class RateLimiter {
    var state: map<Key, Entry>

    constructor ()
      ensures state == map[]
    {
      state := map[];
    }

    method CheckRateLimit(ip: Key, cfg: Config, now: nat) returns (ok: bool)
      modifies this
      ensures state == Check(old(state), ip, now, cfg).0
      ensures ok <==> Check(old(state), ip, now, cfg).1 == Accepted
      ensures |old(state)| <= 8192 ==> |state| <= 8192
    {
      TableBound(state, ip, now, cfg);
      if |state| >= MAX_TRACKED_CLIENTS / 2 {
        state := map k | k in state && !Expired(state[k], now, cfg) :: state[k];
      }
      if |state| >= MAX_TRACKED_CLIENTS { return false; }
      if ip in state && !Expired(state[ip], now, cfg) {
        if state[ip].count < cfg.max {
          state := state[ip := state[ip].(count := state[ip].count + 1)];
          return true;
        }
        assert state[ip := state[ip]] == state;
        return false;
      }
      state := state[ip := Entry(1, now)];
      return true;
    }

    method ResetRateLimit(ip: Key)
      modifies this
      ensures state == old(state) - {ip}
      ensures forall cfg: Config, now: nat :: Count(state, ip, now, cfg) == (Entry(1, now), Accepted)
    {
      state := state - {ip};
    }
  }

  lemma KeysBound(m: map<Key, Entry>, n: map<Key, Entry>)
    requires m.Keys <= n.Keys
    ensures |m| <= |n|
  {
    SubsetSize(m.Keys, n.Keys);
    assert |m| == |m.Keys| && |n| == |n.Keys|;
  }

  lemma SubsetSize<T>(a: set<T>, b: set<T>)
    requires a <= b
    ensures |a| <= |b|
  {
    assert b == a + (b - a);
  }

  /** One request keeps the table within its ceiling, and is turned away unseen only when the ceiling is reached
      by keys whose windows are all still open. */
  lemma TableBound(t: map<Key, Entry>, key: Key, now: nat, cfg: Config)
    ensures |t| <= 8192 ==> |Check(t, key, now, cfg).0| <= 8192
    ensures Check(t, key, now, cfg).1 == Saturated <==> |Prune(t, now, cfg)| >= 8192
  {
    KeysBound(Prune(t, now, cfg), t);
    var pruned := PruneWhenLarge(t, now, cfg);
    var entry := Count(pruned, key, now, cfg).0;
    assert pruned[key := entry].Keys == pruned.Keys + {key};
    assert |pruned[key := entry]| == |pruned[key := entry].Keys|;
    assert |pruned| == |pruned.Keys|;
  }

  /** Half the ceiling is where forgetting begins: below 4096 entries a request leaves those of all other keys alone;
      from there on exactly the expired ones go. */
  lemma ForgottenExactly(t: map<Key, Entry>, key: Key, now: nat, cfg: Config, other: Key)
    requires other in t && other != key
    ensures var next := Check(t, key, now, cfg).0;
            && (other in next <==> |t| < 4096 || now < (t[other].windowStart + cfg.windowSecs) % TWO_64)
            && (other in next ==> next[other] == t[other])
  {
  }

  // ----- Runs -----

  datatype Request = Request(key: Key, now: nat)

  /** The table, and beside it the entries of a limiter that never prunes and never hears of the requests the table
      turned away as saturated. */
  datatype State = State(table: map<Key, Entry>, plain: map<Key, Entry>, decisions: seq<Decision>)

  function Next(s: State, r: Request, cfg: Config): State {
    var (table, d) := Check(s.table, r.key, r.now, cfg);
    var plain := if d == Saturated then s.plain else s.plain[r.key := Count(s.plain, r.key, r.now, cfg).0];
    State(table, plain, s.decisions + [d])
  }

  function Run(rs: seq<Request>, cfg: Config): (s: State)
    ensures |s.decisions| == |rs|
  {
    if |rs| == 0 then State(map[], map[], []) else Next(Run(rs[..|rs| - 1], cfg), rs[|rs| - 1], cfg)
  }

  /** A clock that does not go back, and windows that end before the 64-bit clock does. */
  ghost predicate Timed(rs: seq<Request>, cfg: Config) {
    && (forall i, j | 0 <= i < j < |rs| :: rs[i].now <= rs[j].now)
    && (forall i | 0 <= i < |rs| :: rs[i].now + cfg.windowSecs < TWO_64)
  }

  function LastTime(rs: seq<Request>): nat { if |rs| == 0 then 0 else rs[|rs| - 1].now }

  /** The two limiters hold the same live entries. */
  ghost predicate Agree(s: State, now: nat, cfg: Config) {
    && (forall k | k in s.table :: k in s.plain && s.plain[k] == s.table[k])
    && (forall k | k in s.plain && k !in s.table :: Expired(s.plain[k], now, cfg))
    && (forall k | k in s.plain :: s.plain[k].windowStart <= now
                               && s.plain[k].windowStart + cfg.windowSecs < TWO_64)
  }

  lemma NextAgrees(s: State, r: Request, cfg: Config, before: nat)
    requires Agree(s, before, cfg) && before <= r.now && r.now + cfg.windowSecs < TWO_64
    ensures Agree(Next(s, r, cfg), r.now, cfg)
    ensures Check(s.table, r.key, r.now, cfg).1 != Saturated ==>
              Check(s.table, r.key, r.now, cfg).1 == Count(s.plain, r.key, r.now, cfg).1
  {
    var pruned := PruneWhenLarge(s.table, r.now, cfg);
    assert forall k | k in pruned :: k in s.table && pruned[k] == s.table[k];
    assert forall k | k in s.plain && k !in pruned :: Expired(s.plain[k], r.now, cfg);
    assert Count(pruned, r.key, r.now, cfg) == Count(s.plain, r.key, r.now, cfg);
  }

  lemma {:induction false} RunAgrees(rs: seq<Request>, cfg: Config)
    requires Timed(rs, cfg)
    ensures Agree(Run(rs, cfg), LastTime(rs), cfg)
  {
    if |rs| > 0 {
      var init := rs[..|rs| - 1];
      RunAgrees(init, cfg);
      NextAgrees(Run(init, cfg), rs[|rs| - 1], cfg, LastTime(init));
    }
  }

  // ----- Refinement -----

  /** The plain limiter on its own: unbounded, never pruned. */
  function PlainRun(rs: seq<Request>, cfg: Config): (map<Key, Entry>, seq<Decision>) {
    if |rs| == 0 then (map[], []) else
    var (m, ds) := PlainRun(rs[..|rs| - 1], cfg);
    var r := rs[|rs| - 1];
    var (entry, d) := Count(m, r.key, r.now, cfg);
    (m[r.key := entry], ds + [d])
  }

  /** The requests that were not turned away as saturated. */
  function Heard(rs: seq<Request>, ds: seq<Decision>): seq<Request>
    requires |rs| == |ds|
  {
    if |rs| == 0 then [] else
    var n := |rs| - 1;
    Heard(rs[..n], ds[..n]) + if ds[n] == Saturated then [] else [rs[n]]
  }

  function Answers(ds: seq<Decision>): seq<Decision> {
    if |ds| == 0 then [] else
    var n := |ds| - 1;
    Answers(ds[..n]) + if ds[n] == Saturated then [] else [ds[n]]
  }

  lemma PlainSnoc(rs: seq<Request>, r: Request, cfg: Config)
    ensures var (m, ds) := PlainRun(rs, cfg);
            var (entry, d) := Count(m, r.key, r.now, cfg);
            PlainRun(rs + [r], cfg) == (m[r.key := entry], ds + [d])
  {
    assert (rs + [r])[..|rs|] == rs;
  }

  /** On every run the bounded, pruned table answers the requests it hears as the plain limiter answers them. */
  lemma {:induction false} RefinesPlain(rs: seq<Request>, cfg: Config)
    requires Timed(rs, cfg)
    ensures var ds := Run(rs, cfg).decisions;
            PlainRun(Heard(rs, ds), cfg) == (Run(rs, cfg).plain, Answers(ds))
  {
    if |rs| > 0 {
      var n := |rs| - 1;
      var s, ds := Run(rs[..n], cfg), Run(rs, cfg).decisions;
      RefinesPlain(rs[..n], cfg);
      RunAgrees(rs[..n], cfg);
      NextAgrees(s, rs[n], cfg, LastTime(rs[..n]));
      var heard := Heard(rs[..n], s.decisions);
      PlainSnoc(heard, rs[n], cfg);
      hide PlainRun, Count, Check, Agree, Timed;
      assert ds[..n] == s.decisions;
      assert heard + [] == heard && Answers(s.decisions) + [] == Answers(s.decisions);
    }
  }

  lemma {:induction false} AllHeard(rs: seq<Request>, ds: seq<Decision>)
    requires |rs| == |ds| && Saturated !in ds
    ensures Heard(rs, ds) == rs && Answers(ds) == ds
  {
    if |rs| > 0 {
      AllHeard(rs[..|rs| - 1], ds[..|rs| - 1]);
    }
  }

  /** Where the table never saturates, bounding and pruning cannot be told from outside. */
  lemma PruningIsInvisible(rs: seq<Request>, cfg: Config)
    requires Timed(rs, cfg) && Saturated !in Run(rs, cfg).decisions
    ensures PlainRun(rs, cfg).1 == Run(rs, cfg).decisions
  {
    RefinesPlain(rs, cfg);
    AllHeard(rs, Run(rs, cfg).decisions);
  }

  lemma {:induction false} TableNeverExceeds(rs: seq<Request>, cfg: Config)
    ensures |Run(rs, cfg).table| <= 8192
  {
    if |rs| > 0 {
      var init, r := rs[..|rs| - 1], rs[|rs| - 1];
      TableNeverExceeds(init, cfg);
      TableBound(Run(init, cfg).table, r.key, r.now, cfg);
    }
  }

  // ----- The rate -----

  /** Accepted requests of one key in the `windowSecs` seconds from `from` on. */
  function AcceptedFrom(rs: seq<Request>, ds: seq<Decision>, key: Key, from: nat, cfg: Config): nat
    requires |rs| == |ds|
  {
    if |rs| == 0 then 0 else
    var n := |rs| - 1;
    AcceptedFrom(rs[..n], ds[..n], key, from, cfg)
    + if rs[n].key == key && ds[n] == Accepted && from <= rs[n].now < from + cfg.windowSecs then 1 else 0
  }

  /** What one window lets through: the first request even when `max` is 0. */
  function PerWindow(cfg: Config): nat { if cfg.max == 0 then 1 else cfg.max }

  /** How many requests may have been accepted since `from`, told from the key's current window. */
  ghost predicate WithinRate(n: nat, plain: map<Key, Entry>, key: Key, from: nat, last: nat, cfg: Config) {
    && (last < from ==> n == 0)
    && (key !in plain ==> n == 0)
    && (key in plain ==>
          var e := plain[key];
          && 1 <= e.count <= PerWindow(cfg)
          && n <= if e.windowStart < from then e.count - 1
                  else if e.windowStart < from + cfg.windowSecs then PerWindow(cfg) - 1 + e.count
                  else 2 * PerWindow(cfg) - 1)
  }

  lemma RateStep(n: nat, plain: map<Key, Entry>, r: Request, key: Key, from: nat, last: nat, cfg: Config)
    requires WithinRate(n, plain, key, from, last, cfg) && last <= r.now
    requires key in plain ==> plain[key].windowStart <= last && plain[key].windowStart + cfg.windowSecs < TWO_64
    ensures WithinRate(n, plain, key, from, r.now, cfg)
    ensures var (entry, d) := Count(plain, r.key, r.now, cfg);
            var hit := r.key == key && d == Accepted && from <= r.now < from + cfg.windowSecs;
            WithinRate(n + if hit then 1 else 0, plain[r.key := entry], key, from, r.now, cfg)
  {
    if r.key != key {
      assert key in plain ==> plain[r.key := Count(plain, r.key, r.now, cfg).0][key] == plain[key];
    } else if key in plain {
      assert Expired(plain[key], r.now, cfg) <==> r.now >= plain[key].windowStart + cfg.windowSecs;
    }
  }

  lemma {:induction false} RateInvariant(rs: seq<Request>, key: Key, from: nat, cfg: Config)
    requires Timed(rs, cfg)
    ensures var s := Run(rs, cfg);
            WithinRate(AcceptedFrom(rs, s.decisions, key, from, cfg), s.plain, key, from, LastTime(rs), cfg)
  {
    if |rs| > 0 {
      var n := |rs| - 1;
      var init := rs[..n];
      var s, ds := Run(init, cfg), Run(rs, cfg).decisions;
      RateInvariant(init, key, from, cfg);
      RunAgrees(init, cfg);
      NextAgrees(s, rs[n], cfg, LastTime(init));
      RateStep(AcceptedFrom(init, s.decisions, key, from, cfg), s.plain, rs[n], key, from, LastTime(init), cfg);
      hide WithinRate, Count, Check, Agree;
      assert ds[..n] == s.decisions;
    }
  }

  /** In any span of one window's length no key is accepted twice as often as one window allows: of two windows that
      meet the span the older began before it, with an accepted request. */
  lemma RateBound(rs: seq<Request>, key: Key, from: nat, cfg: Config)
    requires Timed(rs, cfg)
    ensures AcceptedFrom(rs, Run(rs, cfg).decisions, key, from, cfg) < 2 * PerWindow(cfg)
  {
    RateInvariant(rs, key, from, cfg);
  }

  // ----- A sliding window? -----

  /** What the documentation promises: at most `max` in any span of one window's length. */
  ghost predicate Sliding(cfg: Config) {
    forall rs: seq<Request>, key: Key, from: nat | Timed(rs, cfg) ::
      AcceptedFrom(rs, Run(rs, cfg).decisions, key, from, cfg) <= cfg.max
  }

  /** When request `i` of the worst run comes: one opens a window, the others of that window wait for its last second,
      and as many as a window holds follow in the next second. */
  function WorstTime(i: nat, cfg: Config): nat
    requires cfg.windowSecs > 0
  {
    if i == 0 then 0 else if i < cfg.max then cfg.windowSecs - 1 else cfg.windowSecs
  }

  function Worst(n: nat, cfg: Config): (rs: seq<Request>)
    requires cfg.windowSecs > 0
    ensures |rs| == n
  {
    seq(n, i requires 0 <= i => Request("", WorstTime(i, cfg)))
  }

  /** The worst run's table: one entry, counting up in the first window and then in the second. */
  function WorstTable(n: nat, cfg: Config): map<Key, Entry> {
    if n == 0 then map[]
    else if n <= cfg.max then map["" := Entry(n, 0)]
    else map["" := Entry(n - cfg.max, cfg.windowSecs)]
  }

  lemma WorstStep(n: nat, cfg: Config)
    requires cfg.max >= 1 && cfg.windowSecs >= 2 && 2 * cfg.windowSecs < TWO_64 && n < 2 * cfg.max
    ensures Check(WorstTable(n, cfg), "", WorstTime(n, cfg), cfg) == (WorstTable(n + 1, cfg), Accepted)
  {
    var t, now := WorstTable(n, cfg), WorstTime(n, cfg);
    assert |t| <= 1;
    assert PruneWhenLarge(t, now, cfg) == t;
    if 0 < n {
      assert "" in t && (Expired(t[""], now, cfg) <==> n == cfg.max);
    }
    var (entry, d) := Count(t, "", now, cfg);
    assert d == Accepted && t["" := entry] == WorstTable(n + 1, cfg);
  }

  /** All of it is accepted. */
  lemma {:induction false} WorstAccepted(n: nat, cfg: Config)
    requires cfg.max >= 1 && cfg.windowSecs >= 2 && 2 * cfg.windowSecs < TWO_64 && n <= 2 * cfg.max
    ensures var s := Run(Worst(n, cfg), cfg);
            s.table == WorstTable(n, cfg) && s.decisions == seq(n, _ => Accepted)
  {
    hide Check, Count;
    if n > 0 {
      WorstAccepted(n - 1, cfg);
      WorstStep(n - 1, cfg);
      assert Worst(n, cfg)[..n - 1] == Worst(n - 1, cfg);
      hide WorstTable;
      assert seq(n, _ => Accepted) == seq(n - 1, _ => Accepted) + [Accepted];
    }
  }

  /** All but the first request lie within one window's length. */
  lemma {:induction false} WorstCount(n: nat, cfg: Config)
    requires cfg.max >= 1 && cfg.windowSecs >= 2
    ensures AcceptedFrom(Worst(n, cfg), seq(n, _ => Accepted), "", 1, cfg) == if n == 0 then 0 else n - 1
  {
    if n > 0 {
      WorstCount(n - 1, cfg);
      assert Worst(n, cfg)[..n - 1] == Worst(n - 1, cfg);
      assert seq(n, _ => Accepted)[..n - 1] == seq(n - 1, _ => Accepted);
    }
  }

  /** The bound of `RateBound` is met: for every larger limit some run is accepted one short of twice as often. */
  lemma RateBoundIsTight(cfg: Config)
    requires cfg.max >= 2 && cfg.windowSecs >= 2 && 2 * cfg.windowSecs < TWO_64
    ensures var rs := Worst(2 * cfg.max, cfg);
            Timed(rs, cfg) && AcceptedFrom(rs, Run(rs, cfg).decisions, "", 1, cfg) == 2 * PerWindow(cfg) - 1
  {
    WorstAccepted(2 * cfg.max, cfg);
    WorstCount(2 * cfg.max, cfg);
    hide Run, AcceptedFrom;
  }

  /** With windows of one second: accepted requests of second `from` all count in the window that began then. */
  ghost predicate WithinSecond(n: nat, plain: map<Key, Entry>, key: Key, from: nat, last: nat, cfg: Config) {
    && (last < from ==> n == 0)
    && (key !in plain ==> n == 0)
    && (key in plain ==>
          var e := plain[key];
          && 1 <= e.count <= cfg.max
          && n <= if e.windowStart < from then 0 else if e.windowStart == from then e.count else cfg.max)
  }

  lemma SecondStep(n: nat, plain: map<Key, Entry>, r: Request, key: Key, from: nat, last: nat, cfg: Config)
    requires cfg.windowSecs == 1 && cfg.max >= 1
    requires WithinSecond(n, plain, key, from, last, cfg) && last <= r.now
    requires key in plain ==> plain[key].windowStart <= last && plain[key].windowStart + cfg.windowSecs < TWO_64
    ensures WithinSecond(n, plain, key, from, r.now, cfg)
    ensures var (entry, d) := Count(plain, r.key, r.now, cfg);
            var hit := r.key == key && d == Accepted && from <= r.now < from + cfg.windowSecs;
            WithinSecond(n + if hit then 1 else 0, plain[r.key := entry], key, from, r.now, cfg)
  {
    if r.key != key {
      assert plain[r.key := Count(plain, r.key, r.now, cfg).0].Keys == plain.Keys + {r.key};
    } else if key in plain {
      assert Expired(plain[key], r.now, cfg) <==> r.now >= plain[key].windowStart + cfg.windowSecs;
    }
  }

  lemma {:induction false} SecondInvariant(rs: seq<Request>, key: Key, from: nat, cfg: Config)
    requires Timed(rs, cfg) && cfg.windowSecs == 1 && cfg.max >= 1
    ensures var s := Run(rs, cfg);
            WithinSecond(AcceptedFrom(rs, s.decisions, key, from, cfg), s.plain, key, from, LastTime(rs), cfg)
  {
    if |rs| > 0 {
      var n := |rs| - 1;
      var init := rs[..n];
      var s, ds := Run(init, cfg), Run(rs, cfg).decisions;
      SecondInvariant(init, key, from, cfg);
      RunAgrees(init, cfg);
      NextAgrees(s, rs[n], cfg, LastTime(init));
      SecondStep(AcceptedFrom(init, s.decisions, key, from, cfg), s.plain, rs[n], key, from, LastTime(init), cfg);
      assert ds[..n] == s.decisions;
      hide WithinSecond, Count, Check, Agree;
    }
  }

  /** With windows of half the clock's range or more, a key's first window outlasts the clock. */
  ghost predicate WithinOneWindow(n: nat, plain: map<Key, Entry>, key: Key, cfg: Config) {
    if key in plain then n <= plain[key].count <= PerWindow(cfg) else n == 0
  }

  lemma {:induction false} OneWindowInvariant(rs: seq<Request>, key: Key, from: nat, cfg: Config)
    requires Timed(rs, cfg) && 2 * cfg.windowSecs >= TWO_64
    ensures var s := Run(rs, cfg);
            WithinOneWindow(AcceptedFrom(rs, s.decisions, key, from, cfg), s.plain, key, cfg)
  {
    if |rs| > 0 {
      var n := |rs| - 1;
      var init := rs[..n];
      var s, ds := Run(init, cfg), Run(rs, cfg).decisions;
      OneWindowInvariant(init, key, from, cfg);
      RunAgrees(init, cfg);
      NextAgrees(s, rs[n], cfg, LastTime(init));
      OneWindowStep(AcceptedFrom(init, s.decisions, key, from, cfg), s.plain, rs[n], key, from, cfg);
      assert ds[..n] == s.decisions;
      hide WithinOneWindow, Count, Check, Agree;
    }
  }

  lemma OneWindowStep(n: nat, plain: map<Key, Entry>, r: Request, key: Key, from: nat, cfg: Config)
    requires 2 * cfg.windowSecs >= TWO_64 && r.now + cfg.windowSecs < TWO_64
    requires WithinOneWindow(n, plain, key, cfg)
    requires key in plain ==> plain[key].windowStart + cfg.windowSecs < TWO_64
    ensures var (entry, d) := Count(plain, r.key, r.now, cfg);
            var hit := r.key == key && d == Accepted && from <= r.now < from + cfg.windowSecs;
            WithinOneWindow(n, plain[r.key := entry], key, cfg)
            && WithinOneWindow(n + if hit then 1 else 0, plain[r.key := entry], key, cfg)
  {
    if r.key == key && key in plain {
      assert !Expired(plain[key], r.now, cfg);
    } else if r.key != key {
      assert plain[r.key := Count(plain, r.key, r.now, cfg).0].Keys == plain.Keys + {r.key};
    }
  }

  lemma {:induction false} NothingInNoTime(rs: seq<Request>, ds: seq<Decision>, key: Key, from: nat, cfg: Config)
    requires |rs| == |ds| && cfg.windowSecs == 0
    ensures AcceptedFrom(rs, ds, key, from, cfg) == 0
  {
    if |rs| > 0 { NothingInNoTime(rs[..|rs| - 1], ds[..|rs| - 1], key, from, cfg); }
  }

  /** The window slides as documented if and only if it is empty, or the limit is not zero, and either the limit is one,
      or windows are one second long, or a single window fills half of the 64-bit clock. */
  lemma SlidesOnlyWhen(cfg: Config)
    requires cfg.windowSecs < TWO_64
    ensures Sliding(cfg) <==>
            || cfg.windowSecs == 0
            || (cfg.max >= 1 && (cfg.max == 1 || cfg.windowSecs == 1 || 2 * cfg.windowSecs >= TWO_64))
  {
    if cfg.windowSecs == 0
       || (cfg.max >= 1 && (cfg.max == 1 || cfg.windowSecs == 1 || 2 * cfg.windowSecs >= TWO_64)) {
      forall rs: seq<Request>, key: Key, from: nat | Timed(rs, cfg)
        ensures AcceptedFrom(rs, Run(rs, cfg).decisions, key, from, cfg) <= cfg.max
      {
        hide Run, AcceptedFrom;
        if cfg.windowSecs == 0 {
          NothingInNoTime(rs, Run(rs, cfg).decisions, key, from, cfg);
        } else if cfg.max == 1 {
          RateBound(rs, key, from, cfg);
        } else if 2 * cfg.windowSecs >= TWO_64 {
          OneWindowInvariant(rs, key, from, cfg);
        } else {
          SecondInvariant(rs, key, from, cfg);
        }
      }
    } else if cfg.max == 0 {
      ZeroStillAdmits(cfg);
    } else {
      RateBoundIsTight(cfg);
      hide Run, AcceptedFrom;
    }
  }

  /** A limit of zero lets the first request of a window through. */
  lemma ZeroStillAdmits(cfg: Config)
    requires cfg.max == 0 && 0 < cfg.windowSecs < TWO_64
    ensures var rs := [Request("", 0)];
            Timed(rs, cfg) && AcceptedFrom(rs, Run(rs, cfg).decisions, "", 0, cfg) == 1
  {
    var rs := [Request("", 0)];
    assert rs[..0] == [];
    assert Run(rs, cfg) == Next(Run([], cfg), rs[0], cfg);
    assert Run(rs, cfg).decisions == [Accepted];
    assert AcceptedFrom([], [], "", 0, cfg) == 0;
  }

  // ----- A run that saturates the table -----

  /** One request from each of `n` clients, all at time 0. */
  function Flood(n: nat): (rs: seq<Request>)
    ensures |rs| == n
  {
    seq(n, i requires 0 <= i => Request(Name(i), 0))
  }

  function Name(i: nat): (key: Key)
    ensures |key| == i
  {
    seq(i, _ => 'x')
  }

  /** The table of the first `n` clients, their windows all open. */
  ghost predicate Flooded(t: map<Key, Entry>, n: nat) {
    && |t| == n
    && (forall i: nat :: Name(i) in t <==> i < n)
    && (forall k <- t :: t[k].windowStart == 0)
  }

  lemma FloodStep(t: map<Key, Entry>, n: nat, cfg: Config)
    requires 0 < cfg.windowSecs < TWO_64 && n < MAX_TRACKED_CLIENTS && Flooded(t, n)
    ensures Flooded(Check(t, Name(n), 0, cfg).0, n + 1)
  {
    NothingExpired(t, n, cfg);
    var entry := Count(t, Name(n), 0, cfg).0;
    var next := t[Name(n) := entry];
    hide Prune, Expired, Name;
    assert next.Keys == t.Keys + {Name(n)} && Name(n) !in t.Keys;
    assert |next| == |next.Keys| && |t| == |t.Keys|;
    forall i: nat ensures Name(i) in next <==> i < n + 1 {
      assert |Name(i)| == i && |Name(n)| == n;
    }
  }

  lemma NothingExpired(t: map<Key, Entry>, n: nat, cfg: Config)
    requires 0 < cfg.windowSecs < TWO_64 && Flooded(t, n)
    ensures Prune(t, 0, cfg) == t
  {
  }

  lemma {:induction false} FloodFills(n: nat, cfg: Config)
    requires 0 < cfg.windowSecs < TWO_64 && n <= MAX_TRACKED_CLIENTS
    ensures Flooded(Run(Flood(n), cfg).table, n)
  {
    if n > 0 {
      FloodFills(n - 1, cfg);
      assert Flood(n)[..n - 1] == Flood(n - 1);
      FloodStep(Run(Flood(n - 1), cfg).table, n - 1, cfg);
      hide Flooded, Check;
    }
  }

  /** After 8192 clients in one second the next request is turned away, even one of a client that has used up nothing
      but its first request. */
  lemma FloodSaturates(cfg: Config, key: Key)
    requires 0 < cfg.windowSecs < TWO_64
    ensures var t := Run(Flood(8192), cfg).table;
            && Name(0) in t
            && Check(t, key, 0, cfg).1 == Saturated
  {
    FloodFills(8192, cfg);
    var t := Run(Flood(8192), cfg).table;
    hide Run;
    NothingExpired(t, 8192, cfg);
    TableBound(t, key, 0, cfg);
  }
}
