/** Admission of frame descriptions: any number of threads stepping through `try_admit` and the lease's drop, one
    sequentially consistent access to the gate's atomics at a time. */
module DescGate {

  datatype Gate = Gate(inFlight: bool, lastStartMs: nat, hasStarted: bool, minIntervalMs: nat)

  /** Where a thread is in `try_admit`, or that it holds the lease. */
  datatype Phase =
    | Idle
    | Won(now: nat)                        // swapped the flag from false to true
    | LoadedStarted(now: nat, ever: bool)  // has read has_started
    | Throttling                           // found the floor not yet passed
    | Starting(now: nat)                   // about to store last_start_ms
    | Marking(now: nat)                    // about to store has_started
    | Holding(now: nat)                    // admitted: the lease is alive

  datatype Outcome = Pending | Busy | Throttled | Admitted | Dropped

  /** The gate, its threads, and the start times stored so far. */
  datatype System = System(gate: Gate, threads: seq<Phase>, starts: seq<nat>)

  function SaturatingSub(a: nat, b: nat): nat { if a >= b then a - b else 0 }

  predicate TooSoon(g: Gate, now: nat, ever: bool) {
    ever && SaturatingSub(now, g.lastStartMs) < g.minIntervalMs
  }

  /** The next atomic access of thread `t`; an idle thread asks at time `now`, a holder drops its lease. */
  function Step(s: System, t: nat, now: nat): (System, Outcome)
    requires t < |s.threads|
  {
    var g := s.gate;
    match s.threads[t]
    case Idle =>
      if g.inFlight then (s, Busy)
      else (s.(gate := g.(inFlight := true), threads := s.threads[t := Won(now)]), Pending)
    case Won(at) =>
      (s.(threads := s.threads[t := LoadedStarted(at, g.hasStarted)]), Pending)
    case LoadedStarted(at, ever) =>
      (s.(threads := s.threads[t := if TooSoon(g, at, ever) then Throttling else Starting(at)]), Pending)
    case Throttling =>
      (s.(gate := g.(inFlight := false), threads := s.threads[t := Idle]), Throttled)
    case Starting(at) =>
      (s.(gate := g.(lastStartMs := at), threads := s.threads[t := Marking(at)], starts := s.starts + [at]), Pending)
    case Marking(at) =>
      (s.(gate := g.(hasStarted := true), threads := s.threads[t := Holding(at)]), Admitted)
    case Holding(_) =>
      (s.(gate := g.(inFlight := false), threads := s.threads[t := Idle]), Dropped)
  }

  // ----- The program's method, run without interference -----

  /** Thread `t` stepping alone from its request to its answer. */
  function AskAlone(s: System, t: nat, now: nat): (System, Outcome)
    requires t < |s.threads| && s.threads[t].Idle?
  {
    var (s1, o) := Step(s, t, now);
    if o == Busy then (s1, o) else
    var s2 := Step(s1, t, now).0;
    var s3 := Step(s2, t, now).0;
    if s3.threads[t].Throttling? then Step(s3, t, now) else
    Step(Step(s3, t, now).0, t, now)
  }

  class DescGate {
    var inFlight: bool
    var lastStartMs: nat
    var hasStarted: bool
    const minIntervalMs: nat

    constructor (minIntervalMs: nat)
      ensures View() == Gate(false, 0, false, minIntervalMs)
    {
      this.minIntervalMs := minIntervalMs;
      inFlight, lastStartMs, hasStarted := false, 0, false;
    }

    ghost function View(): Gate
      reads this
    {
      Gate(inFlight, lastStartMs, hasStarted, minIntervalMs)
    }

    method TryAdmit(now: nat) returns (outcome: Outcome)
      modifies this
      ensures (View(), outcome) == var (s, o) := AskAlone(System(old(View()), [Idle], []), 0, now); (s.gate, o)
      ensures outcome == Admitted ==> inFlight && lastStartMs == now
      ensures outcome == Throttled ==> !inFlight && old(View()) == View()
      ensures outcome == Busy <==> old(inFlight)
    {
      var was := inFlight;
      inFlight := true;
      if was { return Busy; }
      var everStarted := hasStarted;
      var sinceLast := SaturatingSub(now, lastStartMs);
      if everStarted && sinceLast < minIntervalMs {
        inFlight := false;
        return Throttled;
      }
      lastStartMs := now;
      hasStarted := true;
      return Admitted;
    }

    method DropLease()
      modifies this
      ensures View() == old(View()).(inFlight := false)
    {
      inFlight := false;
    }
  }

  // ----- Runs -----

  datatype Event = Event(thread: nat, now: nat)

  function Start(n: nat, minIntervalMs: nat): System {
    System(Gate(false, 0, false, minIntervalMs), seq(n, _ => Idle), [])
  }

  /** Any interleaving: events name the thread to step; those that name no thread do nothing. */
  function Run(n: nat, minIntervalMs: nat, events: seq<Event>): (s: System)
    ensures |s.threads| == n && s.gate.minIntervalMs == minIntervalMs
  {
    if |events| == 0 then Start(n, minIntervalMs) else
    var s, e := Run(n, minIntervalMs, events[..|events| - 1]), events[|events| - 1];
    if e.thread < n then Step(s, e.thread, e.now).0 else s
  }

  /** Between winning the swap and giving the flag back. */
  predicate Critical(p: Phase) { !p.Idle? }

  /** What is known while a thread is in a phase. */
  ghost predicate PhaseFits(s: System, p: Phase) {
    match p
    case LoadedStarted(_, ever) => ever == (s.starts != [])
    case Throttling => s.starts != []
    case Starting(now) =>
      s.starts != [] ==> SaturatingSub(now, s.starts[|s.starts| - 1]) >= s.gate.minIntervalMs
    case Marking(now) => s.starts != [] && s.starts[|s.starts| - 1] == now
    case Holding(now) => s.starts != [] && s.starts[|s.starts| - 1] == now
    case _ => true
  }

  ghost predicate Spaced(s: System) {
    s.gate.minIntervalMs > 0 ==>
      forall k | 0 <= k && k + 1 < |s.starts| :: s.starts[k + 1] >= s.starts[k] + s.gate.minIntervalMs
  }

  ghost predicate Inv(s: System) {
    && (forall i, j | 0 <= i < |s.threads| && 0 <= j < |s.threads| && i != j ::
          !(Critical(s.threads[i]) && Critical(s.threads[j])))
    && (s.gate.inFlight <==> exists i :: 0 <= i < |s.threads| && Critical(s.threads[i]))
    && (forall i | 0 <= i < |s.threads| :: PhaseFits(s, s.threads[i]))
    && (s.starts != [] ==> s.gate.lastStartMs == s.starts[|s.starts| - 1])
    && (s.starts == [] ==> !s.gate.hasStarted)
    && ((forall i | 0 <= i < |s.threads| :: !s.threads[i].Marking?) ==> (s.gate.hasStarted <==> s.starts != []))
    && Spaced(s)
  }

  lemma StepKeepsInv(s: System, t: nat, now: nat)
    requires Inv(s) && t < |s.threads|
    ensures Inv(Step(s, t, now).0)
  {
    var s' := Step(s, t, now).0;
    assert Critical(s.threads[t]) ==> forall i | 0 <= i < |s.threads| && i != t :: s.threads[i].Idle?;
    assert forall i | 0 <= i < |s.threads| && i != t :: s'.threads[i] == s.threads[i];
    if Critical(s'.threads[t]) {
      assert s'.gate.inFlight;
    }
  }

  lemma {:induction false} RunKeepsInv(n: nat, minIntervalMs: nat, events: seq<Event>)
    ensures Inv(Run(n, minIntervalMs, events))
  {
    if |events| > 0 {
      var init, e := events[..|events| - 1], events[|events| - 1];
      RunKeepsInv(n, minIntervalMs, init);
      if e.thread < n {
        StepKeepsInv(Run(n, minIntervalMs, init), e.thread, e.now);
      }
    }
  }

  // ----- What the gate promises -----

  /** In every interleaving at most one thread holds a lease, and the flag is up exactly while some thread is between
      winning it and giving it back; with no such thread the gate is free. */
  lemma SingleFlight(n: nat, minIntervalMs: nat, events: seq<Event>)
    ensures var s := Run(n, minIntervalMs, events);
            && (forall i, j | 0 <= i < n && 0 <= j < n && s.threads[i].Holding? && s.threads[j].Holding? :: i == j)
            && (s.gate.inFlight <==> exists i :: 0 <= i < n && Critical(s.threads[i]))
  {
    RunKeepsInv(n, minIntervalMs, events);
  }

  /** In every interleaving, whatever the clock does, starts lie at least the floor apart. */
  lemma StartFloor(n: nat, minIntervalMs: nat, events: seq<Event>, j: nat, k: nat)
    requires minIntervalMs > 0 && j < k < |Run(n, minIntervalMs, events).starts|
    ensures var starts := Run(n, minIntervalMs, events).starts;
            starts[k] >= starts[j] + (k - j) * minIntervalMs
    decreases k
  {
    RunKeepsInv(n, minIntervalMs, events);
    var starts := Run(n, minIntervalMs, events).starts;
    if j + 1 < k {
      StartFloor(n, minIntervalMs, events, j, k - 1);
      assert (k - j) * minIntervalMs == (k - 1 - j) * minIntervalMs + minIntervalMs;
    }
    assert starts[k - 1 + 1] >= starts[k - 1] + minIntervalMs;
  }

  /** A winner of the swap is turned away exactly when an earlier start lies less than the floor before it;
      so the first winner of all is admitted at any time. */
  lemma TurnedAwayExactly(n: nat, minIntervalMs: nat, events: seq<Event>, t: nat, now: nat)
    requires t < n && Run(n, minIntervalMs, events).threads[t].LoadedStarted?
    ensures var s := Run(n, minIntervalMs, events);
            var at := s.threads[t].now;
            Step(s, t, now).0.threads[t] ==
            if s.starts != [] && at < s.starts[|s.starts| - 1] + minIntervalMs && minIntervalMs > 0
            then Throttling else Starting(at)
  {
    RunKeepsInv(n, minIntervalMs, events);
    var s := Run(n, minIntervalMs, events);
    assert PhaseFits(s, s.threads[t]);
  }

  /** Nobody gives back what is not theirs: a step of one thread leaves every other thread's phase alone, and while
      another thread is past the swap the flag stays up, whether the stepping thread is told Busy or not. */
  lemma OnlyOwnLease(n: nat, minIntervalMs: nat, events: seq<Event>, t: nat, u: nat, now: nat)
    requires t < n && u < n && t != u && Critical(Run(n, minIntervalMs, events).threads[u])
    ensures var s := Run(n, minIntervalMs, events);
            Step(s, t, now) == (s, Busy) && s.gate.inFlight
  {
    RunKeepsInv(n, minIntervalMs, events);
  }

  /** Own steps a thread still needs before it is idle again or holds the lease. */
  function StepsToAnswer(p: Phase): nat {
    match p
    case Won(_) => 4
    case LoadedStarted(_, _) => 3
    case Starting(_) => 2
    case Marking(_) => 1
    case Throttling => 1
    case _ => 0
  }

  /** A winner is never stuck: each of its own steps brings its answer nearer. */
  lemma AnswerComes(s: System, t: nat, now: nat)
    requires t < |s.threads| && StepsToAnswer(s.threads[t]) > 0
    ensures StepsToAnswer(Step(s, t, now).0.threads[t]) < StepsToAnswer(s.threads[t])
  {
  }
}
