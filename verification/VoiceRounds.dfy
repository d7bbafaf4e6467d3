/** The voice bridge's active-round slot: the event loop fills, stops and supersedes answer rounds while their reply
    tasks finish on their own. Every step below is one critical section or one atomic access. */
module VoiceRounds {
  import opened Bytes

  /** What the loop and the reply tasks share: the slot, the round counter, and the cancel flags that are up. */
  datatype Shared = Shared(slot: Option<nat>, counter: nat, cancelled: set<nat>)

  function TakeSlot(sh: Shared): Shared { sh.(slot := None) }
  function CancelRound(sh: Shared, id: nat): Shared { sh.(cancelled := sh.cancelled + {id}) }
  function NextId(sh: Shared): Shared { sh.(counter := sh.counter + 1) }
  function FillSlot(sh: Shared, id: nat): Shared { sh.(slot := Some(id)) }

  /** A finished round clears the slot only when it still owns it. */
  function ReleaseSlot(sh: Shared, id: nat): Shared {
    if sh.slot == Some(id) then sh.(slot := None) else sh
  }

  class RoundSlot {
    var slot: Option<nat>
    var counter: nat
    var cancelled: set<nat>

    constructor ()
      ensures View() == Shared(None, 0, {})
    {
      slot, counter, cancelled := None, 0, {};
    }

    ghost function View(): Shared
      reads this
    {
      Shared(slot, counter, cancelled)
    }

    /** Stop word or new question: take the running round out and raise its flag. */
    method TakeAndCancel()
      modifies this
      ensures View() == match old(slot)
                        case Some(id) => CancelRound(TakeSlot(old(View())), id)
                        case None => old(View())
    {
      match slot
      case Some(id) =>
        slot := None;
        cancelled := cancelled + {id};
      case None =>
    }

    /** Start a round: number it and put it in the slot, whatever was there. */
    method Fill() returns (id: nat)
      modifies this
      ensures id == old(counter) + 1 && View() == FillSlot(NextId(old(View())), id)
    {
      id := counter + 1;
      counter := id;
      slot := Some(id);
    }

    method Release(id: nat)
      modifies this
      ensures View() == ReleaseSlot(old(View()), id)
    {
      if slot.Some? && slot.value == id {
        slot := None;
      }
    }
  }

  // ----- The protocol -----

  datatype Task = Filled | Running | Crashed | Released

  datatype InterruptAction = Stop | Backchannel | Supersede

  datatype Loop =
    | Receiving                                  // waiting for a transcript
    | Deciding                                   // saw a round in the slot; stop, ignore or supersede?
    | Taking(id: nat, action: InterruptAction)   // holds the slot's lock, round taken out, flag not yet up
    | Proceeding                                 // past the interruption gate
    | Numbered(id: nat)                          // has the new round's number
    | Spawning(id: nat)                          // slot filled, reply task not yet started

  datatype System = System(shared: Shared, loop: Loop, tasks: map<nat, Task>)

  datatype Event =
    | Hear(blank: bool) | Choose(action: InterruptAction) | RaiseFlag | GiveUp | Number | Fill | Spawn
    | Finish(id: nat)  // the reply task's release section
    | Panic(id: nat)   // the reply task dies without releasing

  predicate LockHeld(s: System) { s.loop.Taking? }

  function AfterInterrupt(a: InterruptAction): Loop { if a == Supersede then Proceeding else Receiving }

  /** One event; an event that cannot happen now changes nothing. */
  function Next(enabled: bool, s: System, e: Event): System {
    match e
    case Hear(blank) =>
      if !s.loop.Receiving? then s
      else if enabled && s.shared.slot.Some? then s.(loop := if blank then Receiving else Deciding)
      else s.(loop := Proceeding)
    case Choose(a) =>
      if !s.loop.Deciding? then s
      else if a == Backchannel || s.shared.slot.None? then s.(loop := AfterInterrupt(a))
      else s.(shared := TakeSlot(s.shared), loop := Taking(s.shared.slot.value, a))
    case RaiseFlag =>
      if !s.loop.Taking? then s
      else s.(shared := CancelRound(s.shared, s.loop.id), loop := AfterInterrupt(s.loop.action))
    case GiveUp => if s.loop.Proceeding? then s.(loop := Receiving) else s
    case Number =>
      if s.loop.Proceeding? then s.(shared := NextId(s.shared), loop := Numbered(s.shared.counter + 1)) else s
    case Fill =>
      if !s.loop.Numbered? then s
      else System(FillSlot(s.shared, s.loop.id), Spawning(s.loop.id), s.tasks[s.loop.id := Filled])
    case Spawn =>
      if s.loop.Spawning? then s.(loop := Receiving, tasks := s.tasks[s.loop.id := Running]) else s
    case Finish(id) =>
      if id in s.tasks && s.tasks[id].Running? && !LockHeld(s)
      then s.(shared := ReleaseSlot(s.shared, id), tasks := s.tasks[id := Released]) else s
    case Panic(id) =>
      if id in s.tasks && s.tasks[id].Running? then s.(tasks := s.tasks[id := Crashed]) else s
  }

  function Start(): System { System(Shared(None, 0, {}), Receiving, map[]) }

  function Run(enabled: bool, events: seq<Event>): System {
    if |events| == 0 then Start()
    else Next(enabled, Run(enabled, events[..|events| - 1]), events[|events| - 1])
  }

  /** Filled into the slot at some time and not released since. */
  predicate Unreleased(s: System, id: nat) { id in s.tasks && !s.tasks[id].Released? }

  predicate Live(s: System, id: nat) { Unreleased(s, id) && id !in s.shared.cancelled }

  ghost predicate Inv(s: System) {
    && (forall id | Live(s, id) :: s.shared.slot == Some(id) || (s.loop.Taking? && s.loop.id == id))
    && (s.shared.slot.Some? ==> Live(s, s.shared.slot.value))
    && (s.loop.Taking? || s.loop.Proceeding? || s.loop.Numbered? ==> s.shared.slot.None?)
    && (s.loop.Taking? ==> Live(s, s.loop.id))
    && (forall id | id in s.tasks || id in s.shared.cancelled :: id <= s.shared.counter)
    && (s.loop.Numbered? ==>
          s.loop.id == s.shared.counter && s.loop.id !in s.tasks && s.loop.id !in s.shared.cancelled)
    && (s.loop.Spawning? ==> s.loop.id in s.tasks && s.tasks[s.loop.id].Filled?)
    && (forall id | id in s.tasks && s.tasks[id].Filled? :: s.loop == Spawning(id))
  }

  lemma NextKeepsInv(s: System, e: Event)
    requires Inv(s)
    ensures Inv(Next(true, s, e))
  {
  }

  lemma {:induction false} RunKeepsInv(events: seq<Event>)
    ensures Inv(Run(true, events))
  {
    if |events| > 0 {
      RunKeepsInv(events[..|events| - 1]);
      NextKeepsInv(Run(true, events[..|events| - 1]), events[|events| - 1]);
    }
  }

  // ----- What the slot promises -----

  /** Every round between its fill and its release is cancelled or is the one in the slot, at any moment when the
      slot's lock is free. */
  predicate SlotOwnsLive(s: System) {
    !LockHeld(s) ==> forall id <- s.tasks :: Live(s, id) ==> s.shared.slot == Some(id)
  }

  /** With interrupts on this holds in every interleaving of the loop and the reply tasks, panics included. */
  lemma OneLiveRound(events: seq<Event>)
    ensures var s := Run(true, events);
            && SlotOwnsLive(s)
            && forall i, j :: Live(s, i) && Live(s, j) ==> i == j
  {
    RunKeepsInv(events);
  }

  /** The slot is empty whenever the loop is about to fill it, and the number it fills in is a new one. */
  lemma FillsEmptySlot(events: seq<Event>)
    requires Run(true, events).loop.Numbered?
    ensures var s := Run(true, events);
            s.shared.slot.None? && s.loop.id !in s.tasks && s.loop.id !in s.shared.cancelled
  {
    RunKeepsInv(events);
  }

  /** A finishing round clears the slot when it is its own and otherwise leaves the successor where it is; a round
      that finishes uncancelled always finds itself there. */
  lemma FinishSparesSuccessor(events: seq<Event>, id: nat)
    requires var s := Run(true, events); id in s.tasks && s.tasks[id].Running? && !LockHeld(s)
    ensures var s := Run(true, events);
            var t := Next(true, s, Finish(id));
            && t.shared.slot == (if s.shared.slot == Some(id) then None else s.shared.slot)
            && (id !in s.shared.cancelled <==> s.shared.slot == Some(id))
            && t.shared.cancelled == s.shared.cancelled
  {
    RunKeepsInv(events);
  }

  /** With nothing running, or with interrupts off, an utterance goes on to be answered; during a round one without
      words is ignored and any other is decided on. */
  lemma WhatHearingDoes(enabled: bool, s: System, blank: bool)
    requires s.loop.Receiving?
    ensures var t := Next(enabled, s, Hear(blank));
            && t.shared == s.shared && t.tasks == s.tasks
            && (t.loop == Proceeding <==> !enabled || s.shared.slot.None?)
            && (t.loop == Deciding <==> enabled && s.shared.slot.Some? && !blank)
            && (t.loop == Receiving <==> enabled && s.shared.slot.Some? && blank)
  {
  }

  /** An answer started without interference holds the slot under the next number, and its task runs. */
  lemma RoundStarts(enabled: bool, s: System)
    requires s.loop.Proceeding?
    ensures var id := s.shared.counter + 1;
            Next(enabled, Next(enabled, Next(enabled, s, Number), Fill), Spawn) ==
            System(Shared(Some(id), id, s.shared.cancelled), Receiving, s.tasks[id := Running])
  {
    var id := s.shared.counter + 1;
    assert s.tasks[id := Filled][id := Running] == s.tasks[id := Running];
  }

  /** A stop word takes the running round out, cancels it and waits for the next utterance; a new question does so
      and goes on to start its own round; a backchannel changes nothing but that the loop waits again. */
  lemma WhatInterruptsDo(s: System, id: nat)
    requires s.loop.Deciding? && s.shared.slot == Some(id)
    ensures var t := Next(true, Next(true, s, Choose(Stop)), RaiseFlag);
            t.loop == Receiving && t.shared.slot.None? && id in t.shared.cancelled
    ensures var t := Next(true, Next(true, s, Choose(Supersede)), RaiseFlag);
            t.loop == Proceeding && t.shared.slot.None? && id in t.shared.cancelled
    ensures Next(true, s, Choose(Backchannel)) == s.(loop := Receiving)
  {
  }

  predicate Interrupts(e: Event) { e == Choose(Stop) || e == Choose(Supersede) }

  /** A reply task that dies without releasing leaves its round in the slot: until a stop word or a new question takes
      it out, every utterance meets the interruption gate and no new round is started. */
  lemma {:induction false} CrashedRoundStays(events: seq<Event>, more: seq<Event>, id: nat)
    requires var s := Run(true, events); id in s.tasks && s.tasks[id].Crashed? && Live(s, id) && !LockHeld(s)
    requires forall i | 0 <= i < |more| :: !Interrupts(more[i])
    ensures var t := Run(true, events + more);
            && t.shared.slot == Some(id) && id in t.tasks && t.tasks[id].Crashed?
            && !t.loop.Proceeding? && !t.loop.Numbered? && !t.loop.Taking?
            && (t.loop.Receiving? ==> Next(true, t, Hear(false)).loop == Deciding)
    decreases |more|
  {
    RunKeepsInv(events + more);
    if more == [] {
      assert events + more == events;
    } else {
      var init, e := more[..|more| - 1], more[|more| - 1];
      CrashedRoundStays(events, init, id);
      RunKeepsInv(events + init);
      assert events + more == (events + init) + [e];
      RunSnoc(true, events + init, e);
    }
  }

  /** Two utterances answered one after the other, the second before the first is done. */
  function TwoRounds(): seq<Event> {
    [Hear(false), Number, Fill, Spawn, Hear(false), Number, Fill]
  }

  lemma {:induction false} RunSnoc(enabled: bool, events: seq<Event>, e: Event)
    ensures Run(enabled, events + [e]) == Next(enabled, Run(enabled, events), e)
  {
    assert (events + [e])[..|events|] == events;
  }

  lemma TwoRoundsRace()
    ensures !SlotOwnsLive(Run(false, TwoRounds()))
  {
    var e3 := Extend(Extend(Extend([], Hear(false)), Number), Fill);
    assert Run(false, e3) == System(Shared(Some(1), 1, {}), Spawning(1), map[1 := Filled]);
    var e6 := Extend(Extend(Extend(e3, Spawn), Hear(false)), Number);
    assert Run(false, e6) == System(Shared(Some(1), 2, {}), Numbered(2), map[1 := Running]);
    var e7 := Extend(e6, Fill);
    assert e7 == TwoRounds();
    assert Live(Run(false, e7), 1);
  }

  /** `events` and one more, with what the last one does. */
  ghost function Extend(events: seq<Event>, e: Event): (r: seq<Event>)
    ensures r == events + [e] && Run(false, r) == Next(false, Run(false, events), e)
  {
    RunSnoc(false, events, e);
    events + [e]
  }

  /** The slot protects its rounds in all runs if and only if interrupts are enabled. */
  lemma ProtectsIffEnabled(enabled: bool)
    ensures (forall events :: SlotOwnsLive(Run(enabled, events))) <==> enabled
  {
    if enabled {
      forall events ensures SlotOwnsLive(Run(enabled, events)) { OneLiveRound(events); }
    } else {
      TwoRoundsRace();
    }
  }
}
