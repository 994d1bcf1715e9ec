/**
 Runs of the game loop: a sequence of events, each a loop tick or the firing
 of the cooldown timer, applied in order. The lemmas here relate many ticks.
 The timer event may appear anywhere in a run, so every run the page can
 produce is among the runs considered here.
 */
module Trace {
  import opened Rules

  datatype Event = Tick(frame: Frame) | ResetCross

  function Apply(s: State, e: Event): State
  {
    match e
    case Tick(f) => AfterTick(s, f)
    case ResetCross => AfterReset(s)
  }

  function Run(s: State, events: seq<Event>): State
    decreases |events|
  {
    if events == [] then s else Run(Apply(s, events[0]), events[1..])
  }

  /** The number of loop ticks in a run. */
  function TickCount(events: seq<Event>): (n: nat)
    ensures n <= |events|
    decreases |events|
  {
    if events == [] then 0
    else (if events[0].Tick? then 1 else 0) + TickCount(events[1..])
  }

  predicate NoReset(events: seq<Event>)
  {
    forall i :: 0 <= i < |events| ==> events[i].Tick?
  }

  /** The score never falls, and each tick adds at most one point. */
  lemma {:induction false} ScoreBounded(s: State, events: seq<Event>)
    ensures s.score <= Run(s, events).score <= s.score + TickCount(events)
    decreases |events|
  {
    if events != [] {
      ScoreBounded(Apply(s, events[0]), events[1..]);
    }
  }

  /** Once the game is over it stays over. */
  lemma {:induction false} GameOverLatches(s: State, events: seq<Event>)
    requires s.gameOver
    ensures Run(s, events).gameOver
    decreases |events|
  {
    if events != [] {
      GameOverLatches(Apply(s, events[0]), events[1..]);
    }
  }

  /** Once scoring is disabled, it is never enabled again and the score is final. */
  lemma {:induction false} ScoreFrozen(s: State, events: seq<Event>)
    requires !s.updateScore
    ensures !Run(s, events).updateScore && Run(s, events).score == s.score
    decreases |events|
  {
    if events != [] {
      ScoreFrozen(Apply(s, events[0]), events[1..]);
    }
  }

  /**
   The cooldown: between two timer events at most one point is scored, and
   none if the cooldown was already running; only the timer ends it.
   */
  lemma {:induction false} OnePointPerCooldown(s: State, events: seq<Event>)
    requires NoReset(events)
    ensures Run(s, events).score <= s.score + (if s.cross then 1 else 0)
    ensures !s.cross ==> !Run(s, events).cross
    decreases |events|
  {
    if events != [] {
      OnePointPerCooldown(Apply(s, events[0]), events[1..]);
    }
  }

  /** Every state a run reaches from the start is consistent. */
  lemma {:induction false} RunKeepsConsistent(s: State, events: seq<Event>)
    requires Consistent(s)
    ensures Consistent(Run(s, events))
    decreases |events|
  {
    if events != [] {
      RunKeepsConsistent(Apply(s, events[0]), events[1..]);
    }
  }

  lemma Reachable(events: seq<Event>)
    ensures Consistent(Run(Initial, events))
  {
    RunKeepsConsistent(Initial, events);
  }

  /** After a hit, whatever follows, the game is over and the score is final. */
  lemma HitIsFinal(s: State, f: Frame, events: seq<Event>)
    requires Hit(f, s.gameOver)
    ensures Run(AfterTick(s, f), events).gameOver
    ensures Run(AfterTick(s, f), events).score == s.score
  {
    GameOverLatches(AfterTick(s, f), events);
    ScoreFrozen(AfterTick(s, f), events);
  }
}
