/** The step-by-step replay of internal/analytics/puzzle_replay.go, its agreement with the attempt
    traversal it mirrors, and the integrity counters it reports. */
module Replay {
  import opened AttemptEvents
  import opened Basics
  import opened OrderStatistics

  // ---------------------------------------------------------------- the replay traversal as a fold

  /** An empty list does not replace the carried set here. */
  function ReplayBase(e: Event, installed: set<int>): set<int> {
    if e.placed.Listed? then IntegerSet(e.placed) else installed
  }

  function ReplayAfter(e: Event, installed: set<int>): set<int> {
    if !e.readable then installed
    else if e.name == StateCheckpoint then AttemptBase(e, installed)
    else if e.name == PlacementResolved then Resolved(e, ReplayBase(e, installed))
    else installed
  }

  function InstalledFrom(start: set<int>, es: seq<Event>): set<int> {
    if es == [] then start else ReplayAfter(es[|es| - 1], InstalledFrom(start, es[..|es| - 1]))
  }

  /** City and house come from the first readable event, and again while the city read is negative. */
  function Place(es: seq<Event>): (int, int) {
    if es == [] then (-1, -1) else
    var before, e := Place(es[..|es| - 1]), es[|es| - 1];
    if e.readable && before.0 < 0 then (e.city, e.house) else before
  }

  function CityFor(es: seq<Event>, e: Event): int { if e.city < 0 then Place(es + [e]).0 else e.city }
  function HouseFor(es: seq<Event>, e: Event): int { if e.house < 0 then Place(es + [e]).1 else e.house }

  function ReplayMissing(catalog: Catalog, es: seq<Event>, e: Event): seq<seq<int>> {
    if e.name == PlacementResolved
    then MissingGroups(catalog, CityFor(es, e), HouseFor(es, e), e.target, ReplayBase(e, InstalledFrom({}, es)))
    else []
  }

  function Last(es: seq<Event>): int {
    if es == [] then -1
    else if es[|es| - 1].readable && es[|es| - 1].index >= 0 then es[|es| - 1].index
    else Last(es[..|es| - 1])
  }

  function Gaps(es: seq<Event>): nat {
    if es == [] then 0 else
    var init, e := es[..|es| - 1], es[|es| - 1];
    Gaps(init) + (if e.readable && e.index >= 0 && Last(init) >= 0 && e.index > Last(init) + 1
                  then e.index - Last(init) - 1 else 0)
  }

  function Repeats(es: seq<Event>): nat {
    if es == [] then 0 else
    var init, e := es[..|es| - 1], es[|es| - 1];
    Repeats(init) + (if e.readable && e.index >= 0 && e.index == Last(init) then 1 else 0)
  }

  predicate Opens(e: Event, id: Id) {
    e.readable && e.interaction == Some(id) && e.name == DetailTaken
  }

  predicate Closes(e: Event, id: Id) {
    && e.readable && e.interaction == Some(id)
    && (e.name == DetailReturned || e.name == InteractionAbandoned || (e.name == PlacementResolved && e.outcome == Placed))
  }

  function OpenAfter(e: Event, open: set<Id>): set<Id> {
    if !e.readable || e.interaction.None? then open
    else if Opens(e, e.interaction.value) then open + {e.interaction.value}
    else if Closes(e, e.interaction.value) then open - {e.interaction.value}
    else open
  }

  function OpenIds(es: seq<Event>): set<Id> {
    if es == [] then {} else OpenAfter(es[|es| - 1], OpenIds(es[..|es| - 1]))
  }

  function HashMismatches(es: seq<Event>): nat {
    if es == [] then 0 else
    var e := es[|es| - 1];
    HashMismatches(es[..|es| - 1]) + (if e.readable && e.name == StateCheckpoint && e.placed != Absent && e.hashWrong then 1 else 0)
  }

  datatype Step = Step(event: Event, placed: seq<int>, missing: seq<seq<int>>)

  /** The steps are the readable events, each with its own snapshot and missing groups. */
  ghost predicate StepsFor(catalog: Catalog, es: seq<Event>, steps: seq<Step>)
  {
    if es == [] then steps == [] else
    var init, e := es[..|es| - 1], es[|es| - 1];
    if !e.readable then StepsFor(catalog, init, steps) else
    && steps != [] && StepsFor(catalog, init, steps[..|steps| - 1])
    && var s := steps[|steps| - 1];
       s.event == e && Enumerates(s.placed, InstalledFrom({}, es)) && s.missing == ReplayMissing(catalog, init, e)
  }

  /** What one more event does to every figure read off the list. */
  lemma {:induction false} Snoc(es: seq<Event>, e: Event)
    ensures var all := es + [e];
            && InstalledFrom({}, all) == ReplayAfter(e, InstalledFrom({}, es))
            && Place(all) == (if e.readable && Place(es).0 < 0 then (e.city, e.house) else Place(es))
            && Last(all) == (if e.readable && e.index >= 0 then e.index else Last(es))
            && Gaps(all) == Gaps(es) + (if e.readable && e.index >= 0 && Last(es) >= 0 && e.index > Last(es) + 1
                                        then e.index - Last(es) - 1 else 0)
            && Repeats(all) == Repeats(es) + (if e.readable && e.index >= 0 && e.index == Last(es) then 1 else 0)
            && HashMismatches(all) == HashMismatches(es) +
                 (if e.readable && e.name == StateCheckpoint && e.placed != Absent && e.hashWrong then 1 else 0)
  {
    assert (es + [e])[..|es|] == es;
  }

  lemma {:induction false} Unread(catalog: Catalog, es: seq<Event>, e: Event, steps: seq<Step>)
    requires !e.readable && StepsFor(catalog, es, steps)
    ensures StepsFor(catalog, es + [e], steps)
  {
    assert (es + [e])[..|es|] == es;
  }

  lemma {:induction false} OneMoreStep(catalog: Catalog, es: seq<Event>, e: Event, steps: seq<Step>, s: Step)
    requires e.readable && StepsFor(catalog, es, steps)
    requires s.event == e && Enumerates(s.placed, InstalledFrom({}, es + [e])) && s.missing == ReplayMissing(catalog, es, e)
    ensures StepsFor(catalog, es + [e], steps + [s])
  {
    assert (es + [e])[..|es|] == es && (steps + [s])[..|steps|] == steps;
  }

  // ---------------------------------------------------------------- the replay itself

  class PuzzleReplay {
    var steps: seq<Step>
    var city: int
    var house: int
    var sequenceGaps: nat
    var sequenceDuplicates: nat
    var orphanInteractions: nat
    var stateHashMismatches: nat

    constructor ()
      ensures steps == [] && (city, house) == (-1, -1)
      ensures sequenceGaps == sequenceDuplicates == orphanInteractions == stateHashMismatches == 0
    {
      steps, city, house := [], -1, -1;
      sequenceGaps, sequenceDuplicates, orphanInteractions, stateHashMismatches := 0, 0, 0, 0;
    }

    ghost predicate Follows(catalog: Catalog, es: seq<Event>) reads this {
      && StepsFor(catalog, es, steps) && (city, house) == Place(es)
      && sequenceGaps == Gaps(es) && sequenceDuplicates == Repeats(es) && stateHashMismatches == HashMismatches(es)
    }

    method UpdateSequence(index: int, previous: int) returns (last: int)
      modifies this`sequenceGaps, this`sequenceDuplicates
      ensures last == if index < 0 then previous else index
      ensures sequenceDuplicates == old(sequenceDuplicates) + if index >= 0 && index == previous then 1 else 0
      ensures sequenceGaps == old(sequenceGaps) + if index >= 0 && previous >= 0 && index > previous + 1 then index - previous - 1 else 0
    {
      if index < 0 { return previous; }
      if index == previous {
        sequenceDuplicates := sequenceDuplicates + 1;
      } else if previous >= 0 && index > previous + 1 {
        sequenceGaps := sequenceGaps + (index - previous - 1);
      }
      last := index;
    }

    /** Judges the event against the carried set and moves the set on. */
    method ApplyEvent(e: Event, catalog: Catalog, ghost es: seq<Event>, carried: set<int>)
      returns (installed: set<int>, missing: seq<seq<int>>)
      requires e.readable && carried == InstalledFrom({}, es) && (city, house) == Place(es + [e])
      modifies this`stateHashMismatches
      ensures installed == ReplayAfter(e, carried) && missing == ReplayMissing(catalog, es, e)
      ensures stateHashMismatches == old(stateHashMismatches) +
                if e.name == StateCheckpoint && e.placed != Absent && e.hashWrong then 1 else 0
    {
      installed, missing := carried, [];
      if e.name == PlacementResolved {
        if e.placed.Listed? { installed := IntegerSet(e.placed); }
        missing := FindMissingGroups(catalog, if e.city < 0 then city else e.city,
                                     if e.house < 0 then house else e.house, e.target, installed);
        match e.outcome {
          case Placed => installed := installed + {e.block};
          case Returned => installed := installed - {e.block};
          case OtherOutcome =>
        }
      } else if e.name == StateCheckpoint && e.placed != Absent {
        if e.hashWrong { stateHashMismatches := stateHashMismatches + 1; }
        installed := IntegerSet(e.placed);
      }
    }

    method AddStep(e: Event, catalog: Catalog, ghost es: seq<Event>, carried: set<int>, last: int)
      returns (installed: set<int>, next: int)
      requires Follows(catalog, es) && carried == InstalledFrom({}, es) && last == Last(es)
      modifies this
      ensures Follows(catalog, es + [e]) && installed == InstalledFrom({}, es + [e]) && next == Last(es + [e])
    {
      Snoc(es, e);
      if !e.readable {
        Unread(catalog, es, e, steps);
        return carried, last;
      }
      if city < 0 { city, house := e.city, e.house; }
      next := UpdateSequence(e.index, last);
      var missing;
      installed, missing := ApplyEvent(e, catalog, es, carried);
      var placed := SortedKeys(installed);
      OneMoreStep(catalog, es, e, steps, Step(e, placed, missing));
      steps := steps + [Step(e, placed, missing)];
    }

    /** buildReplay: every figure of the result is the one read off the whole event list. */
    method Build(events: seq<Event>, catalog: Catalog)
      requires steps == [] && (city, house) == (-1, -1)
      requires sequenceGaps == sequenceDuplicates == orphanInteractions == stateHashMismatches == 0
      modifies this
      ensures Follows(catalog, events) && orphanInteractions == |OpenIds(events)|
    {
      var installed: set<int>, open: set<Id>, last := {}, {}, -1;
      for i := 0 to |events|
        invariant Follows(catalog, events[..i])
        invariant installed == InstalledFrom({}, events[..i]) && last == Last(events[..i]) && open == OpenIds(events[..i])
      {
        assert events[..i + 1] == events[..i] + [events[i]];
        assert (events[..i] + [events[i]])[..i] == events[..i];
        open := UpdateInteraction(events[i], open);
        installed, last := AddStep(events[i], catalog, events[..i], installed, last);
      }
      assert events[..|events|] == events;
      orphanInteractions := |open|;
    }
  }

  method UpdateInteraction(e: Event, open: set<Id>) returns (after: set<Id>)
    ensures after == OpenAfter(e, open)
  {
    after := open;
    if !e.readable || e.interaction.None? { return; }
    if e.name == DetailTaken {
      after := open + {e.interaction.value};
    } else if e.name == DetailReturned || e.name == InteractionAbandoned || (e.name == PlacementResolved && e.outcome == Placed) {
      after := open - {e.interaction.value};
    }
  }
}
