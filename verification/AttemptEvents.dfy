/** The gameplay events of one attempt as both of its traversals read them, and the missing-support
    lookup they share (internal/analytics/puzzle_attempt.go). */
module AttemptEvents {
  import opened Basics

  datatype Name =
    | DetailTaken | DetailReturned | InteractionAbandoned | PlacementResolved | StateCheckpoint | OtherEvent

  datatype Outcome = Placed | Returned | OtherOutcome

  /** placed_block_ids: not sent, sent empty, or a list of which the readable numbers count. */
  datatype PlacedIds = Absent | Blank | Listed(ids: seq<int>)

  /** Numbers are as number() reads them: -1 when missing. An empty interaction id is None. */
  datatype Event = Event(
    readable: bool, name: Name, index: int, city: int, house: int, block: int, target: int,
    outcome: Outcome, placed: PlacedIds, interaction: Option<Id>, hashWrong: bool, missing: seq<seq<int>>)

  function IntegerSet(p: PlacedIds): set<int> {
    if p.Listed? then set x | x in p.ids else {}
  }

  /** Placement rules in the order the nested catalogue lists them. */
  datatype Rule = Rule(city: int, house: int, target: int, groups: seq<seq<int>>)

  type Catalog = seq<Rule>

  function MissingOf(group: seq<int>, installed: set<int>): seq<int> {
    if group == [] then [] else
    var last := group[|group| - 1];
    MissingOf(group[..|group| - 1], installed) + (if last in installed then [] else [last])
  }

  function MissingInGroups(groups: seq<seq<int>>, installed: set<int>): seq<seq<int>> {
    seq(|groups|, i requires 0 <= i < |groups| => MissingOf(groups[i], installed))
  }

  /** The groups of the first rule for this target, reduced to what is not standing; no rule, no groups. */
  function MissingGroups(catalog: Catalog, city: int, house: int, target: int, installed: set<int>): seq<seq<int>> {
    if catalog == [] then []
    else if catalog[0].city == city && catalog[0].house == house && catalog[0].target == target
    then MissingInGroups(catalog[0].groups, installed)
    else MissingGroups(catalog[1..], city, house, target, installed)
  }

  /** A group is reported satisfied exactly when all of its blocks stand. */
  lemma {:induction false} SatisfiedGroup(group: seq<int>, installed: set<int>)
    ensures MissingOf(group, installed) == [] <==> forall x :: x in group ==> x in installed
  {
    if group != [] {
      SatisfiedGroup(group[..|group| - 1], installed);
      assert group == group[..|group| - 1] + [group[|group| - 1]];
    }
  }

  /** What is missing keeps the order of the group: that of its first part, then that of the rest. */
  lemma {:induction false} MissingInOrder(front: seq<int>, back: seq<int>, installed: set<int>)
    ensures MissingOf(front + back, installed) == MissingOf(front, installed) + MissingOf(back, installed)
  {
    if back != [] {
      MissingInOrder(front, back[..|back| - 1], installed);
      assert (front + back)[..|front + back| - 1] == front + back[..|back| - 1];
    } else {
      assert front + back == front;
    }
  }

  method MissingRequiredBlocks(groups: seq<seq<int>>, installed: set<int>) returns (result: seq<seq<int>>)
    ensures result == MissingInGroups(groups, installed)
  {
    result := [];
    for i := 0 to |groups|
      invariant result == MissingInGroups(groups, installed)[..i]
    {
      var group, missing := groups[i], [];
      for j := 0 to |group|
        invariant missing == MissingOf(group[..j], installed)
      {
        assert group[..j + 1][..j] == group[..j];
        if group[j] !in installed { missing := missing + [group[j]]; }
      }
      assert group[..|group|] == group;
      result := result + [missing];
    }
  }

  method FindMissingGroups(catalog: Catalog, city: int, house: int, target: int, installed: set<int>)
    returns (result: seq<seq<int>>)
    ensures result == MissingGroups(catalog, city, house, target, installed)
  {
    for i := 0 to |catalog|
      invariant MissingGroups(catalog, city, house, target, installed) ==
                MissingGroups(catalog[i..], city, house, target, installed)
    {
      var rule := catalog[i];
      assert catalog[i..][1..] == catalog[i + 1..];
      if rule.city == city && rule.house == house && rule.target == target {
        result := MissingRequiredBlocks(rule.groups, installed);
        return;
      }
    }
    result := [];
  }

  // ---------------------------------------------------------------- the attempt traversal

  /** What stood before the placement of e is judged, given what the traversal carried: any list sent,
      even an empty one, replaces it. */
  function AttemptBase(e: Event, installed: set<int>): set<int> {
    if e.placed == Absent then installed else IntegerSet(e.placed)
  }

  function Resolved(e: Event, base: set<int>): set<int> {
    match e.outcome
    case Placed => base + {e.block}
    case Returned => base - {e.block}
    case OtherOutcome => base
  }

  function AttemptAfter(e: Event, installed: set<int>): set<int> {
    if !e.readable then installed
    else if e.name == StateCheckpoint then AttemptBase(e, installed)
    else if e.name == PlacementResolved then Resolved(e, AttemptBase(e, installed))
    else installed
  }

  function AttemptInstalled(es: seq<Event>): set<int> {
    if es == [] then {} else AttemptAfter(es[|es| - 1], AttemptInstalled(es[..|es| - 1]))
  }

  /** The groups the attempt traversal writes onto event e. */
  function AttemptMissing(catalog: Catalog, es: seq<Event>, e: Event): seq<seq<int>> {
    if e.readable && e.name == PlacementResolved
    then MissingGroups(catalog, e.city, e.house, e.target, AttemptBase(e, AttemptInstalled(es)))
    else e.missing
  }

  /** populateMissingSupportGroups: every event keeps its data and gains its own missing groups. */
  method PopulateMissingSupportGroups(events: array<Event>, catalog: Catalog)
    modifies events
    ensures forall i :: 0 <= i < events.Length ==>
              events[i] == old(events[i]).(missing := AttemptMissing(catalog, old(events[..i]), old(events[i])))
  {
    var installed: set<int> := {};
    ghost var was := events[..];
    for i := 0 to events.Length
      invariant installed == AttemptInstalled(was[..i])
      invariant forall j :: i <= j < events.Length ==> events[j] == was[j]
      invariant forall j :: 0 <= j < i ==> events[j] == was[j].(missing := AttemptMissing(catalog, was[..j], was[j]))
    {
      assert was[..i + 1][..i] == was[..i];
      var e := events[i];
      if e.name == StateCheckpoint {
        if e.readable && e.placed != Absent { installed := IntegerSet(e.placed); }
      } else if e.name == PlacementResolved && e.readable {
        if e.placed != Absent { installed := IntegerSet(e.placed); }
        var missing := FindMissingGroups(catalog, e.city, e.house, e.target, installed);
        events[i] := e.(missing := missing);
        match e.outcome {
          case Placed => installed := installed + {e.block};
          case Returned => installed := installed - {e.block};
          case OtherOutcome =>
        }
      }
    }
    assert forall i :: 0 <= i < events.Length ==> old(events[..i]) == was[..i];
  }
}
