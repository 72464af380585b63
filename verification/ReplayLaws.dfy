/** What the replay's figures mean, and exactly when its missing-support groups are those of the
    attempt traversal it mirrors. */
module ReplayLaws {
  import opened AttemptEvents
  import opened Basics
  import opened Replay
  import opened OrderStatistics

  // ---------------------------------------------------------------- the two traversals

  /** Placement e, after es, is judged alike by both traversals: no empty list arrives while something
      stands, and a missing city or house has nothing else to fall back on. */
  predicate JudgedAlike(es: seq<Event>, e: Event) {
    e.readable && e.name == PlacementResolved ==>
      && (e.placed == Blank ==> InstalledFrom({}, es) == {})
      && CityFor(es, e) == e.city && HouseFor(es, e) == e.house
  }

  predicate AllJudgedAlike(es: seq<Event>) {
    es == [] || (AllJudgedAlike(es[..|es| - 1]) && JudgedAlike(es[..|es| - 1], es[|es| - 1]))
  }

  /** Both traversals give event e, after es, the same groups under this catalogue. */
  predicate SameGroups(catalog: Catalog, es: seq<Event>, e: Event) {
    e.readable && e.name == PlacementResolved ==> AttemptMissing(catalog, es, e) == ReplayMissing(catalog, es, e)
  }

  ghost predicate AgreeOn(es: seq<Event>, e: Event) {
    forall catalog: Catalog :: SameGroups(catalog, es, e)
  }

  ghost predicate TraversalsAgree(es: seq<Event>) {
    forall catalog: Catalog, i :: 0 <= i < |es| ==> SameGroups(catalog, es[..i], es[i])
  }

  lemma {:induction false} SameInstalled(es: seq<Event>)
    requires AllJudgedAlike(es)
    ensures AttemptInstalled(es) == InstalledFrom({}, es)
  {
    if es != [] { SameInstalled(es[..|es| - 1]); }
  }

  /** From a common installed set, one placement gets the same groups under every catalogue exactly
      when it is judged alike; the catalogues that tell otherwise have a single rule. */
  lemma {:induction false} JudgedAlikeIff(es: seq<Event>, e: Event)
    requires AttemptInstalled(es) == InstalledFrom({}, es) && e.readable && e.name == PlacementResolved
    ensures AgreeOn(es, e) <==> JudgedAlike(es, e)
  {
    var installed := InstalledFrom({}, es);
    if JudgedAlike(es, e) {
      assert AttemptBase(e, installed) == ReplayBase(e, installed);
    } else {
      var rule := TellingRule(es, e);
      assert !SameGroups([rule], es, e);
    }
  }

  /** A catalogue whose one rule tells the two judgements of e apart. */
  lemma {:induction false} TellingRule(es: seq<Event>, e: Event) returns (rule: Rule)
    requires AttemptInstalled(es) == InstalledFrom({}, es) && e.readable && e.name == PlacementResolved
    requires !JudgedAlike(es, e)
    ensures AttemptMissing([rule], es, e) != ReplayMissing([rule], es, e)
  {
    if CityFor(es, e) != e.city || HouseFor(es, e) != e.house {
      rule := Rule(e.city, e.house, e.target, [[]]);
      PlaceTells(es, e);
    } else {
      var x := AnElement(InstalledFrom({}, es));
      rule := Rule(e.city, e.house, e.target, [[x]]);
      EmptyListTells(es, e, x);
    }
  }

  lemma {:induction false} PlaceTells(es: seq<Event>, e: Event)
    requires e.readable && e.name == PlacementResolved && (CityFor(es, e) != e.city || HouseFor(es, e) != e.house)
    ensures var rule := Rule(e.city, e.house, e.target, [[]]);
            |AttemptMissing([rule], es, e)| == 1 && ReplayMissing([rule], es, e) == []
  {
    var rule := Rule(e.city, e.house, e.target, [[]]);
    OneRule(rule, e.city, e.house, e.target, AttemptBase(e, AttemptInstalled(es)));
    OneRule(rule, CityFor(es, e), HouseFor(es, e), e.target, ReplayBase(e, InstalledFrom({}, es)));
  }

  lemma {:induction false} EmptyListTells(es: seq<Event>, e: Event, x: int)
    requires e.readable && e.name == PlacementResolved && e.placed == Blank && x in InstalledFrom({}, es)
    requires CityFor(es, e) == e.city && HouseFor(es, e) == e.house
    ensures var rule := Rule(e.city, e.house, e.target, [[x]]);
            AttemptMissing([rule], es, e) == [[x]] && ReplayMissing([rule], es, e) == [[]]
  {
    NeedsOneBlock(e.city, e.house, e.target, x, {});
    NeedsOneBlock(e.city, e.house, e.target, x, InstalledFrom({}, es));
  }

  lemma {:induction false} NeedsOneBlock(city: int, house: int, target: int, x: int, installed: set<int>)
    ensures MissingGroups([Rule(city, house, target, [[x]])], city, house, target, installed) ==
            if x in installed then [[]] else [[x]]
  {
    OneRule(Rule(city, house, target, [[x]]), city, house, target, installed);
    assert [x][..0] == [];
    assert MissingOf([x], installed) == if x in installed then [] else [x];
  }

  lemma {:induction false} OneRule(rule: Rule, city: int, house: int, target: int, installed: set<int>)
    ensures MissingGroups([rule], city, house, target, installed) ==
            if rule.city == city && rule.house == house && rule.target == target then MissingInGroups(rule.groups, installed) else []
  {
    assert [rule][1..] == [];
  }

  ghost function AnElement<T>(s: set<T>): (x: T)
    requires s != {}
    ensures x in s
  {
    var x :| x in s;
    x
  }

  lemma {:induction false} AgreePrefix(es: seq<Event>)
    requires es != []
    ensures TraversalsAgree(es) <==>
              TraversalsAgree(es[..|es| - 1]) && AgreeOn(es[..|es| - 1], es[|es| - 1])
  {
    var n := |es| - 1;
    var init := es[..n];
    assert forall i :: 0 <= i < n ==> init[..i] == es[..i] && init[i] == es[i];
    if TraversalsAgree(es) {
      forall catalog: Catalog, i | 0 <= i < n ensures SameGroups(catalog, init[..i], init[i]) {
        assert SameGroups(catalog, es[..i], es[i]);
      }
      forall catalog: Catalog ensures SameGroups(catalog, init, es[n]) {
        assert SameGroups(catalog, es[..n], es[n]);
      }
    }
    if TraversalsAgree(init) && AgreeOn(init, es[n]) {
      forall catalog: Catalog, i | 0 <= i < |es| ensures SameGroups(catalog, es[..i], es[i]) {
        if i < n { assert SameGroups(catalog, init[..i], init[i]); }
      }
    }
  }

  /** The replay mirrors the attempt traversal, event by event and under every catalogue, exactly when
      every placement is judged alike. */
  lemma {:induction false} TraversalsAgreeIff(es: seq<Event>)
    ensures TraversalsAgree(es) <==> AllJudgedAlike(es)
  {
    if es != [] {
      var init, e := es[..|es| - 1], es[|es| - 1];
      AgreePrefix(es);
      TraversalsAgreeIff(init);
      if AllJudgedAlike(init) && e.readable && e.name == PlacementResolved {
        SameInstalled(init);
        JudgedAlikeIff(init, e);
      }
    }
  }

  /** A checkpoint with block 5 standing, then a placement that sends an empty list and needs block 5: the
      attempt traversal reports it missing, the replay does not. */
  lemma {:induction false} EmptyListTellsApart()
    ensures var checkpoint := Event(true, StateCheckpoint, 0, 1, 1, -1, -1, OtherOutcome, Listed([5]), None, false, []);
            var placement := Event(true, PlacementResolved, 1, 1, 1, 8, 7, Placed, Blank, None, false, []);
            var catalog := [Rule(1, 1, 7, [[5]])];
            && AttemptMissing(catalog, [checkpoint], placement) == [[5]]
            && ReplayMissing(catalog, [checkpoint], placement) == [[]]
            && !TraversalsAgree([checkpoint, placement])
  {
    var checkpoint := Event(true, StateCheckpoint, 0, 1, 1, -1, -1, OtherOutcome, Listed([5]), None, false, []);
    var placement := Event(true, PlacementResolved, 1, 1, 1, 8, 7, Placed, Blank, None, false, []);
    var es := [checkpoint, placement];
    assert [checkpoint][..0] == [] && IntegerSet(checkpoint.placed) == {5};
    assert 5 in InstalledFrom({}, [checkpoint]);
    EmptyListTells([checkpoint], placement, 5);
    assert es[..1] == [checkpoint] && es[1] == placement;
    assert !SameGroups([Rule(1, 1, 7, [[5]])], es[..1], es[1]);
  }

  /** The ordinary case: placements that name their own city and house and never send an empty list. */
  lemma {:induction false} OrdinaryEventsAgree(es: seq<Event>)
    requires forall e :: e in es && e.readable && e.name == PlacementResolved ==> e.city >= 0 && e.house >= 0 && e.placed != Blank
    ensures AllJudgedAlike(es)
  {
    if es != [] { OrdinaryEventsAgree(es[..|es| - 1]); }
  }

  /** After a checkpoint that carries block ids, no snapshot depends on what came before it. */
  lemma {:induction false} CheckpointResynchronises(before1: seq<Event>, before2: seq<Event>, checkpoint: Event, rest: seq<Event>)
    requires checkpoint.readable && checkpoint.name == StateCheckpoint && checkpoint.placed != Absent
    ensures InstalledFrom({}, before1 + [checkpoint] + rest) == InstalledFrom({}, before2 + [checkpoint] + rest)
  {
    var es1, es2 := before1 + [checkpoint] + rest, before2 + [checkpoint] + rest;
    if rest == [] {
      assert es1[..|es1| - 1] == before1 && es2[..|es2| - 1] == before2;
    } else {
      var init := rest[..|rest| - 1];
      CheckpointResynchronises(before1, before2, checkpoint, init);
      assert es1[..|es1| - 1] == before1 + [checkpoint] + init;
      assert es2[..|es2| - 1] == before2 + [checkpoint] + init;
    }
  }

  // ---------------------------------------------------------------- sequence gaps

  /** The event indices that count, in order. */
  function Indices(es: seq<Event>): seq<int> {
    if es == [] then [] else
    var init, e := Indices(es[..|es| - 1]), es[|es| - 1];
    if e.readable && e.index >= 0 then init + [e.index] else init
  }

  lemma {:induction false} IndicesFacts(es: seq<Event>)
    ensures forall x :: x in Indices(es) ==> x >= 0
    ensures Last(es) == if Indices(es) == [] then -1 else Indices(es)[|Indices(es)| - 1]
  {
    if es != [] { IndicesFacts(es[..|es| - 1]); }
  }

  lemma {:induction false} AscendingSnoc(s: seq<int>, x: int)
    requires s != []
    ensures Ascending(s + [x]) <==> Ascending(s) && s[|s| - 1] <= x
  {
    var t := s + [x];
    assert forall i :: 0 <= i < |s| ==> t[i] == s[i];
    assert t[|s|] == x;
  }

  /** The reported gaps are the span less the events in it plus the repeats exactly when the indices
      never step back; on any other order they exceed it. */
  lemma {:induction false} GapFormulaIff(es: seq<Event>)
    requires Indices(es) != []
    ensures var s := Indices(es);
            && Gaps(es) >= (s[|s| - 1] - s[0]) - (|s| - 1) + Repeats(es)
            && (Gaps(es) == (s[|s| - 1] - s[0]) - (|s| - 1) + Repeats(es) <==> Ascending(s))
  {
    var init, e := es[..|es| - 1], es[|es| - 1];
    IndicesFacts(init);
    var s, t := Indices(init), Indices(es);
    if s != [] {
      GapFormulaIff(init);
      if e.readable && e.index >= 0 {
        AscendingSnoc(s, e.index);
        assert s[|s| - 1] in s;
        assert t == s + [e.index] && t[0] == s[0] && t[|t| - 1] == e.index;
      }
    } else {
      NothingCounted(init);
    }
  }

  /** Indices 1 then 0: no gap is counted where the formula gives less than none. */
  lemma {:induction false} StepBackExceedsFormula()
    ensures var first := Event(true, OtherEvent, 1, 1, 1, -1, -1, OtherOutcome, Absent, None, false, []);
            var second := Event(true, OtherEvent, 0, 1, 1, -1, -1, OtherOutcome, Absent, None, false, []);
            var es := [first, second];
            Indices(es) == [1, 0] && Gaps(es) == 0 && Repeats(es) == 0 && Gaps(es) > (0 - 1) - (2 - 1) + Repeats(es)
  {
    var first := Event(true, OtherEvent, 1, 1, 1, -1, -1, OtherOutcome, Absent, None, false, []);
    var second := Event(true, OtherEvent, 0, 1, 1, -1, -1, OtherOutcome, Absent, None, false, []);
    assert [] + [first] == [first] && [first] + [second] == [first, second];
    Snoc([], first);
    Snoc([first], second);
    assert [first][..0] == [] && [first, second][..1] == [first];
    assert Indices([first]) == [1];
  }

  lemma {:induction false} NothingCounted(es: seq<Event>)
    requires Indices(es) == []
    ensures Gaps(es) == 0 && Repeats(es) == 0
  {
    if es != [] {
      NothingCounted(es[..|es| - 1]);
      IndicesFacts(es[..|es| - 1]);
    }
  }

  /** How many integers strictly between lo and hi no event carries. */
  function Skipped(s: seq<int>, lo: int, hi: int): nat
    decreases hi - lo
  {
    if hi <= lo + 1 then 0 else Skipped(s, lo, hi - 1) + (if hi - 1 in s then 0 else 1)
  }

  lemma {:induction false} SkippedSame(s: seq<int>, x: int, lo: int, hi: int)
    requires hi <= x
    ensures Skipped(s + [x], lo, hi) == Skipped(s, lo, hi)
    decreases hi - lo
  {
    if hi > lo + 1 { SkippedSame(s, x, lo, hi - 1); }
  }

  lemma {:induction false} SkippedBeyond(s: seq<int>, lo: int, last: int, hi: int)
    requires lo <= last < hi && last in s && forall y :: y in s ==> y <= last
    ensures Skipped(s, lo, hi) == Skipped(s, lo, last) + (hi - last - 1)
    decreases hi - last
  {
    if hi > last + 1 { SkippedBeyond(s, lo, last, hi - 1); }
  }

  /** Gap counting is exact: on ordered indices the reported number is how many are missing. */
  lemma {:induction false} GapsAreSkippedIndices(es: seq<Event>)
    requires Indices(es) != [] && Ascending(Indices(es))
    ensures Gaps(es) == Skipped(Indices(es), Indices(es)[0], Indices(es)[|Indices(es)| - 1])
  {
    var init, e := es[..|es| - 1], es[|es| - 1];
    var s := Indices(init);
    IndicesFacts(init);
    if s == [] {
      NothingCounted(init);
    } else if e.readable && e.index >= 0 {
      var last := s[|s| - 1];
      AscendingSnoc(s, e.index);
      GapsAreSkippedIndices(init);
      SkippedSame(s, e.index, s[0], e.index);
      assert forall y :: y in s ==> y <= last;
      if e.index > last { SkippedBeyond(s, s[0], last, e.index); }
    } else {
      GapsAreSkippedIndices(init);
    }
  }

  // ---------------------------------------------------------------- state hashes

  predicate Mismatches(e: Event) {
    e.readable && e.name == StateCheckpoint && e.placed != Absent && e.hashWrong
  }

  /** One mismatch is counted for each readable checkpoint that sent its blocks with a wrong hash. */
  lemma {:induction false} MismatchesCounted(es: seq<Event>)
    ensures HashMismatches(es) == |set i | 0 <= i < |es| && Mismatches(es[i])|
  {
    if es != [] {
      var n := |es| - 1;
      MismatchesCounted(es[..n]);
      var before := set i | 0 <= i < n && Mismatches(es[..n][i]);
      assert (set i | 0 <= i < |es| && Mismatches(es[i])) == before + (if Mismatches(es[n]) then {n} else {});
    }
  }

  // ---------------------------------------------------------------- orphan interactions

  /** An interaction is orphaned exactly when some pick-up of it has no later return, abandonment or
      successful placement. */
  lemma {:induction false} OrphanIff(es: seq<Event>, id: Id)
    ensures id in OpenIds(es) <==>
            exists i :: 0 <= i < |es| && Opens(es[i], id) && forall j :: i < j < |es| ==> !Closes(es[j], id)
  {
    if es != [] {
      var n := |es| - 1;
      var init := es[..n];
      OrphanIff(init, id);
      if id in OpenIds(es) && !Opens(es[n], id) {
        var i :| 0 <= i < n && Opens(init[i], id) && forall j :: i < j < n ==> !Closes(init[j], id);
        assert Opens(es[i], id) && forall j :: i < j < |es| ==> !Closes(es[j], id);
      } else if id !in OpenIds(es) {
        forall i | 0 <= i < |es| && Opens(es[i], id) ensures exists j :: i < j < |es| && Closes(es[j], id) {
          if i < n && !Closes(es[n], id) {
            assert Opens(init[i], id);
            var j :| i < j < n && Closes(init[j], id);
            assert Closes(es[j], id);
          }
        }
      }
    }
  }
}
