/** Which blocks stand after an attempt's events, read off the events alone; and what each placement is
    therefore missing, in both traversals. */
module Standing {
  import opened AttemptEvents
  import opened Basics
  import opened Replay

  // ---------------------------------------------------------------- what one event says of block x

  /** The event's list of blocks counts: at a checkpoint any list sent; at a placement one with ids, and an
      empty one only for the attempt traversal. */
  predicate ListCounts(e: Event, emptyCounts: bool) {
    && e.readable
    && ((e.name == StateCheckpoint && e.placed != Absent)
        || (e.name == PlacementResolved && (e.placed.Listed? || (e.placed == Blank && emptyCounts))))
  }

  predicate Lists(e: Event, x: int) { e.placed.Listed? && x in e.placed.ids }

  /** The event resolves a placement of x in this way. */
  predicate Resolves(e: Event, x: int, outcome: Outcome) {
    e.readable && e.name == PlacementResolved && e.block == x && e.outcome == outcome
  }

  /** The event leaves x standing: it places x, or lists it and does not return it. */
  predicate PutsUp(e: Event, x: int, emptyCounts: bool) {
    Resolves(e, x, Placed) || (ListCounts(e, emptyCounts) && Lists(e, x) && !Resolves(e, x, Returned))
  }

  /** The event leaves x not standing: it returns x, or its list lacks x and it does not place it. */
  predicate TakesDown(e: Event, x: int, emptyCounts: bool) {
    Resolves(e, x, Returned) || (ListCounts(e, emptyCounts) && !Lists(e, x) && !Resolves(e, x, Placed))
  }

  /** Some event put x up and no later one took it down. */
  ghost predicate Stands(es: seq<Event>, x: int, emptyCounts: bool) {
    exists i :: 0 <= i < |es| && PutsUp(es[i], x, emptyCounts) && forall j :: i < j < |es| ==> !TakesDown(es[j], x, emptyCounts)
  }

  lemma {:induction false} StandsStep(es: seq<Event>, e: Event, x: int, emptyCounts: bool)
    ensures Stands(es + [e], x, emptyCounts) <==>
            PutsUp(e, x, emptyCounts) || (Stands(es, x, emptyCounts) && !TakesDown(e, x, emptyCounts))
  {
    var all := es + [e];
    assert all[|es|] == e && forall i :: 0 <= i < |es| ==> all[i] == es[i];
    if PutsUp(e, x, emptyCounts) { assert PutsUp(all[|es|], x, emptyCounts); }
    if Stands(es, x, emptyCounts) && !TakesDown(e, x, emptyCounts) {
      var i :| 0 <= i < |es| && PutsUp(es[i], x, emptyCounts) && forall j :: i < j < |es| ==> !TakesDown(es[j], x, emptyCounts);
      assert PutsUp(all[i], x, emptyCounts);
    }
    if Stands(all, x, emptyCounts) && !PutsUp(e, x, emptyCounts) {
      var i :| 0 <= i < |all| && PutsUp(all[i], x, emptyCounts) && forall j :: i < j < |all| ==> !TakesDown(all[j], x, emptyCounts);
      assert PutsUp(es[i], x, emptyCounts) && !TakesDown(all[|es|], x, emptyCounts);
    }
  }

  /** The set the replay carries holds exactly the blocks that stand. */
  lemma {:induction false} ReplayStandingIff(es: seq<Event>, x: int)
    ensures x in InstalledFrom({}, es) <==> Stands(es, x, false)
  {
    if es != [] {
      ReplayStandingIff(es[..|es| - 1], x);
      StandsStep(es[..|es| - 1], es[|es| - 1], x, false);
      assert es == es[..|es| - 1] + [es[|es| - 1]];
    }
  }

  /** So does the set the attempt traversal carries, where empty lists count too. */
  lemma {:induction false} AttemptStandingIff(es: seq<Event>, x: int)
    ensures x in AttemptInstalled(es) <==> Stands(es, x, true)
  {
    if es != [] {
      AttemptStandingIff(es[..|es| - 1], x);
      StandsStep(es[..|es| - 1], es[|es| - 1], x, true);
      assert es == es[..|es| - 1] + [es[|es| - 1]];
    }
  }

  // ---------------------------------------------------------------- what a placement is missing

  /** Block x stands when placement e, coming after es, is judged: before the placement takes effect. */
  ghost predicate StandsFor(es: seq<Event>, e: Event, x: int, emptyCounts: bool) {
    if ListCounts(e, emptyCounts) then Lists(e, x) else Stands(es, x, emptyCounts)
  }

  /** Rule r of the catalogue is the first for this place and target. */
  ghost predicate FirstRule(catalog: Catalog, r: nat, city: int, house: int, target: int) {
    && r < |catalog| && Fits(catalog[r], city, house, target)
    && forall i :: 0 <= i < r ==> !Fits(catalog[i], city, house, target)
  }

  predicate Fits(rule: Rule, city: int, house: int, target: int) {
    rule.city == city && rule.house == house && rule.target == target
  }

  /** missing lists, group by group in order, the members of each group that do not stand. */
  ghost predicate Lacks(groups: seq<seq<int>>, missing: seq<seq<int>>, stands: int -> bool) {
    && |missing| == |groups|
    && forall g, x :: 0 <= g < |groups| ==> multiset(missing[g])[x] == if stands(x) then 0 else multiset(groups[g])[x]
  }

  lemma {:induction false} MissingCount(group: seq<int>, installed: set<int>, x: int)
    ensures multiset(MissingOf(group, installed))[x] == if x in installed then 0 else multiset(group)[x]
  {
    if group != [] {
      var init, last := group[..|group| - 1], group[|group| - 1];
      MissingCount(init, installed, x);
      assert group == init + [last];
    }
  }

  lemma {:induction false} FirstRuleFound(catalog: Catalog, city: int, house: int, target: int, installed: set<int>, r: nat)
    requires FirstRule(catalog, r, city, house, target)
    ensures MissingGroups(catalog, city, house, target, installed) == MissingInGroups(catalog[r].groups, installed)
  {
    if r > 0 {
      assert !Fits(catalog[0], city, house, target);
      assert forall i :: 0 <= i < |catalog| - 1 ==> catalog[1..][i] == catalog[i + 1];
      FirstRuleFound(catalog[1..], city, house, target, installed, r - 1);
    } else {
      assert Fits(catalog[0], city, house, target);
    }
  }

  lemma {:induction false} NoRuleFound(catalog: Catalog, city: int, house: int, target: int, installed: set<int>)
    requires forall i :: 0 <= i < |catalog| ==> !Fits(catalog[i], city, house, target)
    ensures MissingGroups(catalog, city, house, target, installed) == []
  {
    if catalog != [] {
      assert !Fits(catalog[0], city, house, target);
      assert forall i :: 0 <= i < |catalog| - 1 ==> catalog[1..][i] == catalog[i + 1];
      NoRuleFound(catalog[1..], city, house, target, installed);
    }
  }

  lemma {:induction false} GroupsLack(groups: seq<seq<int>>, installed: set<int>, stands: int -> bool)
    requires forall x :: x in installed <==> stands(x)
    ensures Lacks(groups, MissingInGroups(groups, installed), stands)
  {
    forall g, x | 0 <= g < |groups|
      ensures multiset(MissingInGroups(groups, installed)[g])[x] == if stands(x) then 0 else multiset(groups[g])[x]
    {
      MissingCount(groups[g], installed, x);
    }
  }

  /** The replay reports for a placement exactly the members, of each group of the first rule for its
      target, that do not stand when it is judged. */
  lemma {:induction false} ReplayMissingIff(catalog: Catalog, es: seq<Event>, e: Event, r: nat)
    requires e.readable && e.name == PlacementResolved
    requires FirstRule(catalog, r, CityFor(es, e), HouseFor(es, e), e.target)
    ensures Lacks(catalog[r].groups, ReplayMissing(catalog, es, e), x => StandsFor(es, e, x, false))
  {
    var installed := ReplayBase(e, InstalledFrom({}, es));
    forall x ensures x in installed <==> StandsFor(es, e, x, false) { ReplayStandingIff(es, x); }
    FirstRuleFound(catalog, CityFor(es, e), HouseFor(es, e), e.target, installed, r);
    GroupsLack(catalog[r].groups, installed, x => StandsFor(es, e, x, false));
  }

  /** The attempt traversal reports the same of its own standing blocks, for the event's own place. */
  lemma {:induction false} AttemptMissingIff(catalog: Catalog, es: seq<Event>, e: Event, r: nat)
    requires e.readable && e.name == PlacementResolved && FirstRule(catalog, r, e.city, e.house, e.target)
    ensures Lacks(catalog[r].groups, AttemptMissing(catalog, es, e), x => StandsFor(es, e, x, true))
  {
    var installed := AttemptBase(e, AttemptInstalled(es));
    forall x ensures x in installed <==> StandsFor(es, e, x, true) { AttemptStandingIff(es, x); }
    FirstRuleFound(catalog, e.city, e.house, e.target, installed, r);
    GroupsLack(catalog[r].groups, installed, x => StandsFor(es, e, x, true));
  }

  /** City and house are those of the first readable event that names its city, or, when none does, of the
      last readable event. */
  lemma {:induction false} PlaceIff(es: seq<Event>, i: nat)
    requires i < |es| && es[i].readable
    requires (es[i].city >= 0 && forall j :: 0 <= j < i && es[j].readable ==> es[j].city < 0)
             || ((forall j :: 0 <= j < |es| && es[j].readable ==> es[j].city < 0) && forall j :: i < j < |es| ==> !es[j].readable)
    ensures Place(es) == (es[i].city, es[i].house)
  {
    var n := |es| - 1;
    if i < n {
      PlaceIff(es[..n], i);
    } else {
      NoCityYet(es[..n]);
    }
  }

  lemma {:induction false} NoCityYet(es: seq<Event>)
    requires forall j :: 0 <= j < |es| && es[j].readable ==> es[j].city < 0
    ensures Place(es).0 < 0
  {
    if es != [] { NoCityYet(es[..|es| - 1]); }
  }
}
