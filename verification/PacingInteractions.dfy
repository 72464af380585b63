/** The interactions the dashboard pairs up in a replay (extractInteractions in
    dashboard/src/components/pacingMath.ts), and how the ids it leaves open compare with the server's. */
module PacingInteractions {
  import opened AttemptEvents
  import opened Basics
  import Replay

  datatype Interaction = Interaction(
    id: Id, block: int, start: nat, end: nat, startPct: real, endPct: real, active: int, completed: bool)

  /** What the dashboard reads off the two markers of an interaction. */
  datatype Marker = Marker(active: int, pct: real)

  datatype Taken = Taken(start: nat, block: int)

  predicate Takes(e: Event, id: Id) {
    e.interaction == Some(id) && e.name == DetailTaken
  }

  /** Any resolved placement ends an interaction here, successful or not. */
  predicate Ends(e: Event, id: Id) {
    e.interaction == Some(id) && (e.name == PlacementResolved || e.name == DetailReturned || e.name == InteractionAbandoned)
  }

  /** Nothing in steps from..to picks the interaction up or ends it. */
  ghost predicate Quiet(es: seq<Event>, id: Id, from: nat, to: nat)
    requires to <= |es|
  {
    forall k :: from <= k < to ==> !Takes(es[k], id) && !Ends(es[k], id)
  }

  /** Step j picked the interaction up, and nothing has touched it since. */
  ghost predicate LeftOpen(es: seq<Event>, id: Id, j: nat) {
    j < |es| && Takes(es[j], id) && Quiet(es, id, j + 1, |es|)
  }

  /** Step i ends what step j picked up. */
  ghost predicate Paired(es: seq<Event>, id: Id, j: nat, i: nat) {
    i < |es| && Ends(es[i], id) && LeftOpen(es[..i], id, j)
  }

  /** The markers may be fewer than the steps; a position without one reads as zero. */
  function PctAt(markers: seq<Marker>, i: nat): real {
    if i < |markers| then markers[i].pct else 0.0
  }

  ghost predicate Describes(es: seq<Event>, markers: seq<Marker>, x: Interaction) {
    && x.start < x.end < |es| && Paired(es, x.id, x.start, x.end)
    && x.block == (if es[x.start].block >= 0 then es[x.start].block else -1)
    && x.startPct == PctAt(markers, x.start) && x.endPct == PctAt(markers, x.end)
    && x.active == (if x.end < |markers| && markers[x.end].active >= markers[x.start].active
                    then markers[x.end].active - markers[x.start].active else 0)
    && (x.completed <==> es[x.end].name == PlacementResolved && es[x.end].outcome == Placed)
  }

  /** The open map holds exactly the interactions left open by the steps read so far. */
  ghost predicate Holds(es: seq<Event>, open: map<Id, Taken>) {
    && (forall id :: id in open ==> LeftOpen(es, id, open[id].start) && open[id].block == es[open[id].start].block)
    && (forall id, j: nat :: LeftOpen(es, id, j) ==> id in open)
  }

  lemma {:induction false} OneLeftOpen(es: seq<Event>, id: Id, j: nat, k: nat)
    requires LeftOpen(es, id, j) && LeftOpen(es, id, k)
    ensures j == k
  {
  }

  /** What one more step leaves open: what it picks up, and what it does not touch. */
  lemma {:induction false} LeftOpenStep(es: seq<Event>, e: Event, id: Id, j: nat)
    ensures LeftOpen(es + [e], id, j) <==>
            if j == |es| then Takes(e, id) else LeftOpen(es, id, j) && !Takes(e, id) && !Ends(e, id)
  {
    var all := es + [e];
    if j < |es| && LeftOpen(es, id, j) && !Takes(e, id) && !Ends(e, id) {
      assert Quiet(all, id, j + 1, |all|);
    }
    if j < |es| && LeftOpen(all, id, j) {
      assert all[|es|] == e && !Takes(all[|es|], id) && !Ends(all[|es|], id);
      assert forall k :: 0 <= k < |es| ==> es[k] == all[k];
    }
  }

  lemma {:induction false} HoldsStep(es: seq<Event>, e: Event, open: map<Id, Taken>, after: map<Id, Taken>)
    requires Holds(es, open)
    requires forall id :: id in after <==> Takes(e, id) || (id in open && !Ends(e, id))
    requires forall id :: id in after ==> after[id] == if Takes(e, id) then Taken(|es|, e.block) else open[id]
    ensures Holds(es + [e], after)
  {
    forall id | id in after
      ensures LeftOpen(es + [e], id, after[id].start) && after[id].block == (es + [e])[after[id].start].block
    {
      LeftOpenStep(es, e, id, after[id].start);
    }
    forall id, j: nat | LeftOpen(es + [e], id, j) ensures id in after {
      LeftOpenStep(es, e, id, j);
    }
  }

  ghost predicate Reported(r: seq<Interaction>, id: Id, j: nat, i: nat) {
    exists k :: 0 <= k < |r| && r[k].id == id && r[k].start == j && r[k].end == i
  }

  /** Every pair that ends before step n is reported. */
  ghost predicate Complete(es: seq<Event>, n: nat, r: seq<Interaction>) {
    forall id, j: nat, i: nat :: i < n && Paired(es, id, j, i) ==> Reported(r, id, j, i)
  }

  lemma {:induction false} CompleteStep(es: seq<Event>, n: nat, r: seq<Interaction>, more: seq<Interaction>, open: map<Id, Taken>)
    requires n < |es| && Complete(es, n, r) && Holds(es[..n], open)
    requires forall id :: id in open && Ends(es[n], id) ==> Reported(more, id, open[id].start, n)
    ensures Complete(es, n + 1, r + more)
  {
    forall id, j: nat, i: nat | i < n + 1 && Paired(es, id, j, i) ensures Reported(r + more, id, j, i) {
      if i < n {
        assert Reported(r, id, j, i);
        var k :| 0 <= k < |r| && r[k].id == id && r[k].start == j && r[k].end == i;
        assert (r + more)[k] == r[k];
      } else {
        OneLeftOpen(es[..n], id, j, open[id].start);
        var k :| 0 <= k < |more| && more[k].id == id && more[k].start == j && more[k].end == i;
        assert (r + more)[|r| + k] == more[k];
      }
    }
  }

  /** Sound, and in the order in which the interactions end. */
  ghost predicate Listed(es: seq<Event>, markers: seq<Marker>, n: nat, r: seq<Interaction>) {
    && (forall x :: x in r ==> Describes(es, markers, x) && x.end < n)
    && (forall a, b :: 0 <= a < b < |r| ==> r[a].end < r[b].end)
  }

  /** The interactions reported are exactly the pairs of a pick-up and the step that ends it with
      nothing in between, each once, in the order in which they end. */
  method ExtractInteractions(es: seq<Event>, markers: seq<Marker>) returns (r: seq<Interaction>)
    ensures Listed(es, markers, |es|, r)
    ensures Complete(es, |es|, r)
  {
    var open: map<Id, Taken> := map[];
    r := [];
    for i := 0 to |es|
      invariant Holds(es[..i], open)
      invariant Listed(es, markers, i, r)
      invariant Complete(es, i, r)
    {
      var closed;
      closed, open := Advance(es, markers, i, open);
      r := r + closed;
    }
    assert es[..|es|] == es;
  }

  method Advance(es: seq<Event>, markers: seq<Marker>, i: nat, open: map<Id, Taken>)
    returns (closed: seq<Interaction>, after: map<Id, Taken>)
    requires i < |es| && Holds(es[..i], open)
    ensures Holds(es[..i + 1], after)
    ensures forall r :: Complete(es, i, r) ==> Complete(es, i + 1, r + closed)
    ensures |closed| <= 1 && forall x :: x in closed ==> Describes(es, markers, x) && x.end == i
  {
    var step := es[i];
    closed, after := [], open;
    if step.interaction.Some? {
      var id := step.interaction.value;
      if step.name == DetailTaken {
        after := open[id := Taken(i, step.block)];
      } else if id in open && (step.name == PlacementResolved || step.name == DetailReturned || step.name == InteractionAbandoned) {
        var x := Describe(es, markers, id, open[id], i);
        after, closed := open - {id}, [x];
        assert closed[0].start == open[id].start;
      }
    }
    assert es[..i + 1] == es[..i] + [step];
    HoldsStep(es[..i], step, open, after);
    forall r | Complete(es, i, r) ensures Complete(es, i + 1, r + closed) {
      CompleteStep(es, i, r, closed, open);
    }
  }

  method Describe(es: seq<Event>, markers: seq<Marker>, id: Id, taken: Taken, i: nat) returns (x: Interaction)
    requires Paired(es, id, taken.start, i) && taken.block == es[taken.start].block
    ensures Describes(es, markers, x) && x.id == id && x.start == taken.start && x.end == i
  {
    var activeDuration := 0;
    if taken.start < |markers| && i < |markers| && markers[i].active - markers[taken.start].active >= 0 {
      activeDuration := markers[i].active - markers[taken.start].active;
    }
    x := Interaction(id, if taken.block >= 0 then taken.block else -1, taken.start, i,
                     PctAt(markers, taken.start), PctAt(markers, i), activeDuration, es[i].name == PlacementResolved && es[i].outcome == Placed);
  }

  // ---------------------------------------------------------------- against the server's open ids

  /** A placement of the interaction that did not succeed. */
  predicate Fails(e: Event, id: Id) {
    e.interaction == Some(id) && e.name == PlacementResolved && e.outcome != Placed
  }

  /** Step j picked the interaction up, and no placement of it has failed since. */
  ghost predicate Unfailed(es: seq<Event>, id: Id, j: nat) {
    j < |es| && Takes(es[j], id) && forall k :: j < k < |es| ==> !Fails(es[k], id)
  }

  lemma {:induction false} UnfailedStep(es: seq<Event>, e: Event, id: Id, j: nat)
    ensures Unfailed(es + [e], id, j) <==> if j == |es| then Takes(e, id) else Unfailed(es, id, j) && !Fails(e, id)
  {
    var all := es + [e];
    assert all[|es|] == e && forall k :: 0 <= k < |es| ==> es[k] == all[k];
    if j < |es| && Unfailed(all, id, j) {
      assert !Fails(all[|es|], id);
    }
  }

  /** Whatever the dashboard leaves open the server counts as orphaned; and of the server's orphans it
      leaves open exactly those with no unsuccessful placement since some pick-up of theirs. */
  lemma {:induction false} OpenOnBothSides(es: seq<Event>, id: Id)
    requires forall e :: e in es ==> e.readable
    ensures (exists j :: LeftOpen(es, id, j)) <==> id in Replay.OpenIds(es) && exists j :: Unfailed(es, id, j)
  {
    if es != [] {
      var n := |es| - 1;
      var init, e := es[..n], es[n];
      OpenOnBothSides(init, id);
      assert es == init + [e];
      forall j: nat ensures LeftOpen(es, id, j) <==> if j == n then Takes(e, id) else LeftOpen(init, id, j) && !Takes(e, id) && !Ends(e, id)
      {
        LeftOpenStep(init, e, id, j);
      }
      forall j: nat ensures Unfailed(es, id, j) <==> if j == n then Takes(e, id) else Unfailed(init, id, j) && !Fails(e, id) {
        UnfailedStep(init, e, id, j);
      }
      assert Takes(e, id) ==> LeftOpen(es, id, n) && Unfailed(es, id, n);
    }
  }
}
