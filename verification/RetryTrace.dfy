/** Every counter of the retry-ladder engine, read off the raw events of one attempt without its state:
    which try a placement is, when its piece was picked up, which fall a hint follows. The engine's
    counters are then proved to be these. */
module RetryTrace {
  import opened Basics
  import opened Sums
  import opened RetryLadder
  import opened RetryChains

  // ---------------------------------------------------------------- the open chain on the trace

  /** The block of the chain left open: the latest touch, unless it succeeded. */
  function OpenChain(known: set<int>, es: seq<MetricEvent>): Option<int> {
    var t := LastTouch(known, es);
    if t.Some? && !Succeeds(t.value) then Some(t.value.block) else None
  }

  /** Where the latest chain began. */
  function ChainBegin(known: set<int>, es: seq<MetricEvent>): (i: nat)
    ensures i <= |es|
  {
    if es == [] then 0
    else if StartsChain(known, es[..|es| - 1], es[|es| - 1], es[|es| - 1].block) then |es| - 1
    else ChainBegin(known, es[..|es| - 1])
  }

  /** The latest mark is a pick-up: a piece is in hand. */
  predicate InHand(known: set<int>, es: seq<MetricEvent>) {
    LastMark(known, es).Some? && LastMark(known, es).value.kind == DetailTaken
  }

  /** e, coming after es, uses up a try: a failed placement, a piece in hand abandoned, or one picked up again. */
  predicate Spends(known: set<int>, es: seq<MetricEvent>, e: MetricEvent) {
    || (e.kind == PlacementResolved && e.block in known && e.outcome != Placed)
    || (e.kind == InteractionAbandoned && InHand(known, es))
    || (e.kind == DetailTaken && e.block in known && InHand(known, es) && LastMark(known, es).value.block == e.block)
  }

  /** Tries used up from event number from on. */
  function Spent(known: set<int>, es: seq<MetricEvent>, from: nat): nat {
    if |es| <= from then 0
    else Spent(known, es[..|es| - 1], from) + Bit(Spends(known, es[..|es| - 1], es[|es| - 1]))
  }

  /** Which try of its chain a placement e is, coming after es. */
  function TryNumber(known: set<int>, es: seq<MetricEvent>, e: MetricEvent): nat {
    1 + (if OpenChain(known, es) == Some(e.block) then Spent(known, es, ChainBegin(known, es)) else 0)
  }

  lemma {:induction false} TriesReadTrace(known: set<int>, es: seq<MetricEvent>)
    requires NONE !in known
    ensures SoloState(known, es).tries ==
            if OpenChain(known, es).Some? then Spent(known, es, ChainBegin(known, es)) else 0
  {
    if es != [] {
      var init, e := es[..|es| - 1], es[|es| - 1];
      TriesReadTrace(known, init);
      StateReadsTrace(known, init);
      SpentStep(known, init, e);
      assert es == init + [e];
    }
  }

  lemma {:induction false} SpentStep(known: set<int>, es: seq<MetricEvent>, e: MetricEvent)
    ensures var all := es + [e];
            Spent(known, all, ChainBegin(known, all)) ==
            Bit(Spends(known, es, e)) + (if StartsChain(known, es, e, e.block) then 0 else Spent(known, es, ChainBegin(known, es)))
  {
    assert (es + [e])[..|es|] == es;
  }

  // ---------------------------------------------------------------- the pick-up a placement ends

  /** The number of the latest pick-up of a known block. */
  function LastTake(known: set<int>, es: seq<MetricEvent>): (j: Option<nat>)
    ensures j.Some? ==> j.value < |es|
  {
    if es == [] then None
    else if es[|es| - 1].kind == DetailTaken && es[|es| - 1].block in known then Some(|es| - 1)
    else LastTake(known, es[..|es| - 1])
  }

  /** The first mark after event j is an abandonment. */
  ghost predicate Dropped(known: set<int>, es: seq<MetricEvent>, j: nat) {
    exists m :: j < m < |es| && es[m].kind == InteractionAbandoned && forall i :: j < i < m ==> !Marks(known, es[i])
  }

  /** The clock reading of the open chain's latest pick-up, unless it was abandoned. */
  ghost function TakeReading(known: set<int>, es: seq<MetricEvent>): Option<int> {
    var j := LastTake(known, es);
    if OpenChain(known, es).Some? && j.Some? && j.value >= ChainBegin(known, es) && !Dropped(known, es, j.value)
    then Some(es[j.value].elapsed) else None
  }

  lemma {:induction false} HandHoldsLastTake(known: set<int>, es: seq<MetricEvent>)
    ensures InHand(known, es) <==>
            LastTake(known, es).Some? && forall i :: LastTake(known, es).value < i < |es| ==> !Marks(known, es[i])
  {
    if es != [] {
      var init, e := es[..|es| - 1], es[|es| - 1];
      HandHoldsLastTake(known, init);
      assert forall i :: 0 <= i < |init| ==> init[i] == es[i];
      assert Marks(known, e) ==> LastMark(known, es) == Some(e);
    }
  }

  /** One more event drops the piece picked up at j exactly when it abandons it from the hand. */
  lemma {:induction false} DroppedStep(known: set<int>, es: seq<MetricEvent>, e: MetricEvent, j: nat)
    requires LastTake(known, es) == Some(j)
    ensures Dropped(known, es + [e], j) <==> Dropped(known, es, j) || (e.kind == InteractionAbandoned && InHand(known, es))
  {
    var all := es + [e];
    HandHoldsLastTake(known, es);
    assert forall i :: 0 <= i < |es| ==> all[i] == es[i];
    if Dropped(known, es, j) {
      var m :| j < m < |es| && es[m].kind == InteractionAbandoned && forall i :: j < i < m ==> !Marks(known, es[i]);
      assert all[m].kind == InteractionAbandoned;
    }
    if e.kind == InteractionAbandoned && InHand(known, es) {
      assert all[|es|].kind == InteractionAbandoned;
    }
    if Dropped(known, all, j) {
      var m :| j < m < |all| && all[m].kind == InteractionAbandoned && forall i :: j < i < m ==> !Marks(known, all[i]);
      if m < |es| { assert es[m].kind == InteractionAbandoned; }
    }
  }

  lemma {:induction false} TakeReadingStep(known: set<int>, es: seq<MetricEvent>, e: MetricEvent)
    ensures var all := es + [e];
            TakeReading(known, all) ==
              if OpenChain(known, all).None? then None
              else if e.kind == DetailTaken && e.block in known then Some(e.elapsed)
              else if StartsChain(known, es, e, e.block) then None
              else if e.kind == InteractionAbandoned && InHand(known, es) then None
              else TakeReading(known, es)
  {
    var all := es + [e];
    assert all[..|es|] == es;
    var j := LastTake(known, es);
    if j.Some? { DroppedStep(known, es, e, j.value); }
    if e.kind == DetailTaken && e.block in known {
      assert LastTake(known, all) == Some(|es|) && !Dropped(known, all, |es|);
    }
  }

  lemma {:induction false} TakenReadsTrace(known: set<int>, es: seq<MetricEvent>)
    requires NONE !in known
    ensures SoloState(known, es).takenAt == if TakeReading(known, es).Some? then TakeReading(known, es).value else -1
  {
    if es != [] {
      var init, e := es[..|es| - 1], es[|es| - 1];
      TakenReadsTrace(known, init);
      StateReadsTrace(known, init);
      TakeReadingStep(known, init, e);
      assert es == init + [e];
    }
  }

  // ---------------------------------------------------------------- the fall a hint follows

  /** In the open chain, on b, something fell and no hint has been used since. */
  ghost predicate FellSinceHint(known: set<int>, es: seq<MetricEvent>, b: int) {
    OpenChain(known, es) == Some(b) &&
    exists j :: ChainBegin(known, es) <= j < |es| && FallAt(es[j], b) && forall i :: j < i < |es| ==> es[i].kind != HintUsed
  }

  predicate FallAt(e: MetricEvent, b: int) {
    e.kind == PlacementResolved && e.block == b && e.Fell()
  }

  lemma {:induction false} FellStep(known: set<int>, es: seq<MetricEvent>, e: MetricEvent, b: int)
    requires b in known
    ensures FellSinceHint(known, es + [e], b) <==>
            OpenChain(known, es + [e]) == Some(b) &&
            (FallAt(e, b) || (e.kind != HintUsed && !StartsChain(known, es, e, e.block) && FellSinceHint(known, es, b)))
  {
    var all := es + [e];
    assert all[..|es|] == es;
    assert forall i :: 0 <= i < |es| ==> all[i] == es[i];
    if FallAt(e, b) { assert FallAt(all[|es|], b); }
    if FellSinceHint(known, es, b) {
      var j :| ChainBegin(known, es) <= j < |es| && FallAt(es[j], b) && forall i :: j < i < |es| ==> es[i].kind != HintUsed;
      assert FallAt(all[j], b);
    }
    if FellSinceHint(known, all, b) && !FallAt(e, b) {
      var j :| ChainBegin(known, all) <= j < |all| && FallAt(all[j], b) && forall i :: j < i < |all| ==> all[i].kind != HintUsed;
      assert FallAt(es[j], b) && all[|es|].kind != HintUsed;
    }
  }

  lemma {:induction false} FallReadsTrace(known: set<int>, es: seq<MetricEvent>, b: int)
    requires NONE !in known && b in known
    ensures SoloState(known, es).lastFailed == b <==> FellSinceHint(known, es, b)
  {
    if es != [] {
      var init, e := es[..|es| - 1], es[|es| - 1];
      FallReadsTrace(known, init, b);
      StateReadsTrace(known, init);
      FellStep(known, init, e, b);
      assert es == init + [e];
    }
  }

  // ---------------------------------------------------------------- every counter on the trace

  predicate Places(known: set<int>, e: MetricEvent, b: int) {
    e.kind == PlacementResolved && e.block in known && e.block == b
  }

  /** e takes up or places a block other than b. */
  predicate LeavesFor(known: set<int>, e: MetricEvent, b: int) {
    Touches(known, e) && e.block != b
  }

  /** The piece of block b in hand is not placed by e: it is dropped, picked up again, or left for another. */
  predicate WritesOff(known: set<int>, es: seq<MetricEvent>, e: MetricEvent, b: int) {
    && InHand(known, es) && LastMark(known, es).value.block == b
    && (e.kind == InteractionAbandoned || (e.kind == DetailTaken && e.block in known) || LeavesFor(known, e, b))
  }

  /** The successful placement e, after es, took ms from the pick-up of its chain. */
  ghost predicate Took(known: set<int>, es: seq<MetricEvent>, e: MetricEvent, ms: int) {
    && OpenChain(known, es) == Some(e.block)
    && var r := TakeReading(known, es);
       r.Some? && 0 <= r.value <= e.elapsed && ms == e.elapsed - r.value
  }

  /** Whether event e, coming after es in its attempt, adds one to counter x. */
  ghost predicate Counts(known: set<int>, eligible: bool, es: seq<MetricEvent>, e: MetricEvent, x: Counter) {
    match x
    case FirstTryAttempts(b) => Places(known, e, b) && TryNumber(known, es, e) == 1
    case FirstTryFailures(b) => Places(known, e, b) && TryNumber(known, es, e) == 1 && e.outcome != Placed
    case NoSnap(b) => Places(known, e, b) && e.outcome == FellNoSnapTarget
    case MissingSupport(b) => Places(known, e, b) && e.outcome == FellMissingSupport
    case HintPressure(b) => e.kind == HintUsed && b in known && FellSinceHint(known, es, b)
    case SuccessfulPlacements(b) => Places(known, e, b) && e.outcome == Placed
    case SuccessBucket(b, k) =>
      && eligible && Places(known, e, b) && e.outcome == Placed
      && ((1 <= k <= 3 && TryNumber(known, es, e) == k) || (k == 4 && TryNumber(known, es, e) >= 4))
    case NeverSucceeded(b) => eligible && OpenChain(known, es) == Some(b) && LeavesFor(known, e, b)
    case Incomplete(b) => eligible && WritesOff(known, es, e, b)
    case TriesRecorded(b) => eligible && Places(known, e, b) && e.outcome == Placed
    case TriesSample(b, n) => eligible && Places(known, e, b) && e.outcome == Placed && n == TryNumber(known, es, e)
    case TimeSample(b, ms) => eligible && Places(known, e, b) && e.outcome == Placed && Took(known, es, e, ms)
    case WavePlacements(w) => e.kind == PlacementResolved && e.block in known && e.wave == w
    case WaveFalls(w) => e.kind == PlacementResolved && e.block in known && e.wave == w && e.Fell()
  }

  /** What the chain left open at the end adds. */
  ghost predicate CountsAtEnd(known: set<int>, eligible: bool, es: seq<MetricEvent>, x: Counter) {
    match x
    case NeverSucceeded(b) => eligible && OpenChain(known, es) == Some(b)
    case Incomplete(b) => eligible && InHand(known, es) && LastMark(known, es).value.block == b
    case _ => false
  }

  ghost function EventsCounted(known: set<int>, eligible: bool, es: seq<MetricEvent>, x: Counter): nat {
    if es == [] then 0 else
    EventsCounted(known, eligible, es[..|es| - 1], x) + Bit(Counts(known, eligible, es[..|es| - 1], es[|es| - 1], x))
  }

  /** What the raw events of one attempt say counter x must gain from it. */
  ghost function TraceTotal(known: set<int>, eligible: bool, es: seq<MetricEvent>, x: Counter): nat {
    EventsCounted(known, eligible, es, x) + Bit(CountsAtEnd(known, eligible, es, x))
  }

  lemma {:induction false} TouchedIsKnown(known: set<int>, es: seq<MetricEvent>)
    ensures LastTouch(known, es).Some? ==> LastTouch(known, es).value.block in known
  {
    if es != [] { TouchedIsKnown(known, es[..|es| - 1]); }
  }

  lemma {:induction false} PlacementReadsTrace(known: set<int>, eligible: bool, es: seq<MetricEvent>, e: MetricEvent, x: Counter)
    requires NONE !in known && e.kind == PlacementResolved && e.block in known
    ensures PlacementBumps(eligible, Entering(SoloState(known, es), e.block), Entering(SoloState(known, es), e.block).tries + 1, e, x)
            <==> !x.NeverSucceeded? && !x.Incomplete? && Counts(known, eligible, es, e, x)
  {
    StateReadsTrace(known, es);
    TriesReadTrace(known, es);
    TakenReadsTrace(known, es);
  }

  lemma {:induction false} FlushReadsTrace(known: set<int>, eligible: bool, es: seq<MetricEvent>, x: Counter)
    requires NONE !in known
    ensures FlushBumps(known, eligible, SoloState(known, es), x) <==> CountsAtEnd(known, eligible, es, x)
  {
    TouchedIsKnown(known, es);
    StateReadsTrace(known, es);
  }

  lemma {:induction false} HandlingReadsTrace(known: set<int>, eligible: bool, es: seq<MetricEvent>, e: MetricEvent, x: Counter)
    requires NONE !in known && (e.kind == DetailTaken || e.kind == InteractionAbandoned)
    ensures Bumps(known, eligible, SoloState(known, es), e, x) <==> Counts(known, eligible, es, e, x)
  {
    TouchedIsKnown(known, es);
    StateReadsTrace(known, es);
  }

  lemma {:induction false} BumpsReadTrace(known: set<int>, eligible: bool, es: seq<MetricEvent>, e: MetricEvent, x: Counter)
    requires NONE !in known
    ensures Bumps(known, eligible, SoloState(known, es), e, x) <==> Counts(known, eligible, es, e, x)
  {
    match e.kind {
      case DetailTaken => HandlingReadsTrace(known, eligible, es, e, x);
      case InteractionAbandoned => HandlingReadsTrace(known, eligible, es, e, x);
      case HintUsed =>
        StateReadsTrace(known, es);
        if x.HintPressure? && x.block in known { FallReadsTrace(known, es, x.block); }
      case PlacementResolved =>
        if e.block in known {
          PlacementReadsTrace(known, eligible, es, e, x);
          SwitchReadsTrace(known, eligible, es, e, x);
        }
    }
  }

  lemma {:induction false} SwitchReadsTrace(known: set<int>, eligible: bool, es: seq<MetricEvent>, e: MetricEvent, x: Counter)
    requires NONE !in known && e.kind == PlacementResolved && e.block in known
    ensures var s := SoloState(known, es);
            (s.activeBlock != NONE && s.activeBlock != e.block && FlushBumps(known, eligible, s, x)) <==>
            (x.NeverSucceeded? || x.Incomplete?) && Counts(known, eligible, es, e, x)
  {
    TouchedIsKnown(known, es);
    StateReadsTrace(known, es);
  }

  lemma {:induction false} CountsReadTrace(known: set<int>, eligible: bool, es: seq<MetricEvent>, x: Counter)
    requires NONE !in known
    ensures SoloCount(known, eligible, es, x) == EventsCounted(known, eligible, es, x)
  {
    if es != [] {
      CountsReadTrace(known, eligible, es[..|es| - 1], x);
      BumpsReadTrace(known, eligible, es[..|es| - 1], es[|es| - 1], x);
    }
  }

  /** The attempt's state machine counts what its raw events say. */
  lemma {:induction false} SoloReadsTrace(known: set<int>, eligible: bool, es: seq<MetricEvent>, x: Counter)
    requires NONE !in known
    ensures SoloTotal(known, eligible, es, x) == TraceTotal(known, eligible, es, x)
  {
    CountsReadTrace(known, eligible, es, x);
    FlushReadsTrace(known, eligible, es, x);
  }

  /** The engine's counters are those read off the trace, for every attempt, exactly when no block carries
      the id the engine also uses for "no block". */
  lemma {:induction false} EngineReadsTraceIff(known: set<int>)
    ensures (forall eligible, es, x :: SoloTotal(known, eligible, es, x) == TraceTotal(known, eligible, es, x)) <==> NONE !in known
  {
    if NONE in known {
      var es := [MetricEvent(true, HintUsed, Id("a"), 0, 0, OtherOutcome, 0)];
      SentinelBlockTakesHints(known, true);
      assert es[..0] == [];
      assert EventsCounted(known, true, es[..0], HintPressure(NONE)) == 0;
      assert TraceTotal(known, true, es, HintPressure(NONE)) == 0;
    } else {
      forall eligible, es, x ensures SoloTotal(known, eligible, es, x) == TraceTotal(known, eligible, es, x) {
        SoloReadsTrace(known, eligible, es, x);
      }
    }
  }

  /** What the raw events of all attempts together say counter x must be. */
  ghost function TraceSum(known: set<int>, eligible: set<Id>, es: seq<MetricEvent>, x: Counter): nat {
    SumOver(Attempts(es), a => TraceTotal(known, a in eligible, Only(es, a), x))
  }

  /** Over the mixed stream: every total is the sum of what each attempt's own raw events say. */
  lemma {:induction false} TotalReadsTrace(known: set<int>, eligible: set<Id>, es: seq<MetricEvent>, x: Counter)
    requires NONE !in known
    ensures Total(known, eligible, es, x) == TraceSum(known, eligible, es, x)
  {
    forall a ensures SoloTotal(known, a in eligible, Only(es, a), x) == TraceTotal(known, a in eligible, Only(es, a), x) {
      SoloReadsTrace(known, a in eligible, Only(es, a), x);
    }
    SumCongruence(Attempts(es), a => SoloTotal(known, a in eligible, Only(es, a), x),
                  a => TraceTotal(known, a in eligible, Only(es, a), x));
  }

  /** Two falls and then a success: the third try is the one recorded. */
  lemma {:induction false} ThirdTrySucceeds()
    ensures var fall := MetricEvent(true, PlacementResolved, Id("a"), 1, 0, FellNoSnapTarget, 0);
            var placed := fall.(outcome := Placed);
            SoloTotal({1}, true, [fall, fall, placed], SuccessBucket(1, 3)) == 1
            && SoloTotal({1}, true, [fall, fall, placed], TriesSample(1, 3)) == 1
  {
    var fall := MetricEvent(true, PlacementResolved, Id("a"), 1, 0, FellNoSnapTarget, 0);
    var placed := fall.(outcome := Placed);
    var es := [fall, fall, placed];
    assert es[..2] == [fall, fall] && [fall, fall][..1] == [fall] && [fall][..0] == [];
    assert SoloState({1}, [fall]).tries == 1;
    assert SoloState({1}, [fall, fall]).tries == 2;
    forall x | x == SuccessBucket(1, 3) || x == TriesSample(1, 3) ensures SoloTotal({1}, true, es, x) == 1 {
      assert SoloCount({1}, true, [fall], x) == 0;
      assert SoloCount({1}, true, [fall, fall], x) == 0;
    }
  }
}
