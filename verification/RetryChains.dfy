/** What the ladder numbers mean on the raw event trace. A chain is read off the events alone: a
    maximal stretch of takes and placements of one block, cut after each successful placement. The
    laws below tie the engine's counters to chains and pick-ups counted that way. */
module RetryChains {
  import opened Basics
  import opened Sums
  import opened RetryLadder

  predicate Touches(known: set<int>, e: MetricEvent) {
    (e.kind == DetailTaken || e.kind == PlacementResolved) && e.block in known
  }

  predicate Marks(known: set<int>, e: MetricEvent) {
    Touches(known, e) || e.kind == InteractionAbandoned
  }

  /** The latest take or placement of a known block. */
  function LastTouch(known: set<int>, es: seq<MetricEvent>): Option<MetricEvent> {
    if es == [] then None
    else if Touches(known, es[|es| - 1]) then Some(es[|es| - 1])
    else LastTouch(known, es[..|es| - 1])
  }

  /** The latest take, placement or abandonment. */
  function LastMark(known: set<int>, es: seq<MetricEvent>): Option<MetricEvent> {
    if es == [] then None
    else if Marks(known, es[|es| - 1]) then Some(es[|es| - 1])
    else LastMark(known, es[..|es| - 1])
  }

  predicate Succeeds(e: MetricEvent) { e.kind == PlacementResolved && e.outcome == Placed }

  /** e, coming after es, begins a chain on b. */
  predicate StartsChain(known: set<int>, es: seq<MetricEvent>, e: MetricEvent, b: int) {
    && Touches(known, e) && e.block == b
    && var t := LastTouch(known, es);
       t.None? || t.value.block != b || Succeeds(t.value)
  }

  function ChainsStarted(known: set<int>, es: seq<MetricEvent>, b: int): nat {
    if es == [] then 0 else
    var init := es[..|es| - 1];
    ChainsStarted(known, init, b) + Bit(StartsChain(known, init, es[|es| - 1], b))
  }

  function Takes(es: seq<MetricEvent>, b: int): nat {
    if es == [] then 0 else
    Takes(es[..|es| - 1], b) + Bit(es[|es| - 1].kind == DetailTaken && es[|es| - 1].block == b)
  }

  /** Pick-ups of b that a placement of b resolved: nothing but other kinds of event in between. */
  function TakesPlaced(known: set<int>, es: seq<MetricEvent>, b: int): nat {
    if es == [] then 0 else
    var init, e := es[..|es| - 1], es[|es| - 1];
    var mark := LastMark(known, init);
    TakesPlaced(known, init, b) +
    Bit(e.kind == PlacementResolved && e.block == b
        && mark.Some? && mark.value.kind == DetailTaken && mark.value.block == b)
  }

  function Falls(es: seq<MetricEvent>, b: int): nat {
    if es == [] then 0 else
    var e := es[|es| - 1];
    Falls(es[..|es| - 1], b) + Bit(e.kind == PlacementResolved && e.block == b && e.Fell())
  }

  /** The state is a reading of the trace: which chain is open, and whether a piece is in hand. */
  lemma {:induction false} StateReadsTrace(known: set<int>, es: seq<MetricEvent>)
    requires NONE !in known
    ensures var s, touch, mark := SoloState(known, es), LastTouch(known, es), LastMark(known, es);
            && s.activeBlock == (if touch.Some? && !Succeeds(touch.value) then touch.value.block else NONE)
            && (s.unresolved <==> mark.Some? && mark.value.kind == DetailTaken)
            && (s.unresolved ==> mark.value.block == s.activeBlock)
            && (s.activeBlock == NONE ==> s == FRESH)
            && (s.activeBlock != NONE ==> s.activeBlock in known && (s.tries > 0 || s.unresolved))
            && s.tries >= 0 && (s.lastFailed == NONE || s.lastFailed == s.activeBlock)
  {
    if es != [] {
      StateReadsTrace(known, es[..|es| - 1]);
    }
  }

  ghost function Successes(known: set<int>, es: seq<MetricEvent>, b: int): nat {
    SoloCount(known, true, es, SuccessBucket(b, 1)) + SoloCount(known, true, es, SuccessBucket(b, 2)) +
    SoloCount(known, true, es, SuccessBucket(b, 3)) + SoloCount(known, true, es, SuccessBucket(b, 4))
  }

  /** A successful placement of b fills exactly one bucket; nothing else fills any. */
  lemma {:induction false} OneBucket(known: set<int>, s: MetricState, e: MetricEvent, b: int)
    requires b in known
    ensures Bit(Bumps(known, true, s, e, SuccessBucket(b, 1))) + Bit(Bumps(known, true, s, e, SuccessBucket(b, 2)))
            + Bit(Bumps(known, true, s, e, SuccessBucket(b, 3))) + Bit(Bumps(known, true, s, e, SuccessBucket(b, 4)))
            == Bit(Succeeds(e) && e.block == b)
  {
  }

  /** A chain on b that an event ends either succeeds or is given up, and a chain it does not end stays open. */
  lemma {:induction false} ChainEvent(known: set<int>, es: seq<MetricEvent>, e: MetricEvent, b: int)
    requires NONE !in known && b in known
    ensures var s := SoloState(known, es);
            Bit(Succeeds(e) && e.block == b) + Bit(Bumps(known, true, s, e, NeverSucceeded(b)))
            + Bit(Next(known, s, e).activeBlock == b)
            == Bit(s.activeBlock == b) + Bit(StartsChain(known, es, e, b))
  {
    StateReadsTrace(known, es);
  }

  /** Every chain begun on b has succeeded in one bucket, been given up, or is the open one. */
  lemma {:induction false} ChainLaw(known: set<int>, es: seq<MetricEvent>, b: int)
    requires NONE !in known && b in known
    ensures Successes(known, es, b) + SoloCount(known, true, es, NeverSucceeded(b))
            + Bit(SoloState(known, es).activeBlock == b) == ChainsStarted(known, es, b)
  {
    if es != [] {
      ChainLaw(known, es[..|es| - 1], b);
      OneBucket(known, SoloState(known, es[..|es| - 1]), es[|es| - 1], b);
      ChainEvent(known, es[..|es| - 1], es[|es| - 1], b);
    }
  }

  /** Every pick-up of b was placed, written off as incomplete, or is still in hand. */
  lemma {:induction false} TakeLaw(known: set<int>, es: seq<MetricEvent>, b: int)
    requires NONE !in known && b in known
    ensures TakesPlaced(known, es, b) + SoloCount(known, true, es, Incomplete(b))
            + Bit(SoloState(known, es).unresolved && SoloState(known, es).activeBlock == b) == Takes(es, b)
  {
    if es != [] {
      TakeLaw(known, es[..|es| - 1], b);
      StateReadsTrace(known, es[..|es| - 1]);
    }
  }

  /** A hint is charged only to a block that fell, each fall at most once; NONE stands for no block here. */
  lemma {:induction false} HintLaw(known: set<int>, eligible: bool, es: seq<MetricEvent>, b: int)
    requires b != NONE
    ensures SoloCount(known, eligible, es, HintPressure(b)) + Bit(SoloState(known, es).lastFailed == b) <= Falls(es, b)
  {
    if es != [] {
      HintLaw(known, eligible, es[..|es| - 1], b);
    }
  }

  // ---------------------------------------------------------------- after the final flush

  /** Chains of one attempt that ended in one of the first k success buckets. */
  ghost function Rungs(known: set<int>, eligible: bool, es: seq<MetricEvent>, b: int, k: nat): nat {
    if k == 0 then 0
    else Rungs(known, eligible, es, b, k - 1) + SoloTotal(known, eligible, es, SuccessBucket(b, k))
  }

  ghost function LadderSamples(known: set<int>, eligible: bool, es: seq<MetricEvent>, b: int): nat {
    Rungs(known, eligible, es, b, 4) + SoloTotal(known, eligible, es, NeverSucceeded(b))
  }

  lemma {:induction false} FourRungs(known: set<int>, eligible: bool, es: seq<MetricEvent>, b: int)
    ensures Rungs(known, eligible, es, b, 4) ==
            SoloTotal(known, eligible, es, SuccessBucket(b, 1)) + SoloTotal(known, eligible, es, SuccessBucket(b, 2)) +
            SoloTotal(known, eligible, es, SuccessBucket(b, 3)) + SoloTotal(known, eligible, es, SuccessBucket(b, 4))
  {
    assert Rungs(known, eligible, es, b, 2) == Rungs(known, eligible, es, b, 1) + SoloTotal(known, eligible, es, SuccessBucket(b, 2));
  }

  ghost predicate Conserves(known: set<int>, es: seq<MetricEvent>, b: int) {
    && LadderSamples(known, true, es, b) == ChainsStarted(known, es, b)
    && TakesPlaced(known, es, b) + SoloTotal(known, true, es, Incomplete(b)) == Takes(es, b)
  }

  /** Chain and take conservation hold for every eligible attempt on every block exactly when no
      block carries the id the engine also uses for "no block". */
  lemma {:induction false} ConservationIff(known: set<int>)
    ensures (forall es, b :: b in known ==> Conserves(known, es, b)) <==> NONE !in known
  {
    if NONE in known {
      SentinelBlockLosesATake(known);
    } else {
      forall es, b | b in known ensures Conserves(known, es, b) {
        ChainLaw(known, es, b);
        TakeLaw(known, es, b);
        StateReadsTrace(known, es);
        FourRungs(known, true, es, b);
      }
    }
  }

  /** One pick-up of a block with id -1 is neither placed nor incomplete, and starts a chain no bucket holds. */
  lemma {:induction false} SentinelBlockLosesATake(known: set<int>)
    requires NONE in known
    ensures var es := [MetricEvent(true, DetailTaken, Id("a"), NONE, 0, OtherOutcome, 0)];
            && Takes(es, NONE) == 1 && TakesPlaced(known, es, NONE) == 0
            && SoloTotal(known, true, es, Incomplete(NONE)) == 0
            && ChainsStarted(known, es, NONE) == 1 && LadderSamples(known, true, es, NONE) == 0
            && !Conserves(known, es, NONE)
  {
    var es := [MetricEvent(true, DetailTaken, Id("a"), NONE, 0, OtherOutcome, 0)];
    assert es[..0] == [];
    assert SoloState(known, es) == Next(known, FRESH, es[0]) == MetricState(0, 0, true, NONE, NONE);
    forall x ensures SoloCount(known, true, es, x) == Bit(Bumps(known, true, FRESH, es[0], x)) {
      assert SoloCount(known, true, es[..0], x) == 0;
    }
    FourRungs(known, true, es, NONE);
  }

  /** Hints never outnumber the falls they are charged for, in every attempt and on every block, exactly
      when no block carries the id the engine also uses for "no block fell". */
  lemma {:induction false} HintsNeedFallsIff(known: set<int>)
    ensures (forall eligible, es, b :: b in known ==> SoloTotal(known, eligible, es, HintPressure(b)) <= Falls(es, b))
            <==> NONE !in known
  {
    if NONE in known {
      SentinelBlockTakesHints(known, true);
    } else {
      forall eligible, es, b | b in known ensures SoloTotal(known, eligible, es, HintPressure(b)) <= Falls(es, b) {
        HintLaw(known, eligible, es, b);
      }
    }
  }

  /** One hint, and nothing that fell: it is charged to the block with id -1. */
  lemma {:induction false} SentinelBlockTakesHints(known: set<int>, eligible: bool)
    requires NONE in known
    ensures var es := [MetricEvent(true, HintUsed, Id("a"), 0, 0, OtherOutcome, 0)];
            SoloTotal(known, eligible, es, HintPressure(NONE)) == 1 && Falls(es, NONE) == 0
  {
    var es := [MetricEvent(true, HintUsed, Id("a"), 0, 0, OtherOutcome, 0)];
    assert es[..0] == [];
    assert SoloState(known, es) == Next(known, FRESH, es[0]) == FRESH;
    assert SoloCount(known, eligible, es[..0], HintPressure(NONE)) == 0 && Falls(es[..0], NONE) == 0;
  }

  lemma {:induction false} IneligibleCountsNothing(known: set<int>, es: seq<MetricEvent>, b: int)
    ensures LadderSamples(known, false, es, b) == 0 && SoloTotal(known, false, es, Incomplete(b)) == 0
  {
    FourRungs(known, false, es, b);
    if es != [] {
      IneligibleCountsNothing(known, es[..|es| - 1], b);
      FourRungs(known, false, es[..|es| - 1], b);
    }
  }

  ghost function StreamRungs(known: set<int>, eligible: set<Id>, es: seq<MetricEvent>, b: int, k: nat): nat {
    if k == 0 then 0
    else StreamRungs(known, eligible, es, b, k - 1) + Total(known, eligible, es, SuccessBucket(b, k))
  }

  /** The ladder's SampleCount: the four success buckets and the chains that never succeeded. */
  ghost function SampleCount(known: set<int>, eligible: set<Id>, es: seq<MetricEvent>, b: int): nat {
    StreamRungs(known, eligible, es, b, 4) + Total(known, eligible, es, NeverSucceeded(b))
  }

  lemma {:induction false} RungsAddUp(known: set<int>, eligible: set<Id>, es: seq<MetricEvent>, b: int, k: nat)
    ensures SumOver(Attempts(es), a => Rungs(known, a in eligible, Only(es, a), b, k)) ==
            StreamRungs(known, eligible, es, b, k)
  {
    if k == 0 {
      SumPlus(Attempts(es), (a: Id) => 0, (a: Id) => 0, (a: Id) => 0);
      SumCongruence(Attempts(es), (a: Id) => 0, a => Rungs(known, a in eligible, Only(es, a), b, 0));
    } else {
      RungsAddUp(known, eligible, es, b, k - 1);
      SumPlus(Attempts(es), a => Rungs(known, a in eligible, Only(es, a), b, k - 1),
              a => SoloTotal(known, a in eligible, Only(es, a), SuccessBucket(b, k)),
              a => Rungs(known, a in eligible, Only(es, a), b, k));
    }
  }

  /** Over the whole mixed stream: the ladder's sample count is the number of chains begun in eligible
      attempts, and the incomplete count the number of their pick-ups that no placement resolved. */
  lemma {:induction false} StreamConservation(known: set<int>, eligible: set<Id>, es: seq<MetricEvent>, b: int)
    requires NONE !in known && b in known
    ensures SampleCount(known, eligible, es, b) ==
            SumOver(Attempts(es), a => if a in eligible then ChainsStarted(known, Only(es, a), b) else 0)
    ensures Total(known, eligible, es, Incomplete(b))
            + SumOver(Attempts(es), a => if a in eligible then TakesPlaced(known, Only(es, a), b) else 0) ==
            SumOver(Attempts(es), a => if a in eligible then Takes(Only(es, a), b) else 0)
  {
    ConservationIff(known);
    forall a ensures (if a in eligible then ChainsStarted(known, Only(es, a), b) else 0) ==
                     Rungs(known, a in eligible, Only(es, a), b, 4)
                     + SoloTotal(known, a in eligible, Only(es, a), NeverSucceeded(b)) {
      IneligibleCountsNothing(known, Only(es, a), b);
      assert Conserves(known, Only(es, a), b);
    }
    RungsAddUp(known, eligible, es, b, 4);
    SumPlus(Attempts(es), a => Rungs(known, a in eligible, Only(es, a), b, 4),
            a => SoloTotal(known, a in eligible, Only(es, a), NeverSucceeded(b)),
            a => if a in eligible then ChainsStarted(known, Only(es, a), b) else 0);
    StreamTakes(known, eligible, es, b);
  }

  lemma {:induction false} StreamTakes(known: set<int>, eligible: set<Id>, es: seq<MetricEvent>, b: int)
    requires NONE !in known && b in known
    ensures Total(known, eligible, es, Incomplete(b))
            + SumOver(Attempts(es), a => if a in eligible then TakesPlaced(known, Only(es, a), b) else 0) ==
            SumOver(Attempts(es), a => if a in eligible then Takes(Only(es, a), b) else 0)
  {
    ConservationIff(known);
    forall a ensures (if a in eligible then Takes(Only(es, a), b) else 0) ==
                     SoloTotal(known, a in eligible, Only(es, a), Incomplete(b))
                     + (if a in eligible then TakesPlaced(known, Only(es, a), b) else 0) {
      IneligibleCountsNothing(known, Only(es, a), b);
      assert Conserves(known, Only(es, a), b);
    }
    SumPlus(Attempts(es), a => SoloTotal(known, a in eligible, Only(es, a), Incomplete(b)),
            a => if a in eligible then TakesPlaced(known, Only(es, a), b) else 0,
            a => if a in eligible then Takes(Only(es, a), b) else 0);
  }

  // ---------------------------------------------------------------- the ladder as a histogram

  lemma {:induction false} EventHistogram(known: set<int>, eligible: bool, s: MetricState, e: MetricEvent, b: int)
    ensures Bit(Bumps(known, eligible, s, e, TriesRecorded(b))) ==
            Bit(Bumps(known, eligible, s, e, SuccessBucket(b, 1))) + Bit(Bumps(known, eligible, s, e, SuccessBucket(b, 2))) +
            Bit(Bumps(known, eligible, s, e, SuccessBucket(b, 3))) + Bit(Bumps(known, eligible, s, e, SuccessBucket(b, 4)))
    ensures forall k :: 1 <= k <= 3 ==>
              (Bumps(known, eligible, s, e, SuccessBucket(b, k)) <==> Bumps(known, eligible, s, e, TriesSample(b, k)))
  {
  }

  lemma {:induction false} SoloHistogram(known: set<int>, eligible: bool, es: seq<MetricEvent>, b: int)
    ensures SoloCount(known, eligible, es, TriesRecorded(b)) ==
            SoloCount(known, eligible, es, SuccessBucket(b, 1)) + SoloCount(known, eligible, es, SuccessBucket(b, 2)) +
            SoloCount(known, eligible, es, SuccessBucket(b, 3)) + SoloCount(known, eligible, es, SuccessBucket(b, 4))
    ensures forall k :: 1 <= k <= 3 ==>
              SoloCount(known, eligible, es, SuccessBucket(b, k)) == SoloCount(known, eligible, es, TriesSample(b, k))
  {
    if es != [] {
      SoloHistogram(known, eligible, es[..|es| - 1], b);
      EventHistogram(known, eligible, SoloState(known, es[..|es| - 1]), es[|es| - 1], b);
    }
  }

  /** Rung k of the ladder counts the recorded tries equal to k, for k up to 3. */
  lemma {:induction false} RungIsHistogram(known: set<int>, eligible: set<Id>, es: seq<MetricEvent>, b: int, k: int)
    requires 1 <= k <= 3
    ensures Total(known, eligible, es, SuccessBucket(b, k)) == Total(known, eligible, es, TriesSample(b, k))
  {
    forall a ensures SoloTotal(known, a in eligible, Only(es, a), SuccessBucket(b, k)) ==
                     SoloTotal(known, a in eligible, Only(es, a), TriesSample(b, k)) {
      SoloHistogram(known, a in eligible, Only(es, a), b);
    }
    SumCongruence(Attempts(es), a => SoloTotal(known, a in eligible, Only(es, a), SuccessBucket(b, k)),
                  a => SoloTotal(known, a in eligible, Only(es, a), TriesSample(b, k)));
  }

  /** The four rungs together count every recorded sample, so the last one holds all tries above 3. */
  lemma {:induction false} LadderIsHistogram(known: set<int>, eligible: set<Id>, es: seq<MetricEvent>, b: int)
    ensures Total(known, eligible, es, SuccessBucket(b, 1)) + Total(known, eligible, es, SuccessBucket(b, 2))
            + Total(known, eligible, es, SuccessBucket(b, 3)) + Total(known, eligible, es, SuccessBucket(b, 4))
            == Total(known, eligible, es, TriesRecorded(b))
  {
    forall a
      ensures Rungs(known, a in eligible, Only(es, a), b, 4) == SoloTotal(known, a in eligible, Only(es, a), TriesRecorded(b))
    {
      SoloHistogram(known, a in eligible, Only(es, a), b);
      FourRungs(known, a in eligible, Only(es, a), b);
    }
    RungsAddUp(known, eligible, es, b, 4);
    SumCongruence(Attempts(es), a => Rungs(known, a in eligible, Only(es, a), b, 4),
                  a => SoloTotal(known, a in eligible, Only(es, a), TriesRecorded(b)));
    assert StreamRungs(known, eligible, es, b, 1) == Total(known, eligible, es, SuccessBucket(b, 1));
    assert StreamRungs(known, eligible, es, b, 2) ==
           StreamRungs(known, eligible, es, b, 1) + Total(known, eligible, es, SuccessBucket(b, 2));
  }
}
