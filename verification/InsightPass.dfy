/** The engine itself: maps of per-attempt state, per-block counters, per-wave counters and sample
    lists, updated event by event as internal/analytics/puzzle_insights.go does. */
module InsightEngine {
  import opened Basics
  import opened Sums
  import opened InsightExamples
  import opened RetryLadder
  import opened RetryChains
  import opened OrderStatistics
  import RetryTrace

  const MIN_PLACEMENTS_FOR_RATE := 5

  /** The block counters, read by name; samples and wave counters are kept elsewhere. */
  ghost function Stat(s: BlockStats, x: Counter): nat {
    match x
    case FirstTryAttempts(_) => s.firstTryAttempts
    case FirstTryFailures(_) => s.firstTryFailures
    case NoSnap(_) => s.noSnap
    case MissingSupport(_) => s.missingSupport
    case HintPressure(_) => s.hintPressure
    case SuccessfulPlacements(_) => s.successfulPlacements
    case SuccessBucket(_, k) =>
      if k == 1 then s.success1 else if k == 2 then s.success2
      else if k == 3 then s.success3 else if k == 4 then s.success4Plus else 0
    case NeverSucceeded(_) => s.neverSucceeded
    case Incomplete(_) => s.incomplete
    case _ => 0
  }

  ghost predicate IsSample(x: Counter) {
    x.TriesRecorded? || x.TriesSample? || x.TimeSample?
  }

  ghost predicate IsStat(x: Counter) {
    !IsSample(x) && !x.WavePlacements? && !x.WaveFalls?
  }

  /** Reads a counter back from the maps the pass keeps. */
  ghost function Value(blocks: map<int, BlockStats>, waves: map<int, WaveStats>,
                       tries: map<int, seq<int>>, times: map<int, seq<int>>, x: Counter): nat
  {
    match x
    case TriesRecorded(b) => |SamplesOf(tries, b)|
    case TriesSample(b, n) => multiset(SamplesOf(tries, b))[n]
    case TimeSample(b, ms) => multiset(SamplesOf(times, b))[ms]
    case WavePlacements(w) => if w in waves then waves[w].placements else 0
    case WaveFalls(w) => if w in waves then waves[w].falls else 0
    case _ => if x.block in blocks then Stat(blocks[x.block], x) else 0
  }

  ghost predicate Entered(waveAttempts: map<int, set<Id>>, w: int, a: Id) {
    w in waveAttempts && a in waveAttempts[w]
  }

  /** Median and percentiles of one sample list, as applyPuzzleMedians reports them. */
  datatype Spread = Spread(median: int, p75: int, p90: int)

  /** Percentiles are published only from MIN_PLACEMENTS_FOR_RATE samples on. */
  ghost function SpreadOf(samples: seq<int>): Spread {
    if |samples| >= MIN_PLACEMENTS_FOR_RATE
    then Spread(Percentile(samples, 50), Percentile(samples, 75), Percentile(samples, 90))
    else Spread(Median(samples), 0, 0)
  }

  method MeasureSpread(samples: seq<int>) returns (d: Spread)
    ensures d == SpreadOf(samples)
  {
    if |samples| >= MIN_PLACEMENTS_FOR_RATE {
      var p50 := IntPercentile(samples, 50);
      var p75 := IntPercentile(samples, 75);
      var p90 := IntPercentile(samples, 90);
      d := Spread(p50, p75, p90);
    } else {
      var median := MedianInts(samples);
      d := Spread(median, 0, 0);
    }
  }

  /** The reported median is the true one on either branch, the percentiles are ordered, and each is
      the one value whose rank among the samples is floor(n*p/100). */
  lemma {:induction false} SpreadLaw(samples: seq<int>, v: int)
    ensures var d := SpreadOf(samples);
            && d.median == Median(samples)
            && (|samples| < MIN_PLACEMENTS_FOR_RATE ==> d.p75 == d.p90 == 0)
            && (|samples| >= MIN_PLACEMENTS_FOR_RATE ==>
                  && d.median <= d.p75 <= d.p90
                  && (v == d.median <==> Below(samples, v) <= |samples| * 50 / 100 < AtMost(samples, v))
                  && (v == d.p75 <==> Below(samples, v) <= |samples| * 75 / 100 < AtMost(samples, v))
                  && (v == d.p90 <==> Below(samples, v) <= |samples| * 90 / 100 < AtMost(samples, v)))
  {
    MedianIsP50(samples);
    if |samples| >= MIN_PLACEMENTS_FOR_RATE {
      PercentileMonotone(samples, 50, 75);
      PercentileMonotone(samples, 75, 90);
      PercentileRank(samples, 50, v);
      PercentileRank(samples, 75, v);
      PercentileRank(samples, 90, v);
    }
  }

  /** Samples collected in another order publish the same numbers. */
  lemma {:induction false} SpreadIgnoresOrder(a: seq<int>, b: seq<int>)
    requires multiset(a) == multiset(b)
    ensures SpreadOf(a) == SpreadOf(b)
  {
    assert |a| == |multiset(a)| == |b|;
    OrderIrrelevant(a, b, 50);
    OrderIrrelevant(a, b, 75);
    OrderIrrelevant(a, b, 90);
  }

  /** The published form of a retry ladder or of the times to place. */
  datatype Summary = Summary(sampleCount: nat, reliable: bool, spread: Spread)

  ghost function SummaryOf(n: nat, samples: seq<int>): Summary {
    Summary(n, n >= MIN_PLACEMENTS_FOR_RATE, SpreadOf(samples))
  }

  datatype WaveSummary = WaveSummary(index: int, placements: nat, falls: nat, attempts: nat)

  /** The eligible attempts with a placement on a known block in wave w. */
  ghost function Entrants(known: set<int>, eligible: set<Id>, es: seq<MetricEvent>, w: int): set<Id> {
    set a | a in eligible && Enters(known, Only(es, a), w)
  }

  datatype BlockReport = BlockReport(
    stats: BlockStats, ladder: Summary, timeToPlace: Summary, tries: seq<int>, times: seq<int>, examples: seq<Id>)

  /** The state of an attempt, fresh when it has none yet. */
  function StateFor(states: map<Id, MetricState>, a: Id): MetricState {
    if a in states then states[a] else FRESH
  }

  function Members(order: seq<Id>): set<Id> { set a | a in order }

  /** The increments a placement makes on its own block. */
  method JudgeBlock(before: BlockStats, s: MetricState, e: MetricEvent, eligible: bool) returns (block: BlockStats)
    ensures forall x :: IsStat(x) && x.block == e.block ==>
              Stat(block, x) == Stat(before, x) + Bit(PlacementBumps(eligible, s, s.tries + 1, e, x))
  {
    var n := s.tries + 1;
    block := before;
    if n == 1 {
      block := block.(firstTryAttempts := block.firstTryAttempts + 1);
      if e.outcome != Placed {
        block := block.(firstTryFailures := block.firstTryFailures + 1);
      }
    }
    if e.outcome == FellNoSnapTarget { block := block.(noSnap := block.noSnap + 1); }
    if e.outcome == FellMissingSupport { block := block.(missingSupport := block.missingSupport + 1); }
    if e.outcome == Placed {
      block := block.(successfulPlacements := block.successfulPlacements + 1);
      if eligible {
        match n {
          case 1 => block := block.(success1 := block.success1 + 1);
          case 2 => block := block.(success2 := block.success2 + 1);
          case 3 => block := block.(success3 := block.success3 + 1);
          case _ => block := block.(success4Plus := block.success4Plus + 1);
        }
      }
    }
  }

  class InsightPass {
    var blocks: map<int, BlockStats>
    var states: map<Id, MetricState>
    var waves: map<int, WaveStats>
    var waveAttempts: map<int, set<Id>>
    var tries: map<int, seq<int>>
    var times: map<int, seq<int>>
    var examples: map<int, seq<Id>>

    ghost predicate Valid() reads this {
      && (forall w :: w in waveAttempts ==> w in waves)
      && (forall w :: w in waves ==> waves[w].placements > 0)
    }

    ghost function At(x: Counter): nat reads this {
      Value(blocks, waves, tries, times, x)
    }

    constructor (ids: set<int>)
      ensures Valid() && blocks.Keys == ids && states == map[] && waves == map[] && waveAttempts == map[] && examples == map[]
      ensures forall x :: At(x) == 0
    {
      blocks := map b | b in ids :: UNPLAYED;
      states, waves, waveAttempts, tries, times, examples := map[], map[], map[], map[], map[], map[];
    }

    method RecordExample(b: int, attempt: Id)
      modifies this`examples
      ensures examples == Noted(old(examples), b, attempt)
    {
      if attempt == NO_ID { return; }
      var list := SamplesOf(examples, b);
      var listed := Lists(list, attempt);
      if !listed && |list| < MAX_EXAMPLES {
        examples := examples[b := list + [attempt]];
      }
    }

    method CountIncomplete(b: int, attempt: Id)
      requires Valid() && b in blocks
      modifies this`blocks, this`examples
      ensures Valid() && blocks.Keys == old(blocks.Keys)
      ensures forall x :: At(x) == old(At(x)) + Bit(x == Incomplete(b))
      ensures examples == Noted(old(examples), b, attempt)
    {
      var block := blocks[b].(incomplete := blocks[b].incomplete + 1);
      Stored(blocks, waves, tries, times, b, block);
      blocks := blocks[b := block];
      RecordExample(b, attempt);
    }

    method CountGivenUp(b: int, attempt: Id)
      requires Valid() && b in blocks
      modifies this`blocks, this`examples
      ensures Valid() && blocks.Keys == old(blocks.Keys)
      ensures forall x :: At(x) == old(At(x)) + Bit(x == NeverSucceeded(b))
      ensures examples == Noted(old(examples), b, attempt)
    {
      var block := blocks[b].(neverSucceeded := blocks[b].neverSucceeded + 1);
      Stored(blocks, waves, tries, times, b, block);
      blocks := blocks[b := block];
      RecordExample(b, attempt);
    }

    method FlushChain(state: MetricState, eligible: bool, attempt: Id) returns (s: MetricState)
      requires Valid()
      modifies this`blocks, this`examples
      ensures Valid() && blocks.Keys == old(blocks.Keys)
      ensures s == Flushed(state)
      ensures forall x :: At(x) == old(At(x)) + Bit(FlushBumps(blocks.Keys, eligible, state, x))
      ensures examples == FlushNoted(old(examples), blocks.Keys, eligible, state, attempt)
    {
      if state.activeBlock == NONE { return state; }
      var b := state.activeBlock;
      if b in blocks && eligible {
        if state.tries > 0 || state.unresolved { CountGivenUp(b, attempt); }
        if state.unresolved { CountIncomplete(b, attempt); }
      }
      s := state.(tries := 0, takenAt := -1, unresolved := false, activeBlock := NONE, lastFailed := NONE);
    }

    method ApplyHint(state: MetricState) returns (s: MetricState)
      requires Valid()
      modifies this`blocks
      ensures Valid() && blocks.Keys == old(blocks.Keys)
      ensures s == state.(lastFailed := NONE)
      ensures forall x :: At(x) == old(At(x)) + Bit(state.lastFailed in blocks && x == HintPressure(state.lastFailed))
    {
      var b := state.lastFailed;
      if b in blocks {
        var block := blocks[b].(hintPressure := blocks[b].hintPressure + 1);
        Stored(blocks, waves, tries, times, b, block);
        blocks := blocks[b := block];
      }
      s := state.(lastFailed := NONE);
    }

    method ApplyAbandon(state: MetricState, e: MetricEvent, eligible: bool) returns (s: MetricState)
      requires Valid() && e.kind == InteractionAbandoned
      modifies this`blocks, this`examples
      ensures Valid() && blocks.Keys == old(blocks.Keys)
      ensures s == Next(blocks.Keys, state, e)
      ensures forall x :: At(x) == old(At(x)) + Bit(Bumps(blocks.Keys, eligible, state, e, x))
      ensures examples == EventNoted(old(examples), blocks.Keys, eligible, state, e)
    {
      s := state;
      if s.activeBlock != NONE && s.unresolved {
        var b := s.activeBlock;
        if b in blocks && eligible {
          CountIncomplete(b, e.attempt);
        }
        s := s.(unresolved := false, takenAt := -1, tries := s.tries + 1);
      }
    }

    method ApplyTake(state: MetricState, e: MetricEvent, eligible: bool) returns (s: MetricState)
      requires Valid() && e.kind == DetailTaken && e.block in blocks
      modifies this`blocks, this`examples
      ensures Valid() && blocks.Keys == old(blocks.Keys)
      ensures s == Next(blocks.Keys, state, e)
      ensures forall x :: At(x) == old(At(x)) + Bit(Bumps(blocks.Keys, eligible, state, e, x))
      ensures examples == EventNoted(old(examples), blocks.Keys, eligible, state, e)
    {
      s := state;
      var b := e.block;
      if s.activeBlock != NONE && s.activeBlock != b {
        s := FlushChain(s, eligible, e.attempt);
      } else if s.activeBlock == b && s.unresolved {
        if eligible {
          CountIncomplete(b, e.attempt);
        }
        s := s.(tries := s.tries + 1);
      }
      s := s.(activeBlock := b, takenAt := e.elapsed, unresolved := true);
    }

    method EnterWave(w: int, attempt: Id)
      requires Valid() && w in waves
      modifies this`waveAttempts
      ensures Valid()
      ensures forall v, a :: Entered(waveAttempts, v, a) <==> (Entered(old(waveAttempts), v, a) || (v == w && a == attempt))
    {
      var entered := if w in waveAttempts then waveAttempts[w] else {};
      waveAttempts := waveAttempts[w := entered + {attempt}];
    }

    method CountWave(e: MetricEvent)
      requires Valid()
      modifies this`waves
      ensures Valid() && e.wave in waves
      ensures forall x :: At(x) == old(At(x)) + Bit(x == WavePlacements(e.wave) || (e.Fell() && x == WaveFalls(e.wave)))
    {
      var wave := if e.wave in waves then waves[e.wave] else WaveStats(0, 0);
      wave := wave.(placements := wave.placements + 1);
      if e.Fell() { wave := wave.(falls := wave.falls + 1); }
      WaveStored(blocks, waves, tries, times, e.wave, wave);
      waves := waves[e.wave := wave];
    }

    /** The block counters of a placement judged in state s (entered, its try not yet counted). */
    method CountOutcome(s: MetricState, e: MetricEvent, eligible: bool)
      requires Valid() && e.block in blocks
      modifies this`blocks, this`examples
      ensures Valid() && blocks.Keys == old(blocks.Keys)
      ensures forall x :: At(x) == old(At(x)) + Bit(IsStat(x) && PlacementBumps(eligible, s, s.tries + 1, e, x))
      ensures examples == if eligible then Noted(old(examples), e.block, e.attempt) else old(examples)
    {
      var block := JudgeBlock(blocks[e.block], s, e, eligible);
      Stored(blocks, waves, tries, times, e.block, block);
      blocks := blocks[e.block := block];
      if eligible { RecordExample(e.block, e.attempt); }
    }

    method CountTries(b: int, n: int)
      modifies this`tries
      ensures forall x :: At(x) == old(At(x)) + Bit(x == TriesRecorded(b) || x == TriesSample(b, n))
    {
      forall x { TriesStored(blocks, waves, tries, times, b, n, x); }
      tries := tries[b := SamplesOf(tries, b) + [n]];
    }

    method CountTime(b: int, ms: int)
      modifies this`times
      ensures forall x :: At(x) == old(At(x)) + Bit(x == TimeSample(b, ms))
    {
      forall x { TimeStored(blocks, waves, tries, times, b, ms, x); }
      times := times[b := SamplesOf(times, b) + [ms]];
    }

    /** The samples an eligible successful placement leaves. */
    method CountSamples(s: MetricState, e: MetricEvent, eligible: bool)
      modifies this`tries, this`times
      ensures forall x :: At(x) == old(At(x)) + Bit(IsSample(x) && PlacementBumps(eligible, s, s.tries + 1, e, x))
    {
      if e.outcome != Placed || !eligible { return; }
      CountTries(e.block, s.tries + 1);
      if e.elapsed >= s.takenAt && s.takenAt >= 0 {
        CountTime(e.block, e.elapsed - s.takenAt);
      }
    }

    method CountPlacement(s: MetricState, e: MetricEvent, eligible: bool)
      requires Valid() && e.block in blocks
      modifies this`blocks, this`waves, this`waveAttempts, this`tries, this`times, this`examples
      ensures Valid() && blocks.Keys == old(blocks.Keys)
      ensures forall x :: At(x) == old(At(x)) + Bit(PlacementBumps(eligible, s, s.tries + 1, e, x))
      ensures examples == if eligible then Noted(old(examples), e.block, e.attempt) else old(examples)
      ensures forall w, a :: Entered(waveAttempts, w, a) <==>
                (Entered(old(waveAttempts), w, a) || (eligible && w == e.wave && a == e.attempt))
    {
      CountWave(e);
      if eligible { EnterWave(e.wave, e.attempt); }
      CountOutcome(s, e, eligible);
      CountSamples(s, e, eligible);
      forall x ensures At(x) == old(At(x)) + Bit(PlacementBumps(eligible, s, s.tries + 1, e, x)) {
        PlacementParts(eligible, s, s.tries + 1, e, x);
      }
    }

    /** Leaves the chain of another block, if one is open, and enters the chain of this one. */
    method SwitchTo(b: int, state: MetricState, eligible: bool, attempt: Id) returns (s: MetricState)
      requires Valid()
      modifies this`blocks, this`examples
      ensures Valid() && blocks.Keys == old(blocks.Keys)
      ensures s == Entering(state, b)
      ensures forall x :: At(x) == old(At(x)) +
                Bit(state.activeBlock != NONE && state.activeBlock != b && FlushBumps(blocks.Keys, eligible, state, x))
      ensures examples == SwitchNoted(old(examples), blocks.Keys, eligible, state, b, attempt)
    {
      s := state;
      if s.activeBlock != NONE && s.activeBlock != b {
        s := FlushChain(s, eligible, attempt);
      }
      if s.activeBlock != b {
        s := s.(tries := 0, takenAt := -1, unresolved := false, activeBlock := b);
      }
    }

    method ApplyPlacement(state: MetricState, e: MetricEvent, eligible: bool) returns (s: MetricState)
      requires Valid() && e.kind == PlacementResolved && e.block in blocks
      modifies this`blocks, this`waves, this`waveAttempts, this`tries, this`times, this`examples
      ensures Valid() && blocks.Keys == old(blocks.Keys)
      ensures s == Next(blocks.Keys, state, e)
      ensures forall x :: At(x) == old(At(x)) + Bit(Bumps(blocks.Keys, eligible, state, e, x))
      ensures examples == EventNoted(old(examples), blocks.Keys, eligible, state, e)
      ensures forall w, a :: Entered(waveAttempts, w, a) <==>
                (Entered(old(waveAttempts), w, a) || (eligible && w == e.wave && a == e.attempt))
    {
      s := SwitchTo(e.block, state, eligible, e.attempt);
      CountPlacement(s, e, eligible);
      forall x ensures At(x) == old(At(x)) + Bit(Bumps(blocks.Keys, eligible, state, e, x)) {
        TwoParts(blocks.Keys, eligible, state, e, x);
      }
      if e.outcome == Placed {
        s := FRESH;
      } else {
        s := s.(tries := s.tries + 1, unresolved := false, lastFailed := if e.Fell() then e.block else s.lastFailed);
      }
    }

    /** Dispatch on the event's kind; takes and placements of unknown blocks are ignored. */
    method ApplyKind(state: MetricState, e: MetricEvent, eligible: bool) returns (s: MetricState)
      requires Valid()
      modifies this`blocks, this`waves, this`waveAttempts, this`tries, this`times, this`examples
      ensures Valid() && blocks.Keys == old(blocks.Keys)
      ensures s == Next(blocks.Keys, state, e)
      ensures forall x :: At(x) == old(At(x)) + Bit(Bumps(blocks.Keys, eligible, state, e, x))
      ensures examples == EventNoted(old(examples), blocks.Keys, eligible, state, e)
      ensures forall w, a :: Entered(waveAttempts, w, a) <==>
                (Entered(old(waveAttempts), w, a)
                 || (e.kind == PlacementResolved && e.block in blocks && eligible && w == e.wave && a == e.attempt))
    {
      s := state;
      match e.kind {
        case HintUsed => s := ApplyHint(state);
        case InteractionAbandoned => s := ApplyAbandon(state, e, eligible);
        case DetailTaken =>
          if e.block in blocks { s := ApplyTake(state, e, eligible); }
        case PlacementResolved =>
          if e.block in blocks { s := ApplyPlacement(state, e, eligible); }
      }
    }

    method ApplyEvent(e: MetricEvent, eligibleAttempts: set<Id>)
      requires Valid()
      modifies this
      ensures Valid() && blocks.Keys == old(blocks.Keys)
      ensures !e.Counts() ==> states == old(states)
      ensures e.Counts() ==>
                states == old(states)[e.attempt :=
                  Next(blocks.Keys, StateFor(old(states), e.attempt), e)]
      ensures forall x :: At(x) == old(At(x)) +
                Bit(e.Counts() && Bumps(blocks.Keys, e.attempt in eligibleAttempts, StateFor(old(states), e.attempt), e, x))
      ensures forall w, a :: Entered(waveAttempts, w, a) <==>
                (Entered(old(waveAttempts), w, a) ||
                 (e.Counts() && e.kind == PlacementResolved && e.block in blocks
                  && a in eligibleAttempts && w == e.wave && a == e.attempt))
      ensures examples == if e.Counts() then
                EventNoted(old(examples), blocks.Keys, e.attempt in eligibleAttempts, StateFor(old(states), e.attempt), e)
                else old(examples)
    {
      if !e.decoded || e.attempt == NO_ID { return; }
      if e.attempt !in states { states := states[e.attempt := FRESH]; }
      var state := ApplyKind(states[e.attempt], e, e.attempt in eligibleAttempts);
      states := states[e.attempt := state];
    }

    /** After the events es, the maps hold what separate runs over each attempt's events hold. */
    ghost predicate Tracks(eligible: set<Id>, es: seq<MetricEvent>) reads this {
      && states.Keys == Attempts(es)
      && (forall a :: a in states ==> states[a] == SoloState(blocks.Keys, Only(es, a)))
      && (forall x :: At(x) == Passed(blocks.Keys, eligible, es, x))
      && (forall w, a :: Entered(waveAttempts, w, a) <==> a in eligible && Enters(blocks.Keys, Only(es, a), w))
      && examples == StreamNoted(blocks.Keys, eligible, es)
    }

    method Advance(ghost es: seq<MetricEvent>, e: MetricEvent, eligible: set<Id>)
      requires Valid() && Tracks(eligible, es)
      modifies this
      ensures Valid() && Tracks(eligible, es + [e]) && blocks.Keys == old(blocks.Keys)
    {
      ghost var known := blocks.Keys;
      StateStep(known, es, e);
      StreamNotedStep(known, eligible, es, e);
      assert e.Counts() ==> StateFor(states, e.attempt) == SoloState(known, Only(es, e.attempt));
      ApplyEvent(e, eligible);
      forall x ensures At(x) == Passed(known, eligible, es + [e], x) {
        PassedStep(known, eligible, es, e, x);
      }
      forall w, a ensures Entered(waveAttempts, w, a) <==> a in eligible && Enters(known, Only(es + [e], a), w) {
        EntersStep(known, es, e, a, w);
      }
    }

    /** The whole pass. What it leaves in every counter is the sum of separate runs over each
        attempt's own events; wave entries are the eligible attempts with a placement there. */
    method Run(events: seq<MetricEvent>, eligible: set<Id>) returns (ghost order: seq<Id>)
      requires Valid() && states == map[] && waves == map[] && waveAttempts == map[] && examples == map[]
      requires forall x :: At(x) == 0
      modifies this
      ensures Valid() && blocks.Keys == old(blocks.Keys)
      ensures Finished(eligible, events)
      ensures examples == EndNoted(blocks.Keys, eligible, events, order) && Members(order) == Attempts(events)
      ensures forall b :: b in blocks ==>
                At(SuccessBucket(b, 1)) + At(SuccessBucket(b, 2)) + At(SuccessBucket(b, 3)) + At(SuccessBucket(b, 4))
                == At(TriesRecorded(b))
    {
      ghost var known := blocks.Keys;
      assert Attempts([]) == {};
      var i := 0;
      while i < |events|
        invariant 0 <= i <= |events| && Valid() && blocks.Keys == known
        invariant Tracks(eligible, events[..i])
      {
        assert events[..i + 1] == events[..i] + [events[i]];
        Advance(events[..i], events[i], eligible);
        i := i + 1;
      }
      assert events[..i] == events;
      order := FlushAll(events, eligible);
      forall b { LadderIsHistogram(known, eligible, events, b); }
    }

    /** What the maps hold on one block. */
    ghost function ReportOf(b: int): BlockReport
      requires b in blocks
      reads this
    {
      var st, recorded, elapsed := blocks[b], SamplesOf(tries, b), SamplesOf(times, b);
      BlockReport(st, SummaryOf(st.success1 + st.success2 + st.success3 + st.success4Plus + st.neverSucceeded, recorded),
                  SummaryOf(|elapsed|, elapsed), recorded, elapsed, SamplesOf(examples, b))
    }

    method Summarise(b: int) returns (r: BlockReport)
      requires b in blocks
      ensures r == ReportOf(b)
    {
      var block, recorded, elapsed := blocks[b], SamplesOf(tries, b), SamplesOf(times, b);
      var n := block.success1 + block.success2 + block.success3 + block.success4Plus + block.neverSucceeded;
      var triesSpread := MeasureSpread(recorded);
      var timesSpread := MeasureSpread(elapsed);
      r := BlockReport(block, Summary(n, n >= MIN_PLACEMENTS_FOR_RATE, triesSpread),
                       Summary(|elapsed|, |elapsed| >= MIN_PLACEMENTS_FOR_RATE, timesSpread),
                       recorded, elapsed, SamplesOf(examples, b));
    }

    method ReportAll(list: seq<int>) returns (r: seq<BlockReport>)
      requires forall b :: b in list ==> b in blocks
      ensures |r| == |list| && forall i :: 0 <= i < |r| ==> r[i] == ReportOf(list[i])
    {
      r := [];
      for n := 0 to |list|
        invariant |r| == n && forall i :: 0 <= i < n ==> r[i] == ReportOf(list[i])
      {
        var report := Summarise(list[n]);
        r := r + [report];
      }
    }

    ghost function WaveOf(w: int): WaveSummary
      requires w in waves
      reads this
    {
      WaveSummary(w, waves[w].placements, waves[w].falls, if w in waveAttempts then |waveAttempts[w]| else 0)
    }

    /** sortedPuzzleWaves: every wave seen has one summary, by ascending wave index. */
    method SortedWaves() returns (ws: seq<WaveSummary>)
      ensures forall i :: 0 <= i < |ws| ==> ws[i].index in waves && ws[i] == WaveOf(ws[i].index)
      ensures forall i, j :: 0 <= i < j < |ws| ==> ws[i].index < ws[j].index
      ensures forall w :: w in waves ==> exists i :: 0 <= i < |ws| && ws[i].index == w
    {
      var keys := SortedKeys(waves.Keys);
      EnumeratesStrictly(keys, waves.Keys);
      ws := [];
      for n := 0 to |keys|
        invariant |ws| == n && forall i :: 0 <= i < n ==> keys[i] in waves && ws[i] == WaveOf(keys[i])
      {
        var w := keys[n];
        assert w in multiset(keys);
        ws := ws + [WaveSummary(w, waves[w].placements, waves[w].falls, if w in waveAttempts then |waveAttempts[w]| else 0)];
      }
      forall w | w in waves ensures exists i :: 0 <= i < |ws| && ws[i].index == w {
        assert w in multiset(keys);
        var i :| 0 <= i < |keys| && keys[i] == w;
        assert ws[i].index == w;
      }
    }

    /** Between the events and the end of the flush: the attempts in done have been flushed. */
    ghost predicate HalfFlushed(eligible: set<Id>, es: seq<MetricEvent>, done: set<Id>, order: seq<Id>) reads this {
      && states.Keys == Attempts(es)
      && (forall a :: a in states && a !in done ==> states[a] == SoloState(blocks.Keys, Only(es, a)))
      && (forall x :: At(x) == Passed(blocks.Keys, eligible, es, x) + Flushes(blocks.Keys, eligible, es, done, x))
      && examples == EndNoted(blocks.Keys, eligible, es, order)
    }

    method FlushOne(ghost es: seq<MetricEvent>, eligible: set<Id>, ghost done: set<Id>, ghost order: seq<Id>, a: Id)
      requires Valid() && HalfFlushed(eligible, es, done, order) && a in states && a !in done
      modifies this`blocks, this`examples, this`states
      ensures Valid() && HalfFlushed(eligible, es, done + {a}, order + [a]) && blocks.Keys == old(blocks.Keys)
    {
      ghost var known := blocks.Keys;
      var s := FlushChain(states[a], a in eligible, a);
      states := states[a := s];
      forall x ensures At(x) == Passed(known, eligible, es, x) + Flushes(known, eligible, es, done + {a}, x) {
        FlushesStep(known, eligible, es, done, a, x);
      }
      assert (order + [a])[..|order|] == order;
    }

    /** After the final flush every counter is the sum of separate runs, and the waves have been entered
        by the eligible attempts with a placement there. */
    ghost predicate Finished(eligible: set<Id>, es: seq<MetricEvent>) reads this {
      && Valid() && (forall x :: At(x) == Total(blocks.Keys, eligible, es, x))
      && forall w, a :: Entered(waveAttempts, w, a) <==> a in Entrants(blocks.Keys, eligible, es, w)
    }

    method FlushAll(ghost es: seq<MetricEvent>, eligible: set<Id>) returns (ghost order: seq<Id>)
      requires Valid() && Tracks(eligible, es)
      modifies this`blocks, this`examples, this`states
      ensures Valid() && blocks.Keys == old(blocks.Keys)
      ensures forall x :: At(x) == Total(blocks.Keys, eligible, es, x)
      ensures examples == EndNoted(blocks.Keys, eligible, es, order) && Members(order) == Attempts(es)
    {
      order := FlushEach(es, eligible);
      forall x { TotalSplits(blocks.Keys, eligible, es, x); }
    }

    method FlushEach(ghost es: seq<MetricEvent>, eligible: set<Id>) returns (ghost order: seq<Id>)
      requires Valid() && Tracks(eligible, es)
      modifies this`blocks, this`examples, this`states
      ensures Valid() && blocks.Keys == old(blocks.Keys)
      ensures HalfFlushed(eligible, es, Attempts(es), order) && Members(order) == Attempts(es)
    {
      ghost var known := blocks.Keys;
      var todo := states.Keys;
      order := [];
      while todo != {}
        invariant Valid() && blocks.Keys == known && todo <= Attempts(es)
        invariant HalfFlushed(eligible, es, Attempts(es) - todo, order)
        invariant Members(order) == Attempts(es) - todo
        decreases todo
      {
        var a :| a in todo;
        FlushOne(es, eligible, Attempts(es) - todo, order, a);
        assert Attempts(es) - (todo - {a}) == Attempts(es) - todo + {a};
        assert Members(order + [a]) == Members(order) + {a};
        todo, order := todo - {a}, order + [a];
      }
      assert Attempts(es) - todo == Attempts(es);
    }
  }

  /** Every published counter of block b is the sum of separate runs. */
  ghost predicate StatsMatch(known: set<int>, eligible: set<Id>, es: seq<MetricEvent>, b: int, st: BlockStats) {
    forall x :: IsStat(x) && x.block == b ==> Stat(st, x) == Total(known, eligible, es, x)
  }

  /** What the events alone say a block's report must be. */
  ghost predicate Reports(known: set<int>, eligible: set<Id>, es: seq<MetricEvent>, b: int, r: BlockReport) {
    && StatsMatch(known, eligible, es, b, r.stats)
    && (forall n :: multiset(r.tries)[n] == Total(known, eligible, es, TriesSample(b, n)))
    && (forall ms :: multiset(r.times)[ms] == Total(known, eligible, es, TimeSample(b, ms)))
    && r.ladder == SummaryOf(SampleCount(known, eligible, es, b), r.tries) && r.timeToPlace == SummaryOf(|r.times|, r.times)
  }

  /** What they say a wave's summary must be. */
  ghost predicate WaveReports(known: set<int>, eligible: set<Id>, es: seq<MetricEvent>, w: WaveSummary) {
    && w.placements == Total(known, eligible, es, WavePlacements(w.index))
    && w.falls == Total(known, eligible, es, WaveFalls(w.index))
    && w.attempts == |Entrants(known, eligible, es, w.index)|
  }

  function IdsOf(list: seq<int>): set<int> { set b | b in list }

  /** applyPuzzleInsights, from the block list to the published figures: block by block, and every wave
      with a placement once, in order. */
  method ApplyPuzzleInsights(list: seq<int>, events: seq<MetricEvent>, eligible: set<Id>)
    returns (r: seq<BlockReport>, ws: seq<WaveSummary>)
    requires Distinct(list)
    ensures |r| == |list| && forall i :: 0 <= i < |r| ==> Reports(IdsOf(list), eligible, events, list[i], r[i])
    ensures forall i :: 0 <= i < |r| ==> Samples(r[i].examples, Exemplars(IdsOf(list), eligible, events, list[i]))
    ensures forall i :: 0 <= i < |ws| ==> WaveReports(IdsOf(list), eligible, events, ws[i])
    ensures forall i, j :: 0 <= i < j < |ws| ==> ws[i].index < ws[j].index
    ensures forall w :: Total(IdsOf(list), eligible, events, WavePlacements(w)) > 0 <==>
                        exists i :: 0 <= i < |ws| && ws[i].index == w
  {
    var pass := new InsightPass(IdsOf(list));
    ghost var order := pass.Run(events, eligible);
    r := pass.ReportAll(list);
    ws := pass.SortedWaves();
    BlocksMeet(pass, eligible, events, list, r);
    forall i | 0 <= i < |r| ensures Samples(r[i].examples, Exemplars(IdsOf(list), eligible, events, list[i])) {
      ExamplesMeet(pass, eligible, events, order, list[i], r[i]);
    }
    WavesMeet(pass, eligible, events, ws);
  }

  lemma {:induction false} BlocksMeet(pass: InsightPass, eligible: set<Id>, es: seq<MetricEvent>, list: seq<int>, r: seq<BlockReport>)
    requires pass.Finished(eligible, es) && |r| == |list|
    requires forall i :: 0 <= i < |r| ==> list[i] in pass.blocks && r[i] == pass.ReportOf(list[i])
    ensures forall i :: 0 <= i < |r| ==> Reports(pass.blocks.Keys, eligible, es, list[i], r[i])
  {
    forall i | 0 <= i < |r| ensures Reports(pass.blocks.Keys, eligible, es, list[i], r[i]) {
      ReportMeets(pass, eligible, es, list[i], r[i]);
    }
  }

  lemma {:induction false} ReportMeets(pass: InsightPass, eligible: set<Id>, es: seq<MetricEvent>, b: int, r: BlockReport)
    requires pass.Finished(eligible, es) && b in pass.blocks && r == pass.ReportOf(b)
    ensures Reports(pass.blocks.Keys, eligible, es, b, r)
  {
    StatsMeet(pass, eligible, es, b);
    SamplesMeet(pass, eligible, es, b);
  }

  lemma {:induction false} ExamplesMeet(pass: InsightPass, eligible: set<Id>, es: seq<MetricEvent>, order: seq<Id>, b: int, r: BlockReport)
    requires pass.examples == EndNoted(pass.blocks.Keys, eligible, es, order) && Members(order) == Attempts(es)
    requires b in pass.blocks && r == pass.ReportOf(b)
    ensures Samples(r.examples, Exemplars(pass.blocks.Keys, eligible, es, b))
  {
    ExamplesAreExemplars(pass.blocks.Keys, eligible, es, order, b);
  }

  lemma {:induction false} StatsMeet(pass: InsightPass, eligible: set<Id>, es: seq<MetricEvent>, b: int)
    requires pass.Finished(eligible, es) && b in pass.blocks
    ensures StatsMatch(pass.blocks.Keys, eligible, es, b, pass.blocks[b])
    ensures pass.ReportOf(b).ladder.sampleCount == SampleCount(pass.blocks.Keys, eligible, es, b)
  {
    var known, st := pass.blocks.Keys, pass.blocks[b];
    forall x | IsStat(x) && x.block == b ensures Stat(st, x) == Total(known, eligible, es, x) {
      assert Stat(st, x) == pass.At(x);
    }
    FourBuckets(known, eligible, es, b);
    assert st.success1 == Stat(st, SuccessBucket(b, 1)) && st.success2 == Stat(st, SuccessBucket(b, 2));
    assert st.success3 == Stat(st, SuccessBucket(b, 3)) && st.success4Plus == Stat(st, SuccessBucket(b, 4));
    assert st.neverSucceeded == Stat(st, NeverSucceeded(b));
  }

  lemma {:induction false} SamplesMeet(pass: InsightPass, eligible: set<Id>, es: seq<MetricEvent>, b: int)
    requires pass.Finished(eligible, es)
    ensures forall n :: multiset(SamplesOf(pass.tries, b))[n] == Total(pass.blocks.Keys, eligible, es, TriesSample(b, n))
    ensures forall ms :: multiset(SamplesOf(pass.times, b))[ms] == Total(pass.blocks.Keys, eligible, es, TimeSample(b, ms))
  {
    forall n ensures multiset(SamplesOf(pass.tries, b))[n] == Total(pass.blocks.Keys, eligible, es, TriesSample(b, n)) {
      assert multiset(SamplesOf(pass.tries, b))[n] == pass.At(TriesSample(b, n));
    }
    forall ms ensures multiset(SamplesOf(pass.times, b))[ms] == Total(pass.blocks.Keys, eligible, es, TimeSample(b, ms)) {
      assert multiset(SamplesOf(pass.times, b))[ms] == pass.At(TimeSample(b, ms));
    }
  }

  lemma {:induction false} WaveMeets(pass: InsightPass, eligible: set<Id>, es: seq<MetricEvent>, w: int)
    requires pass.Finished(eligible, es)
    ensures Total(pass.blocks.Keys, eligible, es, WavePlacements(w)) > 0 <==> w in pass.waves
    ensures w in pass.waves ==> WaveReports(pass.blocks.Keys, eligible, es, pass.WaveOf(w))
  {
    assert pass.At(WavePlacements(w)) > 0 <==> w in pass.waves;
    if w in pass.waves {
      assert pass.At(WaveFalls(w)) == pass.waves[w].falls;
      var attempts := if w in pass.waveAttempts then pass.waveAttempts[w] else {};
      assert attempts == Entrants(pass.blocks.Keys, eligible, es, w) by {
        forall a ensures a in attempts <==> a in Entrants(pass.blocks.Keys, eligible, es, w) {
          assert Entered(pass.waveAttempts, w, a) <==> a in attempts;
        }
      }
    }
  }

  lemma {:induction false} WavesMeet(pass: InsightPass, eligible: set<Id>, es: seq<MetricEvent>, ws: seq<WaveSummary>)
    requires pass.Finished(eligible, es)
    requires forall i :: 0 <= i < |ws| ==> ws[i].index in pass.waves && ws[i] == pass.WaveOf(ws[i].index)
    requires forall w :: w in pass.waves ==> exists i :: 0 <= i < |ws| && ws[i].index == w
    ensures forall i :: 0 <= i < |ws| ==> WaveReports(pass.blocks.Keys, eligible, es, ws[i])
    ensures forall w :: Total(pass.blocks.Keys, eligible, es, WavePlacements(w)) > 0 <==>
                        exists i :: 0 <= i < |ws| && ws[i].index == w
  {
    forall i | 0 <= i < |ws| ensures WaveReports(pass.blocks.Keys, eligible, es, ws[i]) {
      WaveMeets(pass, eligible, es, ws[i].index);
    }
    forall w
      ensures Total(pass.blocks.Keys, eligible, es, WavePlacements(w)) > 0 <==> exists i :: 0 <= i < |ws| && ws[i].index == w
    {
      WaveMeets(pass, eligible, es, w);
    }
  }

  /** Whatever the interleaving, the sample count published for a block is the number of chains begun on
      it in eligible attempts. */
  lemma {:induction false} PublishedSampleCount(known: set<int>, eligible: set<Id>, es: seq<MetricEvent>, b: int, r: BlockReport)
    requires NONE !in known && b in known && Reports(known, eligible, es, b, r)
    ensures r.ladder.sampleCount ==
            SumOver(Attempts(es), a => if a in eligible then ChainsStarted(known, Only(es, a), b) else 0)
  {
    StreamConservation(known, eligible, es, b);
  }

  /** Every published figure of a block is read off the raw events: its counters, the tries of each success
      and the time it took. */
  lemma {:induction false} PublishedReadsTrace(known: set<int>, eligible: set<Id>, es: seq<MetricEvent>, b: int, r: BlockReport)
    requires NONE !in known && Reports(known, eligible, es, b, r)
    ensures forall x :: IsStat(x) && x.block == b ==> Stat(r.stats, x) == RetryTrace.TraceSum(known, eligible, es, x)
    ensures forall n :: multiset(r.tries)[n] == RetryTrace.TraceSum(known, eligible, es, TriesSample(b, n))
    ensures forall ms :: multiset(r.times)[ms] == RetryTrace.TraceSum(known, eligible, es, TimeSample(b, ms))
    ensures (r.ladder.reliable <==> r.ladder.sampleCount >= 5) && (r.timeToPlace.reliable <==> |r.times| >= 5)
    ensures r.timeToPlace.sampleCount == |r.times|
  {
    forall x ensures Total(known, eligible, es, x) == RetryTrace.TraceSum(known, eligible, es, x) {
      RetryTrace.TotalReadsTrace(known, eligible, es, x);
    }
  }

  lemma {:induction false} FourBuckets(known: set<int>, eligible: set<Id>, es: seq<MetricEvent>, b: int)
    ensures SampleCount(known, eligible, es, b) ==
            Total(known, eligible, es, SuccessBucket(b, 1)) + Total(known, eligible, es, SuccessBucket(b, 2))
            + Total(known, eligible, es, SuccessBucket(b, 3)) + Total(known, eligible, es, SuccessBucket(b, 4))
            + Total(known, eligible, es, NeverSucceeded(b))
  {
    assert StreamRungs(known, eligible, es, b, 1) == Total(known, eligible, es, SuccessBucket(b, 1));
    assert StreamRungs(known, eligible, es, b, 3) ==
           StreamRungs(known, eligible, es, b, 2) + Total(known, eligible, es, SuccessBucket(b, 3));
    assert StreamRungs(known, eligible, es, b, 2) ==
           StreamRungs(known, eligible, es, b, 1) + Total(known, eligible, es, SuccessBucket(b, 2));
  }

  /** Storing one block's counters moves only the counters of that block. */
  lemma {:induction false} Stored(blocks: map<int, BlockStats>, waves: map<int, WaveStats>,
                                  tries: map<int, seq<int>>, times: map<int, seq<int>>, b: int, st: BlockStats)
    requires b in blocks
    ensures forall x {:trigger Value(blocks[b := st], waves, tries, times, x)} ::
              Value(blocks[b := st], waves, tries, times, x) ==
              if IsStat(x) && x.block == b then Stat(st, x) else Value(blocks, waves, tries, times, x)
  {
  }

  /** Storing one wave's counters moves only the counters of that wave. */
  lemma {:induction false} WaveStored(blocks: map<int, BlockStats>, waves: map<int, WaveStats>,
                                      tries: map<int, seq<int>>, times: map<int, seq<int>>, w: int, st: WaveStats)
    ensures forall x {:trigger Value(blocks, waves[w := st], tries, times, x)} ::
              Value(blocks, waves[w := st], tries, times, x) ==
              if x == WavePlacements(w) then st.placements else if x == WaveFalls(w) then st.falls
              else Value(blocks, waves, tries, times, x)
  {
  }

  lemma {:induction false} TriesStored(blocks: map<int, BlockStats>, waves: map<int, WaveStats>,
                                       tries: map<int, seq<int>>, times: map<int, seq<int>>, b: int, n: int, x: Counter)
    ensures Value(blocks, waves, tries[b := SamplesOf(tries, b) + [n]], times, x) ==
            Value(blocks, waves, tries, times, x) + Bit(x == TriesRecorded(b) || x == TriesSample(b, n))
  {
  }

  lemma {:induction false} TimeStored(blocks: map<int, BlockStats>, waves: map<int, WaveStats>,
                                      tries: map<int, seq<int>>, times: map<int, seq<int>>, b: int, ms: int, x: Counter)
    ensures Value(blocks, waves, tries, times[b := SamplesOf(times, b) + [ms]], x) ==
            Value(blocks, waves, tries, times, x) + Bit(x == TimeSample(b, ms))
  {
  }

  /** The three disjoint parts of what a placement counts: wave, block and samples. */
  lemma {:induction false} PlacementParts(eligible: bool, s: MetricState, n: int, e: MetricEvent, x: Counter)
    ensures Bit(PlacementBumps(eligible, s, n, e, x)) ==
            Bit(x == WavePlacements(e.wave) || (e.Fell() && x == WaveFalls(e.wave)))
            + Bit(IsStat(x) && PlacementBumps(eligible, s, n, e, x))
            + Bit(IsSample(x) && PlacementBumps(eligible, s, n, e, x))
  {
  }

  /** A placement counts what leaving another chain counts, and what it counts itself. */
  lemma {:induction false} TwoParts(known: set<int>, eligible: bool, s: MetricState, e: MetricEvent, x: Counter)
    requires e.kind == PlacementResolved && e.block in known
    ensures Bit(Bumps(known, eligible, s, e, x)) ==
            Bit(s.activeBlock != NONE && s.activeBlock != e.block && FlushBumps(known, eligible, s, x))
            + Bit(PlacementBumps(eligible, Entering(s, e.block), Entering(s, e.block).tries + 1, e, x))
  {
  }

  // ---------------------------------------------------------------- the pass against the sum

  lemma {:induction false} StateStep(known: set<int>, es: seq<MetricEvent>, e: MetricEvent)
    ensures e.Counts() && e.attempt !in Attempts(es) ==> SoloState(known, Only(es, e.attempt)) == FRESH
    ensures Attempts(es + [e]) == Attempts(es) + (if e.Counts() then {e.attempt} else {})
    ensures forall a :: a in Attempts(es + [e]) ==>
              SoloState(known, Only(es + [e], a)) ==
                (if e.Counts() && a == e.attempt then Next(known, SoloState(known, Only(es, a)), e)
                 else SoloState(known, Only(es, a)))
  {
    assert (es + [e])[..|es|] == es;
    OnlyEmpty(es, e.attempt);
    assert (Only(es, e.attempt) + [e])[..|Only(es, e.attempt)|] == Only(es, e.attempt);
  }

  lemma {:induction false} EntersStep(known: set<int>, es: seq<MetricEvent>, e: MetricEvent, a: Id, w: int)
    ensures Enters(known, Only(es + [e], a), w) <==>
              (Enters(known, Only(es, a), w) ||
               (e.Counts() && a == e.attempt && e.kind == PlacementResolved && e.block in known && e.wave == w))
  {
    assert (es + [e])[..|es|] == es;
    var was, now := Only(es, a), Only(es + [e], a);
    assert forall i :: 0 <= i < |was| ==> now[i] == was[i];
    assert e.Counts() && a == e.attempt ==> now[|was|] == e;
  }

  ghost function Flushes(known: set<int>, eligible: set<Id>, es: seq<MetricEvent>, done: set<Id>, x: Counter): nat {
    SumOver(done, a => Bit(FlushBumps(known, a in eligible, SoloState(known, Only(es, a)), x)))
  }

  lemma {:induction false} FlushesStep(known: set<int>, eligible: set<Id>, es: seq<MetricEvent>, done: set<Id>, a: Id, x: Counter)
    requires a !in done
    ensures Flushes(known, eligible, es, done + {a}, x) == Flushes(known, eligible, es, done, x)
              + Bit(FlushBumps(known, a in eligible, SoloState(known, Only(es, a)), x))
  {
    SumSplit(done + {a}, c => Bit(FlushBumps(known, c in eligible, SoloState(known, Only(es, c)), x)), a);
    assert done + {a} - {a} == done;
  }

  lemma {:induction false} TotalSplits(known: set<int>, eligible: set<Id>, es: seq<MetricEvent>, x: Counter)
    ensures Total(known, eligible, es, x) ==
            Passed(known, eligible, es, x) + Flushes(known, eligible, es, Attempts(es), x)
  {
    SumPlus(Attempts(es), a => SoloCount(known, a in eligible, Only(es, a), x),
            a => Bit(FlushBumps(known, a in eligible, SoloState(known, Only(es, a)), x)),
            a => SoloTotal(known, a in eligible, Only(es, a), x));
  }
}
