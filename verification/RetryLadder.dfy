/** The retry-ladder engine of internal/analytics/puzzle_insights.go: one pass over the interleaved
    gameplay events of many attempts. Every counter is specified by when one event of one attempt
    bumps it; the engine is then proved to add up separate runs over each attempt's own events. */
module RetryLadder {
  import opened Basics
  import opened Sums

  /** "No block": the initial and reset value of ActiveBlock and LastFailedBlock. */
  const NONE := -1

  datatype Kind = DetailTaken | PlacementResolved | HintUsed | InteractionAbandoned

  /** The outcomes the engine tells apart; OtherFall is any other "fell_" string, OtherOutcome the rest. */
  datatype Outcome = Placed | FellNoSnapTarget | FellMissingSupport | OtherFall | OtherOutcome

  datatype MetricEvent = MetricEvent(
    decoded: bool, kind: Kind, attempt: Id, block: int, wave: int, outcome: Outcome, elapsed: int)
  {
    /** Events without a readable payload or attempt id are skipped before any state is made. */
    predicate Counts() { decoded && attempt != NO_ID }

    predicate Fell() { outcome in {FellNoSnapTarget, FellMissingSupport, OtherFall} }
  }

  datatype MetricState = MetricState(
    tries: nat, takenAt: int, unresolved: bool, activeBlock: int, lastFailed: int)

  const FRESH := MetricState(0, -1, false, NONE, NONE)

  datatype BlockStats = BlockStats(
    firstTryAttempts: nat, firstTryFailures: nat, noSnap: nat, missingSupport: nat,
    hintPressure: nat, successfulPlacements: nat,
    success1: nat, success2: nat, success3: nat, success4Plus: nat, neverSucceeded: nat,
    incomplete: nat)

  const UNPLAYED := BlockStats(0, 0, 0, 0, 0, 0, 0, 0, 0, 0, 0, 0)

  datatype WaveStats = WaveStats(placements: nat, falls: nat)

  /** Every quantity the pass accumulates. A sample is counted by its value. */
  datatype Counter =
    | FirstTryAttempts(block: int)
    | FirstTryFailures(block: int)
    | NoSnap(block: int)
    | MissingSupport(block: int)
    | HintPressure(block: int)
    | SuccessfulPlacements(block: int)
    | SuccessBucket(block: int, rung: int)
    | NeverSucceeded(block: int)
    | Incomplete(block: int)
    | TriesRecorded(block: int)
    | TriesSample(block: int, tries: int)
    | TimeSample(block: int, ms: int)
    | WavePlacements(wave: int)
    | WaveFalls(wave: int)

  // ---------------------------------------------------------------- one event of one attempt

  function BucketOf(tries: int): int {
    if 1 <= tries <= 3 then tries else 4
  }

  /** Closing the open chain; an attempt with no active block keeps its state. */
  function Flushed(s: MetricState): MetricState {
    if s.activeBlock == NONE then s else FRESH
  }

  /** The state in which a placement of block b is judged, before its own try is counted. */
  function Entering(s: MetricState, b: int): MetricState {
    if s.activeBlock == b then s
    else Flushed(s).(tries := 0, takenAt := -1, unresolved := false, activeBlock := b)
  }

  function Next(known: set<int>, s: MetricState, e: MetricEvent): MetricState {
    match e.kind
    case HintUsed => s.(lastFailed := NONE)
    case InteractionAbandoned =>
      if s.activeBlock != NONE && s.unresolved
      then s.(unresolved := false, takenAt := -1, tries := s.tries + 1) else s
    case DetailTaken =>
      if e.block !in known then s else
      var s1 := if s.activeBlock != NONE && s.activeBlock != e.block then FRESH
                else if s.activeBlock == e.block && s.unresolved then s.(tries := s.tries + 1)
                else s;
      s1.(activeBlock := e.block, takenAt := e.elapsed, unresolved := true)
    case PlacementResolved =>
      if e.block !in known then s
      else if e.outcome == Placed then FRESH else
      var s1 := Entering(s, e.block);
      s1.(tries := s1.tries + 1, unresolved := false,
          lastFailed := if e.Fell() then e.block else s1.lastFailed)
  }

  ghost predicate FlushBumps(known: set<int>, eligible: bool, s: MetricState, x: Counter) {
    && s.activeBlock != NONE && s.activeBlock in known && eligible
    && ((x == NeverSucceeded(s.activeBlock) && (s.tries > 0 || s.unresolved))
        || (x == Incomplete(s.activeBlock) && s.unresolved))
  }

  /** What a placement itself counts, judged in state s on its try number n. */
  ghost predicate PlacementBumps(eligible: bool, s: MetricState, n: int, e: MetricEvent, x: Counter) {
    match x
    case FirstTryAttempts(b) => b == e.block && n == 1
    case FirstTryFailures(b) => b == e.block && n == 1 && e.outcome != Placed
    case NoSnap(b) => b == e.block && e.outcome == FellNoSnapTarget
    case MissingSupport(b) => b == e.block && e.outcome == FellMissingSupport
    case SuccessfulPlacements(b) => b == e.block && e.outcome == Placed
    case SuccessBucket(b, k) => b == e.block && e.outcome == Placed && eligible && k == BucketOf(n)
    case TriesRecorded(b) => b == e.block && e.outcome == Placed && eligible
    case TriesSample(b, t) => b == e.block && e.outcome == Placed && eligible && t == n
    case TimeSample(b, ms) => b == e.block && e.outcome == Placed && eligible
                              && 0 <= s.takenAt <= e.elapsed && ms == e.elapsed - s.takenAt
    case WavePlacements(w) => w == e.wave
    case WaveFalls(w) => w == e.wave && e.Fell()
    case HintPressure(_) => false
    case NeverSucceeded(_) => false
    case Incomplete(_) => false
  }

  /** Whether event e, met in state s, adds one to counter x. */
  ghost predicate Bumps(known: set<int>, eligible: bool, s: MetricState, e: MetricEvent, x: Counter) {
    match e.kind
    case HintUsed => s.lastFailed in known && x == HintPressure(s.lastFailed)
    case InteractionAbandoned =>
      s.activeBlock != NONE && s.unresolved && eligible && s.activeBlock in known && x == Incomplete(s.activeBlock)
    case DetailTaken =>
      && e.block in known
      && if s.activeBlock != NONE && s.activeBlock != e.block then FlushBumps(known, eligible, s, x)
         else s.activeBlock == e.block && s.unresolved && eligible && x == Incomplete(e.block)
    case PlacementResolved =>
      && e.block in known
      && ((s.activeBlock != NONE && s.activeBlock != e.block && FlushBumps(known, eligible, s, x))
          || PlacementBumps(eligible, Entering(s, e.block), Entering(s, e.block).tries + 1, e, x))
  }

  // ---------------------------------------------------------------- one attempt on its own

  function SoloState(known: set<int>, es: seq<MetricEvent>): MetricState {
    if es == [] then FRESH else Next(known, SoloState(known, es[..|es| - 1]), es[|es| - 1])
  }

  ghost function SoloCount(known: set<int>, eligible: bool, es: seq<MetricEvent>, x: Counter): nat {
    if es == [] then 0 else
    var init := es[..|es| - 1];
    SoloCount(known, eligible, init, x) + Bit(Bumps(known, eligible, SoloState(known, init), es[|es| - 1], x))
  }

  /** The attempt's contribution to x: its events, then the flush of the chain left open. */
  ghost function SoloTotal(known: set<int>, eligible: bool, es: seq<MetricEvent>, x: Counter): nat {
    SoloCount(known, eligible, es, x) + Bit(FlushBumps(known, eligible, SoloState(known, es), x))
  }

  /** A placement on a known block in wave w enters the attempt into that wave. */
  ghost predicate Enters(known: set<int>, es: seq<MetricEvent>, w: int) {
    exists i :: 0 <= i < |es| && es[i].kind == PlacementResolved && es[i].block in known && es[i].wave == w
  }

  // ---------------------------------------------------------------- many attempts, interleaved

  /** The events of attempt a, in their order in the mixed stream. */
  function Only(es: seq<MetricEvent>, a: Id): seq<MetricEvent> {
    if es == [] then [] else
    var init, last := Only(es[..|es| - 1], a), es[|es| - 1];
    if last.Counts() && last.attempt == a then init + [last] else init
  }

  function Attempts(es: seq<MetricEvent>): set<Id> {
    set e | e in es && e.Counts() :: e.attempt
  }

  /** The reference result: separate runs over each attempt's own events, added up. */
  ghost function Total(known: set<int>, eligible: set<Id>, es: seq<MetricEvent>, x: Counter): nat {
    SumOver(Attempts(es), a => SoloTotal(known, a in eligible, Only(es, a), x))
  }

  /** What the mixed pass has counted before the final flush. */
  ghost function Passed(known: set<int>, eligible: set<Id>, es: seq<MetricEvent>, x: Counter): nat {
    SumOver(Attempts(es), a => SoloCount(known, a in eligible, Only(es, a), x))
  }

  lemma {:induction false} OnlyEmpty(es: seq<MetricEvent>, a: Id)
    ensures Only(es, a) == [] <==> a !in Attempts(es)
  {
    if es != [] {
      var init, last := es[..|es| - 1], es[|es| - 1];
      OnlyEmpty(init, a);
      assert es == init + [last];
      assert Attempts(es) == Attempts(init) + Attempts([last]);
    }
  }

  /** One more event changes the pass by exactly what that event bumps in its own attempt. */
  lemma {:induction false} PassedStep(known: set<int>, eligible: set<Id>, es: seq<MetricEvent>, e: MetricEvent, x: Counter)
    ensures Passed(known, eligible, es + [e], x) == Passed(known, eligible, es, x) +
            Bit(e.Counts() && Bumps(known, e.attempt in eligible, SoloState(known, Only(es, e.attempt)), e, x))
  {
    var es', a := es + [e], e.attempt;
    assert es'[..|es|] == es;
    var f := (c: Id) => SoloCount(known, c in eligible, Only(es, c), x);
    var g := (c: Id) => SoloCount(known, c in eligible, Only(es', c), x);
    if e.Counts() {
      assert Attempts(es') == Attempts(es) + {a};
      OnlyEmpty(es, a);
      assert Only(es', a)[..|Only(es, a)|] == Only(es, a);
      assert g(a) == f(a) + Bit(Bumps(known, a in eligible, SoloState(known, Only(es, a)), e, x));
      SumUpdate(Attempts(es), Attempts(es'), f, g, a,
                Bit(Bumps(known, a in eligible, SoloState(known, Only(es, a)), e, x)));
    } else {
      assert Attempts(es') == Attempts(es);
      SumCongruence(Attempts(es), f, g);
    }
  }

  /** Interleaving independence: two streams that give every attempt the same events in the same
      order give every counter the same value, however the attempts are mixed. */
  lemma {:induction false} InterleavingIndependence(known: set<int>, eligible: set<Id>, es: seq<MetricEvent>, fs: seq<MetricEvent>, x: Counter)
    requires forall a :: Only(es, a) == Only(fs, a)
    ensures Total(known, eligible, es, x) == Total(known, eligible, fs, x)
  {
    forall a ensures a in Attempts(es) <==> a in Attempts(fs) {
      OnlyEmpty(es, a);
      OnlyEmpty(fs, a);
    }
    assert Attempts(es) == Attempts(fs);
    SumCongruence(Attempts(es), a => SoloTotal(known, a in eligible, Only(es, a), x),
                  a => SoloTotal(known, a in eligible, Only(fs, a), x));
  }
}
