/** The example attempts listed for each block: what the pass notes, and which attempts that makes. */
module InsightExamples {
  import opened Basics
  import opened Sums
  import opened RetryLadder

  const MAX_EXAMPLES := 5

  function SamplesOf<T>(samples: map<int, seq<T>>, b: int): seq<T> {
    if b in samples then samples[b] else []
  }

  /** Attempt a noted as an example of block b, unless it is listed already or five others are. */
  function Noted(m: map<int, seq<Id>>, b: int, a: Id): map<int, seq<Id>> {
    var list := SamplesOf(m, b);
    if a == NO_ID || a in list || |list| >= MAX_EXAMPLES then m else m[b := list + [a]]
  }

  /** Flushing a chain notes its attempt for the block it gives up, and for a take it drops. */
  function FlushNoted(m: map<int, seq<Id>>, known: set<int>, eligible: bool, s: MetricState, a: Id): map<int, seq<Id>> {
    var b := s.activeBlock;
    if b == NONE || b !in known || !eligible then m else
    var m' := if s.tries > 0 || s.unresolved then Noted(m, b, a) else m;
    if s.unresolved then Noted(m', b, a) else m'
  }

  function SwitchNoted(m: map<int, seq<Id>>, known: set<int>, eligible: bool, s: MetricState, b: int, a: Id): map<int, seq<Id>> {
    if s.activeBlock != NONE && s.activeBlock != b then FlushNoted(m, known, eligible, s, a) else m
  }

  /** What event e, met in state s, notes. */
  function EventNoted(m: map<int, seq<Id>>, known: set<int>, eligible: bool, s: MetricState, e: MetricEvent): map<int, seq<Id>> {
    match e.kind
    case HintUsed => m
    case InteractionAbandoned =>
      if s.activeBlock != NONE && s.unresolved && eligible && s.activeBlock in known then Noted(m, s.activeBlock, e.attempt) else m
    case DetailTaken =>
      if e.block !in known then m
      else if s.activeBlock != NONE && s.activeBlock != e.block then FlushNoted(m, known, eligible, s, e.attempt)
      else if s.activeBlock == e.block && s.unresolved && eligible then Noted(m, e.block, e.attempt)
      else m
    case PlacementResolved =>
      if e.block !in known then m else
      var m' := SwitchNoted(m, known, eligible, s, e.block, e.attempt);
      if eligible then Noted(m', e.block, e.attempt) else m'
  }

  function StreamNoted(known: set<int>, eligible: set<Id>, es: seq<MetricEvent>): map<int, seq<Id>> {
    if es == [] then map[] else
    var init, e := es[..|es| - 1], es[|es| - 1];
    var m := StreamNoted(known, eligible, init);
    if e.Counts() then EventNoted(m, known, e.attempt in eligible, SoloState(known, Only(init, e.attempt)), e) else m
  }

  lemma {:induction false} StreamNotedStep(known: set<int>, eligible: set<Id>, es: seq<MetricEvent>, e: MetricEvent)
    ensures var m := StreamNoted(known, eligible, es);
            StreamNoted(known, eligible, es + [e]) ==
            if e.Counts() then EventNoted(m, known, e.attempt in eligible, SoloState(known, Only(es, e.attempt)), e) else m
  {
    assert (es + [e])[..|es|] == es;
  }

  /** After the attempts in this order have been flushed. */
  function EndNoted(known: set<int>, eligible: set<Id>, es: seq<MetricEvent>, order: seq<Id>): map<int, seq<Id>> {
    if order == [] then StreamNoted(known, eligible, es) else
    var a := order[|order| - 1];
    FlushNoted(EndNoted(known, eligible, es, order[..|order| - 1]), known, a in eligible, SoloState(known, Only(es, a)), a)
  }

  /** The search of an example list for one attempt. */
  method Lists(list: seq<Id>, attempt: Id) returns (found: bool)
    ensures found <==> attempt in list
  {
    for i := 0 to |list|
      invariant attempt !in list[..i]
    {
      if list[i] == attempt { return true; }
    }
    return false;
  }

  // ---------------------------------------------------------------- which attempts these are

  /** Five different ones of these attempts, or all of them when they are fewer. */
  ghost predicate Samples(list: seq<Id>, attempts: set<Id>) {
    && Distinct(list) && (forall a :: a in list ==> a in attempts)
    && |list| == Min(|attempts|, MAX_EXAMPLES)
  }

  lemma {:induction false} SamplesAll(list: seq<Id>, attempts: set<Id>)
    requires Samples(list, attempts) && |list| < MAX_EXAMPLES
    ensures forall a :: a in attempts ==> a in list
  {
    DistinctMembers(list);
    var members := set a | a in list;
    assert members + (attempts - members) == attempts;
    assert |attempts| == |members| + |attempts - members|;
    assert |attempts - members| == 0;
    forall a | a in attempts ensures a in list {
      assert a !in attempts - members;
    }
  }

  lemma {:induction false} DistinctMembers(list: seq<Id>)
    requires Distinct(list)
    ensures |set a | a in list| == |list|
  {
    if list != [] {
      var init, last := list[..|list| - 1], list[|list| - 1];
      DistinctMembers(init);
      assert (set a | a in list) == (set a | a in init) + {last};
    }
  }

  lemma {:induction false} NotedSamples(m: map<int, seq<Id>>, b: int, a: Id, c: int, attempts: set<Id>)
    requires Samples(SamplesOf(m, c), attempts) && a != NO_ID
    ensures Samples(SamplesOf(Noted(m, b, a), c), attempts + (if b == c then {a} else {}))
  {
    if b == c {
      OneMoreSample(SamplesOf(m, c), attempts, a);
    } else {
      assert attempts + {} == attempts;
    }
  }

  lemma {:induction false} OneMoreSample(list: seq<Id>, attempts: set<Id>, a: Id)
    requires Samples(list, attempts)
    ensures Samples(if a in list || |list| >= MAX_EXAMPLES then list else list + [a], attempts + {a})
  {
    if |list| < MAX_EXAMPLES {
      SamplesAll(list, attempts);
      if a in list {
        assert attempts + {a} == attempts;
      } else {
        assert |attempts + {a}| == |attempts| + 1;
      }
    } else if a in attempts {
      assert attempts + {a} == attempts;
    } else {
      assert |attempts + {a}| == |attempts| + 1;
    }
  }

  /** Flushing gives up a chain on b. */
  ghost predicate GivesUp(known: set<int>, eligible: bool, s: MetricState, b: int) {
    FlushBumps(known, eligible, s, NeverSucceeded(b)) || FlushBumps(known, eligible, s, Incomplete(b))
  }

  /** Event e, met in state s, makes its attempt an example of b: it places b, gives it up or writes a take of it off. */
  ghost predicate Exemplifies(known: set<int>, eligible: bool, s: MetricState, e: MetricEvent, b: int) {
    || (eligible && e.kind == PlacementResolved && e.block in known && e.block == b)
    || Bumps(known, eligible, s, e, NeverSucceeded(b)) || Bumps(known, eligible, s, e, Incomplete(b))
  }

  lemma {:induction false} GivesUpIff(known: set<int>, eligible: bool, s: MetricState, b: int)
    ensures GivesUp(known, eligible, s, b) <==>
            s.activeBlock != NONE && b == s.activeBlock && b in known && eligible && (s.tries > 0 || s.unresolved)
  {
  }

  lemma {:induction false} FlushSamples(m: map<int, seq<Id>>, known: set<int>, eligible: bool, s: MetricState, a: Id, c: int, attempts: set<Id>)
    requires Samples(SamplesOf(m, c), attempts) && a != NO_ID
    ensures Samples(SamplesOf(FlushNoted(m, known, eligible, s, a), c),
                    attempts + (if GivesUp(known, eligible, s, c) then {a} else {}))
  {
    var b := s.activeBlock;
    GivesUpIff(known, eligible, s, c);
    assert attempts + {} == attempts;
    if b != NONE && b in known && eligible && (s.tries > 0 || s.unresolved) {
      NotedSamples(m, b, a, c, attempts);
      NotedTwice(m, b, a);
    }
  }

  lemma {:induction false} NotedTwice(m: map<int, seq<Id>>, b: int, a: Id)
    ensures Noted(Noted(m, b, a), b, a) == Noted(m, b, a)
  {
  }

  lemma {:induction false} EventSamples(m: map<int, seq<Id>>, known: set<int>, eligible: bool, s: MetricState, e: MetricEvent, c: int, attempts: set<Id>)
    requires Samples(SamplesOf(m, c), attempts) && e.attempt != NO_ID
    ensures Samples(SamplesOf(EventNoted(m, known, eligible, s, e), c),
                    attempts + (if Exemplifies(known, eligible, s, e, c) then {e.attempt} else {}))
  {
    match e.kind {
      case HintUsed => assert attempts + {} == attempts;
      case InteractionAbandoned => HandlingSamples(m, known, eligible, s, e, c, attempts);
      case DetailTaken => HandlingSamples(m, known, eligible, s, e, c, attempts);
      case PlacementResolved => PlacementSamples(m, known, eligible, s, e, c, attempts);
    }
  }

  lemma {:induction false} HandlingSamples(m: map<int, seq<Id>>, known: set<int>, eligible: bool, s: MetricState, e: MetricEvent, c: int, attempts: set<Id>)
    requires Samples(SamplesOf(m, c), attempts) && e.attempt != NO_ID
    requires e.kind == InteractionAbandoned || e.kind == DetailTaken
    ensures Samples(SamplesOf(EventNoted(m, known, eligible, s, e), c),
                    attempts + (if Exemplifies(known, eligible, s, e, c) then {e.attempt} else {}))
  {
    assert attempts + {} == attempts;
    NotedSamples(m, s.activeBlock, e.attempt, c, attempts);
    if e.kind == DetailTaken && e.block in known {
      if s.activeBlock != NONE && s.activeBlock != e.block {
        FlushSamples(m, known, eligible, s, e.attempt, c, attempts);
        assert Exemplifies(known, eligible, s, e, c) <==> GivesUp(known, eligible, s, c);
      } else {
        assert Exemplifies(known, eligible, s, e, c) <==> s.activeBlock == e.block && s.unresolved && eligible && c == e.block;
      }
    }
  }

  lemma {:induction false} PlacementSamples(m: map<int, seq<Id>>, known: set<int>, eligible: bool, s: MetricState, e: MetricEvent, c: int, attempts: set<Id>)
    requires Samples(SamplesOf(m, c), attempts) && e.attempt != NO_ID && e.kind == PlacementResolved
    ensures Samples(SamplesOf(EventNoted(m, known, eligible, s, e), c),
                    attempts + (if Exemplifies(known, eligible, s, e, c) then {e.attempt} else {}))
  {
    assert attempts + {} == attempts;
    if e.block in known {
      var gone := s.activeBlock != NONE && s.activeBlock != e.block && GivesUp(known, eligible, s, c);
      assert Exemplifies(known, eligible, s, e, c) <==> gone || (eligible && c == e.block);
      FlushSamples(m, known, eligible, s, e.attempt, c, attempts);
      var more := attempts + (if gone then {e.attempt} else {});
      assert Samples(SamplesOf(SwitchNoted(m, known, eligible, s, e.block, e.attempt), c), more);
      NotedSamples(SwitchNoted(m, known, eligible, s, e.block, e.attempt), e.block, e.attempt, c, more);
      assert more + {} == more && more + {e.attempt} == attempts + {e.attempt};
    }
  }

  /** Some event of the attempt makes it an example of b. */
  ghost predicate ExemplifiedBy(known: set<int>, eligible: bool, es: seq<MetricEvent>, b: int) {
    es != [] &&
    var init, e := es[..|es| - 1], es[|es| - 1];
    ExemplifiedBy(known, eligible, init, b) || Exemplifies(known, eligible, SoloState(known, init), e, b)
  }

  ghost function SoFar(known: set<int>, eligible: set<Id>, es: seq<MetricEvent>, b: int): set<Id> {
    set a | a in Attempts(es) && ExemplifiedBy(known, a in eligible, Only(es, a), b)
  }

  lemma {:induction false} ExemplifiedStep(known: set<int>, eligible: bool, es: seq<MetricEvent>, e: MetricEvent, a: Id, b: int)
    ensures ExemplifiedBy(known, eligible, Only(es + [e], a), b) <==>
            ExemplifiedBy(known, eligible, Only(es, a), b)
            || (e.Counts() && a == e.attempt && Exemplifies(known, eligible, SoloState(known, Only(es, a)), e, b))
  {
    assert (es + [e])[..|es|] == es;
    assert (Only(es, a) + [e])[..|Only(es, a)|] == Only(es, a);
  }

  lemma {:induction false} SoFarStep(known: set<int>, eligible: set<Id>, es: seq<MetricEvent>, e: MetricEvent, b: int)
    ensures SoFar(known, eligible, es + [e], b) == SoFar(known, eligible, es, b) +
              (if e.Counts() && Exemplifies(known, e.attempt in eligible, SoloState(known, Only(es, e.attempt)), e, b)
               then {e.attempt} else {})
  {
    forall a ensures a in SoFar(known, eligible, es + [e], b) <==>
                     (a in SoFar(known, eligible, es, b)
                      || (e.Counts() && a == e.attempt
                          && Exemplifies(known, a in eligible, SoloState(known, Only(es, a)), e, b))) {
      ExemplifiedStep(known, a in eligible, es, e, a, b);
      OnlyEmpty(es, a);
      OnlyEmpty(es + [e], a);
    }
  }

  lemma {:induction false} StreamSamples(known: set<int>, eligible: set<Id>, es: seq<MetricEvent>, b: int)
    ensures Samples(SamplesOf(StreamNoted(known, eligible, es), b), SoFar(known, eligible, es, b))
  {
    if es == [] {
      assert SoFar(known, eligible, es, b) == {};
    } else {
      var init, e := es[..|es| - 1], es[|es| - 1];
      StreamSamples(known, eligible, init, b);
      SoFarStep(known, eligible, init, e, b);
      assert es == init + [e];
      if e.Counts() {
        EventSamples(StreamNoted(known, eligible, init), known, e.attempt in eligible, SoloState(known, Only(init, e.attempt)),
                     e, b, SoFar(known, eligible, init, b));
      }
    }
  }

  /** The attempts that give b up when they are flushed in this order. */
  ghost function AtEnd(known: set<int>, eligible: set<Id>, es: seq<MetricEvent>, order: seq<Id>, b: int): set<Id> {
    set a | a in order && GivesUp(known, a in eligible, SoloState(known, Only(es, a)), b)
  }

  lemma {:induction false} AtEndStep(known: set<int>, eligible: set<Id>, es: seq<MetricEvent>, order: seq<Id>, a: Id, b: int)
    ensures AtEnd(known, eligible, es, order + [a], b) == AtEnd(known, eligible, es, order, b)
            + (if GivesUp(known, a in eligible, SoloState(known, Only(es, a)), b) then {a} else {})
  {
  }

  lemma {:induction false} EndSamples(known: set<int>, eligible: set<Id>, es: seq<MetricEvent>, order: seq<Id>, b: int)
    requires NO_ID !in order
    ensures Samples(SamplesOf(EndNoted(known, eligible, es, order), b), SoFar(known, eligible, es, b) + AtEnd(known, eligible, es, order, b))
  {
    var start := SoFar(known, eligible, es, b);
    if order == [] {
      StreamSamples(known, eligible, es, b);
      assert start + AtEnd(known, eligible, es, order, b) == start;
    } else {
      var init, a := order[..|order| - 1], order[|order| - 1];
      assert order == init + [a];
      EndSamples(known, eligible, es, init, b);
      FlushSamples(EndNoted(known, eligible, es, init), known, a in eligible, SoloState(known, Only(es, a)), a, b,
                   start + AtEnd(known, eligible, es, init, b));
      EndUnion(known, eligible, es, init, a, b, start);
    }
  }

  lemma {:induction false} EndUnion(known: set<int>, eligible: set<Id>, es: seq<MetricEvent>, order: seq<Id>, a: Id, b: int, start: set<Id>)
    ensures start + AtEnd(known, eligible, es, order + [a], b) ==
            start + AtEnd(known, eligible, es, order, b)
            + (if GivesUp(known, a in eligible, SoloState(known, Only(es, a)), b) then {a} else {})
  {
    AtEndStep(known, eligible, es, order, a, b);
    UnionMoves(start, AtEnd(known, eligible, es, order, b), if GivesUp(known, a in eligible, SoloState(known, Only(es, a)), b) then {a} else {});
  }

  lemma {:induction false} UnionMoves(x: set<Id>, y: set<Id>, z: set<Id>)
    ensures x + (y + z) == x + y + z
  {
  }

  /** The eligible attempts that placed b, gave it up or left a take of it unresolved. */
  ghost predicate Exemplary(known: set<int>, es: seq<MetricEvent>, b: int) {
    || (exists i :: 0 <= i < |es| && es[i].kind == PlacementResolved && es[i].block in known && es[i].block == b)
    || SoloTotal(known, true, es, NeverSucceeded(b)) > 0 || SoloTotal(known, true, es, Incomplete(b)) > 0
  }

  ghost function Exemplars(known: set<int>, eligible: set<Id>, es: seq<MetricEvent>, b: int): set<Id> {
    set a | a in eligible && Exemplary(known, Only(es, a), b)
  }

  lemma {:induction false} ExemplifiedIff(known: set<int>, es: seq<MetricEvent>, b: int)
    ensures ExemplifiedBy(known, true, es, b) <==>
            || (exists i :: 0 <= i < |es| && es[i].kind == PlacementResolved && es[i].block in known && es[i].block == b)
            || SoloCount(known, true, es, NeverSucceeded(b)) > 0 || SoloCount(known, true, es, Incomplete(b)) > 0
  {
    if es != [] {
      var init, e := es[..|es| - 1], es[|es| - 1];
      ExemplifiedIff(known, init, b);
      assert forall i :: 0 <= i < |init| ==> init[i] == es[i];
    }
  }

  lemma {:induction false} IneligibleIsNoExample(known: set<int>, es: seq<MetricEvent>, b: int)
    ensures !ExemplifiedBy(known, false, es, b)
  {
    if es != [] { IneligibleIsNoExample(known, es[..|es| - 1], b); }
  }

  lemma {:induction false} NoEventsNoExample(known: set<int>, eligible: bool, b: int)
    ensures !ExemplifiedBy(known, eligible, [], b) && !Exemplary(known, [], b)
    ensures !GivesUp(known, eligible, SoloState(known, []), b)
  {
  }

  lemma {:induction false} ExemplaryIff(known: set<int>, eligible: bool, es: seq<MetricEvent>, b: int)
    ensures (eligible && Exemplary(known, es, b)) <==>
            ExemplifiedBy(known, eligible, es, b) || GivesUp(known, eligible, SoloState(known, es), b)
  {
    if eligible {
      ExemplifiedIff(known, es, b);
    } else {
      IneligibleIsNoExample(known, es, b);
      GivesUpIff(known, eligible, SoloState(known, es), b);
    }
  }

  lemma {:induction false} ExemplarIff(known: set<int>, eligible: set<Id>, es: seq<MetricEvent>, b: int, a: Id)
    ensures a in Exemplars(known, eligible, es, b) <==>
            a in Attempts(es) && (ExemplifiedBy(known, a in eligible, Only(es, a), b)
                                  || GivesUp(known, a in eligible, SoloState(known, Only(es, a)), b))
  {
    OnlyEmpty(es, a);
    if a in Attempts(es) {
      ExemplaryIff(known, a in eligible, Only(es, a), b);
    } else {
      NoEventsNoExample(known, a in eligible, b);
    }
  }

  /** In whatever order the attempts are flushed, the examples of a block are five different ones of the
      eligible attempts that placed it, gave it up or left a take of it unresolved, or all of these. */
  lemma {:induction false} ExamplesAreExemplars(known: set<int>, eligible: set<Id>, es: seq<MetricEvent>, order: seq<Id>, b: int)
    requires (set a | a in order) == Attempts(es)
    ensures Samples(SamplesOf(EndNoted(known, eligible, es, order), b), Exemplars(known, eligible, es, b))
  {
    assert NO_ID !in Attempts(es);
    EndSamples(known, eligible, es, order, b);
    forall a ensures a in SoFar(known, eligible, es, b) + AtEnd(known, eligible, es, order, b) <==> a in Exemplars(known, eligible, es, b) {
      ExemplarIff(known, eligible, es, b, a);
    }
    assert SoFar(known, eligible, es, b) + AtEnd(known, eligible, es, order, b) == Exemplars(known, eligible, es, b);
  }
}
