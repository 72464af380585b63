/** The replay pacing timeline of dashboard/src/components/pacingMath.ts: step times, the spans that
    tile them, and marker positions. */
module Pacing {
  import opened Basics

  /** at is the parsed wall clock; active the client's active milliseconds when it sent a finite number. */
  datatype Step = Step(backgrounds: bool, at: Option<int>, active: Option<int>)

  const PAUSE_GAP_CAP_MS := 30 * 60 * 1000

  // ---------------------------------------------------------------- step times

  /** The first readable clock, starting with step i. */
  function FirstTime(steps: seq<Step>, i: nat): int
    decreases |steps| - i
  {
    if i >= |steps| then 0 else if steps[i].at.Some? then steps[i].at.value else FirstTime(steps, i + 1)
  }

  /** The greatest active reading up to step i; a missing or negative one repeats what came before. */
  function Observed(steps: seq<Step>, i: nat): nat
    requires i < |steps|
  {
    var before := if i == 0 then 0 else Observed(steps, i - 1);
    if steps[i].active.Some? && steps[i].active.value >= 0 then Max(before, steps[i].active.value) else before
  }

  /** Active time at step i, counted from the first step. */
  function Active(steps: seq<Step>, i: nat): int
    requires i < |steps|
  {
    Max(0, Observed(steps, i) - Observed(steps, 0))
  }

  /** Wall time at step i: the greatest offset from the first clock up to there. */
  function Wall(steps: seq<Step>, i: nat): nat
    requires i < |steps|
  {
    var before := if i == 0 then 0 else Wall(steps, i - 1);
    if steps[i].at.Some? then Max(before, Max(0, steps[i].at.value - FirstTime(steps, 0))) else before
  }

  /** The gap that ends at step g is a pause when the app was backgrounded or the clock ran on for more
      than two seconds without any active time. */
  predicate Paused(steps: seq<Step>, g: nat)
    requires 0 < g < |steps|
  {
    steps[g - 1].backgrounds ||
    (Wall(steps, g) - Wall(steps, g - 1) > 2000 && Active(steps, g) - Active(steps, g - 1) == 0)
  }

  /** What a gap takes up on the timeline: a pause at most 15 s beyond its active time, a gap with
      active time exactly that, and any other at most 1 s. */
  function Rendered(paused: bool, wall: int, active: int): int {
    if paused then active + Min(Max(0, wall - active), 15000)
    else if active > 0 then active
    else Min(wall, 1000)
  }

  function Virtual(steps: seq<Step>, i: nat): int
    requires i < |steps|
  {
    if i == 0 then 0 else
    Virtual(steps, i - 1) +
    Rendered(Paused(steps, i), Wall(steps, i) - Wall(steps, i - 1), Active(steps, i) - Active(steps, i - 1))
  }

  lemma {:induction false} OneGap(steps: seq<Step>, i: nat)
    requires 0 < i < |steps|
    ensures Observed(steps, i - 1) <= Observed(steps, i) && Wall(steps, i - 1) <= Wall(steps, i)
    ensures Active(steps, i - 1) <= Active(steps, i)
  {
  }

  lemma {:induction false} RenderedGap(paused: bool, wall: int, active: int)
    requires wall >= 0 && active >= 0
    ensures active <= Rendered(paused, wall, active) <= active + wall
  {
  }

  /** All three clocks start at zero and never run backwards, whatever the readings; and at every step
      the rendered time lies between the active time and active plus wall time. */
  lemma {:induction false} ClocksAgree(steps: seq<Step>, i: nat)
    requires i < |steps|
    ensures Active(steps, 0) == Wall(steps, 0) == Virtual(steps, 0) == 0
    ensures 0 <= Active(steps, i) <= Virtual(steps, i) <= Active(steps, i) + Wall(steps, i)
    ensures i > 0 ==> Virtual(steps, i - 1) <= Virtual(steps, i)
  {
    if i == 0 {
      assert steps[0].at.Some? ==> FirstTime(steps, 0) == steps[0].at.value;
    } else {
      ClocksAgree(steps, i - 1);
      OneGap(steps, i);
      RenderedGap(Paused(steps, i), Wall(steps, i) - Wall(steps, i - 1), Active(steps, i) - Active(steps, i - 1));
    }
  }

  lemma {:induction false} ClocksRise(steps: seq<Step>, i: nat, j: nat)
    requires i <= j < |steps|
    ensures Active(steps, i) <= Active(steps, j) && Wall(steps, i) <= Wall(steps, j) && Virtual(steps, i) <= Virtual(steps, j)
    decreases j - i
  {
    if i < j {
      ClocksRise(steps, i, j - 1);
      ClocksAgree(steps, j);
      OneGap(steps, j);
    }
  }

  /** The wall offset is the latest clock seen, measured from the first: no earlier reading exceeds it
      and, unless it is zero, some reading attains it. */
  lemma {:induction false} WallIsLatest(steps: seq<Step>, i: nat)
    requires i < |steps|
    ensures forall j :: 0 <= j <= i && steps[j].at.Some? ==> steps[j].at.value - FirstTime(steps, 0) <= Wall(steps, i)
    ensures Wall(steps, i) == 0 ||
            exists j :: 0 <= j <= i && steps[j].at.Some? && steps[j].at.value - FirstTime(steps, 0) == Wall(steps, i)
  {
    if i > 0 { WallIsLatest(steps, i - 1); }
  }

  /** The first clock is that of the first step with a readable one, or zero without any. */
  lemma {:induction false} FirstTimeIs(steps: seq<Step>, i: nat, j: nat)
    requires i <= j <= |steps| && forall k :: i <= k < j ==> steps[k].at.None?
    ensures FirstTime(steps, i) == if j == |steps| then 0 else if steps[j].at.Some? then steps[j].at.value else FirstTime(steps, j)
    decreases j - i
  {
    if i < j { FirstTimeIs(steps, i + 1, j); }
  }

  /** Active time is the greatest usable reading so far less that of the first step: no earlier one exceeds
      it and, unless it is zero, some reading attains it. */
  lemma {:induction false} ObservedIsGreatest(steps: seq<Step>, i: nat)
    requires i < |steps|
    ensures forall j :: 0 <= j <= i && steps[j].active.Some? ==> steps[j].active.value <= Observed(steps, i)
    ensures Observed(steps, i) == 0 || exists j :: 0 <= j <= i && steps[j].active == Some(Observed(steps, i))
    ensures Active(steps, i) == Observed(steps, i) - Observed(steps, 0)
  {
    if i > 0 {
      ObservedIsGreatest(steps, i - 1);
      OneGap(steps, i);
    }
  }

  /** How long a gap is on the timeline, in terms of its wall time w and active time a: a gap that begins in
      the background, or runs on for more than two seconds without active time, adds to its active time at
      most 15 s of the rest; any other takes its active time, or without any at most one second. */
  lemma {:induction false} GapLaw(steps: seq<Step>, g: nat)
    requires 0 < g < |steps|
    ensures var w, a := Wall(steps, g) - Wall(steps, g - 1), Active(steps, g) - Active(steps, g - 1);
            var d := Virtual(steps, g) - Virtual(steps, g - 1);
            && w >= 0 && a >= 0
            && (Paused(steps, g) <==> steps[g - 1].backgrounds || (w > 2000 && a == 0))
            && (Paused(steps, g) && w <= a ==> d == a)
            && (Paused(steps, g) && a < w <= a + 15000 ==> d == w)
            && (Paused(steps, g) && w > a + 15000 ==> d == a + 15000)
            && (!Paused(steps, g) && a > 0 ==> d == a)
            && (!Paused(steps, g) && a == 0 && w <= 1000 ==> d == w)
            && (!Paused(steps, g) && a == 0 && w > 1000 ==> d == 1000)
  {
    OneGap(steps, g);
  }

  datatype StepTimes = StepTimes(wall: seq<int>, active: seq<int>, virtual: seq<int>, total: int)

  ghost predicate Timed(steps: seq<Step>, t: StepTimes) {
    && |t.wall| == |t.active| == |t.virtual| == |steps| > 0
    && (forall i {:trigger t.wall[i]} :: 0 <= i < |steps| ==> t.wall[i] == Wall(steps, i))
    && (forall i {:trigger t.active[i]} :: 0 <= i < |steps| ==> t.active[i] == Active(steps, i))
    && (forall i {:trigger t.virtual[i]} :: 0 <= i < |steps| ==> t.virtual[i] == Virtual(steps, i))
    && t.total == Virtual(steps, |steps| - 1)
  }

  predicate IsPaused(backgrounds: bool, wall: seq<int>, active: seq<int>, i: nat)
    requires 0 < i < |wall| == |active|
  {
    var wallDelta, activeDelta := Max(0, wall[i] - wall[i - 1]), Max(0, active[i] - active[i - 1]);
    backgrounds || (wallDelta > 2000 && activeDelta == 0)
  }

  lemma {:induction false} PausedMeans(steps: seq<Step>, wall: seq<int>, active: seq<int>, i: nat)
    requires 0 < i < |steps| == |wall| == |active|
    requires wall[i] == Wall(steps, i) && wall[i - 1] == Wall(steps, i - 1)
    requires active[i] == Active(steps, i) && active[i - 1] == Active(steps, i - 1)
    ensures IsPaused(steps[i - 1].backgrounds, wall, active, i) == Paused(steps, i)
  {
    OneGap(steps, i);
  }

  method GapLength(steps: seq<Step>, wall: seq<int>, active: seq<int>, i: nat) returns (d: int)
    requires 0 < i < |steps| == |wall| == |active|
    requires wall[i] == Wall(steps, i) && wall[i - 1] == Wall(steps, i - 1)
    requires active[i] == Active(steps, i) && active[i - 1] == Active(steps, i - 1)
    ensures Virtual(steps, i) == Virtual(steps, i - 1) + d
  {
    PausedMeans(steps, wall, active, i);
    OneGap(steps, i);
    var wallDelta, activeDelta := Max(0, wall[i] - wall[i - 1]), Max(0, active[i] - active[i - 1]);
    if IsPaused(steps[i - 1].backgrounds, wall, active, i) {
      d := activeDelta + Min(Max(0, wallDelta - activeDelta), 15000);
    } else {
      d := if activeDelta > 0 then activeDelta else Min(wallDelta, 1000);
    }
  }

  method ComputeStepTimes(steps: seq<Step>) returns (t: StepTimes)
    requires steps != []
    ensures Timed(steps, t)
  {
    var wall := WallOffsets(steps);
    var active := ActiveTimes(steps);
    var virtual, currentVirtual := [0], 0;
    for i := 1 to |steps|
      invariant |virtual| == i && currentVirtual == Virtual(steps, i - 1)
      invariant forall j {:trigger virtual[j]} :: 0 <= j < i ==> virtual[j] == Virtual(steps, j)
    {
      var d := GapLength(steps, wall, active, i);
      currentVirtual := currentVirtual + d;
      virtual := virtual + [currentVirtual];
    }
    t := StepTimes(wall, active, virtual, currentVirtual);
  }

  method WallOffsets(steps: seq<Step>) returns (wall: seq<int>)
    ensures |wall| == |steps| && forall i {:trigger wall[i]} :: 0 <= i < |steps| ==> wall[i] == Wall(steps, i)
  {
    wall := [];
    var t0, lastWall := FirstTime(steps, 0), 0;
    for i := 0 to |steps|
      invariant |wall| == i && lastWall == if i == 0 then 0 else Wall(steps, i - 1)
      invariant forall j {:trigger wall[j]} :: 0 <= j < i ==> wall[j] == Wall(steps, j)
    {
      if steps[i].at.Some? {
        lastWall := Max(lastWall, Max(0, steps[i].at.value - t0));
      }
      wall := wall + [lastWall];
    }
  }

  method ActiveTimes(steps: seq<Step>) returns (active: seq<int>)
    ensures |active| == |steps| && forall i {:trigger active[i]} :: 0 <= i < |steps| ==> active[i] == Active(steps, i)
  {
    var clean, last := [], 0;
    for i := 0 to |steps|
      invariant |clean| == i && last == if i == 0 then 0 else Observed(steps, i - 1)
      invariant forall j {:trigger clean[j]} :: 0 <= j < i ==> clean[j] == Observed(steps, j)
    {
      if steps[i].active.Some? && steps[i].active.value >= 0 {
        last := Max(last, steps[i].active.value);
      }
      clean := clean + [last];
    }
    active := [];
    for i := 0 to |clean|
      invariant |active| == i && forall j {:trigger active[j]} :: 0 <= j < i ==> active[j] == Active(steps, j)
    {
      active := active + [Max(0, clean[i] - clean[0])];
    }
  }

  // ---------------------------------------------------------------- spans

  datatype Span = Span(paused: bool, first: nat, last: nat, start: int, end: int, wallDuration: int, capped: bool)

  /** A span carries the rendered clock at both of its ends and the wall time between them; only a
      pause of more than 30 minutes is capped. */
  ghost predicate Measures(steps: seq<Step>, s: Span)
    requires s.last < |steps|
  {
    && s.first <= s.last
    && s.start == Virtual(steps, s.first) && s.end == Virtual(steps, s.last)
    && s.wallDuration == Wall(steps, s.last) - Wall(steps, s.first)
    && (s.capped <==> s.paused && s.wallDuration > PAUSE_GAP_CAP_MS)
  }

  /** Every gap from step first to step last is of this kind. */
  ghost predicate AllOf(steps: seq<Step>, first: nat, last: nat, paused: bool)
    requires last < |steps|
  {
    forall g :: first < g <= last ==> Paused(steps, g) == paused
  }

  /** The spans tile steps 0..end: each starts where the one before it ends, they alternate in kind, and
      every gap inside one is of its kind. */
  ghost predicate Tiles(steps: seq<Step>, spans: seq<Span>, end: nat)
    requires end < |steps|
  {
    if spans == [] then end == 0 else
    var init, s := spans[..|spans| - 1], spans[|spans| - 1];
    && s.last == end && Measures(steps, s) && AllOf(steps, s.first, end, s.paused)
    && MayFollow(init, s.paused)
    && Tiles(steps, init, s.first)
  }

  function SpanOf(t: StepTimes, paused: bool, first: nat, last: nat): Span
    requires first <= last < |t.wall| == |t.virtual|
  {
    var w := t.wall[last] - t.wall[first];
    Span(paused, first, last, t.virtual[first], t.virtual[last], w, paused && w > PAUSE_GAP_CAP_MS)
  }

  /** A span of this kind may follow: the one before, if any, is of the other. */
  ghost predicate MayFollow(spans: seq<Span>, paused: bool) {
    spans != [] ==> spans[|spans| - 1].paused != paused
  }

  /** Every span takes in a gap. */
  ghost predicate EachHasGap(spans: seq<Span>) {
    forall s :: s in spans ==> s.first < s.last
  }

  lemma {:induction false} Extend(steps: seq<Step>, t: StepTimes, spans: seq<Span>, paused: bool, first: nat, last: nat)
    requires Timed(steps, t) && first <= last < |steps| && AllOf(steps, first, last, paused)
    requires Tiles(steps, spans, first) && MayFollow(spans, paused)
    ensures Tiles(steps, spans + [SpanOf(t, paused, first, last)], last)
  {
    assert (spans + [SpanOf(t, paused, first, last)])[..|spans|] == spans;
  }

  lemma {:induction false} OneMoreGap(steps: seq<Step>, first: nat, i: nat, paused: bool)
    requires first < i < |steps| && AllOf(steps, first, i - 1, paused)
    ensures Paused(steps, i) == paused ==> AllOf(steps, first, i, paused)
    ensures AllOf(steps, i - 1, i, Paused(steps, i))
  {
    forall g | first < g <= i && Paused(steps, i) == paused ensures Paused(steps, g) == paused {
      if g < i { assert AllOf(steps, first, i - 1, paused); }
    }
  }

  method BuildSpans(steps: seq<Step>, t: StepTimes) returns (spans: seq<Span>)
    requires Timed(steps, t)
    ensures spans != [] && Tiles(steps, spans, |steps| - 1)
    ensures |steps| > 1 ==> EachHasGap(spans)
  {
    spans := [];
    var spanStart, isPaused := 0, |steps| > 1 && IsPaused(steps[0].backgrounds, t.wall, t.active, 1);
    if |steps| > 1 { PausedMeans(steps, t.wall, t.active, 1); }
    for i := 1 to |steps|
      invariant spanStart < i && (i > 1 ==> spanStart < i - 1)
      invariant Tiles(steps, spans, spanStart) && AllOf(steps, spanStart, i - 1, isPaused)
      invariant MayFollow(spans, isPaused)
      invariant i == 1 && |steps| > 1 ==> isPaused == Paused(steps, 1)
      invariant EachHasGap(spans)
    {
      var isStepPaused := IsPaused(steps[i - 1].backgrounds, t.wall, t.active, i);
      PausedMeans(steps, t.wall, t.active, i);
      OneMoreGap(steps, spanStart, i, isPaused);
      if isStepPaused != isPaused {
        if i - 1 > spanStart {
          spans := PushSpan(steps, t, spans, isPaused, spanStart, i - 1);
        }
        spanStart, isPaused := i - 1, isStepPaused;
      }
    }
    spans := PushSpan(steps, t, spans, isPaused, spanStart, |steps| - 1);
  }

  method PushSpan(steps: seq<Step>, t: StepTimes, before: seq<Span>, paused: bool, first: nat, last: nat) returns (spans: seq<Span>)
    requires Timed(steps, t) && first <= last < |steps| && AllOf(steps, first, last, paused)
    requires Tiles(steps, before, first) && MayFollow(before, paused)
    ensures !MayFollow(spans, paused) && Tiles(steps, spans, last)
    ensures first < last && EachHasGap(before) ==> EachHasGap(spans)
  {
    Extend(steps, t, before, paused, first, last);
    spans := before + [SpanOf(t, paused, first, last)];
  }

  /** Neighbouring spans share a step, and the first one starts at step 0. */
  lemma {:induction false} TilesMeet(steps: seq<Step>, spans: seq<Span>, end: nat, k: nat)
    requires end < |steps| && Tiles(steps, spans, end) && k < |spans|
    ensures spans[0].first == 0
    ensures k > 0 ==> spans[k - 1].last == spans[k].first && spans[k - 1].paused != spans[k].paused
    ensures spans[k].last < |steps| && Measures(steps, spans[k])
    ensures AllOf(steps, spans[k].first, spans[k].last, spans[k].paused)
    ensures spans[k].capped <==> spans[k].paused && Wall(steps, spans[k].last) - Wall(steps, spans[k].first) > 1_800_000
  {
    var n := |spans| - 1;
    if n > 0 {
      TilesMeet(steps, spans[..n], spans[n].first, if k < n then k else n - 1);
    }
  }

  function TotalWall(spans: seq<Span>): int {
    if spans == [] then 0 else TotalWall(spans[..|spans| - 1]) + spans[|spans| - 1].wallDuration
  }

  function TotalDuration(spans: seq<Span>): int {
    if spans == [] then 0 else
    TotalDuration(spans[..|spans| - 1]) + (spans[|spans| - 1].end - spans[|spans| - 1].start)
  }

  function TotalPause(spans: seq<Span>): int {
    if spans == [] then 0 else
    TotalPause(spans[..|spans| - 1]) + (if spans[|spans| - 1].paused then spans[|spans| - 1].wallDuration else 0)
  }

  /** The wall time of the gaps that are pauses. */
  function PausedWall(steps: seq<Step>, i: nat): int
    requires i < |steps|
  {
    if i == 0 then 0 else
    PausedWall(steps, i - 1) + (if Paused(steps, i) then Wall(steps, i) - Wall(steps, i - 1) else 0)
  }

  lemma {:induction false} PausedWithin(steps: seq<Step>, first: nat, last: nat, paused: bool)
    requires first <= last < |steps| && AllOf(steps, first, last, paused)
    ensures PausedWall(steps, last) == PausedWall(steps, first) + (if paused then Wall(steps, last) - Wall(steps, first) else 0)
    decreases last - first
  {
    if first < last {
      PausedWithin(steps, first, last - 1, paused);
      assert Paused(steps, last) == paused;
    }
  }

  /** Spans lose no time and count none twice: together they take all wall time and all rendered time,
      and the pauses among them exactly the wall time of the paused gaps. */
  lemma {:induction false} SpansAccountForTime(steps: seq<Step>, spans: seq<Span>, end: nat)
    requires end < |steps| && Tiles(steps, spans, end)
    ensures TotalWall(spans) == Wall(steps, end) && TotalDuration(spans) == Virtual(steps, end)
    ensures TotalPause(spans) == PausedWall(steps, end)
  {
    if spans == [] {
      ClocksAgree(steps, 0);
    } else {
      var s := spans[|spans| - 1];
      SpansAccountForTime(steps, spans[..|spans| - 1], s.first);
      PausedWithin(steps, s.first, s.last, s.paused);
    }
  }

  // ---------------------------------------------------------------- the whole timeline

  datatype Timeline = Timeline(
    spans: seq<Span>, times: StepTimes, totalActive: int, totalWall: int, totalRendered: int, pauseCount: nat, totalPause: int)

  function Pauses(spans: seq<Span>): nat {
    if spans == [] then 0 else Pauses(spans[..|spans| - 1]) + (if spans[|spans| - 1].paused then 1 else 0)
  }

  lemma {:induction false} PauseShare(steps: seq<Step>, i: nat)
    requires i < |steps|
    ensures 0 <= PausedWall(steps, i) <= Wall(steps, i)
  {
    if i > 0 {
      PauseShare(steps, i - 1);
      OneGap(steps, i);
    }
  }

  /** The totals a viewer reads: rendered time lies between active time and active plus wall time, and
      the pauses are the paused gaps' wall time. */
  method BuildPacingTimeline(steps: seq<Step>) returns (r: Timeline)
    ensures steps == [] ==> r == Timeline([], StepTimes([], [], [], 0), 0, 0, 0, 0, 0)
    ensures steps != [] ==>
              && Timed(steps, r.times) && r.spans != [] && Tiles(steps, r.spans, |steps| - 1)
              && r.totalActive == Active(steps, |steps| - 1) && r.totalWall == Wall(steps, |steps| - 1)
              && r.totalRendered == Virtual(steps, |steps| - 1) && r.totalPause == PausedWall(steps, |steps| - 1)
    ensures 0 <= r.totalActive <= r.totalRendered <= r.totalActive + r.totalWall
    ensures 0 <= r.totalPause <= r.totalWall && r.pauseCount == Pauses(r.spans)
  {
    if steps == [] { return Timeline([], StepTimes([], [], [], 0), 0, 0, 0, 0, 0); }
    var times := ComputeStepTimes(steps);
    var spans := BuildSpans(steps, times);
    var count, pause := SumPauses(spans);
    SpansAccountForTime(steps, spans, |steps| - 1);
    ClocksAgree(steps, |steps| - 1);
    PauseShare(steps, |steps| - 1);
    r := Timeline(spans, times, times.active[|steps| - 1], times.wall[|steps| - 1], times.total, count, pause);
  }

  method SumPauses(spans: seq<Span>) returns (count: nat, total: int)
    ensures count == Pauses(spans) && total == TotalPause(spans)
  {
    count, total := 0, 0;
    for i := 0 to |spans|
      invariant count == Pauses(spans[..i]) && total == TotalPause(spans[..i])
    {
      assert spans[..i + 1][..i] == spans[..i];
      if spans[i].paused {
        count, total := count + 1, total + spans[i].wallDuration;
      }
    }
    assert spans[..|spans|] == spans;
  }

  // ---------------------------------------------------------------- marker positions

  /** A marker's place in percent: by rendered time, or by step number when nothing is rendered. */
  function Percent(steps: seq<Step>, i: nat): real
    requires i < |steps|
  {
    var total := Virtual(steps, |steps| - 1);
    if total > 0 then (Virtual(steps, i) as real) / (total as real) * 100.0
    else (i as real) / ((if |steps| > 1 then |steps| - 1 else 1) as real) * 100.0
  }

  method BuildMarkerPositions(steps: seq<Step>, t: StepTimes) returns (pct: seq<real>)
    requires Timed(steps, t)
    ensures |pct| == |steps| && forall i :: 0 <= i < |steps| ==> pct[i] == Percent(steps, i)
  {
    pct := [];
    var denom := if t.total > 0 then t.total else if |steps| > 1 then |steps| - 1 else 1;
    for i := 0 to |steps|
      invariant |pct| == i && forall j {:trigger pct[j]} :: 0 <= j < i ==> pct[j] == Percent(steps, j)
    {
      pct := pct + [(if t.total > 0 then t.virtual[i] else i) as real / denom as real * 100.0];
    }
  }

  /** On a timeline that renders anything, a marker is at its share of the rendered time. */
  lemma {:induction false} PercentIsShare(steps: seq<Step>, i: nat, p: real, v: int, total: int)
    requires i < |steps| && v == Virtual(steps, i) && total == Virtual(steps, |steps| - 1) > 0 && p == Percent(steps, i)
    ensures p * total as real == v as real * 100.0
  {
    PercentIs(steps, i, v, total);
    ShareOf(p, v as real, total as real);
  }

  lemma {:induction false} PercentIs(steps: seq<Step>, i: nat, v: int, total: int)
    requires i < |steps| && v == Virtual(steps, i) && total == Virtual(steps, |steps| - 1) > 0
    ensures Percent(steps, i) == v as real / total as real * 100.0
  {
  }

  lemma {:induction false} ShareOf(p: real, a: real, d: real)
    requires d > 0.0 && p == a / d * 100.0
    ensures p * d == a * 100.0
  {
    Share(a, d);
  }

  /** The first marker is at the start and, when anything is rendered, the last at the end. */
  lemma {:induction false} PercentEnds(steps: seq<Step>)
    requires steps != []
    ensures Percent(steps, 0) == 0.0
    ensures Virtual(steps, |steps| - 1) > 0 ==> Percent(steps, |steps| - 1) == 100.0
  {
    var n := |steps| - 1;
    if Virtual(steps, n) > 0 {
      Whole(Virtual(steps, n) as real);
    }
  }

  /** On a timeline that renders nothing, markers are spaced evenly. */
  lemma {:induction false} PercentIsEven(steps: seq<Step>, i: nat)
    requires i < |steps| && |steps| > 1 && Virtual(steps, |steps| - 1) <= 0
    ensures Percent(steps, i) * (|steps| - 1) as real == i as real * 100.0
  {
    Share(i as real, (|steps| - 1) as real);
  }

  lemma {:induction false} Share(a: real, d: real)
    requires d > 0.0
    ensures a / d * 100.0 * d == a * 100.0
  {
    assert a / d * d == a;
    assert a / d * 100.0 * d == a / d * d * 100.0;
  }

  lemma {:induction false} Whole(d: real)
    requires d > 0.0
    ensures d / d * 100.0 == 100.0
  {
  }

  lemma {:induction false} ScaledOrder(a: real, b: real, d: real)
    requires 0.0 <= a <= b <= d && d > 0.0
    ensures 0.0 <= a / d * 100.0 <= b / d * 100.0 <= 100.0
  {
    assert d / d == 1.0;
    assert 0.0 <= a / d <= b / d <= d / d;
  }

  /** Markers stay on the track and in step order; the last one of a timeline that renders anything is
      at its end. */
  lemma {:induction false} MarkersInOrder(steps: seq<Step>, i: nat, j: nat)
    requires i <= j < |steps|
    ensures 0.0 <= Percent(steps, i) <= Percent(steps, j) <= 100.0
  {
    var n := |steps| - 1;
    if Virtual(steps, n) > 0 {
      ClocksAgree(steps, i);
      ClocksRise(steps, i, j);
      ClocksRise(steps, j, n);
      ScaledOrder(Virtual(steps, i) as real, Virtual(steps, j) as real, Virtual(steps, n) as real);
    } else {
      ScaledOrder(i as real, j as real, (if n > 0 then n else 1) as real);
    }
  }

  function Off(a: real, b: real): real { if a < b then b - a else a - b }

  /** findNearestStepIndex: the first marker at the least distance; 0 when there is none. */
  method FindNearestStepIndex(pct: real, markers: seq<real>) returns (nearest: nat)
    ensures markers == [] ==> nearest == 0
    ensures markers != [] ==>
              && nearest < |markers|
              && (forall k :: 0 <= k < |markers| ==> Off(markers[nearest], pct) <= Off(markers[k], pct))
              && (forall k :: 0 <= k < nearest ==> Off(markers[nearest], pct) < Off(markers[k], pct))
  {
    nearest := 0;
    if |markers| == 0 { return; }
    var minDiff := Off(markers[0], pct);
    for i := 1 to |markers|
      invariant nearest < i && minDiff == Off(markers[nearest], pct)
      invariant forall k :: 0 <= k < i ==> minDiff <= Off(markers[k], pct)
      invariant forall k :: 0 <= k < nearest ==> minDiff < Off(markers[k], pct)
    {
      var diff := Off(markers[i], pct);
      if diff < minDiff {
        minDiff, nearest := diff, i;
      }
    }
  }
}
