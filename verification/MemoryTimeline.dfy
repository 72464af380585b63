/** The memory timeline of internal/analytics/puzzle_memory_timeline.go: progressive active and wall
    time over one install's lifecycle events. */
module MemoryTimeline {
  import opened Basics
  import opened Durations

  datatype Name = MemorySample | Backgrounded | Foregrounded | OtherEvent

  /** at is in nanoseconds; 0 is Go's zero time. The empty build is None. */
  datatype Row = Row(at: int, name: Name, build: Option<int>, totalMemory: Option<int>, graphics: Option<int>)

  datatype Point = Point(row: Row, active: int, wall: int, buildUpdate: bool)

  const PAUSE_GAP_CAP_MS := 30 * 60 * 1000

  /** As many capped gaps as surely fit in 64 bits of nanoseconds. */
  const SAFE_ROWS := 5_000_000

  // ---------------------------------------------------------------- what the state means

  /** The state after the rows: the start of the clock, the last instant, the active time so far,
      whether the app is away, and the last build named. */
  datatype State = State(firstAt: int, lastAt: int, active: int, away: bool, build: Option<int>)

  const ZERO := State(0, 0, 0, false, None)

  function Gap(s: State, now: int): int {
    var d := Milliseconds(Sub(now, s.lastAt));
    if d < 0 || s.away then 0 else if d > PAUSE_GAP_CAP_MS then PAUSE_GAP_CAP_MS else d
  }

  function Next(s: State, r: Row): State {
    State(
      if s.firstAt == 0 then r.at else s.firstAt,
      r.at,
      if s.firstAt == 0 then s.active else s.active + Gap(s, r.at),
      if r.name == Backgrounded then true else if r.name == Foregrounded then false else s.away,
      if r.build.Some? then r.build else s.build)
  }

  function After(rows: seq<Row>): State {
    if rows == [] then ZERO else Next(After(rows[..|rows| - 1]), rows[|rows| - 1])
  }

  function WallOf(s: State): int {
    var w := Milliseconds(Sub(s.lastAt, s.firstAt));
    if w < 0 then 0 else w
  }

  /** The point of row i: both clocks as the rows up to it leave them. A first row at the zero time
      starts no clock. */
  function PointOf(rows: seq<Row>, i: nat): Point
    requires i < |rows|
  {
    var before, s := After(rows[..i]), After(rows[..i + 1]);
    Point(rows[i], if before.firstAt == 0 then 0 else s.active, WallOf(s),
          before.build.Some? && rows[i].build.Some? && before.build != rows[i].build)
  }

  // ---------------------------------------------------------------- the pass itself

  class TimelineState {
    var firstAt: int
    var lastAt: int
    var cumActive: int
    var isBackgrounded: bool
    var lastBuild: Option<int>

    ghost function Now(): State
      reads this
    {
      State(firstAt, lastAt, cumActive, isBackgrounded, lastBuild)
    }

    constructor ()
      ensures Now() == ZERO
    {
      firstAt, lastAt, cumActive, isBackgrounded, lastBuild := 0, 0, 0, false, None;
    }

    method UpdateActiveTime(now: int) returns (active: int)
      modifies this
      ensures Now() == Next(old(Now()), Row(now, OtherEvent, None, None, None))
      ensures active == if old(firstAt) == 0 then 0 else cumActive
    {
      if firstAt == 0 {
        firstAt, lastAt := now, now;
        return 0;
      }
      var wallDelta := Milliseconds(Sub(now, lastAt));
      if wallDelta < 0 {
        wallDelta := 0;
      }
      if !isBackgrounded {
        if wallDelta > PAUSE_GAP_CAP_MS {
          wallDelta := PAUSE_GAP_CAP_MS;
        }
        cumActive := cumActive + wallDelta;
      }
      lastAt := now;
      return cumActive;
    }

    method CreateTimelinePoint(r: Row) returns (p: Point)
      modifies this
      ensures Now() == Next(old(Now()), r)
      ensures p == Point(r, if old(firstAt) == 0 then 0 else cumActive, WallOf(Now()),
                         old(lastBuild).Some? && r.build.Some? && old(lastBuild) != r.build)
    {
      var active := UpdateActiveTime(r.at);
      var wall := Milliseconds(Sub(r.at, firstAt));
      if wall < 0 {
        wall := 0;
      }
      var buildUpdate := lastBuild.Some? && r.build.Some? && lastBuild != r.build;
      if r.build.Some? {
        lastBuild := r.build;
      }
      match r.name {
        case Backgrounded => isBackgrounded := true;
        case Foregrounded => isBackgrounded := false;
        case _ =>
      }
      p := Point(r, active, wall, buildUpdate);
    }
  }

  datatype Peaks = Peaks(totalMemory: int, graphics: int, samples: nat)

  function Raised(top: int, reading: Option<int>): int {
    if reading.Some? && reading.value > top then reading.value else top
  }

  function PeaksOf(rows: seq<Row>): Peaks {
    if rows == [] then Peaks(0, 0, 0) else
    var p, r := PeaksOf(rows[..|rows| - 1]), rows[|rows| - 1];
    Peaks(Raised(p.totalMemory, r.totalMemory), Raised(p.graphics, r.graphics), p.samples + if r.name == MemorySample then 1 else 0)
  }

  method BuildTimelinePoints(rows: seq<Row>) returns (points: seq<Point>, totalMemory: int, graphics: int, samples: nat)
    ensures |points| == |rows| && forall i :: 0 <= i < |rows| ==> points[i] == PointOf(rows, i)
    ensures Peaks(totalMemory, graphics, samples) == PeaksOf(rows)
  {
    var state := new TimelineState();
    points, totalMemory, graphics, samples := [], 0, 0, 0;
    for n := 0 to |rows|
      invariant state.Now() == After(rows[..n])
      invariant |points| == n && forall i {:trigger points[i]} :: 0 <= i < n ==> points[i] == PointOf(rows, i)
      invariant Peaks(totalMemory, graphics, samples) == PeaksOf(rows[..n])
    {
      var r := rows[n];
      assert rows[..n + 1][..n] == rows[..n];
      if r.totalMemory.Some? && r.totalMemory.value > totalMemory {
        totalMemory := r.totalMemory.value;
      }
      if r.graphics.Some? && r.graphics.value > graphics {
        graphics := r.graphics.value;
      }
      if r.name == MemorySample {
        samples := samples + 1;
      }
      var p := state.CreateTimelinePoint(r);
      assert p == PointOf(rows, n);
      points := points + [p];
    }
    assert rows[..|rows|] == rows;
  }

  /** The memory figures are the greatest readings sent, or zero when none of them is positive. */
  lemma {:induction false} PeaksAreGreatest(rows: seq<Row>)
    ensures forall r :: r in rows && r.totalMemory.Some? ==> r.totalMemory.value <= PeaksOf(rows).totalMemory
    ensures PeaksOf(rows).totalMemory == 0 || exists r :: r in rows && r.totalMemory == Some(PeaksOf(rows).totalMemory)
    ensures forall r :: r in rows && r.graphics.Some? ==> r.graphics.value <= PeaksOf(rows).graphics
    ensures PeaksOf(rows).graphics == 0 || exists r :: r in rows && r.graphics == Some(PeaksOf(rows).graphics)
  {
    if rows != [] {
      var init, last := rows[..|rows| - 1], rows[|rows| - 1];
      PeaksAreGreatest(init);
      assert rows == init + [last] && last in rows;
      assert forall r :: r in init ==> r in rows;
    }
  }

  /** The sample count is the number of memory samples. */
  lemma {:induction false} SamplesCounted(rows: seq<Row>)
    ensures PeaksOf(rows).samples == |set i | 0 <= i < |rows| && rows[i].name == MemorySample|
  {
    if rows != [] {
      var n := |rows| - 1;
      SamplesCounted(rows[..n]);
      var before := set i | 0 <= i < n && rows[..n][i].name == MemorySample;
      assert (set i | 0 <= i < |rows| && rows[i].name == MemorySample) == before + (if rows[n].name == MemorySample then {n} else {});
    }
  }

  // ---------------------------------------------------------------- the points read off the rows

  /** Before row i the app is away: the last switch was to the background. */
  ghost predicate AwayBefore(rows: seq<Row>, i: nat)
    requires i <= |rows|
  {
    exists j :: 0 <= j < i && rows[j].name == Backgrounded && forall k :: j < k < i ==> rows[k].name != Foregrounded
  }

  /** Before row i the clock runs: some row had a time. */
  ghost predicate RunsBefore(rows: seq<Row>, i: nat)
    requires i <= |rows|
  {
    exists j :: 0 <= j < i && rows[j].at != 0
  }

  /** The whole milliseconds between the row before i and row i, none if time went back, at most 30 minutes. */
  function CappedGap(rows: seq<Row>, i: nat): nat
    requires 0 < i < |rows|
  {
    Min(Max(0, rows[i].at - rows[i - 1].at) / MILLISECOND, PAUSE_GAP_CAP_MS)
  }

  /** What row i adds to active time: nothing while the app is away or before the clock runs. */
  ghost function Added(rows: seq<Row>, i: nat): nat
    requires i < |rows|
  {
    if i == 0 || AwayBefore(rows, i) || !RunsBefore(rows, i) then 0 else CappedGap(rows, i)
  }

  ghost function AddedUpTo(rows: seq<Row>, i: nat): nat
    requires i <= |rows|
  {
    if i == 0 then 0 else AddedUpTo(rows, i - 1) + Added(rows, i - 1)
  }

  lemma {:induction false} AwayStep(rows: seq<Row>, i: nat)
    requires i < |rows|
    ensures AwayBefore(rows, i + 1) <==>
            rows[i].name == Backgrounded || (rows[i].name != Foregrounded && AwayBefore(rows, i))
  {
    if rows[i].name != Foregrounded && AwayBefore(rows, i) {
      var j :| 0 <= j < i && rows[j].name == Backgrounded && forall k :: j < k < i ==> rows[k].name != Foregrounded;
      assert rows[j].name == Backgrounded;
    }
    if AwayBefore(rows, i + 1) && rows[i].name != Backgrounded {
      var j :| 0 <= j < i + 1 && rows[j].name == Backgrounded && forall k :: j < k < i + 1 ==> rows[k].name != Foregrounded;
      assert j < i && rows[j].name == Backgrounded;
    }
  }

  lemma {:induction false} StateReadsRows(rows: seq<Row>, n: nat)
    requires n <= |rows|
    ensures var s := After(rows[..n]);
            && (s.away <==> AwayBefore(rows, n)) && (s.firstAt != 0 <==> RunsBefore(rows, n))
            && (n > 0 ==> s.lastAt == rows[n - 1].at) && s.active == AddedUpTo(rows, n)
            && (s.firstAt == 0 ==> s.active == 0)
  {
    if n > 0 {
      StateReadsRows(rows, n - 1);
      AwayStep(rows, n - 1);
      assert rows[..n][..n - 1] == rows[..n - 1];
      assert RunsBefore(rows, n) <==> rows[n - 1].at != 0 || RunsBefore(rows, n - 1);
      if n > 1 { GapIsCapped(rows, n - 1); }
    }
  }

  lemma {:induction false} GapIsCapped(rows: seq<Row>, i: nat)
    requires 0 < i < |rows|
    ensures var d := Milliseconds(Sub(rows[i].at, rows[i - 1].at));
            CappedGap(rows, i) == if d < 0 then 0 else if d > PAUSE_GAP_CAP_MS then PAUSE_GAP_CAP_MS else d
  {
  }

  /** Active time is the sum of the capped gaps between rows, those that end while the app is away left out. */
  lemma {:induction false} ActiveIsSum(rows: seq<Row>, i: nat)
    requires i < |rows|
    ensures PointOf(rows, i).active == AddedUpTo(rows, i + 1)
  {
    StateReadsRows(rows, i);
    StateReadsRows(rows, i + 1);
  }

  lemma {:induction false} FirstAtIs(rows: seq<Row>, n: nat, j: nat)
    requires j < n <= |rows| && rows[j].at != 0 && forall k :: 0 <= k < j ==> rows[k].at == 0
    ensures After(rows[..n]).firstAt == rows[j].at
  {
    assert rows[..n][..n - 1] == rows[..n - 1];
    if j < n - 1 {
      FirstAtIs(rows, n - 1, j);
    } else {
      StateReadsRows(rows, n - 1);
    }
  }

  /** Wall time is counted from the first row with a time, in whole milliseconds, and never negative. */
  lemma {:induction false} WallIsSinceFirst(rows: seq<Row>, i: nat, j: nat)
    requires j <= i < |rows| && rows[j].at != 0 && forall k :: 0 <= k < j ==> rows[k].at == 0
    ensures PointOf(rows, i).wall == Max(0, Min(rows[i].at - rows[j].at, MAX_DURATION)) / MILLISECOND
  {
    FirstAtIs(rows, i + 1, j);
    StateReadsRows(rows, i + 1);
  }

  lemma {:induction false} LastBuildIs(rows: seq<Row>, n: nat, j: nat)
    requires j < n <= |rows| && rows[j].build.Some? && forall k :: j < k < n ==> rows[k].build.None?
    ensures After(rows[..n]).build == rows[j].build
  {
    assert rows[..n][..n - 1] == rows[..n - 1];
    if j < n - 1 { LastBuildIs(rows, n - 1, j); }
  }

  lemma {:induction false} NoBuildYet(rows: seq<Row>, n: nat)
    requires n <= |rows| && forall k :: 0 <= k < n ==> rows[k].build.None?
    ensures After(rows[..n]).build == None
  {
    if n > 0 {
      assert rows[..n][..n - 1] == rows[..n - 1];
      NoBuildYet(rows, n - 1);
    }
  }

  /** A point marks a build update exactly when its row names another build than the last one named. */
  lemma {:induction false} BuildUpdateIff(rows: seq<Row>, i: nat)
    requires i < |rows|
    ensures PointOf(rows, i).buildUpdate <==>
            rows[i].build.Some? &&
            exists j :: 0 <= j < i && rows[j].build.Some? && rows[j].build != rows[i].build
                        && forall k :: j < k < i ==> rows[k].build.None?
  {
    if j :| 0 <= j < i && rows[j].build.Some? && forall k :: j < k < i ==> rows[k].build.None? {
      LastBuildIs(rows, i, j);
    } else {
      NoNamed(rows, i);
      NoBuildYet(rows, i);
    }
  }

  lemma {:induction false} NoNamed(rows: seq<Row>, i: nat)
    requires i <= |rows|
    requires !exists j :: 0 <= j < i && rows[j].build.Some? && forall k :: j < k < i ==> rows[k].build.None?
    ensures forall k :: 0 <= k < i ==> rows[k].build.None?
  {
    if k :| 0 <= k < i && rows[k].build.Some? {
      LastNamed(rows, i, k);
    }
  }

  lemma {:induction false} LastNamed(rows: seq<Row>, i: nat, k: nat)
    requires k < i <= |rows| && rows[k].build.Some?
    ensures exists j :: 0 <= j < i && rows[j].build.Some? && forall m :: j < m < i ==> rows[m].build.None?
    decreases i - k
  {
    if m :| k < m < i && rows[m].build.Some? { LastNamed(rows, i, m); } else { assert rows[k].build.Some?; }
  }

  // ---------------------------------------------------------------- the laws of the two clocks

  ghost predicate Ordered(rows: seq<Row>) {
    forall i, j :: 0 <= i < j < |rows| ==> rows[i].at <= rows[j].at
  }

  /** Truncating the pieces loses at least as much as truncating their sum. */
  lemma {:induction false} PiecewiseTruncation(a: nat, b: nat)
    ensures a / MILLISECOND + b / MILLISECOND <= (a + b) / MILLISECOND
  {
  }

  /** Active time is never ahead of the time elapsed, nor of one cap a row. */
  lemma {:induction false} ActiveBounds(rows: seq<Row>)
    requires Ordered(rows)
    ensures var s := After(rows);
            && s.firstAt <= s.lastAt && (rows != [] ==> s.lastAt == rows[|rows| - 1].at && rows[0].at <= s.firstAt)
            && (s.firstAt == 0 ==> s.active == 0 && s.lastAt == 0)
            && 0 <= s.active <= (s.lastAt - s.firstAt) / MILLISECOND
            && s.active <= PAUSE_GAP_CAP_MS * |rows|
  {
    if rows != [] {
      var init, r := rows[..|rows| - 1], rows[|rows| - 1];
      ActiveBounds(init);
      var s := After(init);
      if s.firstAt != 0 && init != [] {
        assert s.lastAt <= r.at;
        PiecewiseTruncation(s.lastAt - s.firstAt, r.at - s.lastAt);
      }
    }
  }

  lemma {:induction false} OneRow(rows: seq<Row>, i: nat)
    requires i < |rows| && Ordered(rows)
    ensures rows[..i + 1][..i] == rows[..i] && Ordered(rows[..i]) && Ordered(rows[..i + 1])
    ensures After(rows[..i + 1]) == Next(After(rows[..i]), rows[i])
    ensures PointOf(rows, i).active == After(rows[..i + 1]).active
    ensures PointOf(rows, i).wall == WallOf(After(rows[..i + 1]))
  {
    assert rows[..i + 1][..i] == rows[..i];
    ActiveBounds(rows[..i]);
  }

  /** A later row turns neither clock back. */
  lemma {:induction false} NextIsLater(s: State, r: Row)
    requires s.firstAt <= s.lastAt && (s.firstAt == 0 ==> s.lastAt == 0) && (s.lastAt <= r.at || s.firstAt == 0)
    ensures s.active <= Next(s, r).active && WallOf(s) <= WallOf(Next(s, r))
  {
  }

  /** Wall time saturates; active time stays within it exactly while it is below that end itself. */
  lemma {:induction false} ActiveWithinWall(s: State)
    requires 0 <= s.active <= (s.lastAt - s.firstAt) / MILLISECOND
    ensures s.active <= WallOf(s) <==> s.active <= Milliseconds(MAX_DURATION)
    ensures s.lastAt - s.firstAt <= MAX_DURATION ==> s.active <= WallOf(s)
  {
  }

  /** For ordered rows neither clock ever runs backwards, although every gap is truncated, capped at 30
      minutes, dropped while away, and measured with saturating arithmetic. */
  lemma {:induction false} ClocksNeverFall(rows: seq<Row>, i: nat)
    requires Ordered(rows) && 0 < i < |rows|
    ensures PointOf(rows, i - 1).active <= PointOf(rows, i).active && PointOf(rows, i - 1).wall <= PointOf(rows, i).wall
  {
    OneRow(rows, i - 1);
    OneRow(rows, i);
    ActiveBounds(rows[..i]);
    NextIsLater(After(rows[..i]), rows[i]);
  }

  /** For ordered rows active time lies between zero and wall time at every point of the first five million,
      and at any point less than 292 years after the first; beyond both it does exactly while it is below
      292 years itself. */
  lemma {:induction false} ClocksStayInOrder(rows: seq<Row>, i: nat)
    requires Ordered(rows) && i < |rows|
    ensures 0 <= PointOf(rows, i).active
    ensures PointOf(rows, i).active <= PointOf(rows, i).wall <==> PointOf(rows, i).active <= Milliseconds(MAX_DURATION)
    ensures i < SAFE_ROWS || rows[i].at - rows[0].at <= MAX_DURATION ==> PointOf(rows, i).active <= PointOf(rows, i).wall
  {
    OneRow(rows, i);
    ActiveBounds(rows[..i + 1]);
    ActiveWithinWall(After(rows[..i + 1]));
  }

  /** While the app is never away and no gap exceeds the cap, active time misses wall time by less than
      one millisecond a row: truncation is the only loss. */
  lemma {:induction false} OnlyTruncationIsLost(rows: seq<Row>)
    requires Ordered(rows) && forall r :: r in rows ==> r.name != Backgrounded
    requires forall i :: 0 < i < |rows| ==> rows[i].at - rows[i - 1].at <= PAUSE_GAP_CAP_MS * MILLISECOND
    ensures var s := After(rows); !s.away && 0 <= s.lastAt - s.firstAt - s.active * MILLISECOND <= |rows| * MILLISECOND
  {
    if rows != [] {
      var init, r := rows[..|rows| - 1], rows[|rows| - 1];
      OnlyTruncationIsLost(init);
      ActiveBounds(init);
      if init != [] { assert init[|init| - 1] == rows[|rows| - 2]; }
    }
  }
}
