/** Median-based alignment of legacy release points (internal/analytics/puzzle_drops.go). */
module DropAlignment {
  import opened Basics
  import opened OrderStatistics

  datatype Point = Point(x: int, y: int) {
    function Plus(v: Point): Point { Point(x + v.x, y + v.y) }
    function Minus(v: Point): Point { Point(x - v.x, y - v.y) }
  }

  datatype Drop = Drop(
    placed: bool, targetId: int, release: Point, target: Point,
    nearest: Option<Point>, nearestDistance: Option<int>, legacy: bool)
  {
    /** A placed drop with a resolved target: one sample of the offset. */
    predicate Usable() { placed && targetId >= 0 }
  }

  datatype Issue = NoIssue | MixedCoordinateSpaces | TooFewPlaced | Inconsistent

  datatype DropMap = DropMap(
    drops: seq<Drop>, trusted: bool, aligned: bool, offset: Point, spread: int, issue: Issue)

  const SNAP_DISTANCE := 1500
  const MIN_PLACED := 5
  const ORIGIN := Point(0, 0)

  /** Rounded planar distance; only its being a function of the two differences matters here. */
  type Distance = (int, int) -> int

  // ---------------------------------------------------------------- the estimate

  /** Release minus target, along one axis, of every usable drop. */
  function Errors(drops: seq<Drop>, alongX: bool): seq<int> {
    if drops == [] then [] else
    var init, d := Errors(drops[..|drops| - 1], alongX), drops[|drops| - 1];
    if !d.Usable() then init
    else init + [if alongX then d.release.x - d.target.x else d.release.y - d.target.y]
  }

  function Abs(v: int): int { if v < 0 then -v else v }

  function Deviations(values: seq<int>, centre: int): (r: seq<int>)
    ensures |r| == |values|
  {
    if values == [] then [] else Deviations(values[..|values| - 1], centre) + [Abs(values[|values| - 1] - centre)]
  }

  ghost function OffsetOf(drops: seq<Drop>): Point {
    Point(Median(Errors(drops, true)), Median(Errors(drops, false)))
  }

  ghost function SpreadOf(drops: seq<Drop>): int {
    Max(Median(Deviations(Errors(drops, true), OffsetOf(drops).x)),
        Median(Deviations(Errors(drops, false), OffsetOf(drops).y)))
  }

  function Moved(d: Drop, offset: Point, dist: Distance): Drop {
    var release := d.release.Minus(offset);
    match d.nearest
    case None => d.(release := release)
    case Some(n) => d.(release := release, nearestDistance := Some(dist(release.x - n.x, release.y - n.y)))
  }

  function MoveAll(drops: seq<Drop>, offset: Point, dist: Distance): (r: seq<Drop>)
    ensures |r| == |drops|
  {
    if drops == [] then []
    else MoveAll(drops[..|drops| - 1], offset, dist) + [Moved(drops[|drops| - 1], offset, dist)]
  }

  function AllKnown(drops: seq<Drop>): bool {
    drops != [] && forall d :: d in drops ==> !d.legacy
  }

  function Mixed(drops: seq<Drop>): bool {
    (exists d :: d in drops && d.legacy) && (exists d :: d in drops && !d.legacy)
  }

  /** The published map for these drops. */
  ghost function Aligned(drops: seq<Drop>, dist: Distance): DropMap {
    if AllKnown(drops) || drops == [] then DropMap(drops, AllKnown(drops), true, ORIGIN, 0, NoIssue)
    else if Mixed(drops) then DropMap([], false, false, ORIGIN, 0, MixedCoordinateSpaces)
    else if |Errors(drops, true)| < MIN_PLACED then DropMap([], false, false, ORIGIN, 0, TooFewPlaced)
    else if SpreadOf(drops) > SNAP_DISTANCE then DropMap([], false, false, ORIGIN, SpreadOf(drops), Inconsistent)
    else DropMap(MoveAll(drops, OffsetOf(drops), dist), false, true, OffsetOf(drops), SpreadOf(drops), NoIssue)
  }

  // ---------------------------------------------------------------- the in-place alignment

  class PuzzleDropMap {
    var drops: seq<Drop>
    var trusted: bool
    var aligned: bool
    var offset: Point
    var spread: int
    var issue: Issue
    const dist: Distance

    constructor (drops: seq<Drop>, dist: Distance)
      ensures Value() == DropMap(drops, false, false, ORIGIN, 0, NoIssue) && this.dist == dist
    {
      this.drops, this.dist := drops, dist;
      trusted, aligned, offset, spread, issue := false, false, ORIGIN, 0, NoIssue;
    }

    function Value(): DropMap reads this { DropMap(drops, trusted, aligned, offset, spread, issue) }

    method AlignDrops()
      requires Value() == DropMap(drops, false, false, ORIGIN, 0, NoIssue)
      modifies this
      ensures Value() == Aligned(old(drops), dist)
    {
      trusted := AllKnown(drops);
      if trusted || |drops| == 0 {
        aligned := true;
        return;
      }
      var mixed := HasMixedCoordinates(drops);
      if mixed {
        issue, drops := MixedCoordinateSpaces, [];
        return;
      }
      FitLegacyDrops();
    }

    method FitLegacyDrops()
      requires Value() == DropMap(drops, false, false, ORIGIN, 0, NoIssue)
      requires drops != [] && !AllKnown(drops) && !Mixed(drops)
      modifies this
      ensures Value() == Aligned(old(drops), dist)
    {
      var dx, dy := CollectErrors(drops);
      if |dx| < MIN_PLACED {
        issue, drops := TooFewPlaced, [];
        return;
      }
      SameLength(drops);
      var fitX := MedianInts(dx);
      var fitY := MedianInts(dy);
      var fit := Point(fitX, fitY);
      var s := DropSpread(dx, dy, fit);
      if s > SNAP_DISTANCE {
        aligned, spread, issue, drops := false, s, Inconsistent, [];
        return;
      }
      aligned, offset, spread := true, fit, s;
      MoveInPlace(fit);
    }

    method MoveInPlace(fit: Point)
      modifies this`drops
      ensures drops == MoveAll(old(drops), fit, dist)
    {
      ghost var was := drops;
      for i := 0 to |drops|
        invariant |drops| == |was|
        invariant drops[..i] == MoveAll(was[..i], fit, dist) && drops[i..] == was[i..]
      {
        assert drops[i] == drops[i..][0] == was[i] && was[..i + 1][..i] == was[..i];
        ghost var before := drops;
        drops := drops[i := Moved(drops[i], fit, dist)];
        assert drops[..i + 1] == before[..i] + [Moved(was[i], fit, dist)] && drops[i + 1..] == before[i..][1..];
      }
      assert drops[..|drops|] == drops;
      assert was[..|was|] == was;
    }
  }

  method HasMixedCoordinates(drops: seq<Drop>) returns (mixed: bool)
    ensures mixed <==> Mixed(drops)
  {
    var legacy, corrected := false, false;
    for i := 0 to |drops|
      invariant legacy <==> exists d :: d in drops[..i] && d.legacy
      invariant corrected <==> exists d :: d in drops[..i] && !d.legacy
      invariant !(legacy && corrected)
    {
      assert drops[..i + 1] == drops[..i] + [drops[i]];
      assert drops[i] in drops[..i + 1];
      if drops[i].legacy { legacy := true; } else { corrected := true; }
      if legacy && corrected {
        assert forall d :: d in drops[..i + 1] ==> d in drops;
        return true;
      }
    }
    assert drops[..|drops|] == drops;
    return false;
  }

  method DropSpread(dx: seq<int>, dy: seq<int>, centre: Point) returns (s: int)
    ensures s == Max(Median(Deviations(dx, centre.x)), Median(Deviations(dy, centre.y)))
  {
    var sx := MedianInts(Deviations(dx, centre.x));
    var sy := MedianInts(Deviations(dy, centre.y));
    s := Max(sx, sy);
  }

  method CollectErrors(drops: seq<Drop>) returns (dx: seq<int>, dy: seq<int>)
    ensures dx == Errors(drops, true) && dy == Errors(drops, false)
  {
    dx, dy := [], [];
    for i := 0 to |drops|
      invariant dx == Errors(drops[..i], true) && dy == Errors(drops[..i], false)
    {
      assert drops[..i + 1][..i] == drops[..i];
      if drops[i].Usable() {
        dx := dx + [drops[i].release.x - drops[i].target.x];
        dy := dy + [drops[i].release.y - drops[i].target.y];
      }
    }
    assert drops[..|drops|] == drops;
  }

  lemma {:induction false} SameLength(drops: seq<Drop>)
    ensures |Errors(drops, true)| == |Errors(drops, false)|
  {
    if drops != [] { SameLength(drops[..|drops| - 1]); }
  }

  // ---------------------------------------------------------------- translation

  /** t is s with v added to every sample. */
  ghost predicate Shifted(s: seq<int>, t: seq<int>, v: int) {
    |s| == |t| && forall i :: 0 <= i < |s| ==> t[i] == s[i] + v
  }

  lemma {:induction false} CountsShifted(s: seq<int>, t: seq<int>, v: int, x: int)
    requires Shifted(s, t, v)
    ensures AtMost(t, x + v) == AtMost(s, x) && Below(t, x + v) == Below(s, x)
  {
    if s != [] { CountsShifted(s[1..], t[1..], v, x); }
  }

  lemma {:induction false} MedianShifted(s: seq<int>, t: seq<int>, v: int)
    requires Shifted(s, t, v) && s != []
    ensures Median(t) == Median(s) + v
  {
    MedianRank(s, Median(s));
    CountsShifted(s, t, v, Median(s));
    MedianRank(t, Median(s) + v);
  }

  lemma {:induction false} DeviationsShifted(s: seq<int>, t: seq<int>, v: int, c: int)
    requires Shifted(s, t, v)
    ensures Deviations(t, c + v) == Deviations(s, c)
  {
    if s != [] { DeviationsShifted(s[..|s| - 1], t[..|t| - 1], v, c); }
  }

  /** Legacy drops released from a frame moved by v; corrected ones, targets and nearest slots stay where
      they are. */
  function Translated(drops: seq<Drop>, v: Point, dist: Distance): (r: seq<Drop>)
    ensures |r| == |drops|
  {
    if drops == [] then [] else
    var d := drops[|drops| - 1];
    Translated(drops[..|drops| - 1], v, dist) + [if d.legacy then Moved(d, ORIGIN.Minus(v), dist) else d]
  }

  predicate AllLegacy(drops: seq<Drop>) {
    drops != [] && forall d :: d in drops ==> d.legacy
  }

  lemma {:induction false} LegacyMoves(drops: seq<Drop>, v: Point, dist: Distance)
    requires forall d :: d in drops ==> d.legacy
    ensures Translated(drops, v, dist) == MoveAll(drops, ORIGIN.Minus(v), dist)
  {
    if drops != [] {
      assert drops[|drops| - 1] in drops;
      LegacyMoves(drops[..|drops| - 1], v, dist);
    }
  }

  lemma {:induction false} KnownStay(drops: seq<Drop>, v: Point, dist: Distance)
    requires forall d :: d in drops ==> !d.legacy
    ensures Translated(drops, v, dist) == drops
  {
    if drops != [] {
      assert drops[|drops| - 1] in drops;
      KnownStay(drops[..|drops| - 1], v, dist);
      assert drops == drops[..|drops| - 1] + [drops[|drops| - 1]];
    }
  }

  /** Translation keeps which drops are legacy. */
  lemma {:induction false} LegacyAt(drops: seq<Drop>, v: Point, dist: Distance, i: nat)
    requires i < |drops|
    ensures Translated(drops, v, dist)[i].legacy == drops[i].legacy
  {
    if i < |drops| - 1 { LegacyAt(drops[..|drops| - 1], v, dist, i); }
  }

  lemma {:induction false} StillMixed(drops: seq<Drop>, v: Point, dist: Distance)
    requires Mixed(drops)
    ensures Mixed(Translated(drops, v, dist)) && !AllKnown(Translated(drops, v, dist))
  {
    var i :| 0 <= i < |drops| && drops[i].legacy;
    var j :| 0 <= j < |drops| && !drops[j].legacy;
    LegacyAt(drops, v, dist, i);
    LegacyAt(drops, v, dist, j);
    assert Translated(drops, v, dist)[i] in Translated(drops, v, dist);
    assert Translated(drops, v, dist)[j] in Translated(drops, v, dist);
  }

  lemma {:induction false} ErrorsMoved(drops: seq<Drop>, v: Point, dist: Distance)
    ensures Shifted(Errors(drops, true), Errors(MoveAll(drops, ORIGIN.Minus(v), dist), true), v.x)
    ensures Shifted(Errors(drops, false), Errors(MoveAll(drops, ORIGIN.Minus(v), dist), false), v.y)
  {
    if drops != [] {
      var init, moved := drops[..|drops| - 1], MoveAll(drops, ORIGIN.Minus(v), dist);
      ErrorsMoved(init, v, dist);
      assert moved[..|moved| - 1] == MoveAll(init, ORIGIN.Minus(v), dist);
    }
  }

  lemma {:induction false} AxisTranslated(s: seq<int>, t: seq<int>, v: int)
    requires Shifted(s, t, v) && s != []
    ensures Median(t) == Median(s) + v
    ensures Median(Deviations(t, Median(t))) == Median(Deviations(s, Median(s)))
  {
    MedianShifted(s, t, v);
    DeviationsShifted(s, t, v, Median(s));
  }

  lemma {:induction false} EstimateMoved(drops: seq<Drop>, v: Point, dist: Distance)
    requires Errors(drops, true) != []
    ensures OffsetOf(MoveAll(drops, ORIGIN.Minus(v), dist)) == OffsetOf(drops).Plus(v)
    ensures SpreadOf(MoveAll(drops, ORIGIN.Minus(v), dist)) == SpreadOf(drops)
  {
    var moved := MoveAll(drops, ORIGIN.Minus(v), dist);
    SameLength(drops);
    ErrorsMoved(drops, v, dist);
    AxisTranslated(Errors(drops, true), Errors(moved, true), v.x);
    AxisTranslated(Errors(drops, false), Errors(moved, false), v.y);
  }

  /** The map was moved by a fitted offset. */
  ghost predicate Fitted(drops: seq<Drop>, dist: Distance) {
    AllLegacy(drops) && Aligned(drops, dist).aligned
  }

  /** Translation invariance: any map whose legacy drops were released from a frame moved by v gets the
      same verdict, the same published drops and the same spread; a fitted offset moves by v. */
  lemma {:induction false} TranslationInvariant(drops: seq<Drop>, v: Point, dist: Distance)
    ensures var was := Aligned(drops, dist);
            Aligned(Translated(drops, v, dist), dist) == was.(offset := if Fitted(drops, dist) then was.offset.Plus(v) else was.offset)
  {
    if AllLegacy(drops) {
      LegacyMoves(drops, v, dist);
      LegacyTranslation(drops, v, dist);
    } else if Mixed(drops) {
      StillMixed(drops, v, dist);
      assert !AllKnown(drops);
    } else if AllKnown(drops) {
      KnownStay(drops, v, dist);
    } else {
      NoKind(drops);
    }
  }

  /** Drops that are neither all legacy, nor mixed, nor all corrected: there are none. */
  lemma {:induction false} NoKind(drops: seq<Drop>)
    requires !AllLegacy(drops) && !Mixed(drops) && !AllKnown(drops)
    ensures drops == []
  {
  }

  lemma {:induction false} LegacyTranslation(drops: seq<Drop>, v: Point, dist: Distance)
    requires AllLegacy(drops)
    ensures var was := Aligned(drops, dist);
            Aligned(MoveAll(drops, ORIGIN.Minus(v), dist), dist) == was.(offset := if was.aligned then was.offset.Plus(v) else ORIGIN)
  {
    var moved := MoveAll(drops, ORIGIN.Minus(v), dist);
    StillLegacy(drops, ORIGIN.Minus(v), dist);
    LegacyVerdict(drops);
    LegacyVerdict(moved);
    ErrorsMoved(drops, v, dist);
    if |Errors(drops, true)| >= MIN_PLACED {
      EstimateMoved(drops, v, dist);
      MovedTwice(drops, ORIGIN.Minus(v), OffsetOf(moved), OffsetOf(drops), dist);
    }
  }

  lemma {:induction false} StillLegacy(drops: seq<Drop>, v: Point, dist: Distance)
    requires forall d :: d in drops ==> d.legacy
    ensures forall d :: d in MoveAll(drops, v, dist) ==> d.legacy
  {
    if drops != [] {
      assert drops[|drops| - 1] in drops;
      StillLegacy(drops[..|drops| - 1], v, dist);
    }
  }

  /** For all-legacy drops the verdict is decided by the estimate alone. */
  lemma {:induction false} LegacyVerdict(drops: seq<Drop>)
    requires AllLegacy(drops)
    ensures !AllKnown(drops) && !Mixed(drops)
  {
    assert drops[0] in drops;
  }

  lemma {:induction false} MovedTwice(drops: seq<Drop>, u: Point, v: Point, w: Point, dist: Distance)
    requires w == u.Plus(v)
    ensures MoveAll(MoveAll(drops, u, dist), v, dist) == MoveAll(drops, w, dist)
  {
    if drops != [] {
      var once := MoveAll(drops, u, dist);
      MovedTwice(drops[..|drops| - 1], u, v, w, dist);
      assert once[..|once| - 1] == MoveAll(drops[..|drops| - 1], u, dist);
    }
  }

  /** Idempotence: aligning an aligned map again finds no offset and changes nothing. */
  lemma {:induction false} AlignmentIdempotent(drops: seq<Drop>, dist: Distance)
    requires Aligned(drops, dist).aligned
    ensures var m := Aligned(drops, dist);
            Aligned(m.drops, dist) == m.(offset := ORIGIN)
  {
    if AllLegacy(drops) {
      FittedMap(drops, dist);
      var v := ORIGIN.Minus(OffsetOf(drops));
      assert ORIGIN.Minus(v) == OffsetOf(drops);
      LegacyTranslation(drops, v, dist);
    } else if !AllKnown(drops) && !Mixed(drops) {
      NoKind(drops);
    }
  }

  lemma {:induction false} FittedMap(drops: seq<Drop>, dist: Distance)
    requires Fitted(drops, dist)
    ensures var m := Aligned(drops, dist);
            && m.drops == MoveAll(drops, OffsetOf(drops), dist) && m.offset == OffsetOf(drops)
            && m.spread == SpreadOf(drops) && |Errors(drops, true)| >= MIN_PLACED
  {
    LegacyVerdict(drops);
  }

  // ---------------------------------------------------------------- the spread bounds a majority

  lemma {:induction false} AtMostMonotone(s: seq<int>, u: int, v: int)
    requires u <= v
    ensures AtMost(s, u) <= AtMost(s, v)
  {
    if s != [] { AtMostMonotone(s[1..], u, v); }
  }

  /** A bound that reaches the median covers more than half of the samples. */
  lemma {:induction false} MajorityWithin(s: seq<int>, bound: int)
    requires s != [] && Median(s) <= bound
    ensures AtMost(s, bound) >= |s| / 2 + 1
  {
    AtMostMonotone(s, Median(s), bound);
  }

  /** What is left of the errors of a fitted map: their deviations from the fit. */
  lemma {:induction false} FittedErrors(drops: seq<Drop>, dist: Distance, alongX: bool)
    requires Fitted(drops, dist)
    ensures var fit := OffsetOf(drops);
            Deviations(Errors(Aligned(drops, dist).drops, alongX), 0)
            == Deviations(Errors(drops, alongX), if alongX then fit.x else fit.y)
  {
    FittedMap(drops, dist);
    var fit, v := OffsetOf(drops), ORIGIN.Minus(OffsetOf(drops));
    assert ORIGIN.Minus(v) == fit;
    ErrorsMoved(drops, v, dist);
    DeviationsShifted(Errors(MoveAll(drops, fit, dist), alongX), Errors(drops, alongX), if alongX then fit.x else fit.y, 0);
  }

  /** After a fit, more than half of the usable drops lie within the spread of their target on each axis. */
  lemma {:induction false} SpreadCoversMajority(drops: seq<Drop>, dist: Distance, alongX: bool)
    requires Fitted(drops, dist)
    ensures var m := Aligned(drops, dist);
            var off := Deviations(Errors(m.drops, alongX), 0);
            |off| == |Errors(drops, true)| >= MIN_PLACED && AtMost(off, m.spread) >= |off| / 2 + 1
  {
    FittedMap(drops, dist);
    SameLength(drops);
    FittedErrors(drops, dist, alongX);
    MajorityWithin(Deviations(Errors(drops, alongX), if alongX then OffsetOf(drops).x else OffsetOf(drops).y), SpreadOf(drops));
  }

  // ---------------------------------------------------------------- the verdict and the estimate

  predicate IsSample(d: Drop) { d.placed && d.targetId >= 0 }

  /** The samples are the placed drops with a resolved target. */
  lemma {:induction false} ErrorsCounted(drops: seq<Drop>, alongX: bool)
    ensures |Errors(drops, alongX)| == |set i | 0 <= i < |drops| && IsSample(drops[i])|
  {
    if drops != [] {
      var n := |drops| - 1;
      ErrorsCounted(drops[..n], alongX);
      var before := set i | 0 <= i < n && IsSample(drops[..n][i]);
      assert (set i | 0 <= i < |drops| && IsSample(drops[i])) == before + (if IsSample(drops[n]) then {n} else {});
    }
  }

  /** Which verdict a map gets: trusted when it has drops and none is legacy; refused when both kinds occur,
      when fewer than five drops are samples, or when they scatter beyond the snap distance; else aligned. */
  lemma {:induction false} VerdictIff(drops: seq<Drop>, dist: Distance)
    ensures var m, samples := Aligned(drops, dist), |set i | 0 <= i < |drops| && IsSample(drops[i])|;
            var legacy, corrected := exists d :: d in drops && d.legacy, exists d :: d in drops && !d.legacy;
            && (m.trusted <==> corrected && !legacy)
            && (m.issue == MixedCoordinateSpaces <==> corrected && legacy)
            && (m.issue == TooFewPlaced <==> legacy && !corrected && samples < 5)
            && (m.issue == Inconsistent <==> legacy && !corrected && samples >= 5 && SpreadOf(drops) > 1500)
            && (m.aligned <==> m.issue == NoIssue) && (!m.aligned ==> m.drops == [])
            && (m.spread == if legacy && !corrected && samples >= 5 then SpreadOf(drops) else 0)
  {
    ErrorsCounted(drops, true);
    if drops != [] { assert drops[0] in drops; }
  }

  /** The fit moves each drop by the offset, measures its distance to its nearest slot anew, and changes
      nothing else. */
  lemma {:induction false} MovedAt(drops: seq<Drop>, offset: Point, dist: Distance, i: nat)
    requires i < |drops|
    ensures var was, now := drops[i], MoveAll(drops, offset, dist)[i];
            && now.release.x == was.release.x - offset.x && now.release.y == was.release.y - offset.y
            && now == was.(release := now.release, nearestDistance := now.nearestDistance)
            && (was.nearest.None? ==> now.nearestDistance == was.nearestDistance)
            && (was.nearest.Some? ==>
                  now.nearestDistance == Some(dist(now.release.x - was.nearest.value.x, now.release.y - was.nearest.value.y)))
  {
    if i < |drops| - 1 { MovedAt(drops[..|drops| - 1], offset, dist, i); }
  }

  /** The offset is the median error on each axis, and the spread the greater of the median deviations from
      it: on some axis no more than half of the samples deviate by less. */
  lemma {:induction false} EstimateIsMedian(drops: seq<Drop>)
    requires Errors(drops, true) != []
    ensures var n, o := |Errors(drops, true)| / 2, OffsetOf(drops);
            && Below(Errors(drops, true), o.x) <= n < AtMost(Errors(drops, true), o.x)
            && Below(Errors(drops, false), o.y) <= n < AtMost(Errors(drops, false), o.y)
            && (Below(Deviations(Errors(drops, true), o.x), SpreadOf(drops)) <= n
                || Below(Deviations(Errors(drops, false), o.y), SpreadOf(drops)) <= n)
  {
    SameLength(drops);
  }

  /** Deviations are the distances of the samples from the centre. */
  lemma {:induction false} DeviationAt(values: seq<int>, centre: int, i: nat)
    requires i < |values|
    ensures Deviations(values, centre)[i] == if values[i] >= centre then values[i] - centre else centre - values[i]
  {
    if i < |values| - 1 { DeviationAt(values[..|values| - 1], centre, i); }
  }
}
