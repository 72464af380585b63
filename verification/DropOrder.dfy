/** When clusterDrops publishes every drop once whatever order the drops arrive in: a condition on the
    layout alone. Which drops start a search depends on the order, so no such condition is exact for a
    single one. */
module DropOrder {
  import opened DropClustering

  /** A chain of drops on the screen, each within the radius of the one before. */
  ghost predicate Links(drops: seq<Drop>, radius: int, p: seq<Drop>) {
    && p != [] && (forall i :: 0 <= i < |p| ==> p[i] in drops)
    && forall i :: 0 < i < |p| ==> p[i].finite && Distance2(p[i - 1], p[i]) <= radius * radius
  }

  predicate Close(a: Drop, b: Drop) { Distance2(a, b) <= MAX_CLUSTER_DIAMETER * MAX_CLUSTER_DIAMETER }

  /** No chain on this screen leads from a drop to one further away than the cluster diameter. */
  ghost predicate Compact(drops: seq<Drop>, radius: int) {
    forall p: seq<Drop> :: Links(drops, radius, p) && p[0].finite ==> Close(p[0], p[|p| - 1])
  }

  ghost predicate OnceInEveryOrder(drops: seq<Drop>, radius: int) {
    forall ds :: multiset(ds) == multiset(drops) ==> OnceEach(ds, radius)
  }

  function DropsAt(drops: seq<Drop>, p: seq<nat>): (r: seq<Drop>)
    requires forall i :: 0 <= i < |p| ==> p[i] < |drops|
    ensures |r| == |p| && forall i :: 0 <= i < |p| ==> r[i] == drops[p[i]]
  {
    if p == [] then [] else DropsAt(drops, p[..|p| - 1]) + [drops[p[|p| - 1]]]
  }

  /** Compactness does not depend on the order, and makes the field of any order tight. */
  lemma {:induction false} CompactIsTight(drops: seq<Drop>, ds: seq<Drop>, radius: int)
    requires Compact(drops, radius) && multiset(ds) == multiset(drops)
    ensures Tight(FieldOf(ds, radius))
  {
    var f := FieldOf(ds, radius);
    forall i, k | 0 <= i < f.size && 0 <= k < f.size && f.finite(i) && Chained(f, i, k) ensures f.inSpan(i, k) {
      var p :| IsPath(f, p) && p[0] == i && p[|p| - 1] == k;
      var values := DropsAt(ds, p);
      SameMembers(ds, drops);
      forall j | 0 < j < |p| ensures values[j].finite && Distance2(values[j - 1], values[j]) <= radius * radius {
        assert Hop(f, p[j - 1], p[j]);
      }
      assert Links(drops, radius, values);
    }
  }

  lemma {:induction false} SameMembers(a: seq<Drop>, b: seq<Drop>)
    requires multiset(a) == multiset(b)
    ensures forall x :: x in a <==> x in b
  {
    assert forall x :: x in a <==> x in multiset(a);
    assert forall x :: x in b <==> x in multiset(b);
  }

  lemma {:induction false} First(far: nat -> bool, n: nat) returns (t: nat)
    requires far(n)
    ensures t <= n && far(t) && forall i: nat :: i < t ==> !far(i)
    decreases n
  {
    if i: nat :| i < n && far(i) {
      t := First(far, i);
    } else {
      t := n;
    }
  }

  /** The first step of a chain that leaves the cluster diameter of its start. */
  lemma {:induction false} LeavingStep(p: seq<Drop>) returns (t: nat)
    requires p != [] && !Close(p[0], p[|p| - 1])
    ensures 0 < t < |p| && !Close(p[0], p[t]) && forall i :: 0 <= i < t ==> Close(p[0], p[i])
  {
    var far := (i: nat) => i < |p| && !Close(p[0], p[i]);
    t := First(far, |p| - 1);
    assert Close(p[0], p[0]);
    forall i: nat | i < t ensures Close(p[0], p[i]) { assert !far(i); }
  }

  /** The same drops with two of them in front. */
  lemma {:induction false} InFront(drops: seq<Drop>, a: Drop, c: Drop) returns (ds: seq<Drop>)
    requires a in drops && c in drops && a != c
    ensures |ds| >= 2 && ds[0] == a && ds[1] == c && multiset(ds) == multiset(drops)
  {
    var rest := Without(drops, a);
    SameMembersAfter(drops, rest, a, c);
    ds := [a, c] + Without(rest, c);
    assert multiset(ds) == multiset{a, c} + multiset(Without(rest, c));
  }

  lemma {:induction false} SameMembersAfter(drops: seq<Drop>, rest: seq<Drop>, a: Drop, c: Drop)
    requires c in drops && a != c && multiset(rest) == multiset(drops) - multiset{a}
    ensures c in rest
  {
    assert c in multiset(rest);
  }

  function Without(drops: seq<Drop>, a: Drop): (r: seq<Drop>)
    requires a in drops
    ensures multiset(r) == multiset(drops) - multiset{a}
  {
    assert drops == [drops[0]] + drops[1..];
    if drops[0] == a then drops[1..] else [drops[0]] + Without(drops[1..], a)
  }

  /** Along a chain that stays close to its start, the search from the start reaches every drop. */
  lemma {:induction false} ChainReached(ds: seq<Drop>, radius: int, p: seq<Drop>, t: nat, w: nat)
    requires t < |p| && Links(ds, radius, p) && ds[0] == p[0] && p[0].finite
    requires forall i :: 0 <= i <= t ==> Close(p[0], p[i])
    requires w < |ds| && ds[w] == p[t]
    ensures Reach(FieldOf(ds, radius), 0, w)
  {
    var f := FieldOf(ds, radius);
    ReachSelf(f, 0);
    if t > 0 {
      var v := if t == 1 then 0 else PlaceOf(ds, p[t - 1]);
      ChainReached(ds, radius, p, t - 1, v);
      ReachStep(f, 0, v, w);
    } else if w != 0 {
      assert Distance2(ds[0], ds[w]) == 0;
      ReachStep(f, 0, 0, w);
    }
  }

  function PlaceOf(ds: seq<Drop>, d: Drop): (w: nat)
    requires d in ds
    ensures w < |ds| && ds[w] == d
  {
    if ds[0] == d then 0 else 1 + PlaceOf(ds[1..], d)
  }

  lemma {:induction false} LeavingChainWithin(ds: seq<Drop>, radius: int, p: seq<Drop>, t: nat)
    requires -MAX_CLUSTER_DIAMETER <= radius <= MAX_CLUSTER_DIAMETER
    requires |ds| >= 2 && Links(ds, radius, p) && p[0].finite && 0 < t < |p| && ds[0] == p[0] && ds[1] == p[t]
    requires !Close(p[0], p[t]) && forall i :: 0 <= i < t ==> Close(p[0], p[i])
    ensures !OnceEach(ds, radius)
  {
    var f, w := FieldOf(ds, radius), PlaceOf(ds, p[t - 1]);
    ChainReached(ds, radius, p, t - 1, w);
    DistanceSymmetric(p[t - 1], p[t]);
    RadiusWithinSpan(radius);
    ReachSelf(f, 1);
    assert p[t - 1].finite;
    ReachStep(f, 1, 1, w);
    assert Seed(f, 0);
    assert !Reach(f, 0, 1);
    TwoSearchesCountTwice(f, w, |ds|, 0, 1);
  }

  lemma {:induction false} Squares(x: nat, y: nat)
    requires x <= y
    ensures x * x <= y * y
  {
  }

  lemma {:induction false} RadiusWithinSpan(radius: int)
    requires -MAX_CLUSTER_DIAMETER <= radius <= MAX_CLUSTER_DIAMETER
    ensures radius * radius <= MAX_CLUSTER_DIAMETER * MAX_CLUSTER_DIAMETER
  {
    NegatedSquare(radius);
    Squares(if radius < 0 then -radius else radius, MAX_CLUSTER_DIAMETER);
  }

  lemma {:induction false} OrderWithinDiameter(drops: seq<Drop>, radius: int)
    requires -MAX_CLUSTER_DIAMETER <= radius <= MAX_CLUSTER_DIAMETER
    ensures OnceInEveryOrder(drops, radius) <==> Compact(drops, radius)
  {
    if Compact(drops, radius) {
      forall ds | multiset(ds) == multiset(drops) ensures OnceEach(ds, radius) {
        CompactIsTight(drops, ds, radius);
        SmallClustersAppearOnce(ds, radius);
      }
    } else {
      var p: seq<Drop> :| Links(drops, radius, p) && p[0].finite && !Close(p[0], p[|p| - 1]);
      var t := LeavingStep(p);
      assert Close(p[0], p[0]);
      var ds := InFront(drops, p[0], p[t]);
      SameMembers(ds, drops);
      assert Links(ds, radius, p);
      LeavingChainWithin(ds, radius, p, t);
    }
  }

  // ---------------------------------------------------------------- a radius beyond the diameter

  /** The diameter bounds every hop, so a greater radius searches like the diameter itself. */
  function Effective(radius: int): int {
    if -MAX_CLUSTER_DIAMETER <= radius <= MAX_CLUSTER_DIAMETER then radius else MAX_CLUSTER_DIAMETER
  }

  /** With a wide radius a search returns its seed and every drop with coordinates near enough to it. */
  lemma {:induction false} WideReach(drops: seq<Drop>, radius: int, seed: nat, k: nat)
    requires seed < |drops| && radius * radius >= MAX_CLUSTER_DIAMETER * MAX_CLUSTER_DIAMETER
    ensures Reach(FieldOf(drops, radius), seed, k) <==>
            k == seed || (k < |drops| && drops[seed].finite && drops[k].finite && Close(drops[seed], drops[k]))
  {
    var f := FieldOf(drops, radius);
    ReachSelf(f, seed);
    if Reach(f, seed, k) && k != seed {
      var p :| Joins(f, seed, k, p);
      assert |p| > 1 && Hop(f, p[|p| - 2], p[|p| - 1]);
    }
    if k < |drops| && drops[seed].finite && drops[k].finite && Close(drops[seed], drops[k]) {
      ReachStep(f, seed, seed, k);
    }
  }

  lemma {:induction false} BeyondDiameter(radius: int)
    requires Effective(radius) != radius
    ensures radius * radius >= MAX_CLUSTER_DIAMETER * MAX_CLUSTER_DIAMETER
  {
    NegatedSquare(radius);
    Squares(MAX_CLUSTER_DIAMETER, if radius < 0 then -radius else radius);
  }

  ghost predicate ReachAlike(f: Field, g: Field) {
    f.size == g.size && forall i: nat, k: nat :: i < f.size ==> (Reach(f, i, k) <==> Reach(g, i, k))
  }

  /** Searches that return the same drops have the same seeds. */
  lemma {:induction false} SameSeeds(f: Field, g: Field, j: nat)
    requires ReachAlike(f, g) && j < f.size
    ensures Seed(f, j) <==> Seed(g, j)
    decreases j
  {
    forall i: nat | i < j ensures Seed(f, i) <==> Seed(g, i) { SameSeeds(f, g, i); }
  }

  lemma {:induction false} SameAppearances(f: Field, g: Field, k: nat, n: nat)
    requires ReachAlike(f, g) && n <= f.size
    ensures Appearances(f, k, n) == Appearances(g, k, n)
  {
    if n > 0 {
      SameAppearances(f, g, k, n - 1);
      SameSeeds(f, g, n - 1);
    }
  }

  lemma {:induction false} SameAsEffective(ds: seq<Drop>, radius: int)
    ensures OnceEach(ds, radius) <==> OnceEach(ds, Effective(radius))
  {
    if Effective(radius) != radius {
      var f, g := FieldOf(ds, radius), FieldOf(ds, MAX_CLUSTER_DIAMETER);
      BeyondDiameter(radius);
      forall i: nat, k: nat | i < f.size ensures Reach(f, i, k) <==> Reach(g, i, k) {
        WideReach(ds, radius, i, k);
        WideReach(ds, MAX_CLUSTER_DIAMETER, i, k);
      }
      forall k: nat | k < |ds| ensures Appearances(f, k, |ds|) == Appearances(g, k, |ds|) {
        SameAppearances(f, g, k, |ds|);
      }
    }
  }

  /** With the start of a leaving chain first and the step that leaves second, both searches return the
      drop before that step, so some drop is not returned exactly once. */
  lemma {:induction false} LeavingChainRepeats(ds: seq<Drop>, radius: int, p: seq<Drop>, t: nat)
    requires |ds| >= 2 && Links(ds, Effective(radius), p) && p[0].finite
    requires 0 < t < |p| && ds[0] == p[0] && ds[1] == p[t]
    requires !Close(p[0], p[t]) && forall i :: 0 <= i < t ==> Close(p[0], p[i])
    ensures !OnceEach(ds, radius)
  {
    LeavingChainWithin(ds, Effective(radius), p, t);
    SameAsEffective(ds, radius);
  }

  /** Every drop is returned exactly once in every order of the drops exactly when no chain of hops, each
      within the radius and the cluster diameter, leads further than that diameter from where it starts. */
  lemma {:induction false} OnceInEveryOrderIff(drops: seq<Drop>, radius: int)
    ensures OnceInEveryOrder(drops, radius) <==> Compact(drops, Effective(radius))
  {
    OrderWithinDiameter(drops, Effective(radius));
    forall ds | multiset(ds) == multiset(drops) ensures OnceEach(ds, radius) <==> OnceEach(ds, Effective(radius)) {
      SameAsEffective(ds, radius);
    }
  }

  ghost predicate PublishedOnceInEveryOrder(drops: seq<Drop>, radius: int, minThreshold: int) {
    forall ds :: multiset(ds) == multiset(drops) ==> PublishedOnceEach(ds, radius, minThreshold)
  }

  lemma {:induction false} FewArePublishedOnce(drops: seq<Drop>, radius: int, minThreshold: int)
    requires |drops| < minThreshold
    ensures PublishedOnceInEveryOrder(drops, radius, minThreshold)
  {
    forall ds | multiset(ds) == multiset(drops) ensures PublishedOnceEach(ds, radius, minThreshold) {
      assert |ds| == |multiset(ds)| == |drops|;
    }
  }

  /** What is published: every drop exactly once in every order of the drops, exactly when there are too
      few to cluster or no chain leads further than the cluster diameter from where it starts. */
  lemma {:induction false} PublishedOnceInEveryOrderIff(drops: seq<Drop>, radius: int, minThreshold: int)
    ensures PublishedOnceInEveryOrder(drops, radius, minThreshold) <==>
            |drops| < minThreshold || Compact(drops, Effective(radius))
  {
    if |drops| < minThreshold {
      FewArePublishedOnce(drops, radius, minThreshold);
    } else {
      OnceInEveryOrderIff(drops, radius);
      PublishedAsReturned(drops, radius, minThreshold);
    }
  }

  lemma {:induction false} PublishedAsReturned(drops: seq<Drop>, radius: int, minThreshold: int)
    requires |drops| >= minThreshold
    ensures PublishedOnceInEveryOrder(drops, radius, minThreshold) <==> OnceInEveryOrder(drops, radius)
  {
    forall ds | multiset(ds) == multiset(drops) ensures PublishedOnceEach(ds, radius, minThreshold) <==> OnceEach(ds, radius) {
      assert |ds| == |multiset(ds)| == |drops|;
      ManyArePublishedAsReturned(ds, radius, minThreshold);
    }
  }

  /** Four drops in a row, 350 apart, at the dashboard's own radius and threshold: the chain leads 1050
      away, yet too few drops are there to cluster and each is published once. */
  lemma {:induction false} FourDropsArePublishedOnce()
    ensures var drops := [Drop(true, 0, 0), Drop(true, 350, 0), Drop(true, 700, 0), Drop(true, 1050, 0)];
            !Compact(drops, 350) && PublishedOnceInEveryOrder(drops, 350, 5)
  {
    var drops := [Drop(true, 0, 0), Drop(true, 350, 0), Drop(true, 700, 0), Drop(true, 1050, 0)];
    FewArePublishedOnce(drops, 350, 5);
    assert Distance2(drops[0], drops[1]) == Distance2(drops[1], drops[2]) == Distance2(drops[2], drops[3]) == 350 * 350;
    LeavesTheDiameter(drops, 350, drops);
  }

  /** One chain that leads too far is enough. */
  lemma {:induction false} LeavesTheDiameter(drops: seq<Drop>, radius: int, p: seq<Drop>)
    ensures Links(drops, radius, p) && p[0].finite && !Close(p[0], p[|p| - 1]) ==> !Compact(drops, radius)
  {
  }
}
