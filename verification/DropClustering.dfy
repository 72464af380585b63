/** Bounded-span breadth-first clustering of release points (dashboard/src/components/dropClustering.ts). */
module DropClustering {
  import opened Basics

  datatype Drop = Drop(finite: bool, x: int, y: int)

  const MAX_CLUSTER_DIAMETER := 700

  function Distance2(a: Drop, b: Drop): int {
    (a.x - b.x) * (a.x - b.x) + (a.y - b.y) * (a.y - b.y)
  }

  lemma {:induction false} DistanceSymmetric(a: Drop, b: Drop)
    ensures Distance2(a, b) == Distance2(b, a)
  {
    NegatedSquare(a.x - b.x);
    NegatedSquare(a.y - b.y);
  }

  lemma {:induction false} NegatedSquare(n: int)
    ensures n * n == (-n) * (-n)
  {
  }

  /** The drops by index, with the three tests the search makes on them: coordinates present, within
      the radius of one another, within the cluster diameter of one another. */
  datatype Field = Field(size: nat, finite: nat -> bool, near: (nat, nat) -> bool, inSpan: (nat, nat) -> bool)

  function FieldOf(drops: seq<Drop>, radius: int): Field {
    Field(|drops|,
          (i: nat) => i < |drops| && drops[i].finite,
          (i: nat, j: nat) => i < |drops| && j < |drops| && Distance2(drops[i], drops[j]) <= radius * radius,
          (i: nat, j: nat) => i < |drops| && j < |drops| && Distance2(drops[i], drops[j]) <= MAX_CLUSTER_DIAMETER * MAX_CLUSTER_DIAMETER)
  }

  /** One hop from drop i to drop j: j has coordinates and lies within the radius of i. */
  predicate Hop(f: Field, i: nat, j: nat) { f.finite(j) && f.near(i, j) }

  // ---------------------------------------------------------------- what a search should find

  ghost predicate IsPath(f: Field, p: seq<nat>) {
    && p != [] && (forall i :: 0 <= i < |p| ==> p[i] < f.size)
    && forall i :: 0 < i < |p| ==> Hop(f, p[i - 1], p[i])
  }

  /** Drop k is joined to the seed by hops through drops that all stay within the span of the seed;
      a seed without coordinates is joined to nothing but itself. */
  ghost predicate Joins(f: Field, seed: nat, k: nat, p: seq<nat>)
    requires seed < f.size
  {
    && IsPath(f, p) && p[0] == seed && p[|p| - 1] == k
    && (forall i :: 0 < i < |p| ==> f.inSpan(seed, p[i]))
    && (!f.finite(seed) ==> |p| == 1)
  }

  ghost predicate Reach(f: Field, seed: nat, k: nat)
    requires seed < f.size
  {
    exists p :: Joins(f, seed, k, p)
  }

  lemma {:induction false} ReachSelf(f: Field, seed: nat)
    requires seed < f.size
    ensures Reach(f, seed, seed)
  {
    assert Joins(f, seed, seed, [seed]);
  }

  lemma {:induction false} ReachStep(f: Field, seed: nat, i: nat, j: nat)
    requires seed < f.size && j < f.size && Reach(f, seed, i)
    requires f.finite(seed) && Hop(f, i, j) && f.inSpan(seed, j)
    ensures Reach(f, seed, j)
  {
    var p :| Joins(f, seed, i, p);
    assert Joins(f, seed, j, p + [j]);
  }

  /** A set that holds the seed and is closed under bounded hops holds everything reachable. */
  lemma {:induction false} ClosedHoldsPath(f: Field, seed: nat, k: nat, p: seq<nat>, found: seq<nat>)
    requires seed < f.size && Joins(f, seed, k, p) && seed in found
    requires forall i :: i in found ==> i < f.size
    requires f.finite(seed) ==>
               forall i, j :: i in found && 0 <= j < f.size && Hop(f, i, j) && f.inSpan(seed, j) ==> j in found
    ensures k in found
    decreases |p|
  {
    if |p| > 1 {
      var q := p[..|p| - 1];
      assert Joins(f, seed, q[|q| - 1], q);
      ClosedHoldsPath(f, seed, q[|q| - 1], q, found);
      assert Hop(f, p[|p| - 2], p[|p| - 1]) && f.inSpan(seed, k);
    }
  }

  // ---------------------------------------------------------------- the search

  lemma {:induction false} DistinctFits(s: seq<nat>, n: nat)
    requires Distinct(s) && forall i :: i in s ==> i < n
    ensures |s| <= n
  {
    if s == [] { return; }
    assert n > 0 by { assert s[0] in s; }
    if n - 1 in s {
      var i :| 0 <= i < |s| && s[i] == n - 1;
      var rest := s[..i] + s[i + 1..];
      assert forall k :: 0 <= k < |rest| ==> rest[k] == (if k < i then s[k] else s[k + 1]);
      assert forall x :: x in rest ==> x in s && x != s[i];
      DistinctFits(rest, n - 1);
    } else {
      DistinctFits(s, n - 1);
    }
  }

  /** What the search has found so far, all of it justified. */
  ghost predicate Found(f: Field, seed: nat, found: seq<nat>)
    requires seed < f.size
  {
    && Distinct(found) && seed in found
    && forall i :: i in found ==> i < f.size && Reach(f, seed, i)
  }

  /** Everything one bounded hop from i, among the first n drops, has been found. */
  ghost predicate Explored(f: Field, seed: nat, i: nat, n: nat, found: seq<nat>)
    requires seed < f.size && i < f.size && n <= f.size
  {
    forall j :: 0 <= j < n && Hop(f, i, j) && f.inSpan(seed, j) ==> j in found
  }

  /** gatherConnected returns each reachable drop once, and no other. */
  method GatherConnected(f: Field, start: nat) returns (found: seq<nat>)
    requires start < f.size
    ensures Distinct(found) && forall k :: k in found <==> Reach(f, start, k)
  {
    found := [start];
    ReachSelf(f, start);
    if f.finite(start) {
      var queue := [start];
      while |queue| > 0
        invariant Found(f, start, found)
        invariant forall q :: q in queue ==> q in found
        invariant forall i :: i in found && i !in queue ==> i < f.size && Explored(f, start, i, f.size, found)
        decreases f.size - |found|, |queue|
      {
        var curr := queue[0];
        assert curr in queue;
        DistinctFits(found, f.size);
        found, queue := Expand(f, start, curr, found, queue[1..]);
      }
    }
    forall k | Reach(f, start, k) ensures k in found {
      var p :| Joins(f, start, k, p);
      if f.finite(start) {
        forall i, j | i in found && 0 <= j < f.size && Hop(f, i, j) && f.inSpan(start, j) ensures j in found {
          assert Explored(f, start, i, f.size, found);
        }
      }
      ClosedHoldsPath(f, start, k, p, found);
    }
  }

  /** The inner loop: queue every new neighbour of curr. */
  method Expand(f: Field, seed: nat, curr: nat, found0: seq<nat>, queue0: seq<nat>) returns (found: seq<nat>, queue: seq<nat>)
    requires seed < f.size && f.finite(seed) && Found(f, seed, found0) && curr in found0
    requires forall q :: q in queue0 ==> q in found0
    requires forall i :: i in found0 && i !in queue0 && i != curr ==> i < f.size && Explored(f, seed, i, f.size, found0)
    ensures Found(f, seed, found) && forall q :: q in queue ==> q in found
    ensures forall i :: i in found && i !in queue ==> i < f.size && Explored(f, seed, i, f.size, found)
    ensures |found| <= f.size && |found| - |found0| == |queue| - |queue0| >= 0
  {
    found, queue := found0, queue0;
    for j := 0 to f.size
      invariant Found(f, seed, found) && Explored(f, seed, curr, j, found)
      invariant forall i :: i in found0 ==> i in found
      invariant forall q :: q in queue0 ==> q in queue
      invariant forall q :: q in queue ==> q in found
      invariant forall i :: i in found && i !in found0 ==> i in queue
      invariant |found| - |found0| == |queue| - |queue0| >= 0
    {
      if j !in found && Hop(f, curr, j) && f.inSpan(seed, j) {
        ReachStep(f, seed, curr, j);
        found, queue := found + [j], queue + [j];
      }
    }
    DistinctFits(found, f.size);
  }

  // ---------------------------------------------------------------- seeds and appearances

  /** Drop j starts a search of its own: no earlier search reached it. */
  ghost predicate Seed(f: Field, j: nat)
    requires j < f.size
    decreases j
  {
    forall i :: 0 <= i < j && Seed(f, i) ==> !Reach(f, i, j)
  }

  /** How many of the first n searches return drop k. */
  ghost function Appearances(f: Field, k: nat, n: nat): nat
    requires n <= f.size
  {
    if n == 0 then 0
    else Appearances(f, k, n - 1) + (if Seed(f, n - 1) && Reach(f, n - 1, k) then 1 else 0)
  }

  lemma {:induction false} SomeSearchCounts(f: Field, k: nat, n: nat, i: nat)
    requires i < n <= f.size && Seed(f, i) && Reach(f, i, k)
    ensures Appearances(f, k, n) >= 1
  {
    if i < n - 1 { SomeSearchCounts(f, k, n - 1, i); }
  }

  /** No drop is lost: each is returned by its own search or by an earlier one. */
  lemma {:induction false} EveryDropAppears(f: Field, k: nat)
    requires k < f.size
    ensures Appearances(f, k, f.size) >= 1
  {
    if Seed(f, k) {
      ReachSelf(f, k);
      SomeSearchCounts(f, k, f.size, k);
    } else {
      var i :| 0 <= i < k && Seed(f, i) && Reach(f, i, k);
      SomeSearchCounts(f, k, f.size, i);
    }
  }

  lemma {:induction false} TwoSearchesCountTwice(f: Field, k: nat, n: nat, i: nat, j: nat)
    requires i < j < n <= f.size && Seed(f, i) && Seed(f, j) && Reach(f, i, k) && Reach(f, j, k)
    ensures Appearances(f, k, n) >= 2
  {
    if j < n - 1 {
      TwoSearchesCountTwice(f, k, n - 1, i, j);
    } else {
      SomeSearchCounts(f, k, n - 1, i);
    }
  }

  lemma {:induction false} RepeatedMeansTwoSearches(f: Field, k: nat, n: nat) returns (i: nat, j: nat)
    requires n <= f.size && Appearances(f, k, n) >= 2
    ensures i < j < n && Seed(f, i) && Seed(f, j) && Reach(f, i, k) && Reach(f, j, k)
  {
    if Appearances(f, k, n - 1) >= 2 {
      i, j := RepeatedMeansTwoSearches(f, k, n - 1);
    } else {
      i := SomeSearch(f, k, n - 1);
      j := n - 1;
    }
  }

  lemma {:induction false} SomeSearch(f: Field, k: nat, n: nat) returns (i: nat)
    requires n <= f.size && Appearances(f, k, n) >= 1
    ensures i < n && Seed(f, i) && Reach(f, i, k)
  {
    if Seed(f, n - 1) && Reach(f, n - 1, k) { i := n - 1; } else { i := SomeSearch(f, k, n - 1); }
  }

  ghost predicate SearchesDisjoint(f: Field) {
    forall i, j, k :: 0 <= i < j < f.size && 0 <= k < f.size && Seed(f, i) && Seed(f, j) ==> !(Reach(f, i, k) && Reach(f, j, k))
  }

  /** The searches do not consult what earlier ones visited, so every drop appears exactly once exactly
      when no drop is reachable from two seeds. */
  lemma {:induction false} ExactlyOnceIff(f: Field)
    ensures (forall k :: 0 <= k < f.size ==> Appearances(f, k, f.size) == 1) <==> SearchesDisjoint(f)
  {
    if SearchesDisjoint(f) {
      forall k | 0 <= k < f.size ensures Appearances(f, k, f.size) == 1 {
        EveryDropAppears(f, k);
        if Appearances(f, k, f.size) >= 2 {
          var i, j := RepeatedMeansTwoSearches(f, k, f.size);
          assert false;
        }
      }
    } else {
      var i, j, k :| 0 <= i < j < f.size && 0 <= k < f.size && Seed(f, i) && Seed(f, j) && Reach(f, i, k) && Reach(f, j, k);
      TwoSearchesCountTwice(f, k, f.size, i, j);
    }
  }

  // ---------------------------------------------------------------- when clusters are small enough

  /** Chained by hops alone, whatever the span. */
  ghost predicate Chained(f: Field, i: nat, k: nat) {
    exists p :: IsPath(f, p) && p[0] == i && p[|p| - 1] == k
  }

  ghost predicate HopsSymmetric(f: Field) {
    forall i, j :: 0 <= i < f.size && 0 <= j < f.size && f.finite(i) && Hop(f, i, j) ==> Hop(f, j, i)
  }

  lemma {:induction false} ChainSnoc(f: Field, i: nat, j: nat, k: nat)
    requires Chained(f, i, j) && k < f.size && Hop(f, j, k)
    ensures Chained(f, i, k)
  {
    var p :| IsPath(f, p) && p[0] == i && p[|p| - 1] == j;
    var q := p + [k];
    assert IsPath(f, q) && q[0] == i && q[|q| - 1] == k;
  }

  /** From any chain out of i one gets back: the chain from i to k, then from k's end to j reversed. */
  lemma {:induction false} ChainBack(f: Field, start: nat, p: seq<nat>)
    requires HopsSymmetric(f) && IsPath(f, p) && f.finite(p[0]) && Chained(f, start, p[|p| - 1])
    ensures Chained(f, start, p[0])
    decreases |p|
  {
    if |p| > 1 {
      var q := p[..|p| - 1];
      assert Hop(f, p[|p| - 2], p[|p| - 1]);
      assert f.finite(p[|p| - 2]) by { if |p| > 2 { assert Hop(f, p[|p| - 3], p[|p| - 2]); } }
      ChainSnoc(f, start, p[|p| - 1], p[|p| - 2]);
      ChainBack(f, start, q);
    }
  }

  lemma {:induction false} ChainWithinSpanReaches(f: Field, seed: nat, p: seq<nat>)
    requires IsPath(f, p) && p[0] == seed && f.finite(seed)
    requires forall k :: 0 <= k < f.size && Chained(f, seed, k) ==> f.inSpan(seed, k)
    ensures Reach(f, seed, p[|p| - 1])
    decreases |p|
  {
    if |p| == 1 {
      ReachSelf(f, seed);
    } else {
      var q := p[..|p| - 1];
      ChainWithinSpanReaches(f, seed, q);
      assert Chained(f, seed, p[|p| - 1]);
      assert Hop(f, p[|p| - 2], p[|p| - 1]);
      ReachStep(f, seed, p[|p| - 2], p[|p| - 1]);
    }
  }

  /** Drops chained by hops never lie further apart than the cluster diameter. */
  ghost predicate Tight(f: Field) {
    forall i, k :: 0 <= i < f.size && 0 <= k < f.size && f.finite(i) && Chained(f, i, k) ==> f.inSpan(i, k)
  }

  /** In a tight field no two searches overlap. */
  lemma {:induction false} SmallClustersAreDisjoint(f: Field)
    requires HopsSymmetric(f) && Tight(f)
    ensures SearchesDisjoint(f)
  {
    forall i, j, k | 0 <= i < j < f.size && 0 <= k < f.size && Seed(f, i) && Seed(f, j) && Reach(f, i, k)
      ensures !Reach(f, j, k)
    {
      var p :| Joins(f, i, k, p);
      if Reach(f, j, k) {
        var q :| Joins(f, j, k, q);
        SharedDropJoinsSeeds(f, i, j, k, p, q);
        assert false;
      }
    }
  }

  lemma {:induction false} SharedDropJoinsSeeds(f: Field, i: nat, j: nat, k: nat, p: seq<nat>, q: seq<nat>)
    requires HopsSymmetric(f) && i < j < f.size && Joins(f, i, k, p) && Joins(f, j, k, q)
    requires Tight(f)
    ensures Reach(f, i, j)
  {
    assert f.finite(k) by {
      if |p| > 1 { assert Hop(f, p[|p| - 2], p[|p| - 1]); } else { assert |q| > 1 && Hop(f, q[|q| - 2], q[|q| - 1]); }
    }
    assert Chained(f, i, k);
    ChainBack(f, i, q);
    var r :| IsPath(f, r) && r[0] == i && r[|r| - 1] == j;
    ChainWithinSpanReaches(f, i, r);
  }

  /** The layout itself hops symmetrically. */
  lemma {:induction false} LayoutSymmetric(drops: seq<Drop>, radius: int)
    ensures HopsSymmetric(FieldOf(drops, radius))
  {
    var f := FieldOf(drops, radius);
    forall i, j | 0 <= i < f.size && 0 <= j < f.size && f.finite(i) && Hop(f, i, j) ensures Hop(f, j, i) {
      DistanceSymmetric(drops[i], drops[j]);
    }
  }

  ghost predicate OnceEach(drops: seq<Drop>, radius: int) {
    forall k :: 0 <= k < |drops| ==> Appearances(FieldOf(drops, radius), k, |drops|) == 1
  }

  /** When drops chained by hops never lie further apart than the cluster diameter, every drop appears
      exactly once. */
  lemma {:induction false} SmallClustersAppearOnce(drops: seq<Drop>, radius: int)
    requires Tight(FieldOf(drops, radius))
    ensures OnceEach(drops, radius)
  {
    LayoutSymmetric(drops, radius);
    SmallClustersAreDisjoint(FieldOf(drops, radius));
    ExactlyOnceIff(FieldOf(drops, radius));
  }

  // ---------------------------------------------------------------- the published clusters

  datatype Clustered = Clustered(clusters: seq<seq<nat>>, discrete: seq<nat>)

  function InClusters(clusters: seq<seq<nat>>, k: nat): nat {
    if clusters == [] then 0
    else InClusters(clusters[..|clusters| - 1], k) + multiset(clusters[|clusters| - 1])[k]
  }

  /** How often drop k is published, in a cluster or on its own. */
  function Published(c: Clustered, k: nat): nat {
    InClusters(c.clusters, k) + multiset(c.discrete)[k]
  }

  /** What clusterDrops makes of drop k: below the threshold no search runs and every drop is published
      once; otherwise it is published as often as searches return it. */
  ghost function PublishedBy(drops: seq<Drop>, radius: int, minThreshold: int, k: nat): nat {
    if |drops| < minThreshold then 1 else Appearances(FieldOf(drops, radius), k, |drops|)
  }

  ghost predicate PublishedOnceEach(drops: seq<Drop>, radius: int, minThreshold: int) {
    forall k :: 0 <= k < |drops| ==> PublishedBy(drops, radius, minThreshold, k) == 1
  }

  /** No drop goes unpublished. */
  lemma {:induction false} NoDropIsLost(drops: seq<Drop>, radius: int, minThreshold: int, k: nat)
    requires k < |drops|
    ensures PublishedBy(drops, radius, minThreshold, k) >= 1
  {
    EveryDropAppears(FieldOf(drops, radius), k);
  }

  lemma {:induction false} ManyArePublishedAsReturned(ds: seq<Drop>, radius: int, minThreshold: int)
    requires |ds| >= minThreshold
    ensures PublishedOnceEach(ds, radius, minThreshold) <==> OnceEach(ds, radius)
  {
    forall k | 0 <= k < |ds|
      ensures PublishedBy(ds, radius, minThreshold, k) == Appearances(FieldOf(ds, radius), k, |ds|)
    {
    }
  }

  /** In a given order every drop is published exactly once exactly when there are too few to cluster or
      no drop is reachable from two seeds. */
  lemma {:induction false} PublishedOnceIff(drops: seq<Drop>, radius: int, minThreshold: int)
    ensures PublishedOnceEach(drops, radius, minThreshold) <==>
            |drops| < minThreshold || SearchesDisjoint(FieldOf(drops, radius))
  {
    if |drops| >= minThreshold {
      ManyArePublishedAsReturned(drops, radius, minThreshold);
      ReturnedOnceIff(drops, radius);
    }
  }

  lemma {:induction false} ReturnedOnceIff(drops: seq<Drop>, radius: int)
    ensures OnceEach(drops, radius) <==> SearchesDisjoint(FieldOf(drops, radius))
  {
    var f := FieldOf(drops, radius);
    ExactlyOnceIff(f);
    if SearchesDisjoint(f) {
      assert OnceEach(drops, radius);
    } else {
      var k :| 0 <= k < f.size && Appearances(f, k, f.size) != 1;
      assert !OnceEach(drops, radius);
    }
  }

  lemma {:induction false} DistinctOnce(s: seq<nat>, k: nat)
    requires Distinct(s)
    ensures multiset(s)[k] == if k in s then 1 else 0
  {
    if s != [] {
      var init := s[..|s| - 1];
      DistinctOnce(init, k);
      assert s == init + [s[|s| - 1]];
    }
  }

  // ---------------------------------------------------------------- which searches become clusters

  /** The drops reached from seed i. */
  ghost function Reached(f: Field, i: nat): set<nat>
    requires i < f.size
  {
    set k: nat | k < f.size && Reach(f, i, k)
  }

  /** A search that finds enough drops for a cluster. */
  ghost predicate Big(f: Field, i: nat, minThreshold: int)
    requires i < f.size
  {
    Seed(f, i) && |Reached(f, i)| >= minThreshold
  }

  /** The seeds of the big searches among the first n drops, in order. */
  ghost function BigSeeds(f: Field, n: nat, minThreshold: int): (s: seq<nat>)
    requires n <= f.size
    ensures forall i :: 0 <= i < |s| ==> s[i] < n
  {
    if n == 0 then []
    else BigSeeds(f, n - 1, minThreshold) + (if Big(f, n - 1, minThreshold) then [n - 1] else [])
  }

  lemma {:induction false} BigSeedsListed(f: Field, n: nat, minThreshold: int)
    requires n <= f.size
    ensures forall i: nat :: i in BigSeeds(f, n, minThreshold) <==> i < n && Big(f, i, minThreshold)
    ensures forall i, j :: 0 <= i < j < |BigSeeds(f, n, minThreshold)| ==>
              BigSeeds(f, n, minThreshold)[i] < BigSeeds(f, n, minThreshold)[j]
  {
    if n > 0 { BigSeedsListed(f, n - 1, minThreshold); }
  }

  /** Among the first n seeds, those that reach k in a search too small for a cluster. */
  ghost function SmallAppearances(f: Field, k: nat, n: nat, minThreshold: int): nat
    requires n <= f.size
  {
    if n == 0 then 0
    else SmallAppearances(f, k, n - 1, minThreshold)
         + (if Seed(f, n - 1) && Reach(f, n - 1, k) && !Big(f, n - 1, minThreshold) then 1 else 0)
  }

  /** The cluster lists the drops its seed reaches, each once. */
  ghost predicate ClusterOf(f: Field, i: nat, cluster: seq<nat>) {
    i < f.size && Distinct(cluster) && forall k :: k in cluster <==> Reach(f, i, k)
  }

  /** Cluster by cluster, in the order of their seeds. */
  ghost predicate ClustersOf(f: Field, seeds: seq<nat>, clusters: seq<seq<nat>>) {
    |clusters| == |seeds| && forall i :: 0 <= i < |seeds| ==> ClusterOf(f, seeds[i], clusters[i])
  }

  lemma {:induction false} ReachInside(f: Field, seed: nat, k: nat)
    requires seed < f.size && Reach(f, seed, k)
    ensures k < f.size
  {
    var p :| Joins(f, seed, k, p);
    assert p[|p| - 1] < f.size;
  }

  lemma {:induction false} ClusterSize(f: Field, i: nat, cluster: seq<nat>)
    requires ClusterOf(f, i, cluster)
    ensures |cluster| == |Reached(f, i)|
  {
    DistinctCount(cluster);
    forall k ensures k in cluster <==> k in Reached(f, i) {
      if Reach(f, i, k) { ReachInside(f, i, k); }
    }
    assert Members(cluster) == Reached(f, i);
  }

  function Members(s: seq<nat>): set<nat> { set k | k in s }

  lemma {:induction false} DistinctCount(s: seq<nat>)
    requires Distinct(s)
    ensures |Members(s)| == |s|
  {
    if s == [] {
      assert Members(s) == {};
    } else {
      var init, last := s[..|s| - 1], s[|s| - 1];
      DistinctCount(init);
      assert last !in init;
      assert s == init + [last];
      assert Members(s) == Members(init) + {last};
    }
  }

  /** What clusterDrops has published after the first n drops. */
  ghost predicate PublishedSoFar(f: Field, n: nat, minThreshold: int, c: Clustered)
    requires n <= f.size
  {
    && ClustersOf(f, BigSeeds(f, n, minThreshold), c.clusters)
    && forall k :: 0 <= k < f.size ==> multiset(c.discrete)[k] == SmallAppearances(f, k, n, minThreshold)
  }

  /** clusterDrops publishes each drop as often as searches return it (once each, when there are too few
      drops to cluster): the clusters are the searches that find the threshold of drops, in the order of
      their seeds, and the discrete drops those of the smaller searches. */
  method ClusterDrops(drops: seq<Drop>, radius: int, minThreshold: int) returns (c: Clustered)
    ensures forall k :: 0 <= k < |drops| ==> Published(c, k) == PublishedBy(drops, radius, minThreshold, k)
    ensures |drops| < minThreshold ==>
              c.clusters == [] && |c.discrete| == |drops| && forall i :: 0 <= i < |drops| ==> c.discrete[i] == i
    ensures |drops| >= minThreshold ==> PublishedSoFar(FieldOf(drops, radius), |drops|, minThreshold, c)
    ensures forall s :: s in c.clusters ==> |s| >= minThreshold
  {
    if |drops| < minThreshold {
      var all := seq(|drops|, i => i);
      forall k | 0 <= k < |drops| ensures multiset(all)[k] == 1 {
        DistinctOnce(all, k);
        assert all[k] == k;
      }
      return Clustered([], all);
    }
    var f := FieldOf(drops, radius);
    var visited: set<nat> := {};
    c := Clustered([], []);
    for i := 0 to |drops|
      invariant Progress(f, i, minThreshold, visited, c)
    {
      SeedIff(f, i);
      if i !in visited {
        visited, c := SearchFrom(f, i, minThreshold, visited, c);
      } else {
        NoSearch(f, i, minThreshold, visited, c);
      }
    }
  }

  /** After the first n drops: what has been visited, and what published. */
  ghost predicate Progress(f: Field, n: nat, minThreshold: int, visited: set<nat>, c: Clustered)
    requires n <= f.size
  {
    && (forall k :: 0 <= k < f.size ==> (k in visited <==> Appearances(f, k, n) >= 1))
    && (forall k :: 0 <= k < f.size ==> Published(c, k) == Appearances(f, k, n))
    && PublishedSoFar(f, n, minThreshold, c)
    && (forall s :: s in c.clusters ==> |s| >= minThreshold)
  }

  lemma {:induction false} AppearancesStep(f: Field, i: nat, visited: set<nat>, component: seq<nat>)
    requires i < f.size && Seed(f, i) && ClusterOf(f, i, component)
    requires forall k :: 0 <= k < f.size ==> (k in visited <==> Appearances(f, k, i) >= 1)
    ensures forall k :: 0 <= k < f.size ==> (k in visited + Members(component) <==> Appearances(f, k, i + 1) >= 1)
    ensures forall k :: 0 <= k < f.size ==> Appearances(f, k, i + 1) == Appearances(f, k, i) + (if k in component then 1 else 0)
  {
  }

  method SearchFrom(f: Field, i: nat, minThreshold: int, visited0: set<nat>, c0: Clustered)
    returns (visited: set<nat>, c: Clustered)
    requires i < f.size && Seed(f, i) && Progress(f, i, minThreshold, visited0, c0)
    ensures Progress(f, i + 1, minThreshold, visited, c)
  {
    var component := GatherConnected(f, i);
    visited := visited0 + Members(component);
    AppearancesStep(f, i, visited0, component);
    PublishedStepOf(f, i, minThreshold, c0, component);
    c := Publish(c0, component, minThreshold);
  }

  function PublishIn(c: Clustered, component: seq<nat>, minThreshold: int): Clustered {
    if |component| >= minThreshold then c.(clusters := c.clusters + [component])
    else c.(discrete := c.discrete + component)
  }

  lemma {:induction false} PublishedStepOf(f: Field, i: nat, minThreshold: int, c: Clustered, component: seq<nat>)
    requires i < f.size && Seed(f, i) && PublishedSoFar(f, i, minThreshold, c) && ClusterOf(f, i, component)
    ensures PublishedSoFar(f, i + 1, minThreshold, PublishIn(c, component, minThreshold))
  {
    ClusterSize(f, i, component);
    forall k | 0 <= k < f.size
      ensures multiset(c.discrete + component)[k] == multiset(c.discrete)[k] + (if Reach(f, i, k) then 1 else 0)
    {
      DistinctOnce(component, k);
    }
  }

  lemma {:induction false} NoSearch(f: Field, i: nat, minThreshold: int, visited: set<nat>, c: Clustered)
    requires i < f.size && !Seed(f, i) && Progress(f, i, minThreshold, visited, c)
    ensures Progress(f, i + 1, minThreshold, visited, c)
  {
  }

  method Publish(before: Clustered, component: seq<nat>, minThreshold: int) returns (c: Clustered)
    requires Distinct(component)
    ensures c == PublishIn(before, component, minThreshold)
    ensures forall k :: Published(c, k) == Published(before, k) + (if k in component then 1 else 0)
    ensures (forall s :: s in before.clusters ==> |s| >= minThreshold) ==> forall s :: s in c.clusters ==> |s| >= minThreshold
  {
    if |component| >= minThreshold {
      c := before.(clusters := before.clusters + [component]);
    } else {
      c := before.(discrete := before.discrete + component);
    }
    forall k ensures Published(c, k) == Published(before, k) + (if k in component then 1 else 0) {
      DistinctOnce(component, k);
      PublishedStep(before, component, k);
    }
  }

  lemma {:induction false} SeedIff(f: Field, j: nat)
    requires j < f.size
    ensures Seed(f, j) <==> Appearances(f, j, j) == 0
  {
    if Appearances(f, j, j) >= 1 {
      var i := SomeSearch(f, j, j);
    }
    if !Seed(f, j) {
      var i :| 0 <= i < j && Seed(f, i) && Reach(f, i, j);
      SomeSearchCounts(f, j, j, i);
    }
  }

  lemma {:induction false} PublishedStep(c: Clustered, component: seq<nat>, k: nat)
    ensures Published(c.(clusters := c.clusters + [component]), k) == Published(c, k) + multiset(component)[k]
    ensures Published(c.(discrete := c.discrete + component), k) == Published(c, k) + multiset(component)[k]
  {
    assert (c.clusters + [component])[..|c.clusters|] == c.clusters;
  }

  /** Five drops in a row, 300 apart, at the dashboard's own radius and threshold: the span keeps the
      fourth out of the first search, and its own search returns the third drop again. */
  lemma {:induction false} BridgeDropAppearsTwice()
    ensures var drops := [Drop(true, 0, 0), Drop(true, 300, 0), Drop(true, 600, 0), Drop(true, 900, 0), Drop(true, 1200, 0)];
            PublishedBy(drops, 350, 5, 2) >= 2 && !SearchesDisjoint(FieldOf(drops, 350))
  {
    var drops := [Drop(true, 0, 0), Drop(true, 300, 0), Drop(true, 600, 0), Drop(true, 900, 0), Drop(true, 1200, 0)];
    var f := FieldOf(drops, 350);
    assert f.size == 5 && f.finite(0) && f.finite(3) && !f.inSpan(0, 3);
    assert f.inSpan(0, 1) && f.inSpan(0, 2) && f.inSpan(3, 2);
    assert Hop(f, 0, 1) && Hop(f, 1, 2) && Hop(f, 3, 2);
    BridgeSearches(f);
  }

  lemma {:induction false} BridgeSearches(f: Field)
    requires f.size == 5 && f.finite(0) && f.finite(3) && !f.inSpan(0, 3)
    requires f.inSpan(0, 1) && f.inSpan(0, 2) && f.inSpan(3, 2) && Hop(f, 0, 1) && Hop(f, 1, 2) && Hop(f, 3, 2)
    ensures Appearances(f, 2, 5) >= 2 && !SearchesDisjoint(f)
  {
    ReachSelf(f, 0);
    ReachStep(f, 0, 0, 1);
    ReachStep(f, 0, 1, 2);
    ReachSelf(f, 3);
    ReachStep(f, 3, 3, 2);
    assert Seed(f, 0);
    assert !Reach(f, 0, 3);
    assert !Seed(f, 1) && !Seed(f, 2) && Seed(f, 3);
    TwoSearchesCountTwice(f, 2, 5, 0, 3);
    assert !SearchesDisjoint(f);
  }
}
