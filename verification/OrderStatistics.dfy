/** Medians and percentiles over integer samples, as puzzle_insights.go and puzzle_drops.go take them
    from a sorted copy, with the counting property that pins each of them down. */
module OrderStatistics {

  predicate Ascending(s: seq<int>) {
    forall i, j :: 0 <= i <= j < |s| ==> s[i] <= s[j]
  }

  function Insert(x: int, s: seq<int>): (r: seq<int>)
    ensures multiset(r) == multiset(s) + multiset{x} && |r| == |s| + 1
  {
    if s == [] then [x]
    else if x <= s[0] then [x] + s
    else
      assert s == [s[0]] + s[1..];
      [s[0]] + Insert(x, s[1..])
  }

  lemma {:induction false} InsertAscending(x: int, s: seq<int>)
    requires Ascending(s)
    ensures Ascending(Insert(x, s))
    ensures Insert(x, s)[0] == x || (s != [] && Insert(x, s)[0] == s[0])
  {
    if s != [] && x > s[0] {
      InsertAscending(x, s[1..]);
      AscendingCons(s[0], Insert(x, s[1..]));
    } else if s != [] {
      AscendingCons(x, s);
    }
  }

  lemma {:induction false} AscendingCons(x: int, s: seq<int>)
    requires Ascending(s) && s != [] && x <= s[0]
    ensures Ascending([x] + s)
  {
  }

  function Sort(s: seq<int>): (r: seq<int>)
    ensures Ascending(r) && multiset(r) == multiset(s) && |r| == |s|
  {
    if s == [] then []
    else
      assert s == [s[0]] + s[1..];
      InsertAscending(s[0], Sort(s[1..]));
      Insert(s[0], Sort(s[1..]))
  }

  function AtMost(s: seq<int>, v: int): nat {
    if s == [] then 0 else AtMost(s[1..], v) + (if s[0] <= v then 1 else 0)
  }

  function Below(s: seq<int>, v: int): nat {
    if s == [] then 0 else Below(s[1..], v) + (if s[0] < v then 1 else 0)
  }

  lemma {:induction false} CountsOfInsert(x: int, s: seq<int>, v: int)
    ensures AtMost(Insert(x, s), v) == AtMost(s, v) + (if x <= v then 1 else 0)
    ensures Below(Insert(x, s), v) == Below(s, v) + (if x < v then 1 else 0)
  {
    if s == [] {
    } else if x <= s[0] {
      assert ([x] + s)[1..] == s;
    } else {
      CountsOfInsert(x, s[1..], v);
      assert ([s[0]] + Insert(x, s[1..]))[1..] == Insert(x, s[1..]);
    }
  }

  lemma {:induction false} CountsOfSort(s: seq<int>, v: int)
    ensures AtMost(Sort(s), v) == AtMost(s, v) && Below(Sort(s), v) == Below(s, v)
  {
    if s != [] {
      CountsOfSort(s[1..], v);
      CountsOfInsert(s[0], Sort(s[1..]), v);
    }
  }

  lemma {:induction false} RankInAscending(s: seq<int>, k: nat, v: int)
    requires Ascending(s) && k < |s|
    ensures v == s[k] <==> Below(s, v) <= k < AtMost(s, v)
  {
    if k == 0 {
      if s[0] >= v { NoneBelow(s, v); }
      if s[0] > v { NoneAtMost(s, v); }
    } else {
      if s[0] > v {
        NoneAtMost(s, v);
      } else if s[0] == v && s[k] != v {
        RankInAscending(s[1..], k - 1, v);
        NoneBelow(s, v);
        NoneBelow(s[1..], v);
      } else {
        RankInAscending(s[1..], k - 1, v);
        if s[0] == v { NoneBelow(s, v); NoneBelow(s[1..], v); }
      }
    }
  }

  lemma {:induction false} NoneBelow(s: seq<int>, v: int)
    requires forall i :: 0 <= i < |s| ==> s[i] >= v
    ensures Below(s, v) == 0
  {
    if s != [] { NoneBelow(s[1..], v); }
  }

  lemma {:induction false} NoneAtMost(s: seq<int>, v: int)
    requires forall i :: 0 <= i < |s| ==> s[i] > v
    ensures AtMost(s, v) == 0
  {
    if s != [] { NoneAtMost(s[1..], v); }
  }

  /** The k-th smallest sample: at most k samples lie strictly below it, more than k at or below it. */
  ghost function Nth(values: seq<int>, k: nat): (v: int)
    requires k < |values|
    ensures Below(values, v) <= k < AtMost(values, v)
  {
    SortedRank(values, k, Sort(values)[k]);
    var v :| Below(values, v) <= k < AtMost(values, v);
    v
  }

  lemma {:induction false} SortedRank(values: seq<int>, k: nat, v: int)
    requires k < |values|
    ensures v == Sort(values)[k] <==> Below(values, v) <= k < AtMost(values, v)
  {
    RankInAscending(Sort(values), k, v);
    CountsOfSort(values, v);
  }

  /** No other value has that rank, and it is what indexing a sorted copy finds. */
  lemma {:induction false} NthUnique(values: seq<int>, k: nat, v: int)
    requires k < |values|
    ensures v == Nth(values, k) <==> Below(values, v) <= k < AtMost(values, v)
    ensures Sort(values)[k] == Nth(values, k)
  {
    SortedRank(values, k, v);
    SortedRank(values, k, Nth(values, k));
  }

  /** min(n*pct/100, n-1). */
  function RankIndex(n: nat, pct: nat): (k: nat)
    requires n > 0
    ensures k < n
  {
    if n * pct / 100 >= n then n - 1 else n * pct / 100
  }

  ghost function Percentile(values: seq<int>, pct: nat): int {
    if values == [] then 0 else Nth(values, RankIndex(|values|, pct))
  }

  ghost function Median(values: seq<int>): int {
    if values == [] then 0 else Nth(values, |values| / 2)
  }

  /** The median is the value of middle rank. */
  lemma {:induction false} MedianRank(values: seq<int>, v: int)
    requires values != []
    ensures v == Median(values) <==> Below(values, v) <= |values| / 2 < AtMost(values, v)
  {
    NthUnique(values, |values| / 2, v);
  }

  /** intPercentile: sort a copy, index it, clamp the index. */
  method IntPercentile(values: seq<int>, pct: nat) returns (v: int)
    ensures v == Percentile(values, pct)
  {
    if |values| == 0 { return 0; }
    var sorted := Sort(values);
    var idx := RankIndex(|sorted|, pct);
    NthUnique(values, idx, sorted[idx]);
    v := sorted[idx];
  }

  /** medianInts: the upper middle of a sorted copy. */
  method MedianInts(values: seq<int>) returns (v: int)
    ensures v == Median(values)
  {
    if |values| == 0 { return 0; }
    var sorted := Sort(values);
    NthUnique(values, |sorted| / 2, sorted[|sorted| / 2]);
    v := sorted[|sorted| / 2];
  }

  lemma {:induction false} IndexInRange(n: nat, pct: nat)
    requires n > 0 && pct < 100
    ensures RankIndex(n, pct) == n * pct / 100
  {
    MulMono(n, pct, 99);
  }

  lemma {:induction false} MulMono(n: nat, p: nat, q: nat)
    requires p <= q
    ensures n * p <= n * q
  {}

  lemma {:induction false} IndexMonotone(n: nat, p: nat, q: nat)
    requires n > 0 && p <= q
    ensures RankIndex(n, p) <= RankIndex(n, q)
  {
    MulMono(n, p, q);
  }

  /** Below 100 percent the percentile is the value of rank floor(n*p/100). */
  lemma {:induction false} PercentileRank(values: seq<int>, pct: nat, v: int)
    requires values != [] && pct < 100
    ensures v == Percentile(values, pct) <==> Below(values, v) <= |values| * pct / 100 < AtMost(values, v)
  {
    IndexInRange(|values|, pct);
    NthUnique(values, RankIndex(|values|, pct), v);
  }

  lemma {:induction false} NthMonotone(values: seq<int>, j: nat, k: nat)
    requires j <= k < |values|
    ensures Nth(values, j) <= Nth(values, k)
  {
    NthUnique(values, j, 0);
    NthUnique(values, k, 0);
  }

  lemma {:induction false} PercentileMonotone(values: seq<int>, p: nat, q: nat)
    requires p <= q
    ensures Percentile(values, p) <= Percentile(values, q)
  {
    if values != [] {
      IndexMonotone(|values|, p, q);
      NthMonotone(values, RankIndex(|values|, p), RankIndex(|values|, q));
    }
  }

  lemma {:induction false} MedianIsP50(values: seq<int>)
    ensures Percentile(values, 50) == Median(values)
  {
    assert |values| * 50 / 100 == |values| / 2;
  }

  /** An ascending list of exactly the members of s, each once. */
  ghost predicate Enumerates(keys: seq<int>, s: set<int>) {
    Ascending(keys) && multiset(keys) == multiset(s)
  }

  /** The listed keys strictly rise. */
  lemma {:induction false} EnumeratesStrictly(keys: seq<int>, s: set<int>)
    requires Enumerates(keys, s)
    ensures forall i, j :: 0 <= i < j < |keys| ==> keys[i] < keys[j]
  {
    forall i, j | 0 <= i < j < |keys| ensures keys[i] < keys[j] {
      assert keys == keys[..i] + [keys[i]] + keys[i + 1..j] + [keys[j]] + keys[j + 1..];
      assert multiset(keys)[keys[j]] <= 1;
    }
  }

  method AnyOf<T(==)>(s: set<T>) returns (x: T)
    requires s != {}
    ensures x in s
  {
    x :| x in s;
  }

  /** The keys of a map, collected in any order and sorted. */
  method SortedKeys(s: set<int>) returns (keys: seq<int>)
    ensures Enumerates(keys, s)
  {
    var found: seq<int>, left: set<int> := [], s;
    while left != {}
      invariant left <= s && multiset(found) + multiset(left) == multiset(s)
      decreases left
    {
      var x := AnyOf(left);
      found, left := found + [x], left - {x};
    }
    keys := Sort(found);
  }

  lemma {:induction false} AscendingUnique(a: seq<int>, b: seq<int>)
    requires Ascending(a) && Ascending(b) && multiset(a) == multiset(b)
    ensures a == b
  {
    assert |a| == |multiset(a)| && |b| == |multiset(b)|;
    if a != [] {
      LeastFirst(a, b);
      LeastFirst(b, a);
      TailMultiset(a);
      TailMultiset(b);
      AscendingUnique(a[1..], b[1..]);
    }
  }

  lemma {:induction false} TailMultiset(s: seq<int>)
    requires s != []
    ensures multiset(s[1..]) == multiset(s) - multiset{s[0]}
  {
    assert s == [s[0]] + s[1..];
  }

  lemma {:induction false} LeastFirst(a: seq<int>, b: seq<int>)
    requires a != [] && b != [] && Ascending(a) && multiset(a) == multiset(b)
    ensures a[0] <= b[0]
  {
    assert b[0] in multiset(a);
  }

  /** Every statistic taken from the sorted copy ignores the order samples arrived in. */
  lemma {:induction false} OrderIrrelevant(a: seq<int>, b: seq<int>, pct: nat)
    requires multiset(a) == multiset(b)
    ensures Percentile(a, pct) == Percentile(b, pct) && Median(a) == Median(b)
  {
    assert |a| == |multiset(a)| && |b| == |multiset(b)|;
    AscendingUnique(Sort(a), Sort(b));
    if a != [] {
      NthUnique(a, RankIndex(|a|, pct), 0);
      NthUnique(b, RankIndex(|b|, pct), 0);
      NthUnique(a, |a| / 2, 0);
      NthUnique(b, |b| / 2, 0);
    }
  }
}
