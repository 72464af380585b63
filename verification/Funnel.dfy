/** The ordered funnel of internal/analytics/funnel.go: one greedy scan over rows grouped by
    installation, against the definition by existence of a matching subsequence. */
module Funnel {
  import opened Basics

  datatype Row = Row(install: Id, name: Id, at: int)

  /** steps are distinct names; [from, to) bounds the first step, window the others. */
  datatype Query = Query(steps: seq<Id>, from: int, to: int, window: int) {
    predicate Valid() {
      steps != [] && forall i, j :: 0 <= i < j < |steps| ==> steps[i] != steps[j]
    }
    predicate Opens(r: Row) requires Valid() { r.name == steps[0] && from <= r.at < to }
  }

  function RowsOf(rows: seq<Row>, install: Id): seq<Row> {
    if rows == [] then [] else
    var init, last := RowsOf(rows[..|rows| - 1], install), rows[|rows| - 1];
    if last.install == install then init + [last] else init
  }

  // ---------------------------------------------------------------- the definition

  /** pick spells steps 0..k: it starts at the first row that opens the funnel, goes forward, and keeps
      every later row within the window of that first row. */
  ghost predicate Spells(q: Query, rs: seq<Row>, pick: seq<nat>, k: nat)
    requires q.Valid()
  {
    && |pick| == k + 1 <= |q.steps|
    && (forall j :: 0 <= j <= k ==> pick[j] < |rs| && rs[pick[j]].name == q.steps[j])
    && (forall j :: 0 < j <= k ==> pick[j - 1] < pick[j])
    && q.Opens(rs[pick[0]]) && (forall i :: 0 <= i < pick[0] ==> !q.Opens(rs[i]))
    && (forall j :: 0 < j <= k ==> rs[pick[j]].at <= rs[pick[0]].at + q.window)
  }

  ghost predicate Reaches(q: Query, rs: seq<Row>, k: nat)
    requires q.Valid()
  {
    exists pick :: Spells(q, rs, pick, k)
  }

  ghost function Reached(q: Query, rows: seq<Row>, k: nat): set<Id>
    requires q.Valid()
  {
    set r | r in rows && Reaches(q, RowsOf(rows, r.install), k) :: r.install
  }

  // ---------------------------------------------------------------- the greedy scan of one installation

  /** How many steps have been matched after rs, and when the first one was. */
  function Greedy(q: Query, rs: seq<Row>): (p: (nat, int))
    requires q.Valid()
    ensures p.0 <= |q.steps|
  {
    if rs == [] then (0, 0) else Advance(q, Greedy(q, rs[..|rs| - 1]), rs[|rs| - 1])
  }

  function Advance(q: Query, p: (nat, int), r: Row): (n: (nat, int))
    requires q.Valid() && p.0 <= |q.steps|
    ensures n.0 <= |q.steps|
  {
    if p.0 == |q.steps| || r.name != q.steps[p.0] then p
    else if p.0 == 0 then (if q.from <= r.at < q.to then (1, r.at) else p)
    else if r.at <= p.1 + q.window then (p.0 + 1, p.1) else p
  }

  lemma {:induction false} SpellsLonger(q: Query, rs: seq<Row>, pick: seq<nat>, k: nat)
    requires q.Valid() && rs != [] && k < |q.steps| && |pick| == k && rs[|rs| - 1].name == q.steps[k]
    requires k == 0 ==> q.Opens(rs[|rs| - 1]) && forall i :: 0 <= i < |rs| - 1 ==> !q.Opens(rs[i])
    requires k > 0 ==> Spells(q, rs[..|rs| - 1], pick, k - 1) && rs[|rs| - 1].at <= rs[pick[0]].at + q.window
    ensures Spells(q, rs, pick + [|rs| - 1], k)
  {
  }

  lemma {:induction false} SpellsStays(q: Query, rs: seq<Row>, pick: seq<nat>, k: nat)
    requires q.Valid() && rs != [] && Spells(q, rs[..|rs| - 1], pick, k)
    ensures Spells(q, rs, pick, k)
  {
  }

  /** The greedy scan finds a spelling as long as the steps it counted, dated from its first row. */
  lemma {:induction false} GreedySpells(q: Query, rs: seq<Row>) returns (pick: seq<nat>)
    requires q.Valid()
    ensures Greedy(q, rs).0 == 0 ==> pick == [] && forall i :: 0 <= i < |rs| ==> !q.Opens(rs[i])
    ensures Greedy(q, rs).0 > 0 ==> Spells(q, rs, pick, Greedy(q, rs).0 - 1) && Greedy(q, rs).1 == rs[pick[0]].at
  {
    pick := [];
    if rs != [] {
      var init, n := rs[..|rs| - 1], |rs| - 1;
      pick := GreedySpells(q, init);
      var before := Greedy(q, init).0;
      assert Greedy(q, rs) == Advance(q, Greedy(q, init), rs[n]);
      if Greedy(q, rs).0 > before {
        SpellsLonger(q, rs, pick, before);
        pick := pick + [n];
      } else if before > 0 {
        SpellsStays(q, rs, pick, before - 1);
      } else {
        assert forall i :: 0 <= i < n ==> rs[i] == init[i];
      }
    }
  }

  /** No spelling is longer than what the greedy scan counted. */
  lemma {:induction false} GreedyBest(q: Query, rs: seq<Row>, pick: seq<nat>, k: nat)
    requires q.Valid() && Spells(q, rs, pick, k)
    ensures k < Greedy(q, rs).0 && Greedy(q, rs).1 == rs[pick[0]].at
    decreases |rs|, k
  {
    var init := rs[..|rs| - 1];
    if pick[k] < |rs| - 1 {
      SpellsInPrefix(q, rs, pick, k);
      GreedyBest(q, init, pick, k);
    } else if k > 0 {
      var shorter := DropLast(q, rs, pick, k);
      GreedyBest(q, init, shorter, k - 1);
    } else {
      NothingOpened(q, init);
    }
  }

  lemma {:induction false} DropLast(q: Query, rs: seq<Row>, pick: seq<nat>, k: nat) returns (shorter: seq<nat>)
    requires q.Valid() && Spells(q, rs, pick, k) && k > 0 && pick[k] == |rs| - 1
    ensures Spells(q, rs[..|rs| - 1], shorter, k - 1) && shorter[0] == pick[0] && pick[0] < |rs| - 1
  {
    shorter := pick[..k];
    PickBounds(q, rs, pick, k);
    SpellsShorter(q, rs, pick, k, k - 1);
    SpellsInPrefix(q, rs, shorter, k - 1);
  }

  lemma {:induction false} NothingOpened(q: Query, rs: seq<Row>)
    requires q.Valid() && forall i :: 0 <= i < |rs| ==> !q.Opens(rs[i])
    ensures Greedy(q, rs).0 == 0
  {
    var found := GreedySpells(q, rs);
  }

  lemma {:induction false} SpellsInPrefix(q: Query, rs: seq<Row>, pick: seq<nat>, k: nat)
    requires q.Valid() && Spells(q, rs, pick, k) && pick[k] < |rs| - 1
    ensures Spells(q, rs[..|rs| - 1], pick, k)
  {
    PickBounds(q, rs, pick, k);
  }

  lemma {:induction false} PickBounds(q: Query, rs: seq<Row>, pick: seq<nat>, k: nat)
    requires q.Valid() && Spells(q, rs, pick, k)
    ensures forall j :: 0 <= j < k ==> pick[j] < pick[k]
  {
    if k > 0 {
      assert Spells(q, rs, pick[..k], k - 1);
      PickBounds(q, rs, pick[..k], k - 1);
    }
  }

  lemma {:induction false} SpellsShorter(q: Query, rs: seq<Row>, pick: seq<nat>, k: nat, j: nat)
    requires q.Valid() && Spells(q, rs, pick, k) && j <= k
    ensures Spells(q, rs, pick[..j + 1], j)
  {
  }

  /** The scan is complete: it counts step k exactly when some subsequence of the rows reaches it. */
  lemma {:induction false} GreedyComplete(q: Query, rs: seq<Row>, k: nat)
    requires q.Valid()
    ensures Reaches(q, rs, k) <==> k < Greedy(q, rs).0
  {
    if Reaches(q, rs, k) {
      var pick :| Spells(q, rs, pick, k);
      GreedyBest(q, rs, pick, k);
    }
    if k < Greedy(q, rs).0 {
      var pick := GreedySpells(q, rs);
      SpellsShorter(q, rs, pick, Greedy(q, rs).0 - 1, k);
    }
  }

  // ---------------------------------------------------------------- the scan over all installations

  /** ORDER BY install_id: the rows of one installation are next to each other. */
  predicate Grouped(rows: seq<Row>) {
    forall i, j, k :: 0 <= i < j < k < |rows| && rows[i].install == rows[k].install ==> rows[j].install == rows[i].install
  }

  lemma {:induction false} NoRows(rows: seq<Row>, install: Id)
    requires forall r :: r in rows ==> r.install != install
    ensures RowsOf(rows, install) == []
  {
    if rows != [] { NoRows(rows[..|rows| - 1], install); }
  }

  lemma {:induction false} ReachedIff(q: Query, rows: seq<Row>, a: Id, k: nat)
    requires q.Valid()
    ensures a in Reached(q, rows, k) <==> k < Greedy(q, RowsOf(rows, a)).0
  {
    GreedyComplete(q, RowsOf(rows, a), k);
    if forall r :: r in rows ==> r.install != a {
      NoRows(rows, a);
    }
  }

  /** One more row changes only its own installation, by at most one step. */
  lemma {:induction false} ReachedStep(q: Query, rows: seq<Row>, r: Row, k: nat)
    requires q.Valid()
    ensures Reached(q, rows + [r], k) == Reached(q, rows, k) + (if Moves(q, rows, r, k) then {r.install} else {})
    ensures Moves(q, rows, r, k) ==> r.install !in Reached(q, rows, k)
  {
    ReachedIff(q, rows, r.install, k);
    forall a ensures a in Reached(q, rows + [r], k) <==>
                     (a in Reached(q, rows, k) || (a == r.install && Moves(q, rows, r, k))) {
      ReachedStepAt(q, rows, r, k, a);
    }
  }

  /** Row r takes its installation past step k. */
  predicate Moves(q: Query, rows: seq<Row>, r: Row, k: nat)
    requires q.Valid()
  {
    var p := Greedy(q, RowsOf(rows, r.install));
    k == p.0 && Advance(q, p, r).0 > k
  }

  lemma {:induction false} ReachedStepAt(q: Query, rows: seq<Row>, r: Row, k: nat, a: Id)
    requires q.Valid()
    ensures a in Reached(q, rows + [r], k) <==> (a in Reached(q, rows, k) || (a == r.install && Moves(q, rows, r, k)))
  {
    ReachedIff(q, rows, a, k);
    ReachedIff(q, rows + [r], a, k);
    if a == r.install {
      GreedyRow(q, rows, r);
    } else {
      assert (rows + [r])[..|rows|] == rows;
    }
  }

  lemma {:induction false} ReachedCount(q: Query, rows: seq<Row>, r: Row, k: nat)
    requires q.Valid()
    ensures |Reached(q, rows + [r], k)| == |Reached(q, rows, k)| + (if Moves(q, rows, r, k) then 1 else 0)
  {
    ReachedStep(q, rows, r, k);
  }

  ghost predicate Tallied(q: Query, counts: array<nat>, rows: seq<Row>)
    requires q.Valid()
    reads counts
  {
    counts.Length == |q.steps| && forall k :: 0 <= k < |q.steps| ==> counts[k] == |Reached(q, rows, k)|
  }

  predicate Indexes(stepIndex: map<Id, nat>, steps: seq<Id>) {
    && (forall s :: s in stepIndex ==> stepIndex[s] < |steps| && steps[stepIndex[s]] == s)
    && (forall j :: 0 <= j < |steps| ==> steps[j] in stepIndex)
  }

  method IndexSteps(q: Query) returns (stepIndex: map<Id, nat>)
    requires q.Valid()
    ensures Indexes(stepIndex, q.steps)
  {
    stepIndex := map[];
    for i := 0 to |q.steps|
      invariant forall s :: s in stepIndex ==> stepIndex[s] < i && q.steps[stepIndex[s]] == s
      invariant forall j :: 0 <= j < i ==> q.steps[j] in stepIndex
    {
      stepIndex := stepIndex[q.steps[i] := i];
    }
  }

  /** The body of the inner loop: one row of the current installation. */
  method CountRow(q: Query, stepIndex: map<Id, nat>, counts: array<nat>, e: Row, wantStep: nat, firstAt: int)
    returns (want: nat, first: int)
    requires q.Valid() && Indexes(stepIndex, q.steps) && counts.Length == |q.steps| && wantStep <= |q.steps|
    modifies counts
    ensures (want, first) == Advance(q, (wantStep, firstAt), e)
    ensures forall k :: 0 <= k < |q.steps| ==> counts[k] == old(counts[k]) + (if k == wantStep < want then 1 else 0)
  {
    want, first := wantStep, firstAt;
    if e.name in stepIndex && stepIndex[e.name] == want {
      if want == 0 {
        if q.from <= e.at && e.at < q.to {
          first := e.at;
          counts[0] := counts[0] + 1;
          want := 1;
        }
      } else if e.at <= first + q.window {
        counts[want] := counts[want] + 1;
        want := want + 1;
      }
    }
  }

  lemma {:induction false} TalliedStep(q: Query, was: seq<nat>, now: seq<nat>, rows: seq<Row>, e: Row)
    requires q.Valid() && |was| == |now| == |q.steps|
    requires forall k :: 0 <= k < |q.steps| ==> was[k] == |Reached(q, rows, k)|
    requires forall k :: 0 <= k < |q.steps| ==> now[k] == was[k] + (if Moves(q, rows, e, k) then 1 else 0)
    ensures forall k :: 0 <= k < |q.steps| ==> now[k] == |Reached(q, rows + [e], k)|
  {
    forall k | 0 <= k < |q.steps| ensures now[k] == |Reached(q, rows + [e], k)| {
      ReachedCount(q, rows, e, k);
    }
  }

  /** counts[k] is the number of installations that reach step k. */
  method CountSteps(q: Query, rows: seq<Row>) returns (counts: array<nat>)
    requires q.Valid() && Grouped(rows)
    ensures Tallied(q, counts, rows)
  {
    counts := new nat[|q.steps|](_ => 0);
    var stepIndex := IndexSteps(q);
    var i := 0;
    while i < |rows|
      invariant 0 <= i <= |rows|
      invariant 0 < i < |rows| ==> rows[i].install != rows[i - 1].install
      invariant Tallied(q, counts, rows[..i])
    {
      NewGroup(rows, i);
      i := CountInstall(q, stepIndex, counts, rows, i);
    }
    assert rows[..|rows|] == rows;
  }

  /** The inner loop: the rows of one installation, from the first. */
  method CountInstall(q: Query, stepIndex: map<Id, nat>, counts: array<nat>, rows: seq<Row>, start: nat) returns (i: nat)
    requires q.Valid() && start < |rows| && Indexes(stepIndex, q.steps)
    requires RowsOf(rows[..start], rows[start].install) == []
    requires Tallied(q, counts, rows[..start])
    modifies counts
    ensures start < i <= |rows| && Tallied(q, counts, rows[..i])
    ensures i < |rows| ==> rows[i].install != rows[i - 1].install
  {
    i := start;
    var install, wantStep: nat, firstAt := rows[i].install, 0, 0;
    while i < |rows| && rows[i].install == install
      invariant start <= i <= |rows| && (i > start ==> rows[i - 1].install == install)
      invariant (wantStep, firstAt) == Greedy(q, RowsOf(rows[..i], install))
      invariant Tallied(q, counts, rows[..i])
    {
      wantStep, firstAt := CountNext(q, stepIndex, counts, rows, i, wantStep, firstAt);
      i := i + 1;
    }
  }

  /** One more row keeps the tally: the counters move exactly as the definition by subsequences does. */
  method CountNext(q: Query, stepIndex: map<Id, nat>, counts: array<nat>, rows: seq<Row>, i: nat, wantStep: nat, firstAt: int)
    returns (want: nat, first: int)
    requires q.Valid() && i < |rows| && Indexes(stepIndex, q.steps) && Tallied(q, counts, rows[..i])
    requires (wantStep, firstAt) == Greedy(q, RowsOf(rows[..i], rows[i].install))
    modifies counts
    ensures Tallied(q, counts, rows[..i + 1])
    ensures (want, first) == Greedy(q, RowsOf(rows[..i + 1], rows[i].install))
  {
    ghost var was := counts[..];
    want, first := CountRow(q, stepIndex, counts, rows[i], wantStep, firstAt);
    PrefixSnoc(rows, i);
    GreedyRow(q, rows[..i], rows[i]);
    TalliedStep(q, was, counts[..], rows[..i], rows[i]);
  }

  lemma {:induction false} PrefixSnoc(rows: seq<Row>, i: nat)
    requires i < |rows|
    ensures rows[..i] + [rows[i]] == rows[..i + 1]
  {
  }

  lemma {:induction false} GreedyRow(q: Query, rows: seq<Row>, r: Row)
    requires q.Valid()
    ensures Greedy(q, RowsOf(rows + [r], r.install)) == Advance(q, Greedy(q, RowsOf(rows, r.install)), r)
  {
    assert (rows + [r])[..|rows|] == rows;
    var mine := RowsOf(rows, r.install);
    assert (mine + [r])[..|mine|] == mine;
  }

  lemma {:induction false} NewGroup(rows: seq<Row>, i: nat)
    requires Grouped(rows) && i < |rows| && (0 < i ==> rows[i].install != rows[i - 1].install)
    ensures RowsOf(rows[..i], rows[i].install) == []
  {
    assert forall j :: 0 <= j < i ==> rows[j].install != rows[i].install;
    NoRows(rows[..i], rows[i].install);
  }

  // ---------------------------------------------------------------- consequences

  lemma {:induction false} Smaller(a: set<Id>, b: set<Id>)
    requires a <= b
    ensures |a| <= |b|
  {
    assert b == a + (b - a);
  }

  /** Later steps never count more installations than earlier ones. */
  lemma {:induction false} CountsNeverIncrease(q: Query, rows: seq<Row>, j: nat, k: nat)
    requires q.Valid() && j <= k
    ensures |Reached(q, rows, k)| <= |Reached(q, rows, j)|
  {
    forall r | r in rows && Reaches(q, RowsOf(rows, r.install), k) ensures Reaches(q, RowsOf(rows, r.install), j) {
      var pick :| Spells(q, RowsOf(rows, r.install), pick, k);
      SpellsShorter(q, RowsOf(rows, r.install), pick, k, j);
    }
    Smaller(Reached(q, rows, k), Reached(q, rows, j));
  }

  lemma {:induction false} RowsOfPrefix(rows: seq<Row>, n: nat, install: Id)
    requires n <= |rows|
    ensures RowsOf(rows[..n], install) <= RowsOf(rows, install)
  {
    if n < |rows| {
      RowsOfPrefix(rows[..|rows| - 1], n, install);
      assert rows[..|rows| - 1][..n] == rows[..n];
    } else {
      assert rows[..n] == rows;
    }
  }

  /** Counting a truncated row list never counts an installation the full list would not. */
  lemma {:induction false} TruncationOnlyLoses(q: Query, rows: seq<Row>, n: nat, k: nat)
    requires q.Valid() && n <= |rows|
    ensures |Reached(q, rows[..n], k)| <= |Reached(q, rows, k)|
  {
    forall a | a in Reached(q, rows[..n], k) ensures a in Reached(q, rows, k) {
      RowsOfPrefix(rows, n, a);
      var few, all := RowsOf(rows[..n], a), RowsOf(rows, a);
      var pick :| Spells(q, few, pick, k);
      assert Spells(q, all, pick, k);
    }
    Smaller(Reached(q, rows[..n], k), Reached(q, rows, k));
  }
}
