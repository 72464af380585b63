/** JSON trees, their token streams, and a tail-first reading of the grammar with the nesting limit
    and the duplicate-name check of internal/contracts/decode_scan.go. */
module JsonGrammar {

  const MAX_DEPTH := 64

  datatype Name = Name(text: string)

  /** Bad stands for input the tokenizer itself rejects: a missing comma or colon, a broken literal. */
  datatype Token = ObjOpen | ObjClose | ArrOpen | ArrClose | Str(text: Name) | Scalar | Bad

  datatype Tree = Text(text: Name) | Plain | Arr(items: Trees) | Obj(members: Members)
  datatype Trees = NoTrees | MoreTrees(head: Tree, tail: Trees)
  datatype Members = NoMembers | Member(key: Name, value: Tree, rest: Members)

  function Tokens(t: Tree): seq<Token> {
    match t
    case Text(s) => [Str(s)]
    case Plain => [Scalar]
    case Arr(items) => [ArrOpen] + ItemTokens(items) + [ArrClose]
    case Obj(members) => [ObjOpen] + MemberTokens(members) + [ObjClose]
  }

  function ItemTokens(ts: Trees): seq<Token> {
    match ts
    case NoTrees => []
    case MoreTrees(t, tail) => Tokens(t) + ItemTokens(tail)
  }

  function MemberTokens(ms: Members): seq<Token> {
    match ms
    case NoMembers => []
    case Member(k, v, rest) => [Str(k)] + Tokens(v) + MemberTokens(rest)
  }

  function Names(ms: Members): seq<Name> {
    match ms
    case NoMembers => []
    case Member(k, _, rest) => [k] + Names(rest)
  }

  /** The names are pairwise different and none has been seen before. */
  predicate Fresh(names: seq<Name>, seen: set<Name>) {
    && (forall i, j :: 0 <= i < j < |names| ==> names[i] != names[j])
    && (forall i :: 0 <= i < |names| ==> names[i] !in seen)
  }

  /** No value of t, itself at the given depth, lies deeper than MAX_DEPTH; and when strict, the
      member names of every object of t are pairwise different. */
  predicate Good(strict: bool, t: Tree, depth: nat) {
    && depth <= MAX_DEPTH
    && match t
       case Text(_) => true
       case Plain => true
       case Arr(items) => GoodItems(strict, items, depth)
       case Obj(members) => (strict ==> Fresh(Names(members), {})) && GoodValues(strict, members, depth)
  }

  predicate GoodItems(strict: bool, ts: Trees, depth: nat) {
    match ts
    case NoTrees => true
    case MoreTrees(t, tail) => Good(strict, t, depth + 1) && GoodItems(strict, tail, depth)
  }

  predicate GoodValues(strict: bool, ms: Members, depth: nat) {
    match ms
    case NoMembers => true
    case Member(_, v, rest) => Good(strict, v, depth + 1) && GoodValues(strict, rest, depth)
  }

  /** How deep the deepest value of t lies below t. */
  function Height(t: Tree): nat {
    match t
    case Text(_) => 0
    case Plain => 0
    case Arr(items) => ItemsHeight(items)
    case Obj(members) => ValuesHeight(members)
  }

  function ItemsHeight(ts: Trees): nat {
    match ts
    case NoTrees => 0
    case MoreTrees(t, tail) => var h, r := 1 + Height(t), ItemsHeight(tail); if h >= r then h else r
  }

  function ValuesHeight(ms: Members): nat {
    match ms
    case NoMembers => 0
    case Member(_, v, rest) => var h, r := 1 + Height(v), ValuesHeight(rest); if h >= r then h else r
  }

  /** Every object in t has pairwise different member names. */
  predicate Unique(t: Tree) {
    match t
    case Text(_) => true
    case Plain => true
    case Arr(items) => UniqueItems(items)
    case Obj(members) => UniqueValues(members) && forall i, j :: 0 <= i < j < |Names(members)| ==> Names(members)[i] != Names(members)[j]
  }

  predicate UniqueItems(ts: Trees) {
    match ts
    case NoTrees => true
    case MoreTrees(t, tail) => Unique(t) && UniqueItems(tail)
  }

  predicate UniqueValues(ms: Members) {
    match ms
    case NoMembers => true
    case Member(_, v, rest) => Unique(v) && UniqueValues(rest)
  }

  /** A tree is good exactly when it is at most 64 levels deep and, when that matters, nowhere repeats a
      member name within an object. */
  lemma {:induction false} GoodIff(strict: bool, t: Tree, depth: nat)
    ensures Good(strict, t, depth) <==> depth + Height(t) <= 64 && (strict ==> Unique(t))
    decreases t
  {
    match t {
      case Text(_) =>
      case Plain =>
      case Arr(items) => GoodItemsIff(strict, items, depth);
      case Obj(members) => GoodValuesIff(strict, members, depth);
    }
  }

  lemma {:induction false} GoodItemsIff(strict: bool, ts: Trees, depth: nat)
    ensures depth <= 64 ==> (GoodItems(strict, ts, depth) <==> depth + ItemsHeight(ts) <= 64 && (strict ==> UniqueItems(ts)))
    decreases ts
  {
    match ts {
      case NoTrees =>
      case MoreTrees(t, tail) =>
        GoodIff(strict, t, depth + 1);
        GoodItemsIff(strict, tail, depth);
    }
  }

  lemma {:induction false} GoodValuesIff(strict: bool, ms: Members, depth: nat)
    ensures depth <= 64 ==> (GoodValues(strict, ms, depth) <==> depth + ValuesHeight(ms) <= 64 && (strict ==> UniqueValues(ms)))
    decreases ms
  {
    match ms {
      case NoMembers =>
      case Member(_, v, rest) =>
        GoodIff(strict, v, depth + 1);
        GoodValuesIff(strict, rest, depth);
    }
  }

  lemma {:induction false} FreshStep(k: Name, names: seq<Name>, seen: set<Name>)
    ensures Fresh([k] + names, seen) <==> k !in seen && Fresh(names, seen + {k})
  {
    var all := [k] + names;
    if Fresh(all, seen) {
      assert all[0] == k && forall i :: 0 <= i < |names| ==> all[i + 1] == names[i];
    }
  }

  // ---------------------------------------------------------------- reading tokens

  datatype Error = Nesting | DuplicateKey(key: Name) | Syntax | NotAnObject | TrailingData

  datatype Outcome = Rest(ts: seq<Token>) | Fail(error: Error)

  function Scan(strict: bool, ts: seq<Token>, depth: nat): (o: Outcome)
    ensures o.Rest? ==> |o.ts| < |ts|
    decreases |ts|, 0
  {
    if depth > MAX_DEPTH then Fail(Nesting)
    else if ts == [] then Fail(Syntax)
    else match ts[0]
      case Str(_) => Rest(ts[1..])
      case Scalar => Rest(ts[1..])
      case ArrOpen => ScanItems(strict, ts[1..], depth)
      case ObjOpen => ScanMembers(strict, ts[1..], {}, depth)
      case ObjClose => Fail(Syntax)
      case ArrClose => Fail(Syntax)
      case Bad => Fail(Syntax)
  }

  function ScanItems(strict: bool, ts: seq<Token>, depth: nat): (o: Outcome)
    ensures o.Rest? ==> |o.ts| < |ts|
    decreases |ts|, 1
  {
    if ts == [] || ts[0] == ObjClose then Fail(Syntax)
    else if ts[0] == ArrClose then Rest(ts[1..])
    else match Scan(strict, ts, depth + 1)
      case Fail(e) => Fail(e)
      case Rest(r) => ScanItems(strict, r, depth)
  }

  function ScanMembers(strict: bool, ts: seq<Token>, seen: set<Name>, depth: nat): (o: Outcome)
    ensures o.Rest? ==> |o.ts| < |ts|
    decreases |ts|, 1
  {
    if ts == [] then Fail(Syntax)
    else if ts[0] == ObjClose then Rest(ts[1..])
    else if !ts[0].Str? then Fail(Syntax)
    else if strict && ts[0].text in seen then Fail(DuplicateKey(ts[0].text))
    else match Scan(strict, ts[1..], depth + 1)
      case Fail(e) => Fail(e)
      case Rest(r) => ScanMembers(strict, r, seen + {ts[0].text}, depth)
  }

  // ---------------------------------------------------------------- completeness

  function First(t: Tree): Token {
    match t
    case Text(s) => Str(s)
    case Plain => Scalar
    case Arr(_) => ArrOpen
    case Obj(_) => ObjOpen
  }

  /** What follows the first token of t when r follows t. */
  function Tail(t: Tree, r: seq<Token>): seq<Token> {
    match t
    case Text(_) => r
    case Plain => r
    case Arr(items) => ItemTokens(items) + ([ArrClose] + r)
    case Obj(members) => MemberTokens(members) + ([ObjClose] + r)
  }

  lemma {:induction false} Peel(t: Tree, r: seq<Token>)
    ensures var ts := Tokens(t) + r;
            ts == [First(t)] + Tail(t, r) && ts[0] == First(t) && ts[1..] == Tail(t, r)
  {
    match t {
      case Text(_) =>
      case Plain =>
      case Arr(items) =>
        Regroup([ArrOpen] + ItemTokens(items), [ArrClose], r);
        Regroup([ArrOpen], ItemTokens(items), [ArrClose] + r);
      case Obj(members) =>
        Regroup([ObjOpen] + MemberTokens(members), [ObjClose], r);
        Regroup([ObjOpen], MemberTokens(members), [ObjClose] + r);
    }
  }

  lemma {:induction false} PeelMember(ms: Members, end: seq<Token>)
    requires ms.Member?
    ensures var ts := MemberTokens(ms) + end;
            ts[0] == Str(ms.key) && ts[1..] == Tokens(ms.value) + (MemberTokens(ms.rest) + end)
  {
  }

  lemma {:induction false} ScanComplete(strict: bool, t: Tree, depth: nat, r: seq<Token>)
    requires Good(strict, t, depth)
    ensures Scan(strict, Tokens(t) + r, depth) == Rest(r)
    decreases t
  {
    Peel(t, r);
    match t {
      case Text(_) =>
      case Plain =>
      case Arr(items) => ItemsComplete(strict, items, depth, r);
      case Obj(members) => MembersComplete(strict, members, {}, depth, r);
    }
  }

  lemma {:induction false} FirstToken(t: Tree)
    ensures Tokens(t) != [] && Tokens(t)[0] != ArrClose && Tokens(t)[0] != ObjClose
  {
  }

  lemma {:induction false} ItemsComplete(strict: bool, ts: Trees, depth: nat, r: seq<Token>)
    requires GoodItems(strict, ts, depth)
    ensures ScanItems(strict, ItemTokens(ts) + ([ArrClose] + r), depth) == Rest(r)
    decreases ts
  {
    var end := [ArrClose] + r;
    match ts {
      case NoTrees => assert ItemTokens(ts) + end == end && end[1..] == r;
      case MoreTrees(t, tail) =>
        FirstToken(t);
        ScanComplete(strict, t, depth + 1, ItemTokens(tail) + end);
        ItemsComplete(strict, tail, depth, r);
        assert ItemTokens(ts) + end == Tokens(t) + (ItemTokens(tail) + end);
    }
  }

  lemma {:induction false} MembersComplete(strict: bool, ms: Members, seen: set<Name>, depth: nat, r: seq<Token>)
    requires GoodValues(strict, ms, depth) && (strict ==> Fresh(Names(ms), seen))
    ensures ScanMembers(strict, MemberTokens(ms) + ([ObjClose] + r), seen, depth) == Rest(r)
    decreases ms
  {
    var end := [ObjClose] + r;
    var ts := MemberTokens(ms) + end;
    match ms {
      case NoMembers => assert ts == end && end[1..] == r;
      case Member(k, v, rest) =>
        FreshStep(k, Names(rest), seen);
        ScanComplete(strict, v, depth + 1, MemberTokens(rest) + end);
        MembersComplete(strict, rest, seen + {k}, depth, r);
        PeelMember(ms, end);
    }
  }

  // ---------------------------------------------------------------- soundness

  lemma {:induction false} Regroup(a: seq<Token>, b: seq<Token>, c: seq<Token>)
    ensures a + (b + c) == (a + b) + c
  {
  }

  lemma {:induction false} ScanSound(strict: bool, ts: seq<Token>, depth: nat) returns (t: Tree)
    requires Scan(strict, ts, depth).Rest?
    ensures Good(strict, t, depth) && ts == Tokens(t) + Scan(strict, ts, depth).ts
    decreases |ts|, 0
  {
    assert ts == [ts[0]] + ts[1..];
    match ts[0] {
      case Str(s) => t := Text(s);
      case Scalar => t := Plain;
      case ArrOpen =>
        var items := ItemsSound(strict, ts[1..], depth);
        t := Arr(items);
        Peel(t, Scan(strict, ts, depth).ts);
      case ObjOpen =>
        var members := MembersSound(strict, ts[1..], {}, depth);
        t := Obj(members);
        Peel(t, Scan(strict, ts, depth).ts);
    }
  }

  lemma {:induction false} ItemsSound(strict: bool, ts: seq<Token>, depth: nat) returns (items: Trees)
    requires ScanItems(strict, ts, depth).Rest?
    ensures GoodItems(strict, items, depth)
    ensures ts == ItemTokens(items) + ([ArrClose] + ScanItems(strict, ts, depth).ts)
    decreases |ts|, 1
  {
    if ts[0] == ArrClose {
      items := NoTrees;
      assert ts == [ArrClose] + ts[1..];
    } else {
      var t := ScanSound(strict, ts, depth + 1);
      var r := Scan(strict, ts, depth + 1).ts;
      var tail := ItemsSound(strict, r, depth);
      items := MoreTrees(t, tail);
      Regroup(Tokens(t), ItemTokens(tail), [ArrClose] + ScanItems(strict, r, depth).ts);
    }
  }

  lemma {:induction false} MembersSound(strict: bool, ts: seq<Token>, seen: set<Name>, depth: nat) returns (ms: Members)
    requires ScanMembers(strict, ts, seen, depth).Rest?
    ensures GoodValues(strict, ms, depth) && (strict ==> Fresh(Names(ms), seen))
    ensures ts == MemberTokens(ms) + ([ObjClose] + ScanMembers(strict, ts, seen, depth).ts)
    decreases |ts|, 1
  {
    assert ts == [ts[0]] + ts[1..];
    if ts[0] == ObjClose {
      ms := NoMembers;
    } else {
      var k := ts[0].text;
      var v := ScanSound(strict, ts[1..], depth + 1);
      var r := Scan(strict, ts[1..], depth + 1).ts;
      var rest := MembersSound(strict, r, seen + {k}, depth);
      FreshStep(k, Names(rest), seen);
      ms := Member(k, v, rest);
      var end := [ObjClose] + ScanMembers(strict, r, seen + {k}, depth).ts;
      Regroup(Tokens(v), MemberTokens(rest), end);
      Regroup([Str(k)], Tokens(v) + MemberTokens(rest), end);
      Regroup([Str(k)], Tokens(v), MemberTokens(rest));
    }
  }

  // ---------------------------------------------------------------- one tree per stream

  lemma {:induction false} TokensUnique(t: Tree, r: seq<Token>, u: Tree, q: seq<Token>)
    requires Tokens(t) + r == Tokens(u) + q
    ensures t == u && r == q
    decreases t
  {
    Peel(t, r);
    Peel(u, q);
    match t {
      case Text(_) =>
      case Plain =>
      case Arr(items) => ItemsUnique(items, r, u.items, q);
      case Obj(members) => MembersUnique(members, r, u.members, q);
    }
  }

  lemma {:induction false} ClosesIff(ts: Trees, r: seq<Token>)
    ensures (ItemTokens(ts) + ([ArrClose] + r))[0] == ArrClose <==> ts == NoTrees
  {
    if ts.MoreTrees? {
      FirstToken(ts.head);
    }
  }

  lemma {:induction false} ItemsUnique(ts: Trees, r: seq<Token>, us: Trees, q: seq<Token>)
    requires ItemTokens(ts) + ([ArrClose] + r) == ItemTokens(us) + ([ArrClose] + q)
    ensures ts == us && r == q
    decreases ts
  {
    var s1, s2 := ItemTokens(ts) + ([ArrClose] + r), ItemTokens(us) + ([ArrClose] + q);
    ClosesIff(ts, r);
    ClosesIff(us, q);
    if ts.MoreTrees? && us.MoreTrees? {
      assert s1 == Tokens(ts.head) + (ItemTokens(ts.tail) + ([ArrClose] + r));
      assert s2 == Tokens(us.head) + (ItemTokens(us.tail) + ([ArrClose] + q));
      TokensUnique(ts.head, ItemTokens(ts.tail) + ([ArrClose] + r), us.head, ItemTokens(us.tail) + ([ArrClose] + q));
      ItemsUnique(ts.tail, r, us.tail, q);
    } else if ts.NoTrees? && us.NoTrees? {
      assert s1[1..] == r && s2[1..] == q;
    }
  }

  lemma {:induction false} MembersUnique(ms: Members, r: seq<Token>, ns: Members, q: seq<Token>)
    requires MemberTokens(ms) + ([ObjClose] + r) == MemberTokens(ns) + ([ObjClose] + q)
    ensures ms == ns && r == q
    decreases ms
  {
    var end1, end2 := [ObjClose] + r, [ObjClose] + q;
    if ms.Member? { PeelMember(ms, end1); }
    if ns.Member? { PeelMember(ns, end2); }
    if ms.Member? && ns.Member? {
      TokensUnique(ms.value, MemberTokens(ms.rest) + end1, ns.value, MemberTokens(ns.rest) + end2);
      MembersUnique(ms.rest, r, ns.rest, q);
    } else if ms.NoMembers? && ns.NoMembers? {
      assert [] + end1 == end1 && [] + end2 == end2 && end1[1..] == r && end2[1..] == q;
    }
  }

  /** On the stream of a tree the scan succeeds exactly when the tree is good, and then it consumes
      exactly the tree's tokens. */
  lemma {:induction false} ScanDecides(strict: bool, t: Tree, depth: nat, r: seq<Token>)
    ensures Scan(strict, Tokens(t) + r, depth) == Rest(r) <==> Good(strict, t, depth)
    ensures Scan(strict, Tokens(t) + r, depth).Rest? ==> Scan(strict, Tokens(t) + r, depth) == Rest(r)
  {
    if Good(strict, t, depth) {
      ScanComplete(strict, t, depth, r);
    }
    if Scan(strict, Tokens(t) + r, depth).Rest? {
      var u := ScanSound(strict, Tokens(t) + r, depth);
      TokensUnique(t, r, u, Scan(strict, Tokens(t) + r, depth).ts);
    }
  }
}
