/** The duplicate-key scanner of internal/contracts/decode_scan.go, run against a token decoder that
    keeps Go's encoding/json container stack. */
module DecodeScan {
  import opened Basics
  import opened JsonGrammar

  const EVENTS := Name("events")

  /** What the decoder expects inside the innermost open container. */
  datatype Context = InArray | KeyNext | ValueNext

  type Stack = seq<Context>

  function Top(s: Stack): Option<Context> {
    if s == [] then None else Some(s[|s| - 1])
  }

  predicate ValueAllowed(s: Stack) { Top(s) != Some(KeyNext) }

  /** A completed value: inside an object the next token is a name or the closing brace. */
  function AfterValue(s: Stack): Stack {
    if Top(s) == Some(ValueNext) then s[..|s| - 1] + [KeyNext] else s
  }

  datatype Read = Got(token: Token) | Eof | Broken

  class Decoder {
    const tokens: seq<Token>
    var pos: nat
    var stack: Stack

    constructor (tokens: seq<Token>)
      ensures Valid() && this.tokens == tokens && pos == 0 && stack == []
    {
      this.tokens, pos, stack := tokens, 0, [];
    }

    ghost predicate Valid() reads this { pos <= |tokens| }

    ghost function Left(): seq<Token> reads this requires Valid() { tokens[pos..] }

    /** Whether another element follows in the open container: the next byte is no closing bracket. */
    predicate More() reads this requires Valid() {
      pos < |tokens| && tokens[pos] != ObjClose && tokens[pos] != ArrClose
    }

    /** Hands out the next token, or reports end of input or a token that cannot stand here. */
    method Token() returns (r: Read)
      requires Valid()
      modifies this`pos, this`stack
      ensures Valid()
      ensures r == Eof <==> old(Left()) == []
      ensures r.Got? ==> old(Left()) != [] && r.token == old(Left())[0] && Left() == old(Left())[1..]
      ensures old(Left()) != [] ==>
                match old(Left())[0]
                case Bad => r == Broken
                case ArrOpen => if ValueAllowed(old(stack)) then r.Got? && stack == old(stack) + [InArray] else r == Broken
                case ObjOpen => if ValueAllowed(old(stack)) then r.Got? && stack == old(stack) + [KeyNext] else r == Broken
                case ArrClose => if Top(old(stack)) == Some(InArray)
                                 then r.Got? && stack == AfterValue(old(stack)[..|old(stack)| - 1]) else r == Broken
                case ObjClose => if Top(old(stack)) == Some(KeyNext)
                                 then r.Got? && stack == AfterValue(old(stack)[..|old(stack)| - 1]) else r == Broken
                case Scalar => if ValueAllowed(old(stack)) then r.Got? && stack == AfterValue(old(stack)) else r == Broken
                case Str(_) => r.Got? && stack == if ValueAllowed(old(stack)) then AfterValue(old(stack))
                                                 else old(stack)[..|old(stack)| - 1] + [ValueNext]
    {
      if pos == |tokens| { return Eof; }
      var t, n := tokens[pos], |stack|;
      match t {
        case Bad => return Broken;
        case ArrOpen =>
          if !ValueAllowed(stack) { return Broken; }
          stack := stack + [InArray];
        case ObjOpen =>
          if !ValueAllowed(stack) { return Broken; }
          stack := stack + [KeyNext];
        case ArrClose =>
          if Top(stack) != Some(InArray) { return Broken; }
          stack := AfterValue(stack[..n - 1]);
        case ObjClose =>
          if Top(stack) != Some(KeyNext) { return Broken; }
          stack := AfterValue(stack[..n - 1]);
        case Scalar =>
          if !ValueAllowed(stack) { return Broken; }
          stack := AfterValue(stack);
        case Str(_) =>
          stack := if ValueAllowed(stack) then AfterValue(stack) else stack[..n - 1] + [ValueNext];
      }
      pos := pos + 1;
      r := Got(t);
    }
  }

  type Verdict = Option<Error>

  /** The reader stands where the outcome says it should: either the rest is left over and the value is
      complete on the stack, or the same error was reported. */
  ghost predicate Reached(o: Outcome, v: Verdict, d: Decoder, done: Stack) reads d requires d.Valid() {
    match o
    case Rest(r) => v == None && d.Left() == r && d.stack == done
    case Fail(e) => v == Some(e)
  }

  /** scanJSONValueAtDepth: the recursive duplicate-name scan of one value. */
  method ScanValueAtDepth(dec: Decoder, depth: nat) returns (v: Verdict)
    requires dec.Valid() && ValueAllowed(dec.stack)
    modifies dec`pos, dec`stack
    ensures dec.Valid()
    ensures Reached(old(Scan(true, dec.Left(), depth)), v, dec, AfterValue(old(dec.stack)))
    decreases |dec.Left()|, 0
  {
    if depth > MAX_DEPTH { return Some(Nesting); }
    var token := dec.Token();
    if !token.Got? { return Some(Syntax); }
    if token.token == ObjOpen {
      v := ScanObject(dec, depth, old(dec.stack));
    } else if token.token == ArrOpen {
      v := ScanArray(dec, depth, old(dec.stack));
    } else {
      v := if token.token == ArrClose || token.token == ObjClose then Some(Syntax) else None;
    }
  }

  method ScanObject(dec: Decoder, depth: nat, ghost outer: Stack) returns (v: Verdict)
    requires dec.Valid() && dec.stack == outer + [KeyNext]
    modifies dec`pos, dec`stack
    ensures dec.Valid()
    ensures Reached(old(ScanMembers(true, dec.Left(), {}, depth)), v, dec, AfterValue(outer))
    decreases |dec.Left()|, 1
  {
    var seen: set<Name> := {};
    while dec.More()
      invariant dec.Valid() && dec.stack == outer + [KeyNext] && |dec.Left()| <= old(|dec.Left()|)
      invariant ScanMembers(true, dec.Left(), seen, depth) == old(ScanMembers(true, dec.Left(), {}, depth))
      decreases |dec.Left()|
    {
      var key := UniqueKey(dec, seen, outer);
      match key {
        case KeyError(e) => return Some(e);
        case Key(k) =>
          seen := seen + {k};
          v := ScanValueAtDepth(dec, depth + 1);
          if v.Some? { return; }
      }
    }
    v := CloseContainer(dec);
  }

  method ScanArray(dec: Decoder, depth: nat, ghost outer: Stack) returns (v: Verdict)
    requires dec.Valid() && dec.stack == outer + [InArray]
    modifies dec`pos, dec`stack
    ensures dec.Valid()
    ensures Reached(old(ScanItems(true, dec.Left(), depth)), v, dec, AfterValue(outer))
    decreases |dec.Left()|, 1
  {
    while dec.More()
      invariant dec.Valid() && dec.stack == outer + [InArray] && |dec.Left()| <= old(|dec.Left()|)
      invariant ScanItems(true, dec.Left(), depth) == old(ScanItems(true, dec.Left(), depth))
      decreases |dec.Left()|
    {
      v := ScanValueAtDepth(dec, depth + 1);
      if v.Some? { return; }
    }
    v := CloseContainer(dec);
  }

  /** skipJSONValueAtDepth: one loop serves both containers, and names are read without a check. */
  method SkipValueAtDepth(dec: Decoder, depth: nat) returns (v: Verdict)
    requires dec.Valid() && ValueAllowed(dec.stack)
    requires Top(dec.stack) == Some(InArray) ==> dec.More()
    modifies dec`pos, dec`stack
    ensures dec.Valid()
    ensures Reached(old(Scan(false, dec.Left(), depth)), v, dec, AfterValue(old(dec.stack)))
    decreases |dec.Left()|, 0
  {
    if depth > MAX_DEPTH { return Some(Nesting); }
    var token := dec.Token();
    if !token.Got? { return Some(Syntax); }
    var delim := token.token;
    if delim != ObjOpen && delim != ArrOpen { return None; }
    v := SkipContainer(dec, delim, depth, old(dec.stack));
  }

  /** What is left of a container once its opening delimiter is read. */
  ghost function Inside(delim: Token, ts: seq<Token>, seen: set<Name>, depth: nat): Outcome {
    if delim == ObjOpen then ScanMembers(false, ts, seen, depth) else ScanItems(false, ts, depth)
  }

  method SkipContainer(dec: Decoder, delim: Token, depth: nat, ghost outer: Stack) returns (v: Verdict)
    requires dec.Valid() && (delim == ObjOpen || delim == ArrOpen)
    requires dec.stack == outer + [if delim == ObjOpen then KeyNext else InArray]
    modifies dec`pos, dec`stack
    ensures dec.Valid()
    ensures Reached(old(Inside(delim, dec.Left(), {}, depth)), v, dec, AfterValue(outer))
    decreases |dec.Left()|, 1
  {
    ghost var seen: set<Name> := {};
    while dec.More()
      invariant dec.Valid() && |dec.Left()| <= old(|dec.Left()|)
      invariant dec.stack == outer + [if delim == ObjOpen then KeyNext else InArray]
      invariant Inside(delim, dec.Left(), seen, depth) == old(Inside(delim, dec.Left(), {}, depth))
      decreases |dec.Left()|
    {
      if delim == ObjOpen {
        var token := dec.Token();
        if !token.Got? { return Some(Syntax); }
        seen := seen + {token.token.text};
      }
      v := SkipValueAtDepth(dec, depth + 1);
      if v.Some? { return; }
    }
    v := CloseContainer(dec);
  }

  datatype KeyRead = Key(key: Name) | KeyError(error: Error)

  method UniqueKey(dec: Decoder, seen: set<Name>, ghost outer: Stack) returns (k: KeyRead)
    requires dec.Valid() && dec.More() && dec.stack == outer + [KeyNext]
    modifies dec`pos, dec`stack
    ensures dec.Valid()
    ensures var t := old(dec.Left())[0];
            if t.Str? && t.text !in seen
            then k == Key(t.text) && dec.Left() == old(dec.Left())[1..] && dec.stack == outer + [ValueNext]
            else k == KeyError(if t.Str? then DuplicateKey(t.text) else Syntax)
  {
    var token := dec.Token();
    if !token.Got? || !token.token.Str? { return KeyError(Syntax); }
    if token.token.text in seen { return KeyError(DuplicateKey(token.token.text)); }
    k := Key(token.token.text);
  }

  /** The closing bracket; the decoder refuses one that does not match the open container. */
  method CloseContainer(dec: Decoder) returns (v: Verdict)
    requires dec.Valid() && dec.stack != [] && !dec.More() && dec.stack[|dec.stack| - 1] != ValueNext
    modifies dec`pos, dec`stack
    ensures dec.Valid()
    ensures var closer := if Top(old(dec.stack)) == Some(InArray) then ArrClose else ObjClose;
            if old(dec.Left()) != [] && old(dec.Left())[0] == closer
            then v == None && dec.Left() == old(dec.Left())[1..]
                 && dec.stack == AfterValue(old(dec.stack)[..|old(dec.stack)| - 1])
            else v == Some(Syntax)
  {
    var token := dec.Token();
    v := if token.Got? then None else Some(Syntax);
  }

  /** rejectDuplicateKeys accepts a body exactly when its tokens are those of one JSON value whose
      objects never repeat a name and whose nesting stays within the limit. */
  method RejectDuplicateKeys(tokens: seq<Token>) returns (v: Verdict)
    ensures v == None <==> exists t :: tokens == Tokens(t) && Good(true, t, 0)
  {
    var dec := new Decoder(tokens);
    v := ScanValueAtDepth(dec, 0);
    AcceptedBody(tokens);
    if v.Some? { return; }
    var token := dec.Token();
    if token != Eof { return Some(TrailingData); }
  }

  lemma {:induction false} AcceptedBody(tokens: seq<Token>)
    ensures Scan(true, tokens, 0) == Rest([]) <==> exists t :: tokens == Tokens(t) && Good(true, t, 0)
  {
    if Scan(true, tokens, 0) == Rest([]) {
      var t := ScanSound(true, tokens, 0);
      assert tokens == Tokens(t);
    }
    forall t | tokens == Tokens(t) && Good(true, t, 0) ensures Scan(true, tokens, 0) == Rest([]) {
      ScanComplete(true, t, 0, []);
      assert Tokens(t) + [] == tokens;
    }
  }

  // ---------------------------------------------------------------- the batch envelope

  /** Each member's value counts its depth from 0; the one called "events" may repeat names inside. */
  predicate GoodEnvelope(ms: Members) {
    match ms
    case NoMembers => true
    case Member(k, v, rest) => Good(k != EVENTS, v, 0) && GoodEnvelope(rest)
  }

  function Values(ms: Members): seq<Tree> {
    match ms
    case NoMembers => []
    case Member(_, v, rest) => [v] + Values(rest)
  }

  /** The value is at most 64 levels deep and, except under "events", nowhere repeats a name in an object. */
  predicate ValueFits(k: Name, v: Tree) {
    Height(v) <= 64 && (k == EVENTS || Unique(v))
  }

  predicate AllFit(names: seq<Name>, values: seq<Tree>) {
    |names| == |values| && forall i :: 0 <= i < |names| ==> ValueFits(names[i], values[i])
  }

  lemma {:induction false} AllFitStep(k: Name, v: Tree, names: seq<Name>, values: seq<Tree>)
    ensures AllFit([k] + names, [v] + values) <==> ValueFits(k, v) && AllFit(names, values)
  {
    var ks, vs := [k] + names, [v] + values;
    if AllFit(ks, vs) {
      assert ValueFits(ks[0], vs[0]);
      forall i | 0 <= i < |names| ensures ValueFits(names[i], values[i]) { assert ValueFits(ks[i + 1], vs[i + 1]); }
    }
  }

  /** The members of an envelope are good exactly when every one of its values fits. */
  lemma {:induction false} GoodEnvelopeIff(ms: Members)
    ensures GoodEnvelope(ms) <==> AllFit(Names(ms), Values(ms))
    decreases ms
  {
    match ms {
      case NoMembers =>
      case Member(k, v, rest) =>
        GoodEnvelopeIff(rest);
        GoodIff(k != EVENTS, v, 0);
        AllFitStep(k, v, Names(rest), Values(rest));
    }
  }

  function Envelope(ts: seq<Token>, seen: set<Name>): (o: Outcome)
    ensures o.Rest? ==> |o.ts| < |ts|
    decreases |ts|
  {
    if ts == [] then Fail(Syntax)
    else if ts[0] == ObjClose then Rest(ts[1..])
    else if !ts[0].Str? then Fail(Syntax)
    else if ts[0].text in seen then Fail(DuplicateKey(ts[0].text))
    else match Scan(ts[0].text != EVENTS, ts[1..], 0)
      case Fail(e) => Fail(e)
      case Rest(r) => Envelope(r, seen + {ts[0].text})
  }

  lemma {:induction false} EnvelopeSound(ts: seq<Token>, seen: set<Name>) returns (ms: Members)
    requires Envelope(ts, seen).Rest?
    ensures GoodEnvelope(ms) && Fresh(Names(ms), seen)
    ensures ts == MemberTokens(ms) + ([ObjClose] + Envelope(ts, seen).ts)
    decreases |ts|
  {
    assert ts == [ts[0]] + ts[1..];
    if ts[0] == ObjClose {
      ms := NoMembers;
    } else {
      var k := ts[0].text;
      var v := ScanSound(k != EVENTS, ts[1..], 0);
      var r := Scan(k != EVENTS, ts[1..], 0).ts;
      var rest := EnvelopeSound(r, seen + {k});
      FreshStep(k, Names(rest), seen);
      ms := Member(k, v, rest);
      var end := [ObjClose] + Envelope(r, seen + {k}).ts;
      Regroup(Tokens(v), MemberTokens(rest), end);
      Regroup([Str(k)], Tokens(v) + MemberTokens(rest), end);
      Regroup([Str(k)], Tokens(v), MemberTokens(rest));
    }
  }

  lemma {:induction false} EnvelopeComplete(ms: Members, seen: set<Name>, r: seq<Token>)
    requires GoodEnvelope(ms) && Fresh(Names(ms), seen)
    ensures Envelope(MemberTokens(ms) + ([ObjClose] + r), seen) == Rest(r)
    decreases ms
  {
    var end := [ObjClose] + r;
    var ts := MemberTokens(ms) + end;
    match ms {
      case NoMembers => assert ts == end && end[1..] == r;
      case Member(k, v, rest) =>
        FreshStep(k, Names(rest), seen);
        ScanComplete(k != EVENTS, v, 0, MemberTokens(rest) + end);
        EnvelopeComplete(rest, seen + {k}, r);
        PeelMember(ms, end);
    }
  }

  ghost predicate AcceptableEnvelope(tokens: seq<Token>) {
    exists ms :: tokens == Tokens(Obj(ms)) && Fresh(Names(ms), {}) && GoodEnvelope(ms)
  }

  lemma {:induction false} AcceptedEnvelope(tokens: seq<Token>)
    ensures AcceptableEnvelope(tokens) <==>
              tokens != [] && tokens[0] == ObjOpen && Envelope(tokens[1..], {}) == Rest([])
  {
    forall ms | tokens == Tokens(Obj(ms)) && Fresh(Names(ms), {}) && GoodEnvelope(ms)
      ensures tokens != [] && tokens[0] == ObjOpen && Envelope(tokens[1..], {}) == Rest([])
    {
      EnvelopeComplete(ms, {}, []);
      assert tokens[1..] == MemberTokens(ms) + ([ObjClose] + []);
    }
    if tokens != [] && tokens[0] == ObjOpen && Envelope(tokens[1..], {}) == Rest([]) {
      var ms := EnvelopeSound(tokens[1..], {});
      assert tokens == [ObjOpen] + tokens[1..];
      assert tokens == Tokens(Obj(ms));
    }
  }

  /** rejectBatchEnvelopeDuplicateKeys accepts exactly the objects with distinct names whose members
      are good, where repeated names anywhere under "events" are no reason to refuse. */
  method RejectBatchEnvelopeDuplicateKeys(tokens: seq<Token>) returns (v: Verdict)
    ensures v == None <==> AcceptableEnvelope(tokens)
  {
    AcceptedEnvelope(tokens);
    var dec := new Decoder(tokens);
    var token := dec.Token();
    if !token.Got? { return Some(Syntax); }
    if token.token != ObjOpen { return Some(NotAnObject); }
    v := ScanEnvelope(dec);
    if v.Some? { return; }
    token := dec.Token();
    if token != Eof { return Some(TrailingData); }
  }

  method ScanEnvelope(dec: Decoder) returns (v: Verdict)
    requires dec.Valid() && dec.stack == [KeyNext]
    modifies dec`pos, dec`stack
    ensures dec.Valid()
    ensures Reached(old(Envelope(dec.Left(), {})), v, dec, [])
  {
    var seen: set<Name> := {};
    assert [] + [KeyNext] == dec.stack;
    while dec.More()
      invariant dec.Valid() && dec.stack == [KeyNext]
      invariant Envelope(dec.Left(), seen) == old(Envelope(dec.Left(), {}))
      decreases |dec.Left()|
    {
      var key := UniqueKey(dec, seen, []);
      match key {
        case KeyError(e) => return Some(e);
        case Key(k) =>
          seen := seen + {k};
          if k == EVENTS {
            v := SkipValueAtDepth(dec, 0);
          } else {
            v := ScanValueAtDepth(dec, 0);
          }
          if v.Some? { return; }
      }
    }
    v := CloseContainer(dec);
  }
}
