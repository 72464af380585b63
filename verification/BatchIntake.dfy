/** What happens to a batch before it reaches the database: independent event decode
    (internal/contracts/decode.go), clock-quality rule (internal/ingest/batch.go) and preparation
    (internal/ingest/batch_processing.go). */
module BatchIntake {
  import opened Basics
  import opened Durations

  datatype Build = Build(app: Id, number: Id)

  /** Why one event is rejected; Invalid carries the code of a failed decode or structural check. */
  datatype Code = UnknownEvent | InvalidPropertyKey | Invalid(code: int)

  /** A decoded event; violation is the verdict of structural validation, keys its property names. */
  datatype Event = Event(id: Id, name: string, build: Build, occurredAt: int, keys: set<string>, violation: Option<Code>)

  datatype Rejected = Rejected(id: Id, name: string, code: Code, build: Build)

  /** One raw event: what a permissive probe recovers, and the result of its own strict decode. */
  datatype RawEvent = RawEvent(probe: Rejected, decoded: Option<Event>)

  /** headerValid is the verdict on schema version, project, installation, SDK and send time; eventCount
      is how many raw events the envelope held, 0 when the request was not decoded from one. */
  datatype Request = Request(project: Id, install: Id, sentAt: int, headerValid: bool, events: seq<Event>, eventCount: nat)

  datatype Kind = Product | System
  datatype Quality = Client | BatchAdjusted | Untrusted

  datatype Prepared = Prepared(event: Event, kind: Kind, effectiveAt: int, quality: Quality)

  const MIN_EVENTS := 1
  const MAX_EVENTS := 100

  const RESERVED: set<string> := {"sys_session_start", "sys_app_background", "sys_sdk_health"}

  // ---------------------------------------------------------------- independent event decode

  function Ids(es: seq<Event>): seq<Id> { seq(|es|, i requires 0 <= i < |es| => es[i].id) }

  function DecodedOf(raws: seq<RawEvent>): seq<Event> {
    if raws == [] then [] else
    var last := raws[|raws| - 1];
    DecodedOf(raws[..|raws| - 1]) + (if last.decoded.Some? then [last.decoded.value] else [])
  }

  function UndecodedOf(raws: seq<RawEvent>): seq<Rejected> {
    if raws == [] then [] else
    var last := raws[|raws| - 1];
    UndecodedOf(raws[..|raws| - 1]) + (if last.decoded.Some? then [] else [last.probe])
  }

  lemma {:induction false} DecodeSplits(raws: seq<RawEvent>)
    ensures |DecodedOf(raws)| + |UndecodedOf(raws)| == |raws|
  {
    if raws != [] { DecodeSplits(raws[..|raws| - 1]); }
  }

  /** The decoded events are those that decode. */
  lemma {:induction false} DecodedIff(raws: seq<RawEvent>, e: Event)
    ensures e in DecodedOf(raws) <==> exists i :: 0 <= i < |raws| && raws[i].decoded == Some(e)
  {
    if raws != [] {
      var n := |raws| - 1;
      DecodedIff(raws[..n], e);
      assert forall i :: 0 <= i < n ==> raws[..n][i] == raws[i];
      assert raws[n].decoded == Some(e) ==> e in DecodedOf(raws);
    }
  }

  /** The rejections are the probes of those that do not. */
  lemma {:induction false} UndecodedIff(raws: seq<RawEvent>, r: Rejected)
    ensures r in UndecodedOf(raws) <==> exists i :: 0 <= i < |raws| && raws[i].decoded.None? && raws[i].probe == r
  {
    if raws != [] {
      var n := |raws| - 1;
      UndecodedIff(raws[..n], r);
      assert forall i :: 0 <= i < n ==> raws[..n][i] == raws[i];
    }
  }

  /** Both lists keep the order of the raw events: what comes of the first of them, then of the rest. */
  lemma {:induction false} DecodedInOrder(front: seq<RawEvent>, back: seq<RawEvent>)
    ensures DecodedOf(front + back) == DecodedOf(front) + DecodedOf(back)
    ensures UndecodedOf(front + back) == UndecodedOf(front) + UndecodedOf(back)
  {
    if back != [] {
      DecodedInOrder(front, back[..|back| - 1]);
      assert (front + back)[..|front + back| - 1] == front + back[..|back| - 1];
    } else {
      assert front + back == front;
    }
  }

  datatype DecodeResult = Decoded(request: Request, rejected: seq<Rejected>) | InvalidBatchSize | DuplicateEventId(id: Id)

  /** Two raw events whose probes recover the same non-empty id. */
  predicate RepeatsProbeId(raws: seq<RawEvent>, id: Id) {
    id != NO_ID && exists i, j :: 0 <= i < j < |raws| && raws[i].probe.id == id && raws[j].probe.id == id
  }

  /** One bad event never costs its siblings: unless the size is out of range or an id repeats, every
      raw event ends up decoded or rejected, in order. */
  method DecodeBatch(project: Id, install: Id, sentAt: int, headerValid: bool, raws: seq<RawEvent>) returns (r: DecodeResult)
    ensures r.InvalidBatchSize? <==> !(MIN_EVENTS <= |raws| <= MAX_EVENTS)
    ensures r.DuplicateEventId? ==> RepeatsProbeId(raws, r.id)
    ensures r.Decoded? ==> forall id :: !RepeatsProbeId(raws, id)
    ensures r.Decoded? ==>
              && r.request == Request(project, install, sentAt, headerValid, DecodedOf(raws), |raws|)
              && r.rejected == UndecodedOf(raws)
              && |r.request.events| + |r.rejected| == r.request.eventCount
  {
    if |raws| < MIN_EVENTS || |raws| > MAX_EVENTS { return InvalidBatchSize; }
    var seen: set<Id> := {};
    for i := 0 to |raws|
      invariant seen == set j | 0 <= j < i && raws[j].probe.id != NO_ID :: raws[j].probe.id
      invariant forall j, k :: 0 <= j < k < i && raws[j].probe.id != NO_ID ==> raws[j].probe.id != raws[k].probe.id
    {
      var id := raws[i].probe.id;
      if id != NO_ID {
        if id in seen { return DuplicateEventId(id); }
        seen := seen + {id};
      }
    }
    var events, rejected := [], [];
    for i := 0 to |raws|
      invariant events == DecodedOf(raws[..i]) && rejected == UndecodedOf(raws[..i])
    {
      assert raws[..i + 1][..i] == raws[..i];
      if raws[i].decoded.None? {
        rejected := rejected + [raws[i].probe];
      } else {
        events := events + [raws[i].decoded.value];
      }
    }
    assert raws[..|raws|] == raws;
    DecodeSplits(raws);
    r := Decoded(Request(project, install, sentAt, headerValid, events, |raws|), rejected);
  }

  // ---------------------------------------------------------------- envelope validation

  datatype EnvelopeError = InvalidHeader | InvalidSize | RepeatedEventId(id: Id)

  function CountOf(req: Request): nat {
    if req.eventCount == 0 then |req.events| else req.eventCount
  }

  predicate ValidEnvelope(req: Request) {
    req.headerValid && MIN_EVENTS <= CountOf(req) <= MAX_EVENTS && Distinct(Ids(req.events))
  }

  /** Validate accepts exactly the valid envelopes and names the first thing wrong with any other. */
  method ValidateEnvelope(req: Request) returns (e: Option<EnvelopeError>)
    ensures e.None? <==> ValidEnvelope(req)
    ensures e == Some(InvalidHeader) <==> !req.headerValid
    ensures e == Some(InvalidSize) <==> req.headerValid && !(MIN_EVENTS <= CountOf(req) <= MAX_EVENTS)
    ensures e.Some? && e.value.RepeatedEventId? ==>
              exists i, j :: 0 <= i < j < |req.events| && Ids(req.events)[i] == Ids(req.events)[j] == e.value.id
  {
    if !req.headerValid { return Some(InvalidHeader); }
    var count := if req.eventCount == 0 then |req.events| else req.eventCount;
    if count < MIN_EVENTS || count > MAX_EVENTS { return Some(InvalidSize); }
    var ids, seen: set<Id> := Ids(req.events), {};
    for i := 0 to |ids|
      invariant seen == set j | 0 <= j < i :: ids[j]
      invariant forall j, k :: 0 <= j < k < i ==> ids[j] != ids[k]
    {
      if ids[i] in seen { return Some(RepeatedEventId(ids[i])); }
      seen := seen + {ids[i]};
    }
    return None;
  }

  // ---------------------------------------------------------------- clock quality

  const EARLIEST := 8 * 24 * 60 * MINUTE
  const LATEST := 5 * MINUTE

  /** Negating the least 64-bit integer gives it back. */
  function AbsDuration(d: int): int {
    if d >= 0 then d else if d == MIN_DURATION then MIN_DURATION else -d
  }

  predicate Plausible(t: int, receivedAt: int) {
    receivedAt - EARLIEST <= t <= receivedAt + LATEST
  }

  /** Whatever clocks the client claims, the stored time lies within 8 days before and 5 minutes after
      receipt; untrusted readings collapse to the receipt time. */
  function EffectiveTime(occurredAt: int, receivedAt: int, skew: int): (r: (int, Quality))
    ensures Plausible(r.0, receivedAt)
    ensures r.1 == Untrusted ==> r.0 == receivedAt && !Plausible(occurredAt + skew, receivedAt)
    ensures r.1 == BatchAdjusted ==> r.0 == occurredAt + skew
    ensures r.1 == Client ==> r.0 == occurredAt
  {
    if AbsDuration(skew) <= LATEST && Plausible(occurredAt, receivedAt) then (occurredAt, Client)
    else if Plausible(occurredAt + skew, receivedAt) then (occurredAt + skew, BatchAdjusted)
    else (receivedAt, Untrusted)
  }

  /** A reading is labelled "client" although the clocks disagree by more than 5 minutes exactly when
      the send time is so far ahead that the skew saturates, and the reading itself is plausible. */
  lemma {:induction false} ClientQualityIff(occurredAt: int, now: int, sentAt: int)
    ensures EffectiveTime(occurredAt, now, Sub(now, sentAt)).1 == Client && !(-LATEST <= now - sentAt <= LATEST)
            <==> Plausible(occurredAt, now) && now - sentAt <= MIN_DURATION
  {
  }

  /** A reading is plausible from 8 days before its receipt to 5 minutes after. */
  lemma {:induction false} PlausibleIff(t: int, receivedAt: int)
    ensures Plausible(t, receivedAt) <==> receivedAt - 8 * 86_400_000_000_000 <= t <= receivedAt + 300_000_000_000
  {
  }

  /** When each label is given, in terms of the true disagreement of the clocks. */
  lemma {:induction false} QualityIff(occurredAt: int, now: int, sentAt: int)
    ensures var r := EffectiveTime(occurredAt, now, Sub(now, sentAt));
            && (r.1 == Client <==> Plausible(occurredAt, now) && (-LATEST <= now - sentAt <= LATEST || now - sentAt <= MIN_DURATION))
            && (r.1 == BatchAdjusted <==> r.1 != Client && Plausible(occurredAt + Sub(now, sentAt), now))
            && (r.1 == Untrusted <==> r.1 != Client && !Plausible(occurredAt + Sub(now, sentAt), now))
  {
  }

  /** A send time 2^63 nanoseconds ahead: the clocks disagree by 292 years and the label is "client". */
  lemma {:induction false} SaturatedSkewReadsClient()
    ensures var sentAt := 0x8000_0000_0000_0000;
            Sub(0, sentAt) == MIN_DURATION && EffectiveTime(0, 0, Sub(0, sentAt)) == (0, Client)
  {
    assert AbsDuration(MIN_DURATION) == MIN_DURATION;
  }

  // ---------------------------------------------------------------- preparation

  function KindOf(e: Event): Kind { if e.name in RESERVED then System else Product }

  /** The strict-catalogue verdict: an unknown name, or a key outside a non-empty declared list. */
  function CatalogRejection(e: Event, declared: Option<set<string>>): Option<Code> {
    match declared
    case None => Some(UnknownEvent)
    case Some(allowed) =>
      if allowed == {} || e.keys <= allowed then None else Some(InvalidPropertyKey)
  }

  /** The code an event is rejected with, if any. */
  function RejectionOf(e: Event, strict: bool, catalog: map<string, set<string>>): Option<Code> {
    if e.violation.Some? then e.violation
    else if KindOf(e) == Product && strict
    then CatalogRejection(e, if e.name in catalog then Some(catalog[e.name]) else None)
    else None
  }

  function PreparedOf(e: Event, now: int, skew: int): Prepared {
    var t := EffectiveTime(e.occurredAt, now, skew);
    Prepared(e, KindOf(e), t.0, t.1)
  }

  /** The events that survive preparation, in order. */
  function Prepare(es: seq<Event>, strict: bool, catalog: map<string, set<string>>, now: int, skew: int): seq<Prepared> {
    if es == [] then [] else
    var last := es[|es| - 1];
    Prepare(es[..|es| - 1], strict, catalog, now, skew)
    + (if RejectionOf(last, strict, catalog).None? then [PreparedOf(last, now, skew)] else [])
  }

  function PrepareRejections(es: seq<Event>, strict: bool, catalog: map<string, set<string>>): seq<Rejected> {
    if es == [] then [] else
    var last := es[|es| - 1];
    PrepareRejections(es[..|es| - 1], strict, catalog)
    + (match RejectionOf(last, strict, catalog)
       case None => []
       case Some(code) => [Rejected(last.id, last.name, code, last.build)])
  }

  lemma {:induction false} PrepareFacts(es: seq<Event>, strict: bool, catalog: map<string, set<string>>, now: int, skew: int)
    ensures |Prepare(es, strict, catalog, now, skew)| + |PrepareRejections(es, strict, catalog)| == |es|
    ensures forall p :: p in Prepare(es, strict, catalog, now, skew) ==>
              p.event in es && p == PreparedOf(p.event, now, skew) && Plausible(p.effectiveAt, now)
  {
    if es != [] {
      PrepareFacts(es[..|es| - 1], strict, catalog, now, skew);
    }
  }

  function PreparedIds(ps: seq<Prepared>): seq<Id> { seq(|ps|, i requires 0 <= i < |ps| => ps[i].event.id) }

  lemma {:induction false} PreparedIdsDistinct(es: seq<Event>, strict: bool, catalog: map<string, set<string>>, now: int, skew: int)
    requires Distinct(Ids(es))
    ensures Distinct(PreparedIds(Prepare(es, strict, catalog, now, skew)))
  {
    if es != [] {
      var init, last := es[..|es| - 1], es[|es| - 1];
      assert forall i :: 0 <= i < |init| ==> Ids(init)[i] == Ids(es)[i];
      PreparedIdsDistinct(init, strict, catalog, now, skew);
      PrepareFacts(init, strict, catalog, now, skew);
      var ps := Prepare(init, strict, catalog, now, skew);
      forall i | 0 <= i < |ps| ensures ps[i].event.id != last.id {
        assert ps[i] in ps;
        var k :| 0 <= k < |init| && init[k] == ps[i].event;
        assert Ids(es)[k] != Ids(es)[|es| - 1];
      }
      var all := Prepare(es, strict, catalog, now, skew);
      assert forall i :: 0 <= i < |ps| ==> all[i] == ps[i] && PreparedIds(all)[i] == PreparedIds(ps)[i];
      assert |all| > |ps| ==> PreparedIds(all)[|ps|] == last.id;
    }
  }

  /** How many of ps carry the given event id. */
  function Times(ps: seq<Prepared>, id: Id): nat {
    if ps == [] then 0 else Times(ps[..|ps| - 1], id) + Bit(ps[|ps| - 1].event.id == id)
  }

  function RejectedTimes(rs: seq<Rejected>, id: Id): nat {
    if rs == [] then 0 else RejectedTimes(rs[..|rs| - 1], id) + Bit(rs[|rs| - 1].id == id)
  }

  function EventTimes(es: seq<Event>, id: Id): nat {
    if es == [] then 0 else EventTimes(es[..|es| - 1], id) + Bit(es[|es| - 1].id == id)
  }

  /** Every id lands on exactly one side, as often as the batch carries it. */
  lemma {:induction false} PrepareSplits(es: seq<Event>, strict: bool, catalog: map<string, set<string>>, now: int, skew: int, id: Id)
    ensures Times(Prepare(es, strict, catalog, now, skew), id) + RejectedTimes(PrepareRejections(es, strict, catalog), id)
            == EventTimes(es, id)
  {
    if es != [] {
      var init, last := es[..|es| - 1], es[|es| - 1];
      PrepareSplits(init, strict, catalog, now, skew, id);
      var ps, rs := Prepare(init, strict, catalog, now, skew), PrepareRejections(init, strict, catalog);
      assert ps + [] == ps && rs + [] == rs;
      assert (ps + [PreparedOf(last, now, skew)])[..|ps|] == ps;
      assert RejectionOf(last, strict, catalog).Some? ==> PrepareRejections(es, strict, catalog)[..|rs|] == rs;
    }
  }

  /** What may be held against an event: its own violation; or, in a strict project and unless the name is
      reserved, a name the catalogue does not know, or a property outside the list declared for it. */
  predicate HeldAgainst(e: Event, strict: bool, catalog: map<string, set<string>>, code: Code) {
    if e.violation.Some? then code == e.violation.value
    else
      && strict && e.name !in RESERVED
      && ((code == UnknownEvent && e.name !in catalog)
          || (code == InvalidPropertyKey && e.name in catalog && catalog[e.name] != {}
              && exists key :: key in e.keys && key !in catalog[e.name]))
  }

  predicate NothingHeld(e: Event, strict: bool, catalog: map<string, set<string>>) {
    && e.violation.None?
    && (strict && e.name !in RESERVED ==>
          e.name in catalog && (catalog[e.name] == {} || forall key :: key in e.keys ==> key in catalog[e.name]))
  }

  lemma {:induction false} RejectedIff(e: Event, strict: bool, catalog: map<string, set<string>>, code: Code)
    ensures RejectionOf(e, strict, catalog) == Some(code) <==> HeldAgainst(e, strict, catalog, code)
    ensures RejectionOf(e, strict, catalog).None? <==> NothingHeld(e, strict, catalog)
  {
  }

  /** An event that nothing is held against is prepared, with its own kind and time; any other is listed
      with the code of what is. */
  lemma {:induction false} EachEventJudged(es: seq<Event>, strict: bool, catalog: map<string, set<string>>, now: int, skew: int,
                                           e: Event, code: Code)
    requires e in es
    ensures NothingHeld(e, strict, catalog) <==> exists p :: p in Prepare(es, strict, catalog, now, skew) && p.event == e
    ensures HeldAgainst(e, strict, catalog, code) ==>
              Rejected(e.id, e.name, code, e.build) in PrepareRejections(es, strict, catalog)
  {
    var init, last := es[..|es| - 1], es[|es| - 1];
    assert es == init + [last];
    RejectedIff(last, strict, catalog, code);
    if e in init {
      EachEventJudged(init, strict, catalog, now, skew, e, code);
    } else {
      PrepareFacts(init, strict, catalog, now, skew);
    }
    if NothingHeld(e, strict, catalog) && e == last {
      assert PreparedOf(last, now, skew) in Prepare(es, strict, catalog, now, skew);
    }
    PreparedAreClean(es, strict, catalog, now, skew);
  }

  /** Only events nothing is held against are prepared; a system event is one with a reserved name. */
  lemma {:induction false} PreparedAreClean(es: seq<Event>, strict: bool, catalog: map<string, set<string>>, now: int, skew: int)
    ensures forall p :: p in Prepare(es, strict, catalog, now, skew) ==>
              NothingHeld(p.event, strict, catalog) && (p.kind == System <==> p.event.name in RESERVED)
  {
    if es != [] {
      PreparedAreClean(es[..|es| - 1], strict, catalog, now, skew);
      RejectedIff(es[|es| - 1], strict, catalog, UnknownEvent);
    }
  }

  /** Every rejection listed is of some event, for something held against it. */
  lemma {:induction false} RejectionsHaveGrounds(es: seq<Event>, strict: bool, catalog: map<string, set<string>>)
    ensures forall r :: r in PrepareRejections(es, strict, catalog) ==>
              exists e :: e in es && HeldAgainst(e, strict, catalog, r.code) && r == Rejected(e.id, e.name, r.code, e.build)
  {
    if es != [] {
      var init, last := es[..|es| - 1], es[|es| - 1];
      RejectionsHaveGrounds(init, strict, catalog);
      assert es == init + [last];
      forall r | r in PrepareRejections(es, strict, catalog)
        ensures exists e :: e in es && HeldAgainst(e, strict, catalog, r.code) && r == Rejected(e.id, e.name, r.code, e.build)
      {
        if r in PrepareRejections(init, strict, catalog) {
          var e :| e in init && HeldAgainst(e, strict, catalog, r.code) && r == Rejected(e.id, e.name, r.code, e.build);
          assert e in es;
        } else {
          RejectedIff(last, strict, catalog, r.code);
          assert last in es;
        }
      }
    }
  }

  /** Both lists keep the order of the batch: what comes of its first part, then of the rest. */
  lemma {:induction false} PreparedInOrder(front: seq<Event>, back: seq<Event>, strict: bool, catalog: map<string, set<string>>,
                                           now: int, skew: int)
    ensures Prepare(front + back, strict, catalog, now, skew) ==
            Prepare(front, strict, catalog, now, skew) + Prepare(back, strict, catalog, now, skew)
    ensures PrepareRejections(front + back, strict, catalog) ==
            PrepareRejections(front, strict, catalog) + PrepareRejections(back, strict, catalog)
  {
    if back != [] {
      PreparedInOrder(front, back[..|back| - 1], strict, catalog, now, skew);
      assert (front + back)[..|front + back| - 1] == front + back[..|back| - 1];
    } else {
      assert front + back == front;
    }
  }

  /** Events that all decode, and all pass, are prepared one for one in order. */
  lemma {:induction false} AllPrepared(es: seq<Event>, strict: bool, catalog: map<string, set<string>>, now: int, skew: int)
    requires forall e :: e in es ==> NothingHeld(e, strict, catalog)
    ensures |Prepare(es, strict, catalog, now, skew)| == |es|
    ensures forall i :: 0 <= i < |es| ==> Prepare(es, strict, catalog, now, skew)[i].event == es[i]
  {
    if es != [] {
      var init, last := es[..|es| - 1], es[|es| - 1];
      assert es == init + [last];
      AllPrepared(init, strict, catalog, now, skew);
      RejectedIff(last, strict, catalog, UnknownEvent);
    }
  }

  /** prepareBatch: decode rejections first, then each event either prepared or rejected. */
  method PrepareBatch(req: Request, decodeRejections: seq<Rejected>, strict: bool, catalog: map<string, set<string>>, now: int)
    returns (prepared: seq<Prepared>, rejected: seq<Rejected>)
    ensures prepared == Prepare(req.events, strict, catalog, now, Sub(now, req.sentAt))
    ensures rejected == decodeRejections + PrepareRejections(req.events, strict, catalog)
    ensures |prepared| + |rejected| == |req.events| + |decodeRejections|
  {
    var skew := Sub(now, req.sentAt);
    prepared, rejected := [], decodeRejections;
    var es := req.events;
    for i := 0 to |es|
      invariant prepared == Prepare(es[..i], strict, catalog, now, skew)
      invariant rejected == decodeRejections + PrepareRejections(es[..i], strict, catalog)
    {
      assert es[..i + 1][..i] == es[..i];
      match RejectionOf(es[i], strict, catalog) {
        case Some(code) => rejected := rejected + [Rejected(es[i].id, es[i].name, code, es[i].build)];
        case None => prepared := prepared + [PreparedOf(es[i], now, skew)];
      }
    }
    assert es[..|es|] == es;
    PrepareFacts(es, strict, catalog, now, skew);
  }
}
