/** The ingestion tables and the transactions that write them: registration
    (internal/ingest/register_helpers.go), batch commit and statistics (internal/ingest/batch_persist.go),
    cleanup and retention (internal/maintenance/retention.go). Each transaction is one atomic step. */
module EventStore {
  import opened Basics
  import opened BatchIntake
  import opened Durations
  import opened Sums

  type Key = (Id, Id)

  datatype Project = Project(enabled: bool, strict: bool, retentionDays: nat, catalog: map<string, set<string>>)

  datatype Installation = Installation(
    hash: Id, registeredAt: int, activatedAt: Option<int>, firstProductAt: Option<int>, lastBuild: Build)

  datatype Row = Row(install: Id, receivedAt: int, prepared: Prepared)

  datatype Counts = Counts(accepted: nat, duplicates: nat, rejected: nat)

  /** stats holds one map per batch call: the per-build rows that call managed to write. */
  datatype Db = Db(
    projects: map<Id, Project>, installations: map<Key, Installation>, events: map<Key, Row>,
    counters: map<(Id, int), nat>, stats: seq<map<Build, Counts>>)

  const DAY := 24 * 60 * MINUTE
  const SWEEP := 10000

  function DayOf(t: int): int { t / DAY }

  // ---------------------------------------------------------------- inserting a batch

  /** The conflict rule: event i is inserted unless its id is stored already or came earlier in the batch. */
  predicate Accepts(events: map<Key, Row>, project: Id, ps: seq<Prepared>, i: nat)
    requires i < |ps|
  {
    (project, ps[i].event.id) !in events && forall j :: 0 <= j < i ==> ps[j].event.id != ps[i].event.id
  }

  function Accepted(events: map<Key, Row>, project: Id, ps: seq<Prepared>): seq<Prepared> {
    if ps == [] then [] else
    var n := |ps| - 1;
    Accepted(events, project, ps[..n]) + (if Accepts(events, project, ps, n) then [ps[n]] else [])
  }

  function Duplicates(events: map<Key, Row>, project: Id, ps: seq<Prepared>): seq<Prepared> {
    if ps == [] then [] else
    var n := |ps| - 1;
    Duplicates(events, project, ps[..n]) + (if Accepts(events, project, ps, n) then [] else [ps[n]])
  }

  function Inserted(events: map<Key, Row>, project: Id, install: Id, ps: seq<Prepared>, now: int): map<Key, Row> {
    if ps == [] then events else
    var n := |ps| - 1;
    var before := Inserted(events, project, install, ps[..n], now);
    if Accepts(events, project, ps, n) then before[(project, ps[n].event.id) := Row(install, now, ps[n])] else before
  }

  /** The least effective time of the product events in ps. */
  function LeastProduct(ps: seq<Prepared>): Option<int> {
    if ps == [] then None else
    var p, before := ps[|ps| - 1], LeastProduct(ps[..|ps| - 1]);
    if p.kind != Product then before
    else if before.None? || p.effectiveAt < before.value then Some(p.effectiveAt)
    else before
  }

  lemma {:induction false} LeastProductIsLeast(ps: seq<Prepared>)
    ensures LeastProduct(ps).None? <==> forall p :: p in ps ==> p.kind == System
    ensures LeastProduct(ps).Some? ==>
              && (exists p :: p in ps && p.kind == Product && p.effectiveAt == LeastProduct(ps).value)
              && forall p :: p in ps && p.kind == Product ==> LeastProduct(ps).value <= p.effectiveAt
  {
    if ps != [] {
      var init, last := ps[..|ps| - 1], ps[|ps| - 1];
      LeastProductIsLeast(init);
      assert ps == init + [last];
      if LeastProduct(ps) == LeastProduct(init) && LeastProduct(ps).Some? {
        var p :| p in init && p.kind == Product && p.effectiveAt == LeastProduct(init).value;
        assert p in ps;
      }
    }
  }

  /** Stored rows stay as they are, and the keys added are those of the batch. */
  lemma {:induction false} InsertedKeys(events: map<Key, Row>, project: Id, install: Id, ps: seq<Prepared>, now: int)
    ensures var after := Inserted(events, project, install, ps, now);
            && (forall k :: k in events ==> k in after && after[k] == events[k])
            && (forall k :: k in after <==> k in events || (k.0 == project && k.1 in PreparedIds(ps)))
            && (forall k :: k in after && k !in events ==> after[k].install == install && after[k].receivedAt == now)
  {
    if ps != [] {
      var n := |ps| - 1;
      InsertedKeys(events, project, install, ps[..n], now);
      RepeatedId(events, project, ps);
    }
  }

  /** A row added is the first event of the batch with that id. */
  lemma {:induction false} InsertedRows(events: map<Key, Row>, project: Id, install: Id, ps: seq<Prepared>, now: int, k: Key)
    requires k !in events && k in Inserted(events, project, install, ps, now)
    ensures exists i :: 0 <= i < |ps| && Accepts(events, project, ps, i) && k == (project, ps[i].event.id)
                        && Inserted(events, project, install, ps, now)[k] == Row(install, now, ps[i])
  {
    var n := |ps| - 1;
    if Accepts(events, project, ps, n) && k == (project, ps[n].event.id) {
    } else {
      InsertedRows(events, project, install, ps[..n], now, k);
      var i :| 0 <= i < n && Accepts(events, project, ps[..n], i) && k == (project, ps[..n][i].event.id)
               && Inserted(events, project, install, ps[..n], now)[k] == Row(install, now, ps[..n][i]);
      assert Accepts(events, project, ps, i);
    }
  }

  /** New events with different ids are accepted one for one, in order. */
  lemma {:induction false} AllNew(events: map<Key, Row>, project: Id, ps: seq<Prepared>)
    requires forall i :: 0 <= i < |ps| ==> (project, ps[i].event.id) !in events
    requires forall i, j :: 0 <= i < j < |ps| ==> ps[i].event.id != ps[j].event.id
    ensures Accepted(events, project, ps) == ps && Duplicates(events, project, ps) == []
  {
    if ps != [] {
      var init, last := ps[..|ps| - 1], ps[|ps| - 1];
      AllNew(events, project, init);
      assert Accepts(events, project, ps, |ps| - 1);
      SplitStep(events, project, ps);
      assert init + [last] == ps;
    }
  }

  /** The last event of a batch is refused exactly when its key is stored or its id came before. */
  lemma {:induction false} RepeatedId(events: map<Key, Row>, project: Id, ps: seq<Prepared>)
    requires ps != []
    ensures var n := |ps| - 1;
            && PreparedIds(ps) == PreparedIds(ps[..n]) + [ps[n].event.id]
            && (Accepts(events, project, ps, n) <==>
                  (project, ps[n].event.id) !in events && ps[n].event.id !in PreparedIds(ps[..n]))
  {
    var n := |ps| - 1;
    assert forall j :: 0 <= j < n ==> PreparedIds(ps[..n])[j] == ps[j].event.id;
  }

  /** Each key is accepted at most once by a batch: exactly when it was absent and is present afterwards. */
  lemma {:induction false} AcceptedOnce(events: map<Key, Row>, project: Id, install: Id, ps: seq<Prepared>, now: int, id: Id)
    ensures Times(Accepted(events, project, ps), id) ==
            Bit((project, id) !in events && (project, id) in Inserted(events, project, install, ps, now))
  {
    if ps != [] {
      var n := |ps| - 1;
      AcceptedOnce(events, project, install, ps[..n], now, id);
      InsertedKeys(events, project, install, ps[..n], now);
      RepeatedId(events, project, ps);
      var key, before := (project, id), Inserted(events, project, install, ps[..n], now);
      assert key in before <==> key in events || id in PreparedIds(ps[..n]);
      SplitStep(events, project, ps);
      TimesAppend(Accepted(events, project, ps[..n]), ps[n], id);
    }
  }

  lemma {:induction false} SplitStep(events: map<Key, Row>, project: Id, ps: seq<Prepared>)
    requires ps != []
    ensures var n := |ps| - 1;
            var a, d := Accepted(events, project, ps[..n]), Duplicates(events, project, ps[..n]);
            if Accepts(events, project, ps, n)
            then Accepted(events, project, ps) == a + [ps[n]] && Duplicates(events, project, ps) == d
            else Accepted(events, project, ps) == a && Duplicates(events, project, ps) == d + [ps[n]]
  {
  }

  lemma {:induction false} TimesAppend(ps: seq<Prepared>, p: Prepared, id: Id)
    ensures Times(ps + [p], id) == Times(ps, id) + Bit(p.event.id == id)
  {
    assert (ps + [p])[..|ps|] == ps;
  }

  lemma {:induction false} AcceptedLength(events: map<Key, Row>, project: Id, ps: seq<Prepared>)
    ensures |Accepted(events, project, ps)| + |Duplicates(events, project, ps)| == |ps|
  {
    if ps != [] { AcceptedLength(events, project, ps[..|ps| - 1]); }
  }

  /** Accepted and duplicate events together are the batch: no id is lost and none is reported twice. */
  lemma {:induction false} AcceptedAndDuplicatesSplit(events: map<Key, Row>, project: Id, ps: seq<Prepared>, id: Id)
    ensures Times(Accepted(events, project, ps), id) + Times(Duplicates(events, project, ps), id) == Times(ps, id)
  {
    if ps != [] {
      var n := |ps| - 1;
      AcceptedAndDuplicatesSplit(events, project, ps[..n], id);
      SplitStep(events, project, ps);
      TimesAppend(Accepted(events, project, ps[..n]), ps[n], id);
      TimesAppend(Duplicates(events, project, ps[..n]), ps[n], id);
    }
  }

  // ---------------------------------------------------------------- transactions on the tables

  function Coalesce<T>(a: Option<T>, b: Option<T>): Option<T> { if a.Some? then a else b }

  /** One committed batch: rows, last build, and activation when anything was inserted. */
  function Committed(db: Db, project: Id, install: Id, ps: seq<Prepared>, now: int): Db {
    var key, news := (project, install), Accepted(db.events, project, ps);
    var after := db.(events := Inserted(db.events, project, install, ps, now));
    if ps == [] || key !in db.installations then after else
    var i := db.installations[key].(lastBuild := ps[|ps| - 1].event.build);
    var i' := if news == [] then i
              else i.(activatedAt := Coalesce(i.activatedAt, Some(now)),
                      firstProductAt := Coalesce(i.firstProductAt, LeastProduct(news)));
    after.(installations := db.installations[key := i'])
  }

  /** The build an event id is counted under; an id without an event counts under the empty build. */
  function BuildOf(ps: seq<Prepared>, id: Id): Build {
    if ps == [] then Build(NO_ID, NO_ID)
    else if ps[|ps| - 1].event.id == id then ps[|ps| - 1].event.build
    else BuildOf(ps[..|ps| - 1], id)
  }

  function BuildsOf(ps: seq<Prepared>, ids: seq<Id>): seq<Build> {
    seq(|ids|, i requires 0 <= i < |ids| => BuildOf(ps, ids[i]))
  }

  function RejectedBuilds(rs: seq<Rejected>): seq<Build> {
    seq(|rs|, i requires 0 <= i < |rs| => rs[i].build)
  }

  /** An id counts under the build of its own event. */
  lemma {:induction false} BuildOfEvent(ps: seq<Prepared>, i: nat)
    requires i < |ps| && forall j, k :: 0 <= j < k < |ps| ==> ps[j].event.id != ps[k].event.id
    ensures BuildOf(ps, ps[i].event.id) == ps[i].event.build
  {
    if i < |ps| - 1 { BuildOfEvent(ps[..|ps| - 1], i); }
  }

  /** How many of ps were built with b. */
  function BuildTimes(ps: seq<Prepared>, b: Build): nat {
    if ps == [] then 0 else BuildTimes(ps[..|ps| - 1], b) + Bit(ps[|ps| - 1].event.build == b)
  }

  /** The statistics of build b count the events of that build. */
  lemma {:induction false} BuildsCount(ps: seq<Prepared>, qs: seq<Prepared>, b: Build)
    requires forall j, k :: 0 <= j < k < |ps| ==> ps[j].event.id != ps[k].event.id
    requires forall q :: q in qs ==> q in ps
    ensures multiset(BuildsOf(ps, PreparedIds(qs)))[b] == BuildTimes(qs, b)
  {
    if qs != [] {
      var init, last := qs[..|qs| - 1], qs[|qs| - 1];
      BuildsCount(ps, init, b);
      assert last in qs && last in ps;
      var i :| 0 <= i < |ps| && ps[i] == last;
      BuildOfEvent(ps, i);
      assert BuildsOf(ps, PreparedIds(qs)) == BuildsOf(ps, PreparedIds(init)) + [last.event.build];
    } else {
      assert BuildsOf(ps, PreparedIds(qs)) == [];
    }
  }

  /** What a non-empty commit does to the sender's record: the last build, and on an insertion the dates
      that were not set yet; nothing else, and to no other record. */
  lemma {:induction false} CommitChanges(db: Db, project: Id, install: Id, ps: seq<Prepared>, now: int, k: Key)
    requires ps != [] && k in db.installations
    ensures var was, after := db.installations[k], Committed(db, project, install, ps, now).installations;
            && k in after
            && (k != (project, install) ==> after[k] == was)
            && (k == (project, install) ==>
                  && after[k].hash == was.hash && after[k].registeredAt == was.registeredAt
                  && after[k].lastBuild == ps[|ps| - 1].event.build
                  && (was.activatedAt.Some? || Accepted(db.events, project, ps) == [] ==> after[k].activatedAt == was.activatedAt)
                  && (was.activatedAt.None? && Accepted(db.events, project, ps) != [] ==> after[k].activatedAt == Some(now))
                  && (was.firstProductAt.Some? ==> after[k].firstProductAt == was.firstProductAt))
  {
  }

  /** Per-build counts of three lists of builds. */
  function Tally(accepted: seq<Build>, duplicates: seq<Build>, rejected: seq<Build>): map<Build, Counts> {
    map b | b in accepted + duplicates + rejected ::
      Counts(multiset(accepted)[b], multiset(duplicates)[b], multiset(rejected)[b])
  }

  lemma {:induction false} OccurrencesAddUp<K>(keys: set<K>, s: seq<K>)
    requires forall x :: x in s ==> x in keys
    ensures SumOver(keys, k => multiset(s)[k]) == |s|
  {
    if s == [] {
      SumPlus(keys, (k: K) => 0, (k: K) => 0, (k: K) => 0);
      SumCongruence(keys, (k: K) => 0, k => multiset(s)[k]);
    } else {
      var init, last := s[..|s| - 1], s[|s| - 1];
      assert s == init + [last];
      OccurrencesAddUp(keys, init);
      assert keys + {last} == keys;
      SumUpdate(keys, keys, k => multiset(init)[k], k => multiset(s)[k], last, 1);
    }
  }

  /** The per-build statistics rows of a call add up to the three lists of its response. */
  lemma {:induction false} TallyAddsUp(a: seq<Build>, d: seq<Build>, r: seq<Build>)
    ensures var t := Tally(a, d, r);
            && SumOver(t.Keys, b => if b in t then t[b].accepted else 0) == |a|
            && SumOver(t.Keys, b => if b in t then t[b].duplicates else 0) == |d|
            && SumOver(t.Keys, b => if b in t then t[b].rejected else 0) == |r|
  {
    var t := Tally(a, d, r);
    OccurrencesAddUp(t.Keys, a);
    OccurrencesAddUp(t.Keys, d);
    OccurrencesAddUp(t.Keys, r);
    SumCongruence(t.Keys, b => multiset(a)[b], b => if b in t then t[b].accepted else 0);
    SumCongruence(t.Keys, b => multiset(d)[b], b => if b in t then t[b].duplicates else 0);
    SumCongruence(t.Keys, b => multiset(r)[b], b => if b in t then t[b].rejected else 0);
  }

  predicate Authorised(db: Db, project: Id, install: Id, hash: Id) {
    && (project, install) in db.installations && project in db.projects && db.projects[project].enabled
    && db.installations[(project, install)].hash == hash
  }

  /** Registration: a new installation under the daily cap, or a check of the stored credential. */
  datatype RegisterResult = Registered | UnknownProject | Conflict | CapExceeded

  function RegisterResultOf(db: Db, cap: int, project: Id, install: Id, hash: Id, now: int): RegisterResult {
    if project !in db.projects || !db.projects[project].enabled then UnknownProject
    else if (project, install) in db.installations
    then (if db.installations[(project, install)].hash == hash then Registered else Conflict)
    else if CounterOf(db, project, DayOf(now)) + 1 > cap then CapExceeded
    else Registered
  }

  function CounterOf(db: Db, project: Id, day: int): nat {
    if (project, day) in db.counters then db.counters[(project, day)] else 0
  }

  predicate Inserts(db: Db, cap: int, project: Id, install: Id, hash: Id, now: int) {
    RegisterResultOf(db, cap, project, install, hash, now) == Registered && (project, install) !in db.installations
  }

  function AfterRegister(db: Db, cap: int, project: Id, install: Id, hash: Id, build: Build, now: int): Db {
    if !Inserts(db, cap, project, install, hash, now) then db else
    db.(counters := db.counters[(project, DayOf(now)) := CounterOf(db, project, DayOf(now)) + 1],
        installations := db.installations[(project, install) := Installation(hash, now, None, None, build)])
  }

  /** A registration succeeds exactly when the credential it brings is then good for sending batches. */
  lemma {:induction false} RegisteredIffAuthorised(db: Db, cap: int, project: Id, install: Id, hash: Id, build: Build, now: int)
    ensures RegisterResultOf(db, cap, project, install, hash, now) == Registered <==>
            Authorised(AfterRegister(db, cap, project, install, hash, build, now), project, install, hash)
  {
  }

  /** A new installation of an enabled project is admitted exactly while the day's counter is below the cap. */
  lemma {:induction false} NewInstallationIff(db: Db, cap: int, project: Id, install: Id, hash: Id, build: Build, now: int)
    requires project in db.projects && db.projects[project].enabled && (project, install) !in db.installations
    ensures (project, install) in AfterRegister(db, cap, project, install, hash, build, now).installations
            <==> CounterOf(db, project, DayOf(now)) < cap
    ensures RegisterResultOf(db, cap, project, install, hash, now) == CapExceeded
            <==> CounterOf(db, project, DayOf(now)) >= cap
  {
  }

  predicate Stale(i: Installation, now: int) {
    i.activatedAt.None? && i.registeredAt < now - 7 * DAY
  }

  predicate Expired(db: Db, row: Row, project: Id, now: int) {
    project in db.projects && row.receivedAt < now - db.projects[project].retentionDays * DAY
  }

  function ExpiredKeys(db: Db, now: int): set<Key> {
    set k | k in db.events && Expired(db, db.events[k], k.0, now)
  }

  function StaleKeys(db: Db, now: int): set<Key> {
    set k | k in db.installations && Stale(db.installations[k], now)
  }

  /** A retention sweep takes an event exactly when it was received more than the project's days before. */
  lemma {:induction false} ExpiredIff(db: Db, k: Key, now: int)
    ensures k in ExpiredKeys(db, now) <==>
            k in db.events && k.0 in db.projects
            && now - db.events[k].receivedAt > db.projects[k.0].retentionDays * 86_400_000_000_000
  {
  }

  /** A cleanup takes an installation exactly when it was never activated and is more than 7 days old. */
  lemma {:induction false} StaleIff(db: Db, k: Key, now: int)
    ensures k in StaleKeys(db, now) <==>
            k in db.installations && db.installations[k].activatedAt == None
            && now - db.installations[k].registeredAt > 7 * 86_400_000_000_000
  {
  }

  function WithoutEvents(db: Db, gone: set<Key>): Db { db.(events := db.events - gone) }

  function WithoutInstallations(db: Db, gone: set<Key>): Db { db.(installations := db.installations - gone) }

  // ---------------------------------------------------------------- the service

  /** Disk pressure and the rate limiters' verdicts, by source address and by sender. */
  datatype Admission = Admission(diskRejecting: bool, sourceAllowed: bool, senderAllowed: bool) {
    predicate Passes() { !diskRejecting && sourceAllowed && senderAllowed }
  }

  datatype BatchResult =
    | StoragePressure | RateLimited | InvalidRequest(error: EnvelopeError) | Disabled | Unauthorised | Stopped
    | Processed(accepted: seq<Id>, duplicates: seq<Id>, rejected: seq<Rejected>)

  /** The prepared events and the rejections of a request, as of the state it meets. */
  function PreparedFor(db: Db, req: Request, now: int): seq<Prepared> {
    if req.project !in db.projects then [] else
    var p := db.projects[req.project];
    Prepare(req.events, p.strict, p.catalog, now, Sub(now, req.sentAt))
  }

  function RejectedFor(db: Db, req: Request, decodeRejections: seq<Rejected>): seq<Rejected> {
    if req.project !in db.projects then [] else
    var p := db.projects[req.project];
    decodeRejections + PrepareRejections(req.events, p.strict, p.catalog)
  }

  function TallyFor(db: Db, req: Request, decodeRejections: seq<Rejected>, now: int): map<Build, Counts> {
    var ps := PreparedFor(db, req, now);
    Tally(BuildsOf(ps, PreparedIds(Accepted(db.events, req.project, ps))),
          BuildsOf(ps, PreparedIds(Duplicates(db.events, req.project, ps))),
          RejectedBuilds(RejectedFor(db, req, decodeRejections)))
  }

  /** The sender's installation and its project are on record. */
  predicate KnownSender(db: Db, req: Request) {
    (req.project, req.install) in db.installations && req.project in db.projects
  }

  predicate Proceeds(db: Db, req: Request, hash: Id) {
    ValidEnvelope(req) && Authorised(db, req.project, req.install, hash)
  }

  /** The statistics rows that get written: all of them, or those of some builds when the call stops. */
  function Written(t: map<Build, Counts>, stop: Option<set<Build>>): map<Build, Counts> {
    match stop
    case None => t
    case Some(builds) => map b | b in t && b in builds :: t[b]
  }

  /** A batch call; stop, if any, comes after the commit, with the rows of those builds written. A call
      that fails before its commit leaves the tables as they were. */
  function AfterBatch(db: Db, req: Request, decodeRejections: seq<Rejected>, hash: Id, now: int, stop: Option<set<Build>>): Db {
    if !Proceeds(db, req, hash) then db else
    var t := TallyFor(db, req, decodeRejections, now);
    var db1 := Committed(db, req.project, req.install, PreparedFor(db, req, now), now);
    db1.(stats := db.stats + [Written(t, stop)])
  }

  datatype Persisted = Persisted(
    events: map<Key, Row>, accepted: seq<Id>, duplicates: seq<Id>, activated: bool, first: Option<int>)

  function PersistedAfter(table: map<Key, Row>, project: Id, install: Id, ps: seq<Prepared>, now: int): Persisted {
    var news := Accepted(table, project, ps);
    Persisted(Inserted(table, project, install, ps, now), PreparedIds(news),
              PreparedIds(Duplicates(table, project, ps)), news != [], LeastProduct(news))
  }

  class Service {
    var db: Db
    const cap: int

    constructor (db: Db, cap: int)
      ensures this.db == db && this.cap == cap
    {
      this.db, this.cap := db, cap;
    }

    method Register(project: Id, install: Id, hash: Id, build: Build, now: int) returns (r: RegisterResult)
      modifies this`db
      ensures r == RegisterResultOf(old(db), cap, project, install, hash, now)
      ensures db == AfterRegister(old(db), cap, project, install, hash, build, now)
    {
      if project !in db.projects || !db.projects[project].enabled { return UnknownProject; }
      var key := (project, install);
      if key in db.installations {
        return if db.installations[key].hash == hash then Registered else Conflict;
      }
      var day := DayOf(now);
      var count := CounterOf(db, project, day) + 1;
      if count > cap { return CapExceeded; }  // rolls the increment back
      db := db.(counters := db.counters[(project, day) := count],
                installations := db.installations[key := Installation(hash, now, None, None, build)]);
      r := Registered;
    }

    /** persistPreparedEvents, on the transaction's own copy of the events table. */
    method PersistPrepared(table: map<Key, Row>, project: Id, install: Id, ps: seq<Prepared>, now: int)
      returns (p: Persisted)
      ensures p == PersistedAfter(table, project, install, ps, now)
    {
      p := Persisted(table, [], [], false, None);
      for i := 0 to |ps|
        invariant p == PersistedAfter(table, project, install, ps[..i], now)
      {
        PersistStep(table, project, install, ps, now, i);
        var key := (project, ps[i].event.id);
        if key in p.events {
          p := p.(duplicates := p.duplicates + [key.1]);
        } else {
          p := p.(events := p.events[key := Row(install, now, ps[i])], accepted := p.accepted + [key.1], activated := true);
          if ps[i].kind == Product && (p.first.None? || ps[i].effectiveAt < p.first.value) {
            p := p.(first := Some(ps[i].effectiveAt));
          }
        }
      }
      assert ps[..|ps|] == ps;
    }

    method PersistBatch(req: Request, ps: seq<Prepared>, now: int) returns (accepted: seq<Id>, duplicates: seq<Id>)
      modifies this`db
      ensures db == Committed(old(db), req.project, req.install, ps, now)
      ensures accepted == PreparedIds(Accepted(old(db).events, req.project, ps))
      ensures duplicates == PreparedIds(Duplicates(old(db).events, req.project, ps))
    {
      if |ps| == 0 { return [], []; }
      var key, installations := (req.project, req.install), db.installations;
      if key in installations {
        installations := installations[key := installations[key].(lastBuild := ps[|ps| - 1].event.build)];
      }
      var p := PersistPrepared(db.events, req.project, req.install, ps, now);
      if p.activated && key in installations {
        var i := installations[key];
        installations := installations[key := i.(activatedAt := Coalesce(i.activatedAt, Some(now)),
                                                 firstProductAt := Coalesce(i.firstProductAt, p.first))];
      }
      db := db.(events := p.events, installations := installations);
      accepted, duplicates := p.accepted, p.duplicates;
    }

    /** recordBatchStats: counts per build, then one row each, in any order. */
    method RecordStats(ps: seq<Prepared>, accepted: seq<Id>, duplicates: seq<Id>, rejected: seq<Rejected>, stop: Option<set<Build>>)
      modifies this`db
      ensures var t := Tally(BuildsOf(ps, accepted), BuildsOf(ps, duplicates), RejectedBuilds(rejected));
              db == old(db).(stats := old(db).stats + [Written(t, stop)])
    {
      var counts := CountAccepted(BuildsOf(ps, accepted));
      counts := CountDuplicates(counts, BuildsOf(ps, accepted), BuildsOf(ps, duplicates));
      counts := CountRejected(counts, BuildsOf(ps, accepted), BuildsOf(ps, duplicates), RejectedBuilds(rejected));
      db := db.(stats := db.stats + [Written(counts, stop)]);
    }

    /** The step order of Batch: admit by disk state and source address, validate, admit by sender,
        authorise, prepare, commit, then statistics. Each refusal has its own cause and leaves the tables
        alone. */
    method Batch(req: Request, decodeRejections: seq<Rejected>, hash: Id, now: int, admission: Admission,
                 stop: Option<set<Build>>) returns (r: BatchResult)
      modifies this`db
      ensures db == if admission.Passes() then AfterBatch(old(db), req, decodeRejections, hash, now, stop) else old(db)
      ensures r.StoragePressure? <==> admission.diskRejecting
      ensures r.RateLimited? <==> !admission.diskRejecting &&
                                  (!admission.sourceAllowed || (ValidEnvelope(req) && !admission.senderAllowed))
      ensures r.InvalidRequest? <==> !admission.diskRejecting && admission.sourceAllowed && !ValidEnvelope(req)
      ensures r.Disabled? ==> KnownSender(old(db), req) && !old(db).projects[req.project].enabled
      ensures r.Unauthorised? ==>
                !KnownSender(old(db), req) || (old(db).installations[(req.project, req.install)].hash != hash
                                              && old(db).projects[req.project].enabled)
      ensures r.Processed? || r.Stopped? <==> admission.Passes() && Proceeds(old(db), req, hash)
      ensures r.Stopped? ==> stop.Some?
      ensures r.Processed? ==> stop.None?
      ensures r.Processed? ==> |r.accepted| + |r.duplicates| + |r.rejected| == |req.events| + |decodeRejections|
      ensures r.Processed? ==>
                && r.accepted == PreparedIds(Accepted(old(db).events, req.project, PreparedFor(old(db), req, now)))
                && r.duplicates == PreparedIds(Duplicates(old(db).events, req.project, PreparedFor(old(db), req, now)))
                && r.rejected == RejectedFor(old(db), req, decodeRejections)
    {
      if admission.diskRejecting { return StoragePressure; }
      if !admission.sourceAllowed { return RateLimited; }
      var invalid := ValidateEnvelope(req);
      if invalid.Some? { return InvalidRequest(invalid.value); }
      if !admission.senderAllowed { return RateLimited; }
      if !KnownSender(db, req) { return Unauthorised; }
      if !db.projects[req.project].enabled { return Disabled; }
      if db.installations[(req.project, req.install)].hash != hash { return Unauthorised; }
      var p := db.projects[req.project];
      var ps, rejected := PrepareBatch(req, decodeRejections, p.strict, p.catalog, now);
      AcceptedLength(db.events, req.project, ps);
      var accepted, duplicates := PersistBatch(req, ps, now);
      RecordStats(ps, accepted, duplicates, rejected, stop);
      if stop.Some? { return Stopped; }
      r := Processed(accepted, duplicates, rejected);
    }

    /** A batch body from its raw events to the response: a processed body has one report, accepted,
        duplicate or rejected, for each raw event; a body that does not decode changes nothing. */
    method ReceiveBatch(project: Id, install: Id, sentAt: int, headerValid: bool, raws: seq<RawEvent>, hash: Id, now: int,
                        admission: Admission, stop: Option<set<Build>>) returns (d: DecodeResult, r: Option<BatchResult>)
      modifies this`db
      ensures d.Decoded? <==> r.Some?
      ensures r.None? ==> db == old(db)
      ensures r.Some? && r.value.Processed? ==>
                |r.value.accepted| + |r.value.duplicates| + |r.value.rejected| == |raws|
    {
      d := DecodeBatch(project, install, sentAt, headerValid, raws);
      if !d.Decoded? { return d, None; }
      var answer := Batch(d.request, d.rejected, hash, now, admission, stop);
      r := Some(answer);
    }

    /** One bounded DELETE over the events. */
    method SweepExpired(now: int) returns (n: nat, ghost doomed: set<Key>)
      modifies this`db
      ensures doomed <= ExpiredKeys(old(db), now) && n == |doomed| && (n < SWEEP ==> doomed == ExpiredKeys(old(db), now))
      ensures db == WithoutEvents(old(db), doomed)
    {
      var rows := TakeUpTo(ExpiredKeys(db, now), SWEEP);
      db := WithoutEvents(db, rows);
      n, doomed := |rows|, rows;
    }

    /** One bounded DELETE over the installations. */
    method SweepStale(now: int) returns (n: nat, ghost doomed: set<Key>)
      modifies this`db
      ensures doomed <= StaleKeys(old(db), now) && n == |doomed| && (n < SWEEP ==> doomed == StaleKeys(old(db), now))
      ensures db == WithoutInstallations(old(db), doomed)
    {
      var rows := TakeUpTo(StaleKeys(db, now), SWEEP);
      db := WithoutInstallations(db, rows);
      n, doomed := |rows|, rows;
    }

    /** The retention loop. The clock moves on between sweeps and never backwards; when the loop ends,
        everything expired at the last reading is gone, nothing else is, and total counts it. */
    method DeleteExpiredEvents(clock: nat -> int) returns (total: nat, sweeps: nat)
      requires forall i, j :: 0 <= i <= j ==> clock(i) <= clock(j)
      modifies this`db
      ensures sweeps > 0
      ensures db == WithoutEvents(old(db), ExpiredKeys(old(db), clock(sweeps - 1)))
      ensures total == |ExpiredKeys(old(db), clock(sweeps - 1))|
    {
      total, sweeps := 0, 0;
      ghost var db0, gone: set<Key>, last := db, {}, clock(0);
      while true
        invariant db == WithoutEvents(db0, gone) && total == |gone|
        invariant gone <= ExpiredKeys(db0, last) && last <= clock(sweeps)
        invariant sweeps > 0 ==> last == clock(sweeps - 1)
        decreases |db.events|
      {
        ghost var doomed;
        var n;
        n, doomed := SweepExpired(clock(sweeps));
        SweepExpiredFacts(db0, gone, doomed, last, clock(sweeps));
        last := clock(sweeps);
        gone := gone + doomed;
        total := total + n;
        sweeps := sweeps + 1;
        if n < SWEEP { return; }
      }
    }

    /** The same loop over installations that were never activated within seven days. */
    method DeleteUnactivatedInstallations(clock: nat -> int) returns (total: nat, sweeps: nat)
      requires forall i, j :: 0 <= i <= j ==> clock(i) <= clock(j)
      modifies this`db
      ensures sweeps > 0
      ensures db == WithoutInstallations(old(db), StaleKeys(old(db), clock(sweeps - 1)))
      ensures total == |StaleKeys(old(db), clock(sweeps - 1))|
    {
      total, sweeps := 0, 0;
      ghost var db0, gone: set<Key>, last := db, {}, clock(0);
      while true
        invariant db == WithoutInstallations(db0, gone) && total == |gone|
        invariant gone <= StaleKeys(db0, last) && last <= clock(sweeps)
        invariant sweeps > 0 ==> last == clock(sweeps - 1)
        decreases |db.installations|
      {
        ghost var doomed;
        var n;
        n, doomed := SweepStale(clock(sweeps));
        SweepStaleFacts(db0, gone, doomed, last, clock(sweeps));
        last := clock(sweeps);
        gone := gone + doomed;
        total := total + n;
        sweeps := sweeps + 1;
        if n < SWEEP { return; }
      }
    }
  }

  lemma {:induction false} SweepCounts<V>(table: map<Key, V>, gone: set<Key>, doomed: set<Key>)
    requires doomed <= (table - gone).Keys
    ensures table - gone - doomed == table - (gone + doomed)
    ensures |gone + doomed| == |gone| + |doomed|
    ensures |table - (gone + doomed)| == |table - gone| - |doomed|
  {
    var rest := table - gone;
    assert (rest - doomed).Keys == rest.Keys - doomed;
    assert |rest.Keys - doomed| == |rest.Keys| - |doomed|;
    assert rest - doomed == table - (gone + doomed);
  }

  /** One sweep after others: what is still expired, and that expiry only grows with time. */
  lemma {:induction false} ExpiredLeft(db: Db, gone: set<Key>, t1: int, t2: int)
    requires t1 <= t2
    ensures ExpiredKeys(WithoutEvents(db, gone), t2) == ExpiredKeys(db, t2) - gone
    ensures ExpiredKeys(db, t1) <= ExpiredKeys(db, t2)
  {
  }

  lemma {:induction false} SweepExpiredFacts(db: Db, gone: set<Key>, doomed: set<Key>, t1: int, t2: int)
    requires t1 <= t2 && gone <= ExpiredKeys(db, t1) && doomed <= ExpiredKeys(WithoutEvents(db, gone), t2)
    ensures WithoutEvents(WithoutEvents(db, gone), doomed) == WithoutEvents(db, gone + doomed)
    ensures gone + doomed <= ExpiredKeys(db, t2)
    ensures doomed == ExpiredKeys(WithoutEvents(db, gone), t2) ==> gone + doomed == ExpiredKeys(db, t2)
    ensures |gone + doomed| == |gone| + |doomed|
    ensures |WithoutEvents(db, gone + doomed).events| == |WithoutEvents(db, gone).events| - |doomed|
  {
    SweepCounts(db.events, gone, doomed);
    ExpiredLeft(db, gone, t1, t2);
  }

  /** One sweep after others, for installations. */
  lemma {:induction false} SweepStaleFacts(db: Db, gone: set<Key>, doomed: set<Key>, t1: int, t2: int)
    requires t1 <= t2 && gone <= StaleKeys(db, t1) && doomed <= StaleKeys(WithoutInstallations(db, gone), t2)
    ensures WithoutInstallations(WithoutInstallations(db, gone), doomed) == WithoutInstallations(db, gone + doomed)
    ensures gone + doomed <= StaleKeys(db, t2)
    ensures doomed == StaleKeys(WithoutInstallations(db, gone), t2) ==> gone + doomed == StaleKeys(db, t2)
    ensures |gone + doomed| == |gone| + |doomed|
    ensures |WithoutInstallations(db, gone + doomed).installations| == |WithoutInstallations(db, gone).installations| - |doomed|
  {
    SweepCounts(db.installations, gone, doomed);
  }

  function CountsAt(counts: map<Build, Counts>, b: Build): Counts {
    if b in counts then counts[b] else Counts(0, 0, 0)
  }

  method CountAccepted(a: seq<Build>) returns (counts: map<Build, Counts>)
    ensures counts == Tally(a, [], [])
  {
    counts := map[];
    for i := 0 to |a|
      invariant counts == Tally(a[..i], [], [])
    {
      TallyAccepted(a[..i], [], [], a[i]);
      assert a[..i + 1] == a[..i] + [a[i]];
      counts := counts[a[i] := CountsAt(counts, a[i]).(accepted := CountsAt(counts, a[i]).accepted + 1)];
    }
    assert a[..|a|] == a;
  }

  method CountDuplicates(soFar: map<Build, Counts>, ghost a: seq<Build>, d: seq<Build>) returns (counts: map<Build, Counts>)
    requires soFar == Tally(a, [], [])
    ensures counts == Tally(a, d, [])
  {
    counts := soFar;
    for i := 0 to |d|
      invariant counts == Tally(a, d[..i], [])
    {
      TallyDuplicate(a, d[..i], [], d[i]);
      assert d[..i + 1] == d[..i] + [d[i]];
      counts := counts[d[i] := CountsAt(counts, d[i]).(duplicates := CountsAt(counts, d[i]).duplicates + 1)];
    }
    assert d[..|d|] == d;
  }

  method CountRejected(soFar: map<Build, Counts>, ghost a: seq<Build>, ghost d: seq<Build>, r: seq<Build>)
    returns (counts: map<Build, Counts>)
    requires soFar == Tally(a, d, [])
    ensures counts == Tally(a, d, r)
  {
    counts := soFar;
    for i := 0 to |r|
      invariant counts == Tally(a, d, r[..i])
    {
      TallyRejected(a, d, r[..i], r[i]);
      assert r[..i + 1] == r[..i] + [r[i]];
      counts := counts[r[i] := CountsAt(counts, r[i]).(rejected := CountsAt(counts, r[i]).rejected + 1)];
    }
    assert r[..|r|] == r;
  }

  /** LIMIT: some rows, no more than the limit, and all of them when they are fewer. */
  method TakeUpTo<T(==)>(s: set<T>, limit: nat) returns (t: set<T>)
    ensures t <= s && |t| <= limit && (|t| < limit ==> t == s)
  {
    t := {};
    var left := s;
    while |t| < limit && left != {}
      invariant t !! left && t + left == s && |t| <= limit
      decreases left
    {
      var x :| x in left;
      t, left := t + {x}, left - {x};
    }
  }

  lemma {:induction false} PersistStep(table: map<Key, Row>, project: Id, install: Id, ps: seq<Prepared>, now: int, i: nat)
    requires i < |ps|
    ensures var p, key := PersistedAfter(table, project, install, ps[..i], now), (project, ps[i].event.id);
            PersistedAfter(table, project, install, ps[..i + 1], now) ==
            if key in p.events then p.(duplicates := p.duplicates + [key.1])
            else Persisted(p.events[key := Row(install, now, ps[i])], p.accepted + [key.1], p.duplicates, true,
                           if ps[i].kind == Product && (p.first.None? || ps[i].effectiveAt < p.first.value)
                           then Some(ps[i].effectiveAt) else p.first)
  {
    InsertedKeys(table, project, install, ps[..i], now);
    var next := ps[..i + 1];
    assert next[..i] == ps[..i] && next[i] == ps[i];
    RepeatedId(table, project, next);
    SplitStep(table, project, next);
    AppendPrepared(Accepted(table, project, ps[..i]), ps[i]);
    AppendPrepared(Duplicates(table, project, ps[..i]), ps[i]);
  }

  lemma {:induction false} AppendPrepared(ps: seq<Prepared>, p: Prepared)
    ensures PreparedIds(ps + [p]) == PreparedIds(ps) + [p.event.id]
    ensures LeastProduct(ps + [p]) ==
            if p.kind == Product && (LeastProduct(ps).None? || p.effectiveAt < LeastProduct(ps).value)
            then Some(p.effectiveAt) else LeastProduct(ps)
  {
    assert (ps + [p])[..|ps|] == ps;
  }

  lemma {:induction false} TallyAccepted(a: seq<Build>, d: seq<Build>, r: seq<Build>, b: Build)
    ensures var t := Tally(a, d, r);
            var c := CountsAt(t, b);
            Tally(a + [b], d, r) == t[b := c.(accepted := c.accepted + 1)]
  {
    assert b !in Tally(a, d, r) ==> b !in a && b !in d && b !in r;
  }

  lemma {:induction false} TallyDuplicate(a: seq<Build>, d: seq<Build>, r: seq<Build>, b: Build)
    ensures var t := Tally(a, d, r);
            var c := CountsAt(t, b);
            Tally(a, d + [b], r) == t[b := c.(duplicates := c.duplicates + 1)]
  {
    assert b !in Tally(a, d, r) ==> b !in a && b !in d && b !in r;
  }

  lemma {:induction false} TallyRejected(a: seq<Build>, d: seq<Build>, r: seq<Build>, b: Build)
    ensures var t := Tally(a, d, r);
            var c := CountsAt(t, b);
            Tally(a, d, r + [b]) == t[b := c.(rejected := c.rejected + 1)]
  {
    assert b !in Tally(a, d, r) ==> b !in a && b !in d && b !in r;
  }
}
