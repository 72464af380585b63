/** Whole runs of the ingestion protocol: any sequence of registrations, batch calls (first tries and
    retries, complete or stopped after their commit), retention sweeps and cleanup sweeps. */
module IngestRuns {
  import opened Basics
  import opened BatchIntake
  import opened Durations
  import opened EventStore
  import opened Sums

  /** chosen are the rows a bounded DELETE happened to pick; only those that qualify go. */
  datatype Action =
    | RegisterCall(project: Id, install: Id, hash: Id, build: Build, now: int)
    | BatchCall(req: Request, decodeRejections: seq<Rejected>, hash: Id, now: int, stop: Option<set<Build>>)
    | RetentionSweep(chosen: set<Key>, now: int)
    | CleanupSweep(chosen: set<Key>, now: int)

  function Step(cap: int, db: Db, a: Action): Db {
    match a
    case RegisterCall(p, i, h, b, now) => AfterRegister(db, cap, p, i, h, b, now)
    case BatchCall(req, dr, h, now, stop) => AfterBatch(db, req, dr, h, now, stop)
    case RetentionSweep(chosen, now) => WithoutEvents(db, ExpiredKeys(db, now) * chosen)
    case CleanupSweep(chosen, now) => WithoutInstallations(db, StaleKeys(db, now) * chosen)
  }

  function Run(cap: int, db: Db, acts: seq<Action>): Db {
    if acts == [] then db else Step(cap, Run(cap, db, acts[..|acts| - 1]), acts[|acts| - 1])
  }

  /** The events an action inserts. */
  function News(db: Db, a: Action): seq<Prepared> {
    if a.BatchCall? && Proceeds(db, a.req, a.hash)
    then Accepted(db.events, a.req.project, PreparedFor(db, a.req, a.now)) else []
  }

  // ---------------------------------------------------------------- idempotent delivery

  /** How often an action reports key k as accepted. */
  function AcceptsIn(db: Db, a: Action, k: Key): nat {
    if a.BatchCall? && a.req.project == k.0 then Times(News(db, a), k.1) else 0
  }

  predicate DeletesIn(db: Db, a: Action, k: Key) {
    a.RetentionSweep? && k in ExpiredKeys(db, a.now) * a.chosen
  }

  function AcceptsOver(cap: int, db: Db, acts: seq<Action>, k: Key): nat {
    if acts == [] then 0 else
    var init := acts[..|acts| - 1];
    AcceptsOver(cap, db, init, k) + AcceptsIn(Run(cap, db, init), acts[|acts| - 1], k)
  }

  function DeletesOver(cap: int, db: Db, acts: seq<Action>, k: Key): nat {
    if acts == [] then 0 else
    var init := acts[..|acts| - 1];
    DeletesOver(cap, db, init, k) + Bit(DeletesIn(Run(cap, db, init), acts[|acts| - 1], k))
  }

  lemma {:induction false} EventsStep(cap: int, db: Db, a: Action, k: Key)
    ensures AcceptsIn(db, a, k) + Bit(k in db.events) ==
            Bit(DeletesIn(db, a, k)) + Bit(k in Step(cap, db, a).events)
    ensures k in db.events && k in Step(cap, db, a).events ==> Step(cap, db, a).events[k] == db.events[k]
  {
    if a.BatchCall? && Proceeds(db, a.req, a.hash) {
      var ps := PreparedFor(db, a.req, a.now);
      assert Step(cap, db, a).events == Inserted(db.events, a.req.project, a.req.install, ps, a.now);
      InsertedKeys(db.events, a.req.project, a.req.install, ps, a.now);
      AcceptedOnce(db.events, a.req.project, a.req.install, ps, a.now, k.1);
      assert k == (k.0, k.1);
    }
  }

  /** The ledger of one key over a run: every acceptance is matched by a retention delete or by the row
      being there at the end. */
  lemma {:induction false} AcceptLedger(cap: int, db: Db, acts: seq<Action>, k: Key)
    ensures AcceptsOver(cap, db, acts, k) + Bit(k in db.events) ==
            DeletesOver(cap, db, acts, k) + Bit(k in Run(cap, db, acts).events)
  {
    if acts != [] {
      AcceptLedger(cap, db, acts[..|acts| - 1], k);
      EventsStep(cap, Run(cap, db, acts[..|acts| - 1]), acts[|acts| - 1], k);
    }
  }

  /** At-least-once delivery with idempotent retries: until retention deletes a key, at most one call of
      the whole run accepts it, and none does when it was stored already. */
  lemma {:induction false} AcceptedAtMostOnce(cap: int, db: Db, acts: seq<Action>, k: Key)
    requires DeletesOver(cap, db, acts, k) == 0
    ensures AcceptsOver(cap, db, acts, k) <= 1
    ensures k in db.events ==> AcceptsOver(cap, db, acts, k) == 0
  {
    AcceptLedger(cap, db, acts, k);
  }

  /** A stored row is never rewritten, whatever else the run does. */
  lemma {:induction false} StoredRowStays(cap: int, db: Db, acts: seq<Action>, k: Key)
    requires k in db.events && DeletesOver(cap, db, acts, k) == 0
    ensures k in Run(cap, db, acts).events && Run(cap, db, acts).events[k] == db.events[k]
  {
    if acts != [] {
      StoredRowStays(cap, db, acts[..|acts| - 1], k);
      EventsStep(cap, Run(cap, db, acts[..|acts| - 1]), acts[|acts| - 1], k);
    }
  }

  lemma {:induction false} ProjectsFixed(cap: int, db: Db, acts: seq<Action>)
    ensures Run(cap, db, acts).projects == db.projects
  {
    if acts != [] { ProjectsFixed(cap, db, acts[..|acts| - 1]); }
  }

  /** Which events survive preparation does not depend on when the batch arrives. */
  lemma {:induction false} PreparedIdsAnyTime(es: seq<Event>, strict: bool, catalog: map<string, set<string>>,
                                              now1: int, skew1: int, now2: int, skew2: int)
    ensures PreparedIds(Prepare(es, strict, catalog, now1, skew1)) == PreparedIds(Prepare(es, strict, catalog, now2, skew2))
  {
    if es != [] {
      PreparedIdsAnyTime(es[..|es| - 1], strict, catalog, now1, skew1, now2, skew2);
      var last := es[|es| - 1];
      var a, b := Prepare(es[..|es| - 1], strict, catalog, now1, skew1), Prepare(es[..|es| - 1], strict, catalog, now2, skew2);
      if RejectionOf(last, strict, catalog).None? {
        AppendPrepared(a, PreparedOf(last, now1, skew1));
        AppendPrepared(b, PreparedOf(last, now2, skew2));
      } else {
        assert a + [] == a && b + [] == b;
      }
    }
  }

  /** A batch whose ids are all stored is all duplicates, in order. */
  lemma {:induction false} AllStored(events: map<Key, Row>, project: Id, ps: seq<Prepared>)
    requires forall i :: 0 <= i < |ps| ==> (project, ps[i].event.id) in events
    ensures Accepted(events, project, ps) == [] && Duplicates(events, project, ps) == ps
  {
    if ps != [] {
      var init, last := ps[..|ps| - 1], ps[|ps| - 1];
      AllStored(events, project, init);
      assert !Accepts(events, project, ps, |ps| - 1);
      SplitStep(events, project, ps);
      assert init + [last] == ps;
    }
  }

  lemma {:induction false} NothingInserted(events: map<Key, Row>, project: Id, install: Id, ps: seq<Prepared>, now: int)
    requires forall i :: 0 <= i < |ps| ==> (project, ps[i].event.id) in events
    ensures Inserted(events, project, install, ps, now) == events
  {
    if ps != [] {
      NothingInserted(events, project, install, ps[..|ps| - 1], now);
      assert !Accepts(events, project, ps, |ps| - 1);
    }
  }

  /** The response was lost and the client sends the same request again, any time later and after any
      other calls. Unless retention has deleted its events meanwhile, they are all duplicates then and no
      row changes; and it is authorised when the sender was safe from cleanup or no cleanup deleted it. */
  lemma {:induction false} RetryIsHarmless(cap: int, db: Db, req: Request, dr: seq<Rejected>, hash: Id, now: int, stop: Option<set<Build>>,
                                           acts: seq<Action>, later: int)
    requires Proceeds(db, req, hash)
    requires forall id :: id in PreparedIds(PreparedFor(db, req, now)) ==>
               DeletesOver(cap, AfterBatch(db, req, dr, hash, now, stop), acts, (req.project, id)) == 0
    ensures var db2 := Run(cap, AfterBatch(db, req, dr, hash, now, stop), acts);
            var again := PreparedFor(db2, req, later);
            && PreparedIds(again) == PreparedIds(PreparedFor(db, req, now))
            && Accepted(db2.events, req.project, again) == [] && Duplicates(db2.events, req.project, again) == again
            && Inserted(db2.events, req.project, req.install, again, later) == db2.events
    ensures var db1 := AfterBatch(db, req, dr, hash, now, stop);
            SafeFromCleanup(db, req, now) || !RemovedOver(cap, db1, acts, (req.project, req.install))
            ==> Proceeds(Run(cap, db1, acts), req, hash)
  {
    var db1 := AfterBatch(db, req, dr, hash, now, stop);
    var db2, ps, p := Run(cap, db1, acts), PreparedFor(db, req, now), db.projects[req.project];
    ProjectsFixed(cap, db1, acts);
    PreparedIdsAnyTime(req.events, p.strict, p.catalog, now, Sub(now, req.sentAt), later, Sub(later, req.sentAt));
    InsertedKeys(db.events, req.project, req.install, ps, now);
    var again := PreparedFor(db2, req, later);
    forall i | 0 <= i < |again| ensures (req.project, again[i].event.id) in db2.events {
      assert again[i].event.id == PreparedIds(again)[i] == PreparedIds(ps)[i];
      StoredRowStays(cap, db1, acts, (req.project, again[i].event.id));
    }
    AllStored(db2.events, req.project, again);
    NothingInserted(db2.events, req.project, req.install, again, later);
    if SafeFromCleanup(db, req, now) || !RemovedOver(cap, db1, acts, (req.project, req.install)) {
      StillAuthorised(cap, db, req, dr, hash, now, stop, acts);
    }
  }

  /** What makes the sender safe from cleanup: it was activated before, or this call inserts something. */
  predicate SafeFromCleanup(db: Db, req: Request, now: int)
    requires (req.project, req.install) in db.installations
  {
    db.installations[(req.project, req.install)].activatedAt.Some?
    || Accepted(db.events, req.project, PreparedFor(db, req, now)) != []
  }

  /** A retry is authorised, whatever happened in between, when the sender was safe from cleanup; when it
      was not, as long as no cleanup deleted it. */
  lemma {:induction false} StillAuthorised(cap: int, db: Db, req: Request, dr: seq<Rejected>, hash: Id, now: int, stop: Option<set<Build>>,
                                           acts: seq<Action>)
    requires Proceeds(db, req, hash)
    requires SafeFromCleanup(db, req, now)
             || !RemovedOver(cap, AfterBatch(db, req, dr, hash, now, stop), acts, (req.project, req.install))
    ensures Proceeds(Run(cap, AfterBatch(db, req, dr, hash, now, stop), acts), req, hash)
  {
    var db1, key := AfterBatch(db, req, dr, hash, now, stop), (req.project, req.install);
    ProjectsFixed(cap, db1, acts);
    assert key in db1.installations && db1.installations[key].hash == hash;
    if SafeFromCleanup(db, req, now) {
      ActivatedForGood(cap, db1, acts, key);
    } else {
      CredentialFixed(cap, db1, acts, key);
    }
  }

  /** A retry is authorised after every run exactly when the sender was activated before the first call or
      that call inserted something. */
  lemma {:induction false} RetryAuthorisedIff(cap: int, db: Db, req: Request, dr: seq<Rejected>, hash: Id, now: int, stop: Option<set<Build>>)
    requires Proceeds(db, req, hash)
    ensures (forall acts :: Proceeds(Run(cap, AfterBatch(db, req, dr, hash, now, stop), acts), req, hash))
            <==> SafeFromCleanup(db, req, now)
  {
    if SafeFromCleanup(db, req, now) {
      forall acts ensures Proceeds(Run(cap, AfterBatch(db, req, dr, hash, now, stop), acts), req, hash) {
        StillAuthorised(cap, db, req, dr, hash, now, stop, acts);
      }
    } else {
      RetryAfterCleanupIsRefused(cap, db, req, dr, hash, now, stop,
                                 db.installations[(req.project, req.install)].registeredAt + 7 * DAY + 1);
    }
  }

  /** A cleanup that deletes a sender not safe from it makes the retry unauthorised. */
  lemma {:induction false} RetryAfterCleanupIsRefused(cap: int, db: Db, req: Request, dr: seq<Rejected>, hash: Id, now: int,
                                                      stop: Option<set<Build>>, later: int)
    requires Proceeds(db, req, hash) && !SafeFromCleanup(db, req, now)
    requires Stale(db.installations[(req.project, req.install)], later)
    ensures var acts := [CleanupSweep({(req.project, req.install)}, later)];
            !Proceeds(Run(cap, AfterBatch(db, req, dr, hash, now, stop), acts), req, hash)
  {
    var db1, a := AfterBatch(db, req, dr, hash, now, stop), CleanupSweep({(req.project, req.install)}, later);
    assert [a][..0] == [];
    assert Run(cap, db1, [a]) == Step(cap, db1, a);
    assert Stale(db1.installations[(req.project, req.install)], later);
  }

  // ---------------------------------------------------------------- statistics against inserts

  ghost function AcceptedIn(t: map<Build, Counts>): nat {
    SumOver(t.Keys, b => if b in t then t[b].accepted else 0)
  }

  ghost function AcceptedRecorded(stats: seq<map<Build, Counts>>): nat {
    if stats == [] then 0 else AcceptedRecorded(stats[..|stats| - 1]) + AcceptedIn(stats[|stats| - 1])
  }

  function InsertedOver(cap: int, db: Db, acts: seq<Action>): nat {
    if acts == [] then 0 else
    var init := acts[..|acts| - 1];
    InsertedOver(cap, db, init) + |News(Run(cap, db, init), acts[|acts| - 1])|
  }

  /** A call that stopped before writing the row of a build with accepted events. */
  predicate LosesStats(db: Db, a: Action) {
    && a.BatchCall? && Proceeds(db, a.req, a.hash)
    && var t := TallyFor(db, a.req, a.decodeRejections, a.now);
       exists b :: b in t && b !in Written(t, a.stop) && t[b].accepted > 0
  }

  predicate SomeCallLosesStats(cap: int, db: Db, acts: seq<Action>) {
    acts != [] &&
    var init := acts[..|acts| - 1];
    SomeCallLosesStats(cap, db, init) || LosesStats(Run(cap, db, init), acts[|acts| - 1])
  }

  lemma {:induction false} PartialSum(t: map<Build, Counts>, w: map<Build, Counts>)
    requires w.Keys <= t.Keys && forall b :: b in w ==> w[b] == t[b]
    ensures AcceptedIn(w) <= AcceptedIn(t)
    ensures AcceptedIn(w) == AcceptedIn(t) <==> forall b :: b in t && b !in w ==> t[b].accepted == 0
    decreases t.Keys - w.Keys
  {
    var f: Build -> nat := b => if b in t then t[b].accepted else 0;
    if w.Keys == t.Keys {
      assert w == t;
    } else {
      var b :| b in t && b !in w;
      var w' := w[b := t[b]];
      assert b in t.Keys - w.Keys && b !in t.Keys - w'.Keys;
      PartialSum(t, w');
      SumUpdate(w.Keys, w'.Keys, b => if b in w then w[b].accepted else 0,
                b => if b in w' then w'[b].accepted else 0, b, t[b].accepted);
    }
  }

  lemma {:induction false} StatsStep(cap: int, db: Db, a: Action)
    ensures AcceptedRecorded(Step(cap, db, a).stats) <= AcceptedRecorded(db.stats) + |News(db, a)|
    ensures AcceptedRecorded(Step(cap, db, a).stats) == AcceptedRecorded(db.stats) + |News(db, a)| <==> !LosesStats(db, a)
  {
    if a.BatchCall? && Proceeds(db, a.req, a.hash) {
      var ps, t := PreparedFor(db, a.req, a.now), TallyFor(db, a.req, a.decodeRejections, a.now);
      TallyAddsUp(BuildsOf(ps, PreparedIds(News(db, a))),
                  BuildsOf(ps, PreparedIds(Duplicates(db.events, a.req.project, ps))),
                  RejectedBuilds(RejectedFor(db, a.req, a.decodeRejections)));
      assert AcceptedIn(t) == |News(db, a)|;
      PartialSum(t, Written(t, a.stop));
      var after := Step(cap, db, a).stats;
      assert after == db.stats + [Written(t, a.stop)] && after[..|after| - 1] == db.stats;
    }
  }

  /** The recorded accepted counts never exceed the rows inserted, and match them exactly when no call
      stopped before writing a row it owed. */
  lemma {:induction false} StatsAgainstInserts(cap: int, db: Db, acts: seq<Action>)
    ensures AcceptedRecorded(Run(cap, db, acts).stats) <= AcceptedRecorded(db.stats) + InsertedOver(cap, db, acts)
    ensures AcceptedRecorded(Run(cap, db, acts).stats) == AcceptedRecorded(db.stats) + InsertedOver(cap, db, acts)
            <==> !SomeCallLosesStats(cap, db, acts)
  {
    if acts != [] {
      StatsAgainstInserts(cap, db, acts[..|acts| - 1]);
      StatsStep(cap, Run(cap, db, acts[..|acts| - 1]), acts[|acts| - 1]);
    }
  }

  // ---------------------------------------------------------------- installation lifecycle

  /** Every stored event belongs to an activated installation, and only those have a first product event. */
  predicate Sound(db: Db) {
    && (forall k :: k in db.events ==>
          (k.0, db.events[k].install) in db.installations
          && db.installations[(k.0, db.events[k].install)].activatedAt.Some?)
    && (forall k :: k in db.installations && db.installations[k].firstProductAt.Some? ==>
          db.installations[k].activatedAt.Some?)
  }

  lemma {:induction false} SoundBatch(db: Db, req: Request, dr: seq<Rejected>, hash: Id, now: int, stop: Option<set<Build>>)
    requires Sound(db) && Proceeds(db, req, hash)
    ensures Sound(AfterBatch(db, req, dr, hash, now, stop))
  {
    var ps, after := PreparedFor(db, req, now), AfterBatch(db, req, dr, hash, now, stop);
    InsertedKeys(db.events, req.project, req.install, ps, now);
    forall k | k in after.events
      ensures (k.0, after.events[k].install) in after.installations
              && after.installations[(k.0, after.events[k].install)].activatedAt.Some?
    {
      if k !in db.events {
        AcceptedOnce(db.events, req.project, req.install, ps, now, k.1);
        assert k == (k.0, k.1) && Accepted(db.events, req.project, ps) != [];
      }
    }
  }

  lemma {:induction false} SoundStep(cap: int, db: Db, a: Action)
    requires Sound(db)
    ensures Sound(Step(cap, db, a))
  {
    if a.BatchCall? && Proceeds(db, a.req, a.hash) {
      SoundBatch(db, a.req, a.decodeRejections, a.hash, a.now, a.stop);
    }
  }

  /** An installation that owns an event is activated, so no cleanup ever removes it. */
  lemma {:induction false} SoundRun(cap: int, db: Db, acts: seq<Action>)
    requires Sound(db)
    ensures Sound(Run(cap, db, acts))
  {
    if acts != [] {
      SoundRun(cap, db, acts[..|acts| - 1]);
      SoundStep(cap, Run(cap, db, acts[..|acts| - 1]), acts[|acts| - 1]);
    }
  }

  /** Nothing is held against any stored event: in a strict project its name is declared or reserved, and
      its properties are declared when the catalogue lists any. */
  predicate Declared(db: Db) {
    forall k :: k in db.events && k.0 in db.projects ==>
      NothingHeld(db.events[k].prepared.event, db.projects[k.0].strict, db.projects[k.0].catalog)
  }

  lemma {:induction false} DeclaredBatch(db: Db, req: Request, dr: seq<Rejected>, hash: Id, now: int, stop: Option<set<Build>>)
    requires Declared(db) && Proceeds(db, req, hash)
    ensures Declared(AfterBatch(db, req, dr, hash, now, stop))
  {
    var ps, p, after := PreparedFor(db, req, now), db.projects[req.project], AfterBatch(db, req, dr, hash, now, stop);
    PreparedAreClean(req.events, p.strict, p.catalog, now, Sub(now, req.sentAt));
    InsertedKeys(db.events, req.project, req.install, ps, now);
    forall k | k in after.events && k.0 in after.projects
      ensures NothingHeld(after.events[k].prepared.event, after.projects[k.0].strict, after.projects[k.0].catalog)
    {
      if k !in db.events {
        InsertedRows(db.events, req.project, req.install, ps, now, k);
        assert after.events[k].prepared in ps;
      }
    }
  }

  /** No run ever stores an event that a strict catalogue holds something against. */
  lemma {:induction false} DeclaredRun(cap: int, db: Db, acts: seq<Action>)
    requires Declared(db)
    ensures Declared(Run(cap, db, acts))
  {
    if acts != [] {
      var init, a := acts[..|acts| - 1], acts[|acts| - 1];
      DeclaredRun(cap, db, init);
      var before := Run(cap, db, init);
      if a.BatchCall? && Proceeds(before, a.req, a.hash) {
        DeclaredBatch(before, a.req, a.decodeRejections, a.hash, a.now, a.stop);
      }
    }
  }

  /** While an installation exists its credential is fixed; once activated it exists for good. */
  lemma {:induction false} ActivatedForGood(cap: int, db: Db, acts: seq<Action>, k: Key)
    requires k in db.installations && db.installations[k].activatedAt.Some?
    ensures var after := Run(cap, db, acts).installations;
            && k in after && after[k].hash == db.installations[k].hash
            && after[k].activatedAt == db.installations[k].activatedAt
            && after[k].registeredAt == db.installations[k].registeredAt
  {
    if acts != [] {
      ActivatedForGood(cap, db, acts[..|acts| - 1], k);
      ActivatedStep(cap, Run(cap, db, acts[..|acts| - 1]), acts[|acts| - 1], k);
    }
  }

  lemma {:induction false} ActivatedStep(cap: int, db: Db, a: Action, k: Key)
    requires k in db.installations && db.installations[k].activatedAt.Some?
    ensures var after := Step(cap, db, a).installations;
            && k in after && after[k].hash == db.installations[k].hash
            && after[k].activatedAt == db.installations[k].activatedAt
            && after[k].registeredAt == db.installations[k].registeredAt
  {
  }

  /** Some cleanup sweep of the run deletes installation k. */
  predicate RemovedOver(cap: int, db: Db, acts: seq<Action>, k: Key) {
    acts != [] &&
    var init, a := acts[..|acts| - 1], acts[|acts| - 1];
    RemovedOver(cap, db, init, k) || (a.CleanupSweep? && k in StaleKeys(Run(cap, db, init), a.now) * a.chosen)
  }

  /** Until a cleanup deletes it, an installation stays, and no call, whatever credential it brings,
      changes the one stored at registration. */
  lemma {:induction false} CredentialFixed(cap: int, db: Db, acts: seq<Action>, k: Key)
    requires k in db.installations && !RemovedOver(cap, db, acts, k)
    ensures k in Run(cap, db, acts).installations
    ensures Run(cap, db, acts).installations[k].hash == db.installations[k].hash
  {
    if acts != [] { CredentialFixed(cap, db, acts[..|acts| - 1], k); }
  }

  function RegistrationsOver(cap: int, db: Db, acts: seq<Action>, project: Id, day: int): nat {
    if acts == [] then 0 else
    var init, a := acts[..|acts| - 1], acts[|acts| - 1];
    RegistrationsOver(cap, db, init, project, day) +
    Bit(a.RegisterCall? && a.project == project && DayOf(a.now) == day
        && Inserts(Run(cap, db, init), cap, a.project, a.install, a.hash, a.now))
  }

  /** The day's counter is the number of installations created that day, and stays within the cap. */
  lemma {:induction false} DailyCounter(cap: int, db: Db, acts: seq<Action>, project: Id, day: int)
    requires CounterOf(db, project, day) <= cap
    ensures CounterOf(Run(cap, db, acts), project, day) ==
            CounterOf(db, project, day) + RegistrationsOver(cap, db, acts, project, day)
    ensures CounterOf(Run(cap, db, acts), project, day) <= cap
  {
    if acts != [] {
      DailyCounter(cap, db, acts[..|acts| - 1], project, day);
    }
  }

  // ---------------------------------------------------------------- first product event

  function FirstProductOf(db: Db, k: Key): Option<int> {
    if k in db.installations then db.installations[k].firstProductAt else None
  }

  /** The least product time of the first call in the run that inserted a product event for k. */
  function FirstInserted(cap: int, db: Db, acts: seq<Action>, k: Key): Option<int> {
    if acts == [] then None else
    var init, a := acts[..|acts| - 1], acts[|acts| - 1];
    Coalesce(FirstInserted(cap, db, init, k),
             if a.BatchCall? && (a.req.project, a.req.install) == k then LeastProduct(News(Run(cap, db, init), a)) else None)
  }

  lemma {:induction false} FirstProductStep(cap: int, db: Db, a: Action, k: Key)
    requires Sound(db)
    ensures FirstProductOf(Step(cap, db, a), k) ==
            Coalesce(FirstProductOf(db, k),
                     if a.BatchCall? && (a.req.project, a.req.install) == k then LeastProduct(News(db, a)) else None)
  {
    if a.BatchCall? && Proceeds(db, a.req, a.hash) {
      var ps := PreparedFor(db, a.req, a.now);
    }
  }

  /** first_product_event_at is set once: to the least effective time among the product events inserted
      by the first call that inserted any. */
  lemma {:induction false} FirstProductSetOnce(cap: int, db: Db, acts: seq<Action>, k: Key)
    requires Sound(db)
    ensures FirstProductOf(Run(cap, db, acts), k) == Coalesce(FirstProductOf(db, k), FirstInserted(cap, db, acts, k))
  {
    if acts != [] {
      var init := acts[..|acts| - 1];
      FirstProductSetOnce(cap, db, init, k);
      SoundRun(cap, db, init);
      FirstProductStep(cap, Run(cap, db, init), acts[|acts| - 1], k);
    }
  }

  // ---------------------------------------------------------------- activation

  function ActivatedOf(db: Db, k: Key): Option<int> {
    if k in db.installations then db.installations[k].activatedAt else None
  }

  /** A call by installation k that inserts the events of News. */
  predicate CallOf(a: Action, k: Key) {
    a.BatchCall? && (a.req.project, a.req.install) == k
  }

  /** The receipt time of the first call in the run by which k inserted any event. */
  function FirstInsertion(cap: int, db: Db, acts: seq<Action>, k: Key): Option<int> {
    if acts == [] then None else
    var init, a := acts[..|acts| - 1], acts[|acts| - 1];
    Coalesce(FirstInsertion(cap, db, init, k),
             if CallOf(a, k) && News(Run(cap, db, init), a) != [] then Some(a.now) else None)
  }

  lemma {:induction false} ActivationStep(cap: int, db: Db, a: Action, k: Key)
    ensures ActivatedOf(Step(cap, db, a), k) ==
            Coalesce(ActivatedOf(db, k), if CallOf(a, k) && News(db, a) != [] then Some(a.now) else None)
  {
    if a.BatchCall? && Proceeds(db, a.req, a.hash) {
      var ps := PreparedFor(db, a.req, a.now);
      assert News(db, a) == Accepted(db.events, a.req.project, ps);
    }
  }

  /** An installation is activated once, by the first call that inserts any event of its own, whatever
      the kind of that event. */
  lemma {:induction false} ActivatedByFirstInsertion(cap: int, db: Db, acts: seq<Action>, k: Key)
    ensures ActivatedOf(Run(cap, db, acts), k) == Coalesce(ActivatedOf(db, k), FirstInsertion(cap, db, acts, k))
  {
    if acts != [] {
      ActivatedByFirstInsertion(cap, db, acts[..|acts| - 1], k);
      ActivationStep(cap, Run(cap, db, acts[..|acts| - 1]), acts[|acts| - 1], k);
    }
  }

  /** Some call of the run by k inserts an event. */
  predicate SomeCallInserts(cap: int, db: Db, acts: seq<Action>, k: Key) {
    acts != [] &&
    var init, a := acts[..|acts| - 1], acts[|acts| - 1];
    SomeCallInserts(cap, db, init, k) || (CallOf(a, k) && News(Run(cap, db, init), a) != [])
  }

  /** Some call of the run by k inserts a product event. */
  predicate SomeCallInsertsProduct(cap: int, db: Db, acts: seq<Action>, k: Key) {
    acts != [] &&
    var init, a := acts[..|acts| - 1], acts[|acts| - 1];
    SomeCallInsertsProduct(cap, db, init, k)
    || (CallOf(a, k) && exists p :: p in News(Run(cap, db, init), a) && p.kind == Product)
  }

  lemma {:induction false} InsertionsAreCalls(cap: int, db: Db, acts: seq<Action>, k: Key)
    ensures FirstInsertion(cap, db, acts, k).Some? <==> SomeCallInserts(cap, db, acts, k)
    ensures FirstInserted(cap, db, acts, k).Some? <==> SomeCallInsertsProduct(cap, db, acts, k)
    ensures SomeCallInsertsProduct(cap, db, acts, k) ==> SomeCallInserts(cap, db, acts, k)
  {
    if acts != [] {
      var init, a := acts[..|acts| - 1], acts[|acts| - 1];
      InsertionsAreCalls(cap, db, init, k);
      LeastProductIsLeast(News(Run(cap, db, init), a));
    }
  }

  /** The documented rule, that an installation is activated by its first product event, holds of an
      installation not activated at the start exactly when it inserted a product event or none at all. */
  lemma {:induction false} ActivationRuleIff(cap: int, db: Db, acts: seq<Action>, k: Key)
    requires Sound(db) && ActivatedOf(db, k).None?
    ensures (ActivatedOf(Run(cap, db, acts), k).Some? <==> FirstProductOf(Run(cap, db, acts), k).Some?)
            <==> (SomeCallInserts(cap, db, acts, k) ==> SomeCallInsertsProduct(cap, db, acts, k))
  {
    ActivatedByFirstInsertion(cap, db, acts, k);
    FirstProductSetOnce(cap, db, acts, k);
    InsertionsAreCalls(cap, db, acts, k);
  }

  // ---------------------------------------------------------------- plausible product times

  lemma {:induction false} AcceptedFromBatch(events: map<Key, Row>, project: Id, ps: seq<Prepared>)
    ensures forall p :: p in Accepted(events, project, ps) ==> p in ps
  {
    if ps != [] { AcceptedFromBatch(events, project, ps[..|ps| - 1]); }
  }

  /** Whatever time the call contributes lies within 8 days before and 5 minutes after its receipt. */
  lemma {:induction false} FirstProductPlausible(db: Db, a: Action)
    requires a.BatchCall? && LeastProduct(News(db, a)).Some?
    ensures Plausible(LeastProduct(News(db, a)).value, a.now)
  {
    var p := db.projects[a.req.project];
    PrepareFacts(a.req.events, p.strict, p.catalog, a.now, Sub(a.now, a.req.sentAt));
    AcceptedFromBatch(db.events, a.req.project, PreparedFor(db, a.req, a.now));
    LeastProductIsLeast(News(db, a));
  }

  /** A first product time set during a run is plausible for the receipt time of some call of that run. */
  lemma {:induction false} FirstProductPlausibleInRun(cap: int, db: Db, acts: seq<Action>, k: Key)
    requires Sound(db) && FirstProductOf(db, k).None? && FirstProductOf(Run(cap, db, acts), k).Some?
    ensures exists a :: a in acts && a.BatchCall? && (a.req.project, a.req.install) == k
                        && Plausible(FirstProductOf(Run(cap, db, acts), k).value, a.now)
  {
    if acts != [] {
      var init, last := acts[..|acts| - 1], acts[|acts| - 1];
      SoundRun(cap, db, init);
      FirstProductStep(cap, Run(cap, db, init), last, k);
      if FirstProductOf(Run(cap, db, init), k).Some? {
        FirstProductPlausibleInRun(cap, db, init, k);
      } else {
        FirstProductPlausible(Run(cap, db, init), last);
      }
    }
  }
}
