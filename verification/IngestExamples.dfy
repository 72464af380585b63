/** Single calls at which a rule one might expect of ingestion fails. */
module IngestExamples {
  import opened Basics
  import opened BatchIntake
  import opened Durations
  import opened EventStore
  import opened IngestRuns
  import opened Sums

  const PROJECT := Id("project")
  const INSTALL := Id("install")
  const HASH := Id("hash")
  const BUILD := Build(Id("1.0"), Id("1"))
  const SENDER: Key := (PROJECT, INSTALL)

  /** One enabled project and one installation, registered at time 0 and never activated. */
  function Fresh(): Db {
    Db(map[PROJECT := Project(true, false, 30, map[])], map[SENDER := Installation(HASH, 0, None, None, BUILD)],
       map[], map[], [])
  }

  function SessionStart(): Event { Event(Id("event"), "sys_session_start", BUILD, 0, {}, None) }

  /** The batch of one session start, received as it is sent. */
  function StartCall(stop: Option<set<Build>>): Action {
    BatchCall(Request(PROJECT, INSTALL, 0, true, [SessionStart()], 1), [], HASH, 0, stop)
  }

  lemma {:induction false} StartIsInserted(stop: Option<set<Build>>)
    ensures var a := StartCall(stop);
            var p := Prepared(SessionStart(), System, 0, Client);
            && Proceeds(Fresh(), a.req, HASH) && PreparedFor(Fresh(), a.req, 0) == [p] && News(Fresh(), a) == [p]
            && Duplicates(map[], PROJECT, [p]) == []
  {
    var a, e := StartCall(stop), SessionStart();
    assert [e][..0] == [];
    assert Prepare([], false, map[], 0, 0) == [];
    assert PreparedOf(e, 0, 0) == Prepared(e, System, 0, Client);
    var ps := [PreparedOf(e, 0, 0)];
    assert ps[..0] == [] && Accepts(map[], PROJECT, ps, 0);
    SplitStep(map[], PROJECT, ps);
  }

  lemma {:induction false} OneAction(cap: int, db: Db, a: Action)
    ensures Run(cap, db, [a]) == Step(cap, db, a) && InsertedOver(cap, db, [a]) == |News(db, a)|
  {
    assert [a][..0] == [];
  }

  /** The sender's first event is a session start, a system event: it activates the installation, and no
      product time is set. */
  lemma {:induction false} SystemEventActivates(cap: int)
    ensures var after := Run(cap, Fresh(), [StartCall(None)]);
            ActivatedOf(after, SENDER) == Some(0) && FirstProductOf(after, SENDER) == None
  {
    var a := StartCall(None);
    StartIsInserted(None);
    OneAction(cap, Fresh(), a);
    ActivationStep(cap, Fresh(), a, SENDER);
    FirstProductStep(cap, Fresh(), a, SENDER);
    LeastProductIsLeast(News(Fresh(), a));
  }

  /** The call stops after its commit, before it writes any statistics: one row is inserted, none counted. */
  lemma {:induction false} StopLosesTheCount(cap: int)
    ensures var a := StartCall(Some({}));
            InsertedOver(cap, Fresh(), [a]) == 1 && AcceptedRecorded(Run(cap, Fresh(), [a]).stats) == 0
  {
    var a := StartCall(Some({}));
    StartIsInserted(Some({}));
    OneAction(cap, Fresh(), a);
    var t := Written(TallyFor(Fresh(), a.req, [], 0), a.stop);
    assert t == map[] && Run(cap, Fresh(), [a]).stats == [t];
    assert [t][..0] == [];
    assert AcceptedIn(t) == 0;
  }

  /** The only event of a batch did not decode. The call activates nothing, a cleanup eight days later
      deletes the sender, and the same request is refused. */
  lemma {:induction false} RetryIsRefused(cap: int)
    ensures var req := Request(PROJECT, INSTALL, 0, true, [], 1);
            var rejected := [Rejected(Id("event"), "broken", Invalid(0), BUILD)];
            var after := AfterBatch(Fresh(), req, rejected, HASH, 0, None);
            && Proceeds(Fresh(), req, HASH)
            && !Proceeds(Run(cap, after, [CleanupSweep({SENDER}, 8 * DAY)]), req, HASH)
  {
    var req := Request(PROJECT, INSTALL, 0, true, [], 1);
    var rejected := [Rejected(Id("event"), "broken", Invalid(0), BUILD)];
    RetryAfterCleanupIsRefused(cap, Fresh(), req, rejected, HASH, 0, None, 8 * DAY);
  }
}
