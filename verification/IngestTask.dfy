/**
  The ingest task as a whole: seeding the mirror from a fenced snapshot, then one session after
  another, each but the first preceded by a fresh snapshot that is reconciled against the
  mirror.  The ingest task takes a path of the ingest machine, so that what holds of every run of the
  machine holds of the mirror it leaves.
 */
module IngestTasks {
  import opened Wrappers
  import opened WalTypes
  import opened QuerySnapshots
  import opened Database
  import opened Runtime
  import opened SnapshotFences
  import opened JournalCursors
  import opened LiveTail
  import opened Ingest
  import opened StreamSessions

  datatype Snapshot = Snapshot(lsn: nat, fence: SnapshotFence, rows: Mirror)

  /** One turn of the ingest task's loop; without a snapshot, connecting or taking one failed. */
  datatype Attempt = Attempt(snapshot: Option<Snapshot>, events: seq<StreamEvent>)

  /** What the server did in a turn: the commits its snapshot saw, where it started, and which reports arrived. */
  datatype Script = Script(seen: nat, next: nat, delivered: seq<bool>)

  // ----- what the server does -----

  /** The snapshot sees the first `seen` commits, and its fence tells them from the rest. */
  ghost predicate Sees(log: seq<Commit>, tables: Catalog, snapshot: Snapshot, seen: nat) {
    && MirrorsLog(log, tables, BagsOf(snapshot.rows), seen)
    && FenceDescribes(snapshot.fence, log, seen)
  }

  /** The snapshot's LSN tells the commits it saw from the rest, too. */
  ghost predicate Dated(log: seq<Commit>, snapshot: Snapshot, seen: nat) {
    forall n :: 0 <= n < |log| ==> (log[n].lsn <= snapshot.lsn <==> n < seen)
  }

  /** The session starts after the confirmed position and continues the stream. */
  ghost predicate Serves(
    log: seq<Commit>, tables: Catalog, fence: SnapshotFence, confirmed: nat, a: Attempt, script: Script)
  {
    var ss := FreshSession(script.next);
    && script.next <= |log|
    && (forall i :: 0 <= i < |log| ==> (i < script.next <==> log[i].lsn <= confirmed))
    && |script.delivered| == |a.events|
    && Continues(log, tables, fence, ss, a.events)
  }

  /** Where the ingest task stands between turns. */
  datatype Standing = Standing(position: nat, fence: SnapshotFence, lsn: nat, confirmed: nat)

  /** The standing after reconciling a snapshot. */
  function Adopt(st: Standing, snapshot: Snapshot, seen: nat): Standing {
    st.(position := seen, fence := snapshot.fence, lsn := snapshot.lsn)
  }

  /** The standing after a session, which takes the events through the first that ends it. */
  function AfterSession(tables: Catalog, st: Standing, a: Attempt, script: Script): Standing
    requires |script.delivered| == |a.events|
  {
    var ss, n := FreshSession(script.next), Taken(tables, a.events);
    st.(position := Max(st.position, AfterEvents(tables, ss, a.events[..n]).next),
        confirmed := ConfirmedAfter(tables, ss, a.events[..n], script.delivered[..n], st.confirmed))
  }

  /**
    The turn goes as the server's part allows; the first takes no snapshot, a failed one changes
    nothing.  If it is to be in time, the snapshot is dated, and no earlier than the last.
   */
  ghost predicate Goes(log: seq<Commit>, tables: Catalog, timely: bool, st: Standing, first: bool, a: Attempt,
                       script: Script, st': Standing)
  {
    if first then
      Serves(log, tables, st.fence, st.confirmed, a, script) && st' == AfterSession(tables, st, a, script)
    else if a.snapshot.None? then st' == st
    else
      var snapshot := a.snapshot.value;
      && Supersedes(log, tables, timely, st, snapshot, script.seen)
      && Serves(log, tables, snapshot.fence, st.confirmed, a, script)
      && st' == AfterSession(tables, Adopt(st, snapshot, script.seen), a, script)
  }

  /** The snapshot sees what has been mirrored; if it is to be in time, it is dated, and no earlier than the last. */
  ghost predicate Supersedes(
    log: seq<Commit>, tables: Catalog, timely: bool, st: Standing, snapshot: Snapshot, seen: nat)
  {
    && Sees(log, tables, snapshot, seen) && st.position <= seen
    && (timely ==> Dated(log, snapshot, seen) && st.lsn <= snapshot.lsn)
  }

  /** All turns go that way, through the given standings. */
  ghost predicate GoesOn(log: seq<Commit>, tables: Catalog, timely: bool, attempts: seq<Attempt>,
                         scripts: seq<Script>, standings: seq<Standing>)
  {
    && |scripts| == |attempts| && |standings| == |attempts| + 1
    && forall i :: 0 <= i < |attempts| ==>
         Goes(log, tables, timely, standings[i], i == 0, attempts[i], scripts[i], standings[i + 1])
  }

  // ----- the ingest task's state -----

  /** The machine's state agrees with the standing. */
  ghost predicate StandsAt(log: seq<Commit>, timely: bool, s: State, st: Standing) {
    && s.position == st.position && s.fence == st.fence && s.confirmed == st.confirmed
    && (timely ==> ClockFits(log, s, st.lsn))
  }

  ghost predicate Between(
    log: seq<Commit>, tables: Catalog, timely: bool, s: State, st: Standing, ready: bool)
  {
    Inv(log, tables, s) && s.session.None? && s.ready == ready && StandsAt(log, timely, s, st)
  }

  /**
    The initial snapshot, taken once the slot exists: seeding the mirror with it puts the ingest task
    into an initial state of the machine.
   */
  method Connect(runtime: PostgresWalRuntime, snapshot: Snapshot,
                 ghost log: seq<Commit>, ghost timely: bool, ghost seen: nat, ghost confirmed: nat)
    returns (ghost s: State)
    requires runtime.Valid() && |runtime.history| == 0
    requires ValidLog(log) && Sees(log, runtime.columns, snapshot, seen) && CoveredBy(log, confirmed, seen)
    requires timely ==> Dated(log, snapshot, seen)
    modifies runtime`mirror, runtime`clock
    ensures runtime.Valid() && s.view == runtime.TheView()
    ensures Init(log, runtime.columns, s)
    ensures Between(log, runtime.columns, timely, s, Standing(seen, snapshot.fence, snapshot.lsn, confirmed), true)
  {
    runtime.SeedSnapshot(snapshot.lsn, snapshot.rows);
    s := SeededIsInit(log, runtime.columns, timely, snapshot, seen, confirmed);
    assert s.view == runtime.TheView();
  }

  lemma SeededIsInit(
    log: seq<Commit>, tables: Catalog, timely: bool, snapshot: Snapshot, seen: nat, confirmed: nat)
    returns (s: State)
    requires ValidLog(log) && Sees(log, tables, snapshot, seen) && CoveredBy(log, confirmed, seen)
    requires timely ==> Dated(log, snapshot, seen)
    ensures s.view == View(BagsOf(snapshot.rows), [], snapshot.lsn)
    ensures Init(log, tables, s)
    ensures Between(log, tables, timely, s, Standing(seen, snapshot.fence, snapshot.lsn, confirmed), true)
  {
    s := State(View(BagsOf(snapshot.rows), [], snapshot.lsn), seen, seen, snapshot.fence, confirmed, None, true);
    InitInv(log, tables, s);
  }

  // ----- reconciling -----

  lemma NothingMentioned(diffs: seq<RawDiff>)
    requires forall table, row :: Mentions(diffs, table, row) == 0
    ensures diffs == []
  {
    if diffs != [] {
      assert Mentions(diffs, diffs[0].table, diffs[0].row) > 0;
    }
  }

  /** When the snapshot has seen nothing new, reconciling emits nothing. */
  lemma NothingToReconcile(v: View, w: View, bags: Bags, tables: Catalog, lsn: nat)
    requires Reconciled(v, w, bags, tables.Keys, lsn)
    requires forall table :: table in tables ==> Rows(bags, table) == Rows(v.bags, table)
    ensures w.history == v.history
  {
    NothingMentioned(w.history[|v.history|..]);
    assert w.history == v.history + w.history[|v.history|..];
  }

  /** A dated snapshot that sees more lies after the clock; one that sees no more does not lie before it. */
  lemma SnapshotAfterClock(log: seq<Commit>, tables: Catalog, s: State, st: Standing,
                           snapshot: Snapshot, seen: nat)
    requires ValidLog(log) && Between(log, tables, true, s, st, false)
    requires Supersedes(log, tables, true, st, snapshot, seen)
    ensures s.view.clock <= snapshot.lsn
    ensures s.position < seen ==> s.view.clock < snapshot.lsn
  {
    if s.position > 0 {
      assert log[s.position - 1].lsn <= snapshot.lsn;
    }
    if s.position < seen {
      assert s.view.clock < log[s.position].lsn <= snapshot.lsn;
    }
  }

  /** `reconcile_after_disconnect`: adopting the snapshot is the machine's step of that name. */
  method ReconcileAfterDisconnect(runtime: PostgresWalRuntime, snapshot: Snapshot, ghost log: seq<Commit>,
                                  ghost timely: bool, ghost s: State, ghost st: Standing, ghost seen: nat)
    returns (ghost s': State)
    requires runtime.Valid() && s.view == runtime.TheView() && ValidLog(log)
    requires Between(log, runtime.columns, timely, s, st, false)
    requires Supersedes(log, runtime.columns, timely, st, snapshot, seen)
    modifies runtime`mirror, runtime`entries, runtime`baseSeq, runtime`truncatedThrough, runtime`clock,
             runtime`reconciles, runtime`history
    ensures runtime.Valid() && runtime.Grew() && s'.view == runtime.TheView()
    ensures NextStep(log, runtime.columns, s, s', Reconcile(snapshot.lsn, seen, BagsOf(snapshot.rows)))
    ensures timely ==> Timely(s.view, s'.view)
    ensures Between(log, runtime.columns, timely, s', Adopt(st, snapshot, seen), true)
  {
    runtime.ReconcileSnapshot(snapshot.lsn, snapshot.rows);
    s' := s.(view := runtime.TheView(), fence := snapshot.fence, position := seen, snapshot := seen, ready := true);
    ReconcileTaken(log, runtime.columns, timely, s, s', st, snapshot, seen);
  }

  lemma ReconcileTaken(log: seq<Commit>, tables: Catalog, timely: bool, s: State, s': State, st: Standing,
                       snapshot: Snapshot, seen: nat)
    requires ValidLog(log) && Between(log, tables, timely, s, st, false)
    requires Supersedes(log, tables, timely, st, snapshot, seen)
    requires Reconciled(s.view, s'.view, BagsOf(snapshot.rows), tables.Keys, snapshot.lsn)
    requires s'.view.clock == snapshot.lsn
    requires s' == s.(view := s'.view, fence := snapshot.fence, position := seen, snapshot := seen, ready := true)
    ensures NextStep(log, tables, s, s', Reconcile(snapshot.lsn, seen, BagsOf(snapshot.rows)))
    ensures timely ==> Timely(s.view, s'.view)
    ensures Between(log, tables, timely, s', Adopt(st, snapshot, seen), true)
  {
    if timely {
      SnapshotAfterClock(log, tables, s, st, snapshot, seen);
      if s.position == seen {
        NothingToReconcile(s.view, s'.view, BagsOf(snapshot.rows), tables, snapshot.lsn);
      }
    }
    assert NextStep(log, tables, s, s', Reconcile(snapshot.lsn, seen, BagsOf(snapshot.rows)));
    StepKeepsInv(log, tables, s, s', Reconcile(snapshot.lsn, seen, BagsOf(snapshot.rows)));
  }

  // ----- sessions -----

  lemma StartTaken(log: seq<Commit>, tables: Catalog, timely: bool, s: State, st: Standing, next: nat)
    returns (s': State)
    requires ValidLog(log) && Between(log, tables, timely, s, st, true) && next <= |log|
    requires forall i :: 0 <= i < |log| ==> (i < next <==> log[i].lsn <= st.confirmed)
    ensures NextStep(log, tables, s, s', StartSession)
    ensures Started(log, tables, timely, s') && s'.session.value == FreshSession(next)
    ensures s' == s.(session := s'.session, ready := false)
  {
    s' := s.(session := Some(FreshSession(next)), ready := false);
    assert NextStep(log, tables, s, s', StartSession);
    StepKeepsInv(log, tables, s, s', StartSession);
  }

  /** A session of the ingest task, from its start to its end or to the last event so far. */
  method RunSession(runtime: PostgresWalRuntime, fence: SnapshotFence, a: Attempt, ghost log: seq<Commit>,
                    ghost timely: bool, ghost s: State, ghost st: Standing, ghost script: Script)
    returns (outcome: Option<SessionOutcome>, ghost s': State)
    requires runtime.Valid() && s.view == runtime.TheView() && fence == st.fence && ValidLog(log)
    requires Between(log, runtime.columns, timely, s, st, true) && s.snapshot == s.position
    requires Serves(log, runtime.columns, fence, st.confirmed, a, script)
    modifies runtime`mirror, runtime`entries, runtime`baseSeq, runtime`truncatedThrough, runtime`clock, runtime`history
    ensures runtime.Valid() && runtime.Grew() && s'.view == runtime.TheView()
    ensures Leads(log, runtime.columns, timely, s, s') && Inv(log, runtime.columns, s')
    ensures StandsAt(log, timely, s', AfterSession(runtime.columns, st, a, script))
    ensures !s'.ready && (outcome.Some? <==> s'.session.None?)
    ensures StopsFor(runtime.columns, a.events, Taken(runtime.columns, a.events), outcome)
  {
    hide Leads, Continues, ConfirmedAfter, AfterEvents, CoveredBy, FenceDescribes, Assembled, Taken;
    ghost var tables, ss := runtime.columns, FreshSession(script.next);
    ghost var start := StartTaken(log, tables, timely, s, st, script.next);
    var taken, reports;
    outcome, taken, reports, s' := StreamSession(runtime, fence, a.events, log, timely, start, script.delivered);
    LeadsFrom(log, tables, timely, s, start, s');
  }

  /** A step and then a path. */
  lemma LeadsFrom(log: seq<Commit>, tables: Catalog, timely: bool, s: State, s': State, s'': State)
    requires CanStep(log, tables, s, s') && Leads(log, tables, timely, s', s'')
    requires timely ==> Timely(s.view, s'.view)
    ensures Leads(log, tables, timely, s, s'')
  {
    hide CanStep, Timely;
    var path: seq<State> :| Joins(log, tables, timely, path, s', s'');
    var longer := [s] + path;
    forall i | 0 <= i < |longer| - 1
      ensures CanStep(log, tables, longer[i], longer[i + 1])
      ensures timely ==> Timely(longer[i].view, longer[i + 1].view)
    {
      if i > 0 {
        assert CanStep(log, tables, path[i - 1], path[i - 1 + 1]);
        assert timely ==> Timely(path[i - 1].view, path[i - 1 + 1].view);
      }
    }
    assert Joins(log, tables, timely, longer, s, s'');
  }

  lemma LeadsFurther(log: seq<Commit>, tables: Catalog, timely: bool, s: State, s': State, s'': State)
    requires Leads(log, tables, timely, s, s') && Leads(log, tables, timely, s', s'')
    ensures Leads(log, tables, timely, s, s'')
  {
    var path :| Joins(log, tables, timely, path, s, s');
    PathLeads(log, tables, timely, path, s'');
  }

  lemma {:induction false} PathLeads(
    log: seq<Commit>, tables: Catalog, timely: bool, path: seq<State>, s'': State)
    requires IsPath(log, tables, path) && (timely ==> InTime(path))
    requires Leads(log, tables, timely, path[|path| - 1], s'')
    ensures Leads(log, tables, timely, path[0], s'')
    decreases |path|
  {
    hide CanStep, Timely, Leads;
    if |path| > 1 {
      assert CanStep(log, tables, path[0], path[0 + 1]);
      assert timely ==> Timely(path[0].view, path[0 + 1].view);
      var rest := path[1..];
      forall i | 0 <= i < |rest| - 1
        ensures CanStep(log, tables, rest[i], rest[i + 1])
        ensures timely ==> Timely(rest[i].view, rest[i + 1].view)
      {
        assert CanStep(log, tables, path[i + 1], path[i + 1 + 1]);
        assert timely ==> Timely(path[i + 1].view, path[i + 1 + 1].view);
      }
      PathLeads(log, tables, timely, rest, s'');
      LeadsFrom(log, tables, timely, path[0], path[1], s'');
    }
  }

  // ----- the ingest task -----

  /** The machine has come from `start` to `s`, where it is between turns. */
  ghost predicate CameTo(
    log: seq<Commit>, tables: Catalog, timely: bool, start: State, s: State, st: Standing, ready: bool)
  {
    Leads(log, tables, timely, start, s) && Between(log, tables, timely, s, st, ready)
  }

  /** A reconciliation that is due, if the snapshot could be taken. */
  method Resync(runtime: PostgresWalRuntime, snapshot: Snapshot, ghost log: seq<Commit>, ghost timely: bool,
                ghost start: State, ghost s: State, ghost st: Standing, ghost seen: nat)
    returns (ghost s': State)
    requires runtime.Valid() && s.view == runtime.TheView() && ValidLog(log)
    requires CameTo(log, runtime.columns, timely, start, s, st, false)
    requires Supersedes(log, runtime.columns, timely, st, snapshot, seen)
    modifies runtime`mirror, runtime`entries, runtime`baseSeq, runtime`truncatedThrough, runtime`clock,
             runtime`reconciles, runtime`history
    ensures runtime.Valid() && runtime.Grew() && s'.view == runtime.TheView()
    ensures CameTo(log, runtime.columns, timely, start, s', Adopt(st, snapshot, seen), true)
    ensures s'.snapshot == s'.position
  {
    s' := ReconcileAfterDisconnect(runtime, snapshot, log, timely, s, st, seen);
    LeadsOn(log, runtime.columns, timely, start, s, s');
  }

  /** The event shows drift, and none before it ends a session. */
  ghost predicate DriftsFirst(tables: Catalog, events: seq<StreamEvent>, k: nat)
    requires k < |events|
  {
    Drifts(tables, events[k]) && forall j :: 0 <= j < k ==> !Ends(tables, events[j])
  }

  /** A session ran in the turn, and a frame showed drift before anything else ended the session. */
  ghost predicate DriftsIn(tables: Catalog, first: bool, a: Attempt) {
    && (first || a.snapshot.Some?)
    && exists k :: 0 <= k < |a.events| && DriftsFirst(tables, a.events, k)
  }

  lemma {:induction false} DriftsIffFatal(tables: Catalog, first: bool, a: Attempt, outcome: Option<SessionOutcome>)
    requires first || a.snapshot.Some?
    requires StopsFor(tables, a.events, Taken(tables, a.events), outcome)
    ensures DriftsIn(tables, first, a) <==> outcome == Some(FatalError)
  {
    var n := Taken(tables, a.events);
    assert n > 0 && Drifts(tables, a.events[n - 1]) ==> DriftsFirst(tables, a.events, n - 1);
    if k: nat :| k < |a.events| && DriftsFirst(tables, a.events, k) {
      hide Drifts, Taken;
      assert Ends(tables, a.events[k]);
      assert n == k + 1;
    }
  }

  /** Where the machine stands when a turn has come to an end; while it goes on, where the next may begin. */
  ghost predicate TurnEnds(
    log: seq<Commit>, tables: Catalog, timely: bool, start: State, s: State, st: Standing,
    outcome: Option<SessionOutcome>)
  {
    && Leads(log, tables, timely, start, s) && Inv(log, tables, s) && s.position == st.position
    && (outcome == Some(Disconnected) ==> Between(log, tables, timely, s, st, false))
  }

  /** One turn: a fresh snapshot is reconciled, except in the first; then a session is run. */
  method TakeTurn(runtime: PostgresWalRuntime, fence: SnapshotFence, first: bool, a: Attempt, ghost log: seq<Commit>,
                  ghost timely: bool, ghost start: State, ghost s: State, ghost st: Standing, ghost script: Script,
                  ghost st': Standing)
    returns (outcome: Option<SessionOutcome>, fence': SnapshotFence, ghost s': State)
    requires runtime.Valid() && s.view == runtime.TheView() && fence == st.fence && ValidLog(log)
    requires Goes(log, runtime.columns, timely, st, first, a, script, st')
    requires CameTo(log, runtime.columns, timely, start, s, st, first) && (first ==> s.snapshot == s.position)
    modifies runtime`mirror, runtime`entries, runtime`baseSeq, runtime`truncatedThrough, runtime`clock,
             runtime`reconciles, runtime`history
    ensures runtime.Valid() && runtime.Grew() && s'.view == runtime.TheView()
    ensures TurnEnds(log, runtime.columns, timely, start, s', st', outcome) && fence' == st'.fence
    ensures outcome == Some(FatalError) <==> DriftsIn(runtime.columns, first, a)
  {
    hide Inv, Leads, ValidLog, Sees, Dated, Serves, ClockFits, ConfirmedAfter, AfterEvents, Taken, StopsFor, Drifts;
    ghost var at := st;
    s', fence' := s, fence;
    if !first {
      if a.snapshot.None? {
        return Some(Disconnected), fence, s;
      }
      s' := Resync(runtime, a.snapshot.value, log, timely, start, s, st, script.seen);
      at, fence' := Adopt(st, a.snapshot.value, script.seen), a.snapshot.value.fence;
    }
    ghost var before := s';
    outcome, s' := RunSession(runtime, fence', a, log, timely, before, at, script);
    LeadsFurther(log, runtime.columns, timely, start, before, s');
    DriftsIffFatal(runtime.columns, first, a, outcome);
  }

  /** Some session of these turns met a streamed table with other columns. */
  ghost predicate MetDrift(tables: Catalog, attempts: seq<Attempt>) {
    exists i :: 0 <= i < |attempts| && DriftsIn(tables, i == 0, attempts[i])
  }

  lemma OneMoreTurn(tables: Catalog, attempts: seq<Attempt>, turns: nat)
    requires turns < |attempts|
    ensures MetDrift(tables, attempts[..turns + 1])
       <==> MetDrift(tables, attempts[..turns]) || DriftsIn(tables, turns == 0, attempts[turns])
  {
    assert forall i :: 0 <= i < turns ==> attempts[..turns + 1][i] == attempts[..turns][i];
    if DriftsIn(tables, turns == 0, attempts[turns]) {
      assert attempts[..turns + 1][turns] == attempts[turns];
    }
  }

  /** After some turns: the machine stands where they lead, and a failure for good is that the last of them drifted. */
  ghost predicate AfterTurns(
    log: seq<Commit>, tables: Catalog, timely: bool, attempts: seq<Attempt>, standings: seq<Standing>, start: State,
    turns: nat, outcome: Option<SessionOutcome>, fence: SnapshotFence, s: State)
    requires turns <= |attempts| < |standings|
  {
    && Leads(log, tables, timely, start, s) && Inv(log, tables, s) && s.position == standings[turns].position
    && (outcome == Some(FatalError) <==> MetDrift(tables, attempts[..turns]))
    && (outcome == Some(FatalError) ==> turns > 0 && !MetDrift(tables, attempts[..turns - 1]))
    && (outcome == Some(Disconnected) ==>
          && Between(log, tables, timely, s, standings[turns], turns == 0)
          && fence == standings[turns].fence && (turns == 0 ==> s.snapshot == s.position))
  }

  lemma BeforeTurns(
    log: seq<Commit>, tables: Catalog, timely: bool, attempts: seq<Attempt>, standings: seq<Standing>, start: State)
    requires |standings| == |attempts| + 1
    requires Between(log, tables, timely, start, standings[0], true) && start.snapshot == start.position
    ensures AfterTurns(log, tables, timely, attempts, standings, start, 0, Some(Disconnected), standings[0].fence,
                       start)
  {
    LeadsNowhere(log, tables, timely, start);
  }

  /** One turn more. */
  lemma AfterTurn(
    log: seq<Commit>, tables: Catalog, timely: bool, attempts: seq<Attempt>, standings: seq<Standing>, start: State,
    turns: nat, fence: SnapshotFence, s: State, outcome: Option<SessionOutcome>, fence': SnapshotFence, s': State)
    requires turns < |attempts| < |standings|
    requires AfterTurns(log, tables, timely, attempts, standings, start, turns, Some(Disconnected), fence, s)
    requires TurnEnds(log, tables, timely, start, s', standings[turns + 1], outcome)
    requires fence' == standings[turns + 1].fence
    requires outcome == Some(FatalError) <==> DriftsIn(tables, turns == 0, attempts[turns])
    ensures AfterTurns(log, tables, timely, attempts, standings, start, turns + 1, outcome, fence', s')
  {
    hide Leads, Inv, Between, MetDrift, DriftsIn;
    OneMoreTurn(tables, attempts, turns);
  }

  /**
    `ingest_task`: the first session streams from the initial snapshot; every later one from a
    fresh snapshot that has been reconciled.  The ingest task stops when a session is shut down or
    meets a streamed table with other columns, which is latched as a failure, and when the events
    of a session run out.  It has then taken a path of the machine to exactly as many commits as
    the snapshots and the frames taken amount to.
   */
  method IngestTask(runtime: PostgresWalRuntime, fence: SnapshotFence, attempts: seq<Attempt>,
                    ghost log: seq<Commit>, ghost timely: bool, ghost start: State, ghost scripts: seq<Script>,
                    ghost standings: seq<Standing>)
    returns (outcome: Option<SessionOutcome>, turns: nat, ghost end: State)
    requires runtime.Valid() && start.view == runtime.TheView() && ValidLog(log)
    requires GoesOn(log, runtime.columns, timely, attempts, scripts, standings) && standings[0].fence == fence
    requires Between(log, runtime.columns, timely, start, standings[0], true) && start.snapshot == start.position
    modifies runtime
    ensures runtime.Valid() && runtime.Grew() && end.view == runtime.TheView()
    ensures Leads(log, runtime.columns, timely, start, end) && Inv(log, runtime.columns, end)
    ensures turns <= |attempts| && end.position == standings[turns].position
    ensures turns < |attempts| ==> outcome != Some(Disconnected)
    ensures outcome == Some(FatalError) <==> MetDrift(runtime.columns, attempts[..turns])
    ensures outcome == Some(FatalError) ==> turns > 0 && !MetDrift(runtime.columns, attempts[..turns - 1])
    ensures runtime.failed
         == if MetDrift(runtime.columns, attempts[..turns]) && old(runtime.failed).None? then Some("schema drift")
            else old(runtime.failed)
  {
    outcome, turns, end := TakeTurns(runtime, fence, attempts, log, timely, start, scripts, standings);
    hide *;
    if outcome == Some(FatalError) {
      runtime.Fail("schema drift");
    }
  }

  /** The loop of `ingest_task`. */
  method TakeTurns(runtime: PostgresWalRuntime, fence: SnapshotFence, attempts: seq<Attempt>,
                   ghost log: seq<Commit>, ghost timely: bool, ghost start: State, ghost scripts: seq<Script>,
                   ghost standings: seq<Standing>)
    returns (outcome: Option<SessionOutcome>, turns: nat, ghost end: State)
    requires runtime.Valid() && start.view == runtime.TheView() && ValidLog(log)
    requires GoesOn(log, runtime.columns, timely, attempts, scripts, standings) && standings[0].fence == fence
    requires Between(log, runtime.columns, timely, start, standings[0], true) && start.snapshot == start.position
    modifies runtime`mirror, runtime`entries, runtime`baseSeq, runtime`truncatedThrough, runtime`clock,
             runtime`reconciles, runtime`history
    ensures runtime.Valid() && runtime.Grew() && end.view == runtime.TheView()
    ensures turns <= |attempts| && (turns < |attempts| ==> outcome != Some(Disconnected))
    ensures exists fence' ::
              AfterTurns(log, runtime.columns, timely, attempts, standings, start, turns, outcome, fence', end)
  {
    hide Inv, Leads, ValidLog, Goes, DriftsIn, MetDrift, PostgresWalRuntime.Catalogued, JournalFits;
    var fence' := fence;
    outcome, turns, end := Some(Disconnected), 0, start;
    BeforeTurns(log, runtime.columns, timely, attempts, standings, start);
    while turns < |attempts| && outcome == Some(Disconnected)
      invariant 0 <= turns <= |attempts|
      invariant runtime.Valid() && runtime.Grew() && end.view == runtime.TheView()
      invariant AfterTurns(log, runtime.columns, timely, attempts, standings, start, turns, outcome, fence', end)
    {
      ghost var before, fence0 := end, fence';
      assert Goes(log, runtime.columns, timely, standings[turns], turns == 0, attempts[turns], scripts[turns],
                  standings[turns + 1]);
      outcome, fence', end := TakeTurn(runtime, fence', turns == 0, attempts[turns], log, timely, start, end,
                                       standings[turns], scripts[turns], standings[turns + 1]);
      AfterTurn(log, runtime.columns, timely, attempts, standings, start, turns, fence0, before, outcome, fence', end);
      turns := turns + 1;
    }
  }

  lemma PathFromInitIsRun(log: seq<Commit>, tables: Catalog, timely: bool, s: State, s': State)
    returns (run: seq<State>)
    requires Init(log, tables, s) && Leads(log, tables, timely, s, s')
    ensures IsRun(log, tables, run) && run[|run| - 1] == s' && (timely ==> InTime(run))
  {
    var path :| Joins(log, tables, timely, path, s, s');
    run := path;
  }

  /**
    From the first connection on: however often the stream is cut and reconciled, the mirror is
    the replay of the log through exactly the commits that the snapshots and the complete
    transactions received amount to, and the whole is a run of the ingest machine.  The LSNs of
    the snapshots do not matter for that; if they tell what the snapshots saw, the run is in time.
   */
  method ConnectAndIngest(introspected: seq<Introspected>, capacity: nat, snapshot: Snapshot, attempts: seq<Attempt>,
                          ghost log: seq<Commit>, ghost timely: bool,
                          ghost scripts: seq<Script>, ghost standings: seq<Standing>)
    returns (runtime: PostgresWalRuntime, turns: nat, ghost run: seq<State>)
    requires ValidLog(log) && GoesOn(log, ColumnsOf(introspected), timely, attempts, scripts, standings)
    requires standings[0].fence == snapshot.fence && standings[0].lsn == snapshot.lsn
    requires Sees(log, ColumnsOf(introspected), snapshot, standings[0].position)
    requires timely ==> Dated(log, snapshot, standings[0].position)
    requires CoveredBy(log, standings[0].confirmed, standings[0].position)
    ensures fresh(runtime) && runtime.Valid() && runtime.columns == ColumnsOf(introspected)
    ensures IsRun(log, ColumnsOf(introspected), run) && run[|run| - 1].view == runtime.TheView()
    ensures timely ==> InTime(run)
    ensures turns <= |attempts| && standings[turns].position <= |log|
    ensures forall table :: table in runtime.columns ==>
              Rows(BagsOf(runtime.mirror), table) == Replay(log, standings[turns].position, table)
  {
    runtime := new PostgresWalRuntime(introspected, capacity);
    ghost var start := Connect(runtime, snapshot, log, timely, standings[0].position, standings[0].confirmed);
    var outcome;
    ghost var end;
    outcome, turns, end := IngestTask(runtime, snapshot.fence, attempts, log, timely, start, scripts, standings);
    run := PathFromInitIsRun(log, runtime.columns, timely, start, end);
  }

  // ----- subscribers -----

  /** What the ingest task asks for when it starts, or goes on after a cut. */
  ghost predicate MayGoOn(
    tables: Catalog, timely: bool, view: View, fence: SnapshotFence, log: seq<Commit>, start: State,
    attempts: seq<Attempt>, scripts: seq<Script>, standings: seq<Standing>)
  {
    && start.view == view && ValidLog(log) && (timely ==> Ordered(view))
    && GoesOn(log, tables, timely, attempts, scripts, standings) && standings[0].fence == fence
    && Between(log, tables, timely, start, standings[0], true) && start.snapshot == start.position
  }

  /** The ingest task as a cursor sees it: the history grows by what accounts for the changes. */
  method IngestOn(runtime: PostgresWalRuntime, fence: SnapshotFence, attempts: seq<Attempt>, ghost log: seq<Commit>,
                  ghost timely: bool, ghost start: State, ghost scripts: seq<Script>, ghost standings: seq<Standing>)
    returns (turns: nat)
    requires runtime.Valid()
    requires MayGoOn(runtime.columns, timely, runtime.TheView(), fence, log, start, attempts, scripts, standings)
    modifies runtime
    ensures runtime.Valid() && runtime.Grew() && Conserves(old(runtime.TheView()), runtime.TheView())
    ensures timely ==> Extends(old(runtime.TheView()), runtime.TheView())
    ensures turns <= |attempts| < |standings|
    ensures MirrorsLog(log, runtime.columns, BagsOf(runtime.mirror), standings[turns].position)
  {
    var outcome;
    ghost var end;
    outcome, turns, end := IngestTask(runtime, fence, attempts, log, timely, start, scripts, standings);
    LeadsKeepsInv(log, runtime.columns, timely, start, end);
  }

  /** The ingest task goes on, in time, and then a cursor that follows a snapshot is drained. */
  method IngestAndDrain(runtime: PostgresWalRuntime, fence: SnapshotFence, cursor: JournalCursor,
                        attempts: seq<Attempt>, ghost snapshot: View, ghost log: seq<Commit>, ghost start: State,
                        ghost scripts: seq<Script>, ghost standings: seq<Standing>)
    returns (turns: nat)
    requires runtime.Valid()
    requires MayGoOn(runtime.columns, true, runtime.TheView(), fence, log, start, attempts, scripts, standings)
    requires cursor.runtime == runtime && Follows(cursor, snapshot)
    modifies runtime, cursor
    ensures turns <= |attempts| < |standings| && Follows(cursor, snapshot)
    ensures MirrorsLog(log, runtime.columns, BagsOf(runtime.mirror), standings[turns].position)
    ensures !cursor.LostEntries() ==> AddsUp(snapshot, cursor.yielded, runtime.TheView(), cursor.tables)
  {
    turns := IngestFollowed(runtime, fence, cursor, attempts, snapshot, log, start, scripts, standings);
    var batches := DrainTail(cursor, snapshot);
  }

  /** The ingest task goes on under a cursor's feet. */
  method IngestFollowed(runtime: PostgresWalRuntime, fence: SnapshotFence, cursor: JournalCursor,
                        attempts: seq<Attempt>, ghost snapshot: View, ghost log: seq<Commit>, ghost start: State,
                        ghost scripts: seq<Script>, ghost standings: seq<Standing>)
    returns (turns: nat)
    requires runtime.Valid()
    requires MayGoOn(runtime.columns, true, runtime.TheView(), fence, log, start, attempts, scripts, standings)
    requires cursor.runtime == runtime && Follows(cursor, snapshot)
    modifies runtime
    ensures turns <= |attempts| < |standings| && Follows(cursor, snapshot)
    ensures MirrorsLog(log, runtime.columns, BagsOf(runtime.mirror), standings[turns].position)
  {
    ghost var before := runtime.TheView();
    turns := IngestOn(runtime, fence, attempts, log, true, start, scripts, standings);
    TailStays(cursor.fromLsn, cursor.tables, cursor.nextSeq, snapshot, before, runtime.TheView());
  }

  /** Where the diffs account for what changed since the snapshot, all depends on the seed. */
  lemma SeedDecides(
    log: seq<Commit>, streamed: Catalog, n: nat, mirror: Mirror, listed: seq<TableId>, seed: seq<RawDiff>,
    snapshot: View, diffs: seq<RawDiff>, now: View, tables: set<TableId>)
    requires MirrorsLog(log, streamed, now.bags, n) && tables <= streamed.Keys && snapshot.bags == BagsOf(mirror)
    requires AddsUp(snapshot, diffs, now, tables) && forall table :: table in tables <==> table in listed
    ensures SeesReplay(log, n, tables, map[], seed + diffs) <==> SeedsMirror(mirror, listed, seed)
  {
    forall table, row | table in tables
      ensures Multiplicity(Rows(map[], table), row) + Net(seed + diffs, table, row)
                == Multiplicity(Replay(log, n, table), row)
         <==> Net(seed, table, row) == Multiplicity(multiset(RowsIn(mirror, table)), row)
    {
      NetConcat(seed, diffs, table, row);
      assert Multiplicity(Rows(now.bags, table), row)
          == Multiplicity(Rows(snapshot.bags, table), row) + Net(diffs, table, row);
    }
    hide Net, Replay, Rows, RowsIn, Multiplicity, AddsUp, MirrorsLog, BagsOf;
    SeedsAlike(log, n, mirror, listed, seed, diffs, tables);
  }

  lemma {:induction false} SeedsAlike(
    log: seq<Commit>, n: nat, mirror: Mirror, listed: seq<TableId>, seed: seq<RawDiff>, diffs: seq<RawDiff>,
    tables: set<TableId>)
    requires n <= |log| && forall table :: table in tables <==> table in listed
    requires forall table, row :: table in tables ==>
               (Multiplicity(Rows(map[], table), row) + Net(seed + diffs, table, row)
                  == Multiplicity(Replay(log, n, table), row)
                <==> Net(seed, table, row) == Multiplicity(multiset(RowsIn(mirror, table)), row))
    ensures SeesReplay(log, n, tables, map[], seed + diffs) <==> SeedsMirror(mirror, listed, seed)
  {
    hide Net, Replay, Rows, RowsIn, Multiplicity;
  }

  /**
    A subscriber is seeded from a snapshot and opens a cursor at its clock; the ingest task goes
    on, through any cuts and dated snapshots; then the cursor is drained.  Unless the journal
    dropped entries the cursor had not read, the seed and the diffs it yielded are, row by row,
    the replay of the log through what has been mirrored by then, if and only if no table that
    had rows is listed twice for the query.
   */
  method SubscribeAndFollow(runtime: PostgresWalRuntime, fence: SnapshotFence, query: Query, attempts: seq<Attempt>,
                            ghost log: seq<Commit>, ghost start: State, ghost scripts: seq<Script>,
                            ghost standings: seq<Standing>)
    returns (seed: seq<RawDiff>, cursor: Option<JournalCursor>, turns: nat)
    requires runtime.Valid()
    requires MayGoOn(runtime.columns, true, runtime.TheView(), fence, log, start, attempts, scripts, standings)
    modifies runtime
    ensures cursor.None? <==> old(runtime.failed).Some? || !runtime.Resolves(query)
    ensures cursor.Some? ==>
              && turns < |standings| && cursor.value.runtime == runtime && cursor.value.Valid()
              && (!cursor.value.LostEntries() ==>
                    (SeesReplay(log, standings[turns].position, runtime.ScannedTables(query), map[],
                                seed + cursor.value.yielded)
                     <==> RepeatsAreEmpty(old(runtime.mirror), Listed(runtime.tablesByName, query.names))))
  {
    turns := 0;
    ghost var snapshot := runtime.TheView();
    seed, cursor := Subscribe(runtime, query);
    if cursor.Some? {
      var c := cursor.value;
      turns := IngestAndDrain(runtime, fence, c, attempts, snapshot, log, start, scripts, standings);
      if !c.poisoned && c.nextSeq >= runtime.baseSeq {
        SeedDecides(log, runtime.columns, standings[turns].position, old(runtime.mirror),
                    Listed(runtime.tablesByName, query.names), seed, snapshot, c.yielded, runtime.TheView(), c.tables);
      }
    }
  }
}
