/**
  The ingest task: a slot that replays commits, sessions that can be cut at any frame, and a
  fenced snapshot reconciled between them, as a state machine over one log of commits.

  What the environment is taken to do is written into the steps: the server streams every
  commit after the slot's confirmed position, in order; a snapshot sees a prefix of the log
  that covers what has been mirrored; transaction ids stay within the fence's window; and what
  a commit does to rows of a table before it truncates the table is undone before it does.
  That diffs are emitted at increasing LSNs is not among them: a snapshot may bear an LSN past
  a commit it has not seen.  The mirror does not depend on it; what does says `InTime`.
 */
module Ingest {
  import opened Wrappers
  import opened Sequences
  import opened WalTypes
  import opened Database
  import opened Runtime
  import opened TruncateOrder
  import opened CommitEffects
  import opened SnapshotFences
  import opened JournalCursors
  import opened LiveTail

  // ----- frames -----

  datatype Event =
    | Begin(xid: nat)
    | RowEvent(change: RowChange)
    | TruncateEvent(truncated: seq<TableId>)
    | CommitEvent(lsn: nat)
    | SchemaEvent(table: TableId, columns: seq<string>)
    | OtherEvent
    | Undecodable

  /** One in-flight transaction being assembled. */
  datatype Pending = Pending(xid: nat, changes: seq<RowChange>, truncates: seq<TableId>)

  datatype Outcome = Nothing | Landed(lsn: nat) | Fatal | Transport

  /** How a frame other than a commit changes the transaction being assembled. */
  function Assemble(tables: Catalog, pending: Option<Pending>, e: Event): Option<Pending> {
    match e
    case Begin(xid) => Some(Pending(xid, [], []))
    case RowEvent(c) =>
      if c.table in tables && pending.Some?
      then Some(pending.value.(changes := pending.value.changes + [c])) else pending
    case TruncateEvent(truncated) =>
      if pending.Some? then
        var streamed := Filter(truncated, (t: TableId) => t in tables.Keys);
        Some(pending.value.(truncates := pending.value.truncates + streamed))
      else pending
    case CommitEvent(_) => None
    case _ => pending
  }

  function OutcomeOf(tables: Catalog, pending: Option<Pending>, e: Event): Outcome {
    match e
    case CommitEvent(lsn) => if pending.Some? then Landed(lsn) else Nothing
    case SchemaEvent(table, columns) => if table in tables && columns != tables[table] then Fatal else Nothing
    case Undecodable => Transport
    case _ => Nothing
  }

  /** The frame tells of a streamed table whose columns are not those it was introspected with. */
  predicate Drifted(tables: Catalog, e: Event) {
    e.SchemaEvent? && e.table in tables && e.columns != tables[e.table]
  }

  /** `apply_frame`: only a commit that the snapshot has not seen changes the mirror. */
  ghost predicate FrameEffect(
    tables: Catalog, fence: SnapshotFence, pending: Option<Pending>, e: Event, v: View, w: View)
  {
    if e.CommitEvent? && pending.Some? && !AlreadyInSnapshot(fence, pending.value.xid) then
      CommitEffect(v, w, e.lsn, pending.value.truncates, pending.value.changes)
    else w == v
  }

  method ApplyFrame(runtime: PostgresWalRuntime, fence: SnapshotFence, pending: Option<Pending>, e: Event)
    returns (pending': Option<Pending>, outcome: Outcome)
    requires runtime.Valid()
    modifies runtime`mirror, runtime`entries, runtime`baseSeq, runtime`truncatedThrough, runtime`clock, runtime`history
    ensures runtime.Valid() && runtime.Grew()
    ensures pending' == Assemble(runtime.columns, pending, e)
    ensures outcome == OutcomeOf(runtime.columns, pending, e)
    ensures outcome == Fatal <==> Drifted(runtime.columns, e)
    ensures outcome == Transport <==> e.Undecodable?
    ensures forall lsn :: outcome == Landed(lsn) <==> e == CommitEvent(lsn) && pending.Some?
    ensures FrameEffect(runtime.columns, fence, pending, e, old(runtime.TheView()), runtime.TheView())
  {
    pending', outcome := pending, Nothing;
    match e {
      case Begin(xid) =>
        pending' := Some(Pending(xid, [], []));
      case RowEvent(change) =>
        if change.table in runtime.columns && pending.Some? {
          pending' := Some(pending.value.(changes := pending.value.changes + [change]));
        }
      case TruncateEvent(truncated) =>
        if pending.Some? {
          var tables := runtime.columns;
          var streamed := Filter(truncated, (t: TableId) => t in tables.Keys);
          assert streamed == Filter(truncated, (t: TableId) => t in runtime.columns.Keys) by {
            FilterAgree(truncated, (t: TableId) => t in tables.Keys, (t: TableId) => t in runtime.columns.Keys);
          }
          pending' := Some(pending.value.(truncates := pending.value.truncates + streamed));
        }
      case CommitEvent(lsn) =>
        pending' := None;
        if pending.Some? {
          outcome := Landed(lsn);
          if !AlreadyInSnapshot(fence, pending.value.xid) {
            if pending.value.truncates != [] {
              runtime.ApplyTruncate(lsn, pending.value.truncates);
            }
            ghost var mid := runtime.TheView();
            assert TruncateEffect(old(runtime.TheView()), mid, lsn, pending.value.truncates);
            if pending.value.changes != [] {
              runtime.ApplyTransaction(lsn, pending.value.changes);
            }
            assert TransactionEffect(mid, runtime.TheView(), lsn, pending.value.changes);
          }
        }
      case SchemaEvent(table, columns) =>
        if table in runtime.columns && columns != runtime.columns[table] {
          outcome := Fatal;
        }
      case OtherEvent =>
      case Undecodable =>
        outcome := Transport;
    }
  }

  // ----- the state machine -----

  /** Where the server is in streaming the log, and what the session holds. */
  datatype Session = Session(
    next: nat,                  // the commit being streamed
    begun: bool,                // its Begin frame has arrived
    opsSent: nat,               // how many of its operations have arrived
    pending: Option<Pending>,
    applied: nat,               // reported as flushed
    received: nat)              // reported as written

  datatype State = State(
    view: View,
    position: nat,              // how many commits the mirror reflects
    snapshot: nat,              // how many commits the last snapshot saw
    fence: SnapshotFence,
    confirmed: nat,             // the slot's confirmed flush LSN
    session: Option<Session>,
    ready: bool)                // reconciled, and no session started since

  datatype Step =
    | Frame(e: Event)
    | Keepalive(walEnd: nat)
    | Report
    | Cut
    | Reconcile(lsn: nat, seen: nat, bags: Bags)
    | StartSession

  /** The fence tells the first `n` commits of the log from the others. */
  ghost predicate FenceDescribes(fence: SnapshotFence, log: seq<Commit>, n: nat) {
    && n <= |log|
    && (forall x :: x in fence.inProgress ==> InWindow(fence, x))
    && (forall i :: 0 <= i < |log| && InWindow(fence, log[i].xid) ==> (VisibleTo(fence, log[i].xid) <==> i < n))
  }

  /** Every commit at or below the LSN is among the first `n`. */
  ghost predicate CoveredBy(log: seq<Commit>, lsn: nat, n: nat) {
    forall i :: 0 <= i < |log| && log[i].lsn <= lsn ==> i < n
  }

  ghost predicate MirrorsLog(log: seq<Commit>, tables: Catalog, bags: Bags, n: nat) {
    n <= |log| && forall table :: table in tables ==> Rows(bags, table) == Replay(log, n, table)
  }

  /** Right after the initial fenced snapshot, taken once the slot existed. */
  ghost predicate Init(log: seq<Commit>, tables: Catalog, s: State) {
    && s.view.history == []
    && s.position == s.snapshot
    && MirrorsLog(log, tables, s.view.bags, s.snapshot)
    && FenceDescribes(s.fence, log, s.snapshot)
    && CoveredBy(log, s.confirmed, s.snapshot)
    && s.session.None? && s.ready
  }

  /** The frames that may come next while a commit is being streamed. */
  ghost predicate Streams(log: seq<Commit>, tables: Catalog, ss: Session, e: Event) {
    if e.SchemaEvent? || e.OtherEvent? || e.Undecodable? then true
    else
      && ss.next < |log|
      && var commit := log[ss.next];
         match e
         case Begin(xid) => !ss.begun && xid == Low32(commit.xid)
         case RowEvent(c) => ss.begun && ss.opsSent < |commit.ops| && EncodesChange(commit.ops[ss.opsSent], c)
         case TruncateEvent(truncated) =>
           ss.begun && ss.opsSent < |commit.ops| && commit.ops[ss.opsSent] == Truncate(truncated)
         case CommitEvent(lsn) => ss.begun && ss.opsSent == |commit.ops| && lsn == commit.lsn
         case _ => true
  }

  /** The server's place after it has sent a frame. */
  function Advance(ss: Session, e: Event): Session {
    match e
    case Begin(_) => ss.(begun := true, opsSent := 0)
    case RowEvent(_) => ss.(opsSent := ss.opsSent + 1)
    case TruncateEvent(_) => ss.(opsSent := ss.opsSent + 1)
    case CommitEvent(_) => ss.(next := ss.next + 1, begun := false, opsSent := 0)
    case _ => ss
  }

  function Max(a: nat, b: nat): nat {
    if a < b then b else a
  }

  /** What is taken for granted about a commit that is about to be applied. */
  ghost predicate CommitContract(log: seq<Commit>, tables: Catalog, s: State, n: nat)
    requires n < |log|
  {
    InWindow(s.fence, log[n].xid) && forall table :: table in tables ==> Harmless(log[n].ops, table)
  }

  ghost predicate FrameStep(log: seq<Commit>, tables: Catalog, s: State, s': State, e: Event) {
    && s.session.Some?
    && var ss := s.session.value;
       && Streams(log, tables, ss, e)
       && (e.CommitEvent? ==> CommitContract(log, tables, s, ss.next))
       && FrameEffect(tables, s.fence, ss.pending, e, s.view, s'.view)
       && var outcome := OutcomeOf(tables, ss.pending, e);
          var moved := Advance(ss, e).(pending := Assemble(tables, ss.pending, e));
          s' == s.(view := s'.view,
                   position := if e.CommitEvent? then Max(s.position, ss.next + 1) else s.position,
                   session := match outcome
                              case Nothing => Some(moved)
                              case Landed(lsn) => Some(moved.(applied := Max(ss.applied, lsn)))
                              case _ => None)
  }

  ghost predicate NextStep(log: seq<Commit>, tables: Catalog, s: State, s': State, step: Step) {
    match step
    case Frame(e) => FrameStep(log, tables, s, s', e)
    case Keepalive(walEnd) =>
      && s.session.Some?
      && s' == s.(session := Some(s.session.value.(received := Max(s.session.value.received, walEnd))))
    case Report =>
      // A status update reaches the slot; it may also be lost.
      && s.session.Some?
      && s' == s.(confirmed := Max(s.confirmed, s.session.value.applied))
    case Cut =>
      && s.session.Some? && s' == s.(session := None)
    case Reconcile(lsn, seen, bags) =>
      && s.session.None? && !s.ready
      && s.position <= seen && MirrorsLog(log, tables, bags, seen)
      && FenceDescribes(s'.fence, log, seen)
      && Reconciled(s.view, s'.view, bags, tables.Keys, lsn)
      && s'.view.clock == lsn
      && s' == s.(view := s'.view, fence := s'.fence, position := seen, snapshot := seen, ready := true)
    case StartSession =>
      && s.session.None? && s.ready
      && s'.session.Some?
      && var start := s'.session.value.next;
         && start <= |log|
         && (forall i :: 0 <= i < |log| ==> (i < start <==> log[i].lsn <= s.confirmed))
         && s' == s.(session := Some(Session(start, false, 0, None, 0, 0)), ready := false)
  }

  // ----- the invariant -----

  /** The transaction being assembled represents the operations that have arrived. */
  ghost predicate Assembled(log: seq<Commit>, tables: Catalog, ss: Session) {
    if ss.begun then
      && ss.next < |log| && ss.opsSent <= |log[ss.next].ops|
      && ss.pending.Some?
      && ss.pending.value.xid == Low32(log[ss.next].xid)
      && Represents(tables.Keys, ss.pending.value.changes, log[ss.next].ops[..ss.opsSent])
      && ss.pending.value.truncates == TruncatedTables(tables.Keys, log[ss.next].ops[..ss.opsSent])
    else ss.pending.None?
  }

  ghost predicate SessionInv(log: seq<Commit>, tables: Catalog, s: State, ss: Session) {
    && ss.next <= |log|
    && s.position == Max(s.snapshot, ss.next)
    && CoveredBy(log, ss.applied, s.position)
    && Assembled(log, tables, ss)
  }

  ghost predicate Inv(log: seq<Commit>, tables: Catalog, s: State) {
    && MirrorsLog(log, tables, s.view.bags, s.position)
    && s.snapshot <= s.position
    && FenceDescribes(s.fence, log, s.snapshot)
    && CoveredBy(log, s.confirmed, s.position)
    && (s.ready ==> s.session.None? && s.position == s.snapshot)
    && (s.session.Some? ==> SessionInv(log, tables, s, s.session.value))
  }

  lemma InitInv(log: seq<Commit>, tables: Catalog, s: State)
    requires Init(log, tables, s)
    ensures Inv(log, tables, s)
  {
  }

  // ----- assembling -----

  /** One more operation has arrived. */
  lemma {:induction false} OneMoreOp(
    tables: set<TableId>, changes: seq<RowChange>, truncates: seq<TableId>, ops: seq<DbOp>, n: nat, e: Event)
    requires n < |ops| && Represents(tables, changes, ops[..n]) && truncates == TruncatedTables(tables, ops[..n])
    requires (e.RowEvent? && EncodesChange(ops[n], e.change)) || (e.TruncateEvent? && ops[n] == Truncate(e.truncated))
    ensures Represents(tables, if e.RowEvent? && e.change.table in tables then changes + [e.change] else changes,
                       ops[..n + 1])
    ensures TruncatedTables(tables, ops[..n + 1])
         == if e.TruncateEvent? then truncates + Filter(e.truncated, (t: TableId) => t in tables) else truncates
  {
    var before, after := ops[..n], ops[..n + 1];
    assert after[..|after| - 1] == before && after[|after| - 1] == ops[n];
    if e.RowEvent? {
      assert (changes + [e.change])[..|changes|] == changes;
    }
  }

  lemma AssembledAfter(log: seq<Commit>, tables: Catalog, ss: Session, e: Event)
    requires Assembled(log, tables, ss) && Streams(log, tables, ss, e) && !e.CommitEvent?
    ensures Assembled(log, tables, Advance(ss, e).(pending := Assemble(tables, ss.pending, e)))
  {
    if e.Begin? {
      assert log[ss.next].ops[..0] == [];
    }
    hide Represents, TruncatedTables;
    if e.RowEvent? || e.TruncateEvent? {
      OneMoreOp(tables.Keys, ss.pending.value.changes, ss.pending.value.truncates, log[ss.next].ops, ss.opsSent, e);
    }
  }

  // ----- commits -----

  /** A commit the snapshot saw is skipped; any other is applied. */
  lemma FenceDecides(log: seq<Commit>, s: State, n: nat)
    requires FenceDescribes(s.fence, log, s.snapshot) && n < |log| && InWindow(s.fence, log[n].xid)
    ensures AlreadyInSnapshot(s.fence, Low32(log[n].xid)) <==> n < s.snapshot
  {
    FenceIsExact(s.fence, log[n].xid);
  }

  lemma CommitLands(log: seq<Commit>, tables: Catalog, s: State, w: View)
    requires ValidLog(log) && Inv(log, tables, s) && s.session.Some?
    requires var ss := s.session.value;
             && ss.next < |log|
             && Streams(log, tables, ss, CommitEvent(log[ss.next].lsn))
             && CommitContract(log, tables, s, ss.next)
             && FrameEffect(tables, s.fence, ss.pending, CommitEvent(log[ss.next].lsn), s.view, w)
    ensures var n := s.session.value.next;
            && MirrorsLog(log, tables, w.bags, Max(s.position, n + 1))
            && Emits(s.view, w)
  {
    hide ValidLog, CommitEffect, Harmless, AlreadyInSnapshot;
    var n := s.session.value.next;
    var pending := s.session.value.pending.value;
    var commit := log[n];
    assert commit.ops[..|commit.ops|] == commit.ops;
    FenceDecides(log, s, n);
    if n < s.snapshot {
      EmitsNothing(s.view);
    } else {
      assert s.position == n;
      CommitApplied(log, tables, s.view, w, n, pending.changes);
    }
  }

  lemma {:induction false} CommitApplied(log: seq<Commit>, tables: Catalog, v: View, w: View, n: nat,
                                         changes: seq<RowChange>)
    requires ValidLog(log) && n < |log| && MirrorsLog(log, tables, v.bags, n)
    requires CommitEffect(v, w, log[n].lsn, TruncatedTables(tables.Keys, log[n].ops), changes)
    requires Represents(tables.Keys, changes, log[n].ops)
    requires forall table :: table in tables ==> Harmless(log[n].ops, table)
    ensures MirrorsLog(log, tables, w.bags, n + 1) && Emits(v, w)
  {
    forall table | table in tables
      ensures AllApplicable(Rows(v.bags, table), log[n].ops, table)
    {
      assert AllApplicable(Replay(log, n, table), log[n].ops, table);
    }
    CommitIsMirrored(tables.Keys, v, w, log[n], changes);
  }

  /** The diffs emitted account for the change, and bear the LSN that the clock shows afterwards. */
  ghost predicate Emits(v: View, w: View) {
    Conserves(v, w) && (w.history != v.history ==> AllAt(w.history[|v.history|..], w.clock))
  }

  lemma EmitsNothing(v: View)
    ensures Emits(v, v)
  {
    ConservesReflexive(v);
  }

  /** The clock does not go back, and goes on when something is emitted. */
  predicate Timely(v: View, w: View) {
    v.clock <= w.clock && (w.history != v.history ==> v.clock < w.clock)
  }

  lemma EmitsInTime(v: View, w: View)
    requires Emits(v, w) && Timely(v, w)
    ensures Extends(v, w)
  {
    var added := w.history[|v.history|..];
    assert forall i :: |v.history| <= i < |w.history| ==> w.history[i] == added[i - |v.history|];
    if w.history == v.history {
      assert added == [];
    }
  }

  lemma CoveredAfterCommit(log: seq<Commit>, n: nat)
    requires ValidLog(log) && n < |log|
    ensures CoveredBy(log, log[n].lsn, n + 1)
  {
  }

  /** Every step keeps the invariant, and its diffs account for what it changes. */
  lemma StepKeepsInv(log: seq<Commit>, tables: Catalog, s: State, s': State, step: Step)
    requires ValidLog(log) && Inv(log, tables, s) && NextStep(log, tables, s, s', step)
    ensures Inv(log, tables, s') && Emits(s.view, s'.view)
  {
    match step {
      case Frame(e) =>
        FrameKeepsInv(log, tables, s, s', e);
      case Reconcile(lsn, seen, bags) =>
      case StartSession =>
        EmitsNothing(s.view);
        StartIsCovered(log, tables, s, s'.session.value.next);
      case _ =>
        EmitsNothing(s.view);
    }
  }

  /** The slot never starts past what the mirror reflects. */
  lemma StartIsCovered(log: seq<Commit>, tables: Catalog, s: State, start: nat)
    requires ValidLog(log) && Inv(log, tables, s) && start <= |log|
    requires forall i :: 0 <= i < |log| ==> (i < start <==> log[i].lsn <= s.confirmed)
    ensures start <= s.position && CoveredBy(log, 0, s.position)
  {
    if start > 0 {
      assert log[start - 1].lsn <= s.confirmed;
    }
  }

  lemma CommitKeepsInv(log: seq<Commit>, tables: Catalog, s: State, s': State, lsn: nat)
    requires ValidLog(log) && Inv(log, tables, s) && FrameStep(log, tables, s, s', CommitEvent(lsn))
    ensures Inv(log, tables, s') && Emits(s.view, s'.view)
  {
    hide MirrorsLog, FenceDescribes, Represents, Harmless;
    CommitLands(log, tables, s, s'.view);
    hide FrameEffect, Emits, CommitContract;
    CoveredAfterCommit(log, s.session.value.next);
  }

  lemma FrameKeepsInv(log: seq<Commit>, tables: Catalog, s: State, s': State, e: Event)
    requires ValidLog(log) && Inv(log, tables, s) && FrameStep(log, tables, s, s', e)
    ensures Inv(log, tables, s') && Emits(s.view, s'.view)
  {
    if e.CommitEvent? {
      CommitKeepsInv(log, tables, s, s', e.lsn);
    } else {
      EmitsNothing(s.view);
      AssembledAfter(log, tables, s.session.value, e);
      hide Emits, MirrorsLog, FenceDescribes, Assembled;
    }
  }

  // ----- whole runs -----

  ghost predicate IsPath(log: seq<Commit>, tables: Catalog, path: seq<State>) {
    path != [] && forall i :: 0 <= i < |path| - 1 ==> CanStep(log, tables, path[i], path[i + 1])
  }

  ghost predicate IsRun(log: seq<Commit>, tables: Catalog, run: seq<State>) {
    IsPath(log, tables, run) && Init(log, tables, run[0])
  }

  ghost predicate CanStep(log: seq<Commit>, tables: Catalog, s: State, s': State) {
    exists step :: NextStep(log, tables, s, s', step)
  }

  lemma AnyStepKeepsInv(log: seq<Commit>, tables: Catalog, s: State, s': State)
    requires ValidLog(log) && CanStep(log, tables, s, s')
    ensures s.position <= s'.position
    ensures Inv(log, tables, s) ==> Inv(log, tables, s') && Emits(s.view, s'.view)
  {
    var step :| NextStep(log, tables, s, s', step);
    if Inv(log, tables, s) {
      StepKeepsInv(log, tables, s, s', step);
    }
  }

  /** The invariant holds throughout every run. */
  lemma RunInv(log: seq<Commit>, tables: Catalog, run: seq<State>, i: nat)
    requires ValidLog(log) && IsRun(log, tables, run) && i < |run|
    ensures Inv(log, tables, run[i])
    decreases i
  {
    hide Inv, Init, CanStep, Emits;
    if i == 0 {
      InitInv(log, tables, run[0]);
    } else {
      RunInv(log, tables, run, i - 1);
      assert CanStep(log, tables, run[i - 1], run[i - 1 + 1]);
      AnyStepKeepsInv(log, tables, run[i - 1], run[i]);
    }
  }

  lemma LastStepEmits(log: seq<Commit>, tables: Catalog, run: seq<State>, j: nat)
    requires ValidLog(log) && IsRun(log, tables, run) && 0 < j < |run|
    ensures Emits(run[j - 1].view, run[j].view)
  {
    hide Inv, Init, CanStep, Emits;
    RunInv(log, tables, run, j - 1);
    assert CanStep(log, tables, run[j - 1], run[j - 1 + 1]);
    AnyStepKeepsInv(log, tables, run[j - 1], run[j]);
  }

  /** Between any two states of any run, the diffs emitted account for the change of every bag. */
  lemma RunConserves(log: seq<Commit>, tables: Catalog, run: seq<State>, i: nat, j: nat)
    requires ValidLog(log) && IsRun(log, tables, run) && i <= j < |run|
    ensures Conserves(run[i].view, run[j].view)
    decreases j - i
  {
    hide Inv, Init, CanStep, Conserves, IsRun, ValidLog;
    if i == j {
      ConservesReflexive(run[i].view);
    } else {
      RunConserves(log, tables, run, i, j - 1);
      LastStepEmits(log, tables, run, j);
      ConservesTransitive(run[i].view, run[j - 1].view, run[j].view);
    }
  }

  /** No step of the path emits at or before the clock, or turns it back. */
  ghost predicate InTime(path: seq<State>) {
    forall k :: 0 <= k < |path| - 1 ==> Timely(path[k].view, path[k + 1].view)
  }

  /** In a run in time they also come in LSN order, after the earlier clock. */
  lemma RunExtends(log: seq<Commit>, tables: Catalog, run: seq<State>, i: nat, j: nat)
    requires ValidLog(log) && IsRun(log, tables, run) && InTime(run) && i <= j < |run|
    ensures Extends(run[i].view, run[j].view)
    decreases j - i
  {
    hide Inv, Init, CanStep, Extends, Emits, Timely;
    if i == j {
      ExtendsReflexive(run[i].view);
    } else {
      RunExtends(log, tables, run, i, j - 1);
      LastStepEmits(log, tables, run, j);
      assert Timely(run[j - 1].view, run[j - 1 + 1].view);
      EmitsInTime(run[j - 1].view, run[j].view);
      ExtendsTransitive(run[i].view, run[j - 1].view, run[j].view);
    }
  }

  lemma RunOrdered(log: seq<Commit>, tables: Catalog, run: seq<State>, i: nat)
    requires ValidLog(log) && IsRun(log, tables, run) && InTime(run) && i < |run|
    ensures Ordered(run[i].view)
  {
    RunExtends(log, tables, run, 0, i);
    ExtendsOrdered(run[0].view, run[i].view);
  }

  lemma RunMirrors(log: seq<Commit>, tables: Catalog, run: seq<State>, i: nat)
    requires ValidLog(log) && IsRun(log, tables, run) && i < |run|
    ensures MirrorsLog(log, tables, run[i].view.bags, run[i].position)
  {
    RunInv(log, tables, run, i);
  }

  /**
    Exactly once: in every state of every run, across any cuts and reconciliations, the mirror
    is the replay of the log through the position reached; in a session that position is the
    later of the snapshot and the last commit received in full.
   */
  lemma {:induction false} MirrorIsReplay(log: seq<Commit>, tables: Catalog, run: seq<State>, i: nat,
                                          table: TableId)
    requires ValidLog(log) && IsRun(log, tables, run) && i < |run| && table in tables
    ensures run[i].position <= |log| && Rows(run[i].view.bags, table) == Replay(log, run[i].position, table)
    ensures run[i].session.Some? ==> run[i].position == Max(run[i].snapshot, run[i].session.value.next)
  {
    RunInv(log, tables, run, i);
  }

  /** The position never goes back. */
  lemma PositionAdvances(log: seq<Commit>, tables: Catalog, run: seq<State>, i: nat, j: nat)
    requires ValidLog(log) && IsRun(log, tables, run) && i <= j < |run|
    ensures run[i].position <= run[j].position
    decreases j - i
  {
    hide Inv, Init, CanStep, ValidLog;
    if i < j {
      PositionAdvances(log, tables, run, i, j - 1);
      assert CanStep(log, tables, run[j - 1], run[j - 1 + 1]);
      AnyStepKeepsInv(log, tables, run[j - 1], run[j]);
    }
  }

  /**
    Flush safety: whatever LSN a session would report as flushed, and whatever the slot has
    confirmed, every commit at or below it is reflected in the mirror.
   */
  lemma FlushedIsMirrored(log: seq<Commit>, tables: Catalog, run: seq<State>, i: nat, n: nat)
    requires ValidLog(log) && IsRun(log, tables, run) && i < |run| && n < |log|
    requires log[n].lsn <= run[i].confirmed ||
             (run[i].session.Some? && log[n].lsn <= run[i].session.value.applied)
    ensures n < run[i].position
  {
    RunInv(log, tables, run, i);
  }

  /** Within a session the flushed and received LSNs never decrease. */
  lemma SessionLsnsAdvance(log: seq<Commit>, tables: Catalog, s: State, s': State, step: Step)
    requires NextStep(log, tables, s, s', step) && s.session.Some? && s'.session.Some?
    ensures s.session.value.applied <= s'.session.value.applied
    ensures s.session.value.received <= s'.session.value.received
  {
  }

  // ----- paths -----

  ghost predicate Joins(
    log: seq<Commit>, tables: Catalog, timely: bool, path: seq<State>, s: State, s': State)
  {
    IsPath(log, tables, path) && path[0] == s && path[|path| - 1] == s' && (timely ==> InTime(path))
  }

  /** Some steps lead from one state to another, in time if that is asked. */
  ghost predicate Leads(log: seq<Commit>, tables: Catalog, timely: bool, s: State, s': State) {
    exists path :: Joins(log, tables, timely, path, s, s')
  }

  lemma LeadsNowhere(log: seq<Commit>, tables: Catalog, timely: bool, s: State)
    ensures Leads(log, tables, timely, s, s)
  {
    assert Joins(log, tables, timely, [s], s, s);
  }

  lemma LeadsOn(log: seq<Commit>, tables: Catalog, timely: bool, s: State, s': State, s'': State)
    requires Leads(log, tables, timely, s, s') && CanStep(log, tables, s', s'')
    requires timely ==> Timely(s'.view, s''.view)
    ensures Leads(log, tables, timely, s, s'')
  {
    hide CanStep, Timely;
    var path :| Joins(log, tables, timely, path, s, s');
    assert Joins(log, tables, timely, path + [s''], s, s'');
  }

  /** A path keeps the invariant and accounts for its changes throughout; one in time extends the view. */
  lemma LeadsKeepsInv(log: seq<Commit>, tables: Catalog, timely: bool, s: State, s': State)
    requires ValidLog(log) && Inv(log, tables, s) && Leads(log, tables, timely, s, s')
    ensures Inv(log, tables, s') && Conserves(s.view, s'.view) && s.position <= s'.position
    ensures timely ==> Extends(s.view, s'.view)
  {
    var path :| Joins(log, tables, timely, path, s, s');
    PathKeepsInv(log, tables, timely, path);
  }

  /** What holds between the ends of a path. */
  ghost predicate Grown(timely: bool, s: State, s': State) {
    Conserves(s.view, s'.view) && s.position <= s'.position && (timely ==> Extends(s.view, s'.view))
  }

  lemma {:induction false} PathKeepsInv(log: seq<Commit>, tables: Catalog, timely: bool, path: seq<State>)
    requires ValidLog(log) && IsPath(log, tables, path) && (timely ==> InTime(path)) && Inv(log, tables, path[0])
    ensures var last := path[|path| - 1];
            Inv(log, tables, last) && Grown(timely, path[0], last)
    decreases |path|
  {
    if |path| == 1 {
      ConservesReflexive(path[0].view);
      ExtendsReflexive(path[0].view);
    } else {
      hide Inv, CanStep, Grown, ValidLog, Timely;
      var n := |path| - 1;
      PathKeepsInv(log, tables, timely, path[..n]);
      assert CanStep(log, tables, path[n - 1], path[n - 1 + 1]);
      assert timely ==> Timely(path[n - 1].view, path[n - 1 + 1].view);
      OneMoreStep(log, tables, timely, path[0], path[n - 1], path[n]);
    }
  }

  lemma OneMoreStep(log: seq<Commit>, tables: Catalog, timely: bool, first: State, s: State, s': State)
    requires ValidLog(log) && Inv(log, tables, s) && CanStep(log, tables, s, s')
    requires Grown(timely, first, s) && (timely ==> Timely(s.view, s'.view))
    ensures Inv(log, tables, s') && Grown(timely, first, s')
  {
    hide Inv, CanStep, ValidLog, Extends, Conserves, Timely;
    AnyStepKeepsInv(log, tables, s, s');
    ConservesTransitive(first.view, s.view, s'.view);
    if timely {
      EmitsInTime(s.view, s'.view);
      ExtendsTransitive(first.view, s.view, s'.view);
    }
  }

  // ----- subscribers -----

  /** The rows and the diffs are, row by row, the replay of the first `n` commits. */
  ghost predicate SeesReplay(log: seq<Commit>, n: nat, tables: set<TableId>, bags: Bags, diffs: seq<RawDiff>) {
    n <= |log| && forall table, row :: table in tables ==>
      Multiplicity(Rows(bags, table), row) + Net(diffs, table, row) == Multiplicity(Replay(log, n, table), row)
  }

  lemma AddsUpToReplay(
    log: seq<Commit>, streamed: Catalog, n: nat, snapshot: View, bags: Bags, diffs: seq<RawDiff>, now: View,
    tables: set<TableId>)
    requires MirrorsLog(log, streamed, now.bags, n) && tables <= streamed.Keys
    requires forall table :: table in tables ==> Rows(bags, table) == Rows(snapshot.bags, table)
    ensures SeesReplay(log, n, tables, bags, diffs) <==> AddsUp(snapshot, diffs, now, tables)
  {
    hide Net, Replay;
  }

  /**
    End to end: take a snapshot at one moment of a run in time, and at a later moment drain a
    cursor anchored at its clock.  Unless the journal dropped entries the cursor had not read,
    the snapshot and what the cursor has yielded are the replay of the log through what has
    been mirrored by then.
   */
  method SubscriberSeesDatabase(cursor: JournalCursor, ghost log: seq<Commit>, ghost run: seq<State>, ghost i: nat,
                                ghost j: nat)
    returns (batches: seq<LsnBatch>)
    requires ValidLog(log) && i <= j < |run|
    requires IsRun(log, cursor.runtime.columns, run) && InTime(run) && cursor.tables <= cursor.runtime.tables
    requires cursor.Valid() && cursor.fromLsn == run[i].view.clock && cursor.runtime.TheView() == run[j].view
    requires AtBoundary(cursor.fromLsn, cursor.tables, cursor.runtime.history, cursor.nextSeq)
    modifies cursor
    ensures cursor.Valid() && cursor.LostEntries() == old(cursor.LostEntries())
    ensures cursor.yielded == old(cursor.yielded) + Together(batches)
    ensures !cursor.LostEntries() ==>
              SeesReplay(log, run[j].position, cursor.tables, run[i].view.bags, cursor.yielded)
  {
    hide IsRun, ValidLog, Extends, CanStep, RelevantOf, AtBoundary, InTime, SeesReplay, Inv, Ordered, AddsUp;
    RunMirrors(log, cursor.runtime.columns, run, j);
    RunOrdered(log, cursor.runtime.columns, run, i);
    RunExtends(log, cursor.runtime.columns, run, i, j);
    batches := DrainTail(cursor, run[i].view);
    AddsUpToReplay(log, cursor.runtime.columns, run[j].position, run[i].view, run[i].view.bags, cursor.yielded,
                   run[j].view, cursor.tables);
  }

  /**
    In any run, in time or not, and for any anchor: rows copied at one moment and what a cursor
    has yielded when it has read to the end at a later one are the replay of the log if and only
    if the cursor passed over as much as it repeats.
   */
  lemma SubscriberRightIff(cursor: JournalCursor, log: seq<Commit>, run: seq<State>, i: nat, j: nat)
    requires ValidLog(log) && i <= j < |run|
    requires IsRun(log, cursor.runtime.columns, run) && cursor.tables <= cursor.runtime.tables
    requires cursor.Valid() && cursor.runtime.TheView() == run[j].view
    requires cursor.nextSeq == |cursor.runtime.history|
    ensures run[i].view.history <= run[j].view.history
    ensures SeesReplay(log, run[j].position, cursor.tables, run[i].view.bags, cursor.yielded)
       <==> MissesWhatItRepeats(run[i].view, cursor.fromLsn, run[j].view, cursor.tables)
  {
    RunMirrors(log, cursor.runtime.columns, run, j);
    RunConserves(log, cursor.runtime.columns, run, i, j);
    hide IsRun, ValidLog, CanStep, SeesReplay, MissesWhatItRepeats, AddsUp;
    ReadToEndAddsUpIff(cursor, run[i].view);
    AddsUpToReplay(log, cursor.runtime.columns, run[j].position, run[i].view, run[i].view.bags, cursor.yielded,
                   run[j].view, cursor.tables);
  }
}
