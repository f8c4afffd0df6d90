/**
  One streaming session: the loop that pumps walsender events, applies frames, and reports as
  flushed only what has been applied.  Every turn of the loop takes steps of the ingest machine.
 */
module StreamSessions {
  import opened Wrappers
  import opened WalTypes
  import opened Database
  import opened Runtime
  import opened TruncateOrder
  import opened CommitEffects
  import opened SnapshotFences
  import opened Ingest

  datatype StreamEvent =
    | XLogData(walEnd: nat, payload: Event)
    | KeepaliveMessage(walEnd: nat, reply: bool)
    | IdleTick                 // the keepalive interval elapsed
    | Closed                   // the connection failed or was closed
    | ShutdownRequested

  datatype SessionOutcome = Shutdown | Disconnected | FatalError

  /** A session as it starts, with the server about to stream commit `next`. */
  function FreshSession(next: nat): Session {
    Session(next, false, 0, None, 0, 0)
  }

  /** What is taken for granted about a streamed commit: its id is within the window, and it does no harm. */
  ghost predicate Admissible(tables: Catalog, fence: SnapshotFence, commit: Commit) {
    InWindow(fence, commit.xid) && forall table :: table in tables ==> Harmless(commit.ops, table)
  }

  /** The frame may come next, and if it completes a commit, the commit is admissible. */
  ghost predicate MayCome(log: seq<Commit>, tables: Catalog, fence: SnapshotFence, ss: Session, e: Event) {
    Streams(log, tables, ss, e) && (e.CommitEvent? ==> Admissible(tables, fence, log[ss.next]))
  }

  /** The frames in the events continue the server's stream. */
  ghost predicate Continues(
    log: seq<Commit>, tables: Catalog, fence: SnapshotFence, ss: Session, events: seq<StreamEvent>)
    decreases |events|
  {
    events == [] ||
    match events[0]
    case XLogData(_, e) =>
      MayCome(log, tables, fence, ss, e) && Continues(log, tables, fence, Ingest.Advance(ss, e), events[1..])
    case _ => Continues(log, tables, fence, ss, events[1..])
  }

  /** Only the server's place matters for what may come next. */
  lemma {:induction false} ContinuesAlike(
    log: seq<Commit>, tables: Catalog, fence: SnapshotFence, ss: Session, ss': Session, events: seq<StreamEvent>)
    requires Continues(log, tables, fence, ss, events)
    requires ss.next == ss'.next && ss.begun == ss'.begun && ss.opsSent == ss'.opsSent
    ensures Continues(log, tables, fence, ss', events)
    decreases |events|
  {
    if events != [] {
      match events[0] {
        case XLogData(_, e) =>
          ContinuesAlike(log, tables, fence, Ingest.Advance(ss, e), Ingest.Advance(ss', e), events[1..]);
        case _ =>
          ContinuesAlike(log, tables, fence, ss, ss', events[1..]);
      }
    }
  }

  // ----- the clock -----

  /** Commits not yet mirrored lie after the clock. */
  ghost predicate ClockBehind(log: seq<Commit>, s: State) {
    forall n :: s.position <= n < |log| ==> s.view.clock < log[n].lsn
  }

  /** The clock is no later than `base` or the last mirrored commit. */
  ghost predicate ClockWithin(log: seq<Commit>, s: State, base: nat) {
    s.view.clock <= base || (0 < s.position <= |log| && s.view.clock <= log[s.position - 1].lsn)
  }

  /** Where the clock lies between what has been mirrored and what has not. */
  ghost predicate ClockFits(log: seq<Commit>, s: State, base: nat) {
    ClockBehind(log, s) && ClockWithin(log, s, base)
  }

  /** A frame takes a step in time if the clock fits, and leaves it fitting. */
  lemma ClockAfterFrame(log: seq<Commit>, tables: Catalog, s: State, s': State, e: Event, base: nat)
    requires ValidLog(log) && Inv(log, tables, s) && FrameStep(log, tables, s, s', e)
    requires ClockFits(log, s, base)
    ensures Timely(s.view, s'.view) && ClockFits(log, s', base)
  {
    hide FenceDescribes, Harmless, Represents, CommitEffect, TruncatedTables, ValidLog, ClockFits;
    if e.CommitEvent? {
      var ss := s.session.value;
      FenceDecides(log, s, ss.next);
      hide AlreadyInSnapshot;
      if !AlreadyInSnapshot(s.fence, ss.pending.value.xid) {
        CommitClock(s.view, s'.view, e.lsn, ss.pending.value.truncates, ss.pending.value.changes);
      }
      ClockMoves(log, s, s', ss.next, base);
    } else {
      ClockStays(log, s, s', base);
    }
  }

  lemma ClockStays(log: seq<Commit>, s: State, s': State, base: nat)
    requires ClockFits(log, s, base) && s'.view == s.view && s'.position == s.position
    ensures ClockFits(log, s', base)
  {
  }

  lemma ClockMoves(log: seq<Commit>, s: State, s': State, n: nat, base: nat)
    requires ValidLog(log) && n < |log| && s.position <= |log|
    requires ClockFits(log, s, base)
    requires s'.position == Max(s.position, n + 1)
    requires s'.view.clock == s.view.clock || s'.view.clock == log[n].lsn
    ensures ClockFits(log, s', base) && (s.position <= n ==> s.view.clock < log[n].lsn)
  {
    LastLsnAdvances(log, s.position, n + 1);
  }

  lemma CommitClock(v: View, w: View, lsn: nat, truncates: seq<TableId>, changes: seq<RowChange>)
    requires CommitEffect(v, w, lsn, truncates, changes)
    ensures w.clock == v.clock || w.clock == lsn
    ensures w.history != v.history ==> w.clock == lsn
  {
    var mid :| TruncateEffect(v, mid, lsn, truncates) && TransactionEffect(mid, w, lsn, changes);
  }

  lemma LastLsnAdvances(log: seq<Commit>, m: nat, n: nat)
    requires ValidLog(log) && m <= |log| && 0 < n <= |log|
    ensures var k := Max(m, n);
            log[n - 1].lsn <= log[k - 1].lsn && (m > 0 ==> log[m - 1].lsn <= log[k - 1].lsn)
  {
  }

  // ----- what the events amount to -----

  /** The session after one event: the server's place, the transaction being assembled and the two LSNs. */
  function AfterEvent(tables: Catalog, ss: Session, event: StreamEvent): Session {
    match event
    case XLogData(walEnd, payload) =>
      var outcome := OutcomeOf(tables, ss.pending, payload);
      Ingest.Advance(ss, payload).(
        pending := Assemble(tables, ss.pending, payload),
        applied := if outcome.Landed? then Max(ss.applied, outcome.lsn) else ss.applied,
        received := Max(ss.received, walEnd))
    case KeepaliveMessage(walEnd, _) => ss.(received := Max(ss.received, walEnd))
    case _ => ss
  }

  function AfterEvents(tables: Catalog, ss: Session, events: seq<StreamEvent>): Session
    decreases |events|
  {
    if events == [] then ss
    else AfterEvent(tables, AfterEvents(tables, ss, events[..|events| - 1]), events[|events| - 1])
  }

  /** How an event ends the session, if it does. */
  function EndedBy(tables: Catalog, ss: Session, event: StreamEvent): Option<SessionOutcome> {
    match event
    case ShutdownRequested => Some(Shutdown)
    case Closed => Some(Disconnected)
    case XLogData(_, payload) =>
      (match OutcomeOf(tables, ss.pending, payload)
       case Fatal => Some(FatalError)
       case Transport => Some(Disconnected)
       case _ => None)
    case _ => None
  }

  /** The frame shows that a streamed table has changed its columns. */
  predicate Drifts(tables: Catalog, event: StreamEvent) {
    event.XLogData? && Drifted(tables, event.payload)
  }

  predicate Lapses(event: StreamEvent) {
    event.Closed? || (event.XLogData? && event.payload.Undecodable?)
  }

  /** The event ends a session: a shutdown, a lapse of the connection, or drift. */
  predicate Ends(tables: Catalog, event: StreamEvent) {
    event.ShutdownRequested? || Lapses(event) || Drifts(tables, event)
  }

  /** How many events a session takes: through the first that ends it, or all. */
  function Taken(tables: Catalog, events: seq<StreamEvent>): (n: nat)
    ensures n <= |events| && forall k :: 0 <= k < n - 1 ==> !Ends(tables, events[k])
    ensures n < |events| ==> n > 0 && Ends(tables, events[n - 1])
  {
    if events == [] then 0 else if Ends(tables, events[0]) then 1 else 1 + Taken(tables, events[1..])
  }

  /**
    What a session comes to, by its events: it takes them through the first that ends it, and its
    outcome tells what that was; if there is none, it goes on.
   */
  ghost predicate StopsFor(tables: Catalog, events: seq<StreamEvent>, taken: nat, outcome: Option<SessionOutcome>) {
    && taken == Taken(tables, events)
    && (outcome == Some(Shutdown) <==> taken > 0 && events[taken - 1].ShutdownRequested?)
    && (outcome == Some(Disconnected) <==> taken > 0 && Lapses(events[taken - 1]))
    && (outcome == Some(FatalError) <==> taken > 0 && Drifts(tables, events[taken - 1]))
  }

  lemma {:induction false} EndsIff(tables: Catalog, ss: Session, event: StreamEvent)
    ensures var outcome := EndedBy(tables, ss, event);
            && (outcome.Some? <==> Ends(tables, event))
            && (outcome == Some(Shutdown) <==> event.ShutdownRequested?)
            && (outcome == Some(Disconnected) <==> Lapses(event))
            && (outcome == Some(FatalError) <==> Drifts(tables, event))
  {
  }

  lemma {:induction false} StopsForWhat(
    tables: Catalog, ss: Session, events: seq<StreamEvent>, taken: nat, outcome: Option<SessionOutcome>)
    requires taken <= |events| && StopsAt(tables, ss, events, taken, outcome) && (outcome.None? ==> taken == |events|)
    ensures StopsFor(tables, events, taken, outcome)
  {
    hide AfterEvents, EndedBy, Ends, Taken, Drifts, Lapses;
    forall k | 0 <= k < taken
      ensures Ends(tables, events[k]) <==> k == taken - 1 && outcome.Some?
    {
      EndsIff(tables, AfterEvents(tables, ss, events[..k]), events[k]);
    }
    if taken > 0 {
      EndsIff(tables, AfterEvents(tables, ss, events[..taken - 1]), events[taken - 1]);
    }
  }

  /** The events that are answered with a status update. */
  predicate Answered(event: StreamEvent) {
    event.ShutdownRequested? || event.IdleTick? || (event.KeepaliveMessage? && event.reply)
  }

  /** The flush LSNs reported in answer to the events. */
  function ReportsOf(tables: Catalog, ss: Session, events: seq<StreamEvent>): seq<nat>
    decreases |events|
  {
    if events == [] then []
    else
      var earlier := events[..|events| - 1];
      ReportsOf(tables, ss, earlier)
        + if Answered(events[|events| - 1]) then [AfterEvents(tables, ss, earlier).applied] else []
  }

  /** The slot's confirmed position after the events, given which reports reach it. */
  function ConfirmedAfter(
    tables: Catalog, ss: Session, events: seq<StreamEvent>, delivered: seq<bool>, confirmed: nat): nat
    requires |delivered| == |events|
    decreases |events|
  {
    if events == [] then confirmed
    else
      var n := |events| - 1;
      var before := ConfirmedAfter(tables, ss, events[..n], delivered[..n], confirmed);
      if Answered(events[n]) && delivered[n] then Max(before, AfterEvents(tables, ss, events[..n]).applied) else before
  }

  ghost predicate Ascends(reports: seq<nat>, last: nat) {
    && (forall i, j :: 0 <= i < j < |reports| ==> reports[i] <= reports[j])
    && (forall i :: 0 <= i < |reports| ==> reports[i] <= last)
  }

  /** Reports never decrease, and never run ahead of what has been applied. */
  lemma {:induction false} ReportsAscend(tables: Catalog, ss: Session, events: seq<StreamEvent>)
    ensures Ascends(ReportsOf(tables, ss, events), AfterEvents(tables, ss, events).applied)
    decreases |events|
  {
    if events != [] {
      ReportsAscend(tables, ss, events[..|events| - 1]);
    }
  }

  // ----- the loop -----

  /**
    What the machine has reached when the session stands at `ss`, or has just ended there: the
    mirror is the replay through the later of the snapshot and the last commit received in
    full, by the machine's invariant.
   */
  ghost predicate Reached(
    log: seq<Commit>, tables: Catalog, timely: bool, start: State, s: State, ss: Session, confirmed: nat,
    ended: bool)
  {
    && Inv(log, tables, s) && Leads(log, tables, timely, start, s)
    && (timely ==> ClockFits(log, s, start.view.clock))
    && s.fence == start.fence && s.snapshot == start.snapshot && s.confirmed == confirmed && !s.ready
    && s.position == Max(start.snapshot, ss.next)
    && CoveredBy(log, ss.applied, s.position)
    && s.session == if ended then None else Some(ss)
  }

  /** A state in which a session has just started. */
  ghost predicate Started(log: seq<Commit>, tables: Catalog, timely: bool, start: State) {
    && Inv(log, tables, start) && (timely ==> ClockBehind(log, start))
    && start.session.Some? && start.session.value == FreshSession(start.session.value.next) && !start.ready
  }

  /**
    Pumps one session until it ends or the events run out.  It stops at the first event that
    ends a session, and reports the applied LSN wherever a report is due.  Wherever it stops,
    it has taken a path of the ingest machine to a state in which the mirror is the replay of
    the log through the later of the snapshot and the last commit received in full, and no
    report claimed a commit that the mirror does not reflect.
   */
  method StreamSession(runtime: PostgresWalRuntime, fence: SnapshotFence, events: seq<StreamEvent>,
                       ghost log: seq<Commit>, ghost timely: bool, ghost start: State, ghost delivered: seq<bool>)
    returns (outcome: Option<SessionOutcome>, taken: nat, reports: seq<nat>, ghost end: State)
    requires runtime.Valid() && start.view == runtime.TheView() && start.fence == fence
    requires ValidLog(log) && Started(log, runtime.columns, timely, start) && |delivered| == |events|
    requires Continues(log, runtime.columns, fence, start.session.value, events)
    modifies runtime`mirror, runtime`entries, runtime`baseSeq, runtime`truncatedThrough, runtime`clock, runtime`history
    ensures runtime.Valid() && runtime.Grew() && end.view == runtime.TheView()
    ensures taken <= |events| && (outcome.None? ==> taken == |events|)
    ensures var tables, ss := runtime.columns, start.session.value;
            && StopsFor(tables, events, taken, outcome)
            && Reached(log, tables, timely, start, end, AfterEvents(tables, ss, events[..taken]),
                       ConfirmedAfter(tables, ss, events[..taken], delivered[..taken], start.confirmed), outcome.Some?)
            && reports == ReportsOf(tables, ss, events[..taken])
            && forall i :: 0 <= i < |reports| ==> CoveredBy(log, reports[i], end.position)
  {
    var pending: Option<Pending> := None;
    var appliedLsn: nat, receivedLsn: nat := 0, 0;
    outcome, taken, reports, end := None, 0, [], start;
    ghost var tables := runtime.columns;
    NothingPumped(log, tables, timely, start, events, delivered);
    hide *;
    while taken < |events| && outcome.None?
      invariant 0 <= taken <= |events| && tables == runtime.columns
      invariant runtime.Valid() && runtime.Grew() && end.view == runtime.TheView()
      invariant Pumped(log, tables, timely, start, events, delivered, taken, outcome, reports, end)
      invariant outcome.None? ==> Holds(SessionAt(tables, start, events, taken), pending, appliedLsn, receivedLsn)
    {
      ghost var before := end;
      ghost var confirmed := MayPump(log, tables, timely, start, events, delivered, taken, reports, end);
      var report;
      outcome, report, pending, appliedLsn, receivedLsn, end :=
        PumpEvent(runtime, fence, events[taken], pending, appliedLsn, receivedLsn, log, timely, start, end,
                  SessionAt(tables, start, events, taken), confirmed, delivered[taken]);
      PumpedOnce(log, tables, timely, start, events, delivered, taken, reports, before, confirmed, outcome, end);
      reports := reports + Reported(report);
      taken := taken + 1;
    }
    PumpedMeans(log, tables, timely, start, events, delivered, taken, outcome, reports, end);
  }

  function Reported(report: Option<nat>): seq<nat> {
    if report.Some? then [report.value] else []
  }

  ghost function SessionAt(tables: Catalog, start: State, events: seq<StreamEvent>, taken: nat): Session
    requires start.session.Some? && taken <= |events|
  {
    AfterEvents(tables, start.session.value, events[..taken])
  }

  /** The events so far have been pumped, and the others continue the stream. */
  ghost predicate Pumped(
    log: seq<Commit>, tables: Catalog, timely: bool, start: State, events: seq<StreamEvent>, delivered: seq<bool>,
    taken: nat, outcome: Option<SessionOutcome>, reports: seq<nat>, s: State)
    requires start.session.Some? && taken <= |events| == |delivered|
  {
    var first, ss := start.session.value, SessionAt(tables, start, events, taken);
    && StopsAt(tables, first, events, taken, outcome)
    && Reached(log, tables, timely, start, s, ss,
               ConfirmedAfter(tables, first, events[..taken], delivered[..taken], start.confirmed), outcome.Some?)
    && reports == ReportsOf(tables, first, events[..taken])
    && (outcome.None? ==> Continues(log, tables, start.fence, ss, events[taken..]))
  }

  lemma {:induction false} NothingPumped(
    log: seq<Commit>, tables: Catalog, timely: bool, start: State, events: seq<StreamEvent>, delivered: seq<bool>)
    requires Started(log, tables, timely, start) && |delivered| == |events|
    requires Continues(log, tables, start.fence, start.session.value, events)
    ensures Pumped(log, tables, timely, start, events, delivered, 0, None, [], start)
    ensures Holds(SessionAt(tables, start, events, 0), None, 0, 0)
  {
    LeadsNowhere(log, tables, timely, start);
    assert events[0..] == events;
  }

  /** What pumping the next event asks for. */
  lemma {:induction false} MayPump(
    log: seq<Commit>, tables: Catalog, timely: bool, start: State, events: seq<StreamEvent>, delivered: seq<bool>,
    k: nat, reports: seq<nat>, s: State)
    returns (confirmed: nat)
    requires start.session.Some? && k < |events| == |delivered|
    requires Pumped(log, tables, timely, start, events, delivered, k, None, reports, s)
    ensures var ss := SessionAt(tables, start, events, k);
            && Reached(log, tables, timely, start, s, ss, confirmed, false)
            && (events[k].XLogData? ==> MayCome(log, tables, start.fence, ss, events[k].payload))
    ensures confirmed
         == ConfirmedAfter(tables, start.session.value, events[..k], delivered[..k], start.confirmed)
  {
    hide Reached, StopsAt, ReportsOf, ConfirmedAfter, AfterEvents, MayCome;
    assert events[k..][0] == events[k];
    confirmed := ConfirmedAfter(tables, start.session.value, events[..k], delivered[..k], start.confirmed);
  }

  lemma {:induction false} PumpedOnce(
    log: seq<Commit>, tables: Catalog, timely: bool, start: State, events: seq<StreamEvent>, delivered: seq<bool>,
    k: nat, reports: seq<nat>, s: State, confirmed: nat, outcome: Option<SessionOutcome>, s': State)
    requires start.session.Some? && k < |events| == |delivered|
    requires Pumped(log, tables, timely, start, events, delivered, k, None, reports, s)
    requires confirmed == ConfirmedAfter(tables, start.session.value, events[..k], delivered[..k], start.confirmed)
    requires var ss := SessionAt(tables, start, events, k);
             && outcome == EndedBy(tables, ss, events[k])
             && Reached(log, tables, timely, start, s', AfterEvent(tables, ss, events[k]),
                        ConfirmedBy(ss, events[k], delivered[k], confirmed), outcome.Some?)
    ensures var ss := SessionAt(tables, start, events, k);
            var report := if Answered(events[k]) then Some(ss.applied) else None;
            && SessionAt(tables, start, events, k + 1) == AfterEvent(tables, ss, events[k])
            && Pumped(log, tables, timely, start, events, delivered, k + 1, outcome, reports + Reported(report), s')
  {
    hide Reached, StopsAt, ReportsOf, ConfirmedAfter, AfterEvents, AfterEvent, Continues, EndedBy;
    var first := start.session.value;
    OneMoreEvent(tables, first, events, k);
    OneMoreConfirmed(tables, first, events, delivered, k, start.confirmed);
    StopsOneLater(tables, first, events, k, outcome);
    assert events[k..][0] == events[k] && events[k..][1..] == events[k + 1..];
    ContinuesAfter(log, tables, start.fence, SessionAt(tables, start, events, k), events[k..]);
  }

  lemma {:induction false} PumpedMeans(
    log: seq<Commit>, tables: Catalog, timely: bool, start: State, events: seq<StreamEvent>, delivered: seq<bool>,
    taken: nat, outcome: Option<SessionOutcome>, reports: seq<nat>, s: State)
    requires start.session.Some? && taken <= |events| == |delivered| && (outcome.None? ==> taken == |events|)
    requires Pumped(log, tables, timely, start, events, delivered, taken, outcome, reports, s)
    ensures var ss := start.session.value;
            && StopsFor(tables, events, taken, outcome)
            && Reached(log, tables, timely, start, s, AfterEvents(tables, ss, events[..taken]),
                       ConfirmedAfter(tables, ss, events[..taken], delivered[..taken], start.confirmed), outcome.Some?)
            && reports == ReportsOf(tables, ss, events[..taken])
    ensures forall i :: 0 <= i < |reports| ==> CoveredBy(log, reports[i], s.position)
  {
    hide Reached, StopsAt, ReportsOf, ConfirmedAfter, AfterEvents, Continues, StopsFor, CoveredBy;
    var ss := start.session.value;
    StopsForWhat(tables, ss, events, taken, outcome);
    ReportsCovered(log, tables, timely, start, s, ss, events[..taken],
                   ConfirmedAfter(tables, ss, events[..taken], delivered[..taken], start.confirmed), outcome.Some?);
  }

  /** No report claims a commit that is not mirrored. */
  lemma {:induction false} ReportsCovered(
    log: seq<Commit>, tables: Catalog, timely: bool, start: State, s: State, ss: Session, events: seq<StreamEvent>,
    confirmed: nat, ended: bool)
    requires Reached(log, tables, timely, start, s, AfterEvents(tables, ss, events), confirmed, ended)
    ensures forall lsn :: lsn in ReportsOf(tables, ss, events) ==> CoveredBy(log, lsn, s.position)
  {
    ReportsAscend(tables, ss, events);
  }

  /** The confirmed position after one event. */
  function ConfirmedBy(ss: Session, event: StreamEvent, delivered: bool, confirmed: nat): nat {
    if Answered(event) && delivered then Max(confirmed, ss.applied) else confirmed
  }

  /** One turn of the loop: what the event does to the mirror, the loop's variables and the machine. */
  method PumpEvent(runtime: PostgresWalRuntime, fence: SnapshotFence, event: StreamEvent,
                   pending: Option<Pending>, appliedLsn: nat, receivedLsn: nat,
                   ghost log: seq<Commit>, ghost timely: bool, ghost start: State, ghost s: State, ghost ss: Session,
                   ghost confirmed: nat, ghost delivered: bool)
    returns (outcome: Option<SessionOutcome>, report: Option<nat>, pending': Option<Pending>, appliedLsn': nat,
             receivedLsn': nat, ghost s': State)
    requires runtime.Valid() && s.view == runtime.TheView() && start.fence == fence && ValidLog(log)
    requires Reached(log, runtime.columns, timely, start, s, ss, confirmed, false)
    requires Holds(ss, pending, appliedLsn, receivedLsn)
    requires event.XLogData? ==> MayCome(log, runtime.columns, fence, ss, event.payload)
    modifies runtime`mirror, runtime`entries, runtime`baseSeq, runtime`truncatedThrough, runtime`clock, runtime`history
    ensures runtime.Valid() && runtime.Grew() && s'.view == runtime.TheView()
    ensures outcome == EndedBy(runtime.columns, ss, event)
    ensures report == if Answered(event) then Some(ss.applied) else None
    ensures Reached(log, runtime.columns, timely, start, s', AfterEvent(runtime.columns, ss, event),
                    ConfirmedBy(ss, event, delivered, confirmed), outcome.Some?)
    ensures Holds(AfterEvent(runtime.columns, ss, event), pending', appliedLsn', receivedLsn')
  {
    hide Inv, Leads, ClockFits, CoveredBy, ValidLog, FrameEffect, MayCome;
    outcome, report, pending', appliedLsn', receivedLsn' := None, None, pending, appliedLsn, receivedLsn;
    match event {
      case ShutdownRequested =>
        report, outcome := Some(appliedLsn), Some(Shutdown);
        s' := QuietReached(log, runtime.columns, timely, start, s, ss, event, confirmed, delivered);
      case Closed =>
        outcome := Some(Disconnected);
        s' := QuietReached(log, runtime.columns, timely, start, s, ss, event, confirmed, delivered);
      case IdleTick =>
        report := Some(appliedLsn);
        s' := QuietReached(log, runtime.columns, timely, start, s, ss, event, confirmed, delivered);
      case KeepaliveMessage(walEnd, reply) =>
        receivedLsn' := Max(receivedLsn, walEnd);
        if reply {
          report := Some(appliedLsn);
        }
        s' := QuietReached(log, runtime.columns, timely, start, s, ss, event, confirmed, delivered);
      case XLogData(walEnd, payload) =>
        receivedLsn' := Max(receivedLsn, walEnd);
        var result;
        pending', result := ApplyFrame(runtime, fence, pending, payload);
        match result {
          case Landed(lsn) => appliedLsn' := Max(appliedLsn, lsn);
          case Nothing =>
          case Fatal => outcome := Some(FatalError);
          case Transport => outcome := Some(Disconnected);
        }
        s' := FrameReached(log, runtime.columns, timely, start, s, ss, event, runtime.TheView(), confirmed);
    }
  }

  /** The session stops at the first event that ends it, or runs through them all. */
  ghost predicate StopsAt(
    tables: Catalog, ss: Session, events: seq<StreamEvent>, taken: nat, outcome: Option<SessionOutcome>)
    requires taken <= |events|
  {
    && (outcome.Some? ==> taken > 0)
    && forall k :: 0 <= k < taken ==>
         EndedBy(tables, AfterEvents(tables, ss, events[..k]), events[k]) == if k == taken - 1 then outcome else None
  }

  lemma {:induction false} StopsOneLater(
    tables: Catalog, ss: Session, events: seq<StreamEvent>, k: nat, outcome: Option<SessionOutcome>)
    requires k < |events| && StopsAt(tables, ss, events, k, None)
    requires outcome == EndedBy(tables, AfterEvents(tables, ss, events[..k]), events[k])
    ensures StopsAt(tables, ss, events, k + 1, outcome)
  {
  }

  /** The loop's variables are those of the session. */
  predicate Holds(ss: Session, pending: Option<Pending>, applied: nat, received: nat) {
    ss.pending == pending && ss.applied == applied && ss.received == received
  }

  lemma {:induction false} OneMoreEvent(tables: Catalog, ss: Session, events: seq<StreamEvent>, k: nat)
    requires k < |events|
    ensures AfterEvents(tables, ss, events[..k + 1])
              == AfterEvent(tables, AfterEvents(tables, ss, events[..k]), events[k])
    ensures ReportsOf(tables, ss, events[..k + 1])
         == ReportsOf(tables, ss, events[..k])
            + if Answered(events[k]) then [AfterEvents(tables, ss, events[..k]).applied] else []
  {
    assert events[..k + 1][..k] == events[..k];
  }

  lemma {:induction false} OneMoreConfirmed(
    tables: Catalog, ss: Session, events: seq<StreamEvent>, delivered: seq<bool>, k: nat, confirmed: nat)
    requires k < |events| == |delivered|
    ensures ConfirmedAfter(tables, ss, events[..k + 1], delivered[..k + 1], confirmed)
         == ConfirmedBy(AfterEvents(tables, ss, events[..k]), events[k], delivered[k],
                        ConfirmedAfter(tables, ss, events[..k], delivered[..k], confirmed))
  {
    assert events[..k + 1][..k] == events[..k] && delivered[..k + 1][..k] == delivered[..k];
  }

  lemma {:induction false} ContinuesAfter(
    log: seq<Commit>, tables: Catalog, fence: SnapshotFence, ss: Session, rest: seq<StreamEvent>)
    requires rest != [] && Continues(log, tables, fence, ss, rest)
    ensures Continues(log, tables, fence, AfterEvent(tables, ss, rest[0]), rest[1..])
  {
    var moved := if rest[0].XLogData? then Ingest.Advance(ss, rest[0].payload) else ss;
    ContinuesAlike(log, tables, fence, moved, AfterEvent(tables, ss, rest[0]), rest[1..]);
  }

  // ----- steps of the machine -----

  /** The steps behind an event that is not a frame: a keepalive, a report that arrives, a cut. */
  lemma QuietReached(
    log: seq<Commit>, tables: Catalog, timely: bool, start: State, s: State, ss: Session, event: StreamEvent,
    confirmed: nat, delivered: bool)
    returns (s': State)
    requires ValidLog(log) && Reached(log, tables, timely, start, s, ss, confirmed, false) && !event.XLogData?
    ensures s'.view == s.view
    ensures Reached(log, tables, timely, start, s', AfterEvent(tables, ss, event),
                    ConfirmedBy(ss, event, delivered, confirmed), EndedBy(tables, ss, event).Some?)
  {
    hide Inv, Leads, CoveredBy, ValidLog;
    s' := s;
    if event.KeepaliveMessage? {
      s' := Heard(log, tables, timely, start, s', event.walEnd);
    }
    if Answered(event) && delivered {
      s' := ReportArrives(log, tables, timely, start, s');
    }
    if EndedBy(tables, ss, event).Some? {
      s' := CutOff(log, tables, timely, start, s');
    }
  }

  lemma ReportArrives(log: seq<Commit>, tables: Catalog, timely: bool, start: State, s: State)
    returns (s': State)
    requires ValidLog(log) && Inv(log, tables, s) && Leads(log, tables, timely, start, s) && s.session.Some?
    ensures s' == s.(confirmed := Max(s.confirmed, s.session.value.applied))
    ensures Inv(log, tables, s') && Leads(log, tables, timely, start, s')
  {
    s' := s.(confirmed := Max(s.confirmed, s.session.value.applied));
    assert NextStep(log, tables, s, s', Report);
    LeadsOn(log, tables, timely, start, s, s');
    AnyStepKeepsInv(log, tables, s, s');
  }

  lemma CutOff(log: seq<Commit>, tables: Catalog, timely: bool, start: State, s: State) returns (s': State)
    requires ValidLog(log) && Inv(log, tables, s) && Leads(log, tables, timely, start, s) && s.session.Some?
    ensures s' == s.(session := None)
    ensures Inv(log, tables, s') && Leads(log, tables, timely, start, s')
  {
    s' := s.(session := None);
    assert NextStep(log, tables, s, s', Cut);
    LeadsOn(log, tables, timely, start, s, s');
    AnyStepKeepsInv(log, tables, s, s');
  }

  /** The server's end of the log has been heard. */
  lemma Heard(log: seq<Commit>, tables: Catalog, timely: bool, start: State, s: State, walEnd: nat)
    returns (s': State)
    requires ValidLog(log) && Inv(log, tables, s) && Leads(log, tables, timely, start, s) && s.session.Some?
    ensures s' == s.(session := Some(s.session.value.(received := Max(s.session.value.received, walEnd))))
    ensures Inv(log, tables, s') && Leads(log, tables, timely, start, s')
  {
    s' := s.(session := Some(s.session.value.(received := Max(s.session.value.received, walEnd))));
    assert NextStep(log, tables, s, s', Keepalive(walEnd));
    LeadsOn(log, tables, timely, start, s, s');
    AnyStepKeepsInv(log, tables, s, s');
  }

  lemma FrameReached(
    log: seq<Commit>, tables: Catalog, timely: bool, start: State, s: State, ss: Session, event: StreamEvent,
    w: View, confirmed: nat)
    returns (s': State)
    requires ValidLog(log) && Reached(log, tables, timely, start, s, ss, confirmed, false)
    requires event.XLogData? && MayCome(log, tables, s.fence, ss, event.payload)
    requires FrameEffect(tables, s.fence, ss.pending, event.payload, s.view, w)
    ensures s'.view == w
    ensures Reached(log, tables, timely, start, s', AfterEvent(tables, ss, event), confirmed,
                    EndedBy(tables, ss, event).Some?)
  {
    hide Inv, Leads, CoveredBy, FrameEffect, MayCome, ValidLog, Assembled, Timely, CanStep;
    s' := FrameState(tables, s, event.payload, w);
    FrameTaken(log, tables, timely, s, event.payload, w, start.view.clock);
    LeadsOn(log, tables, timely, start, s, s');
    if EndedBy(tables, ss, event).None? {
      s' := Heard(log, tables, timely, start, s', event.walEnd);
    }
  }

  /** The machine's state after a frame, given the view it leads to. */
  function FrameState(tables: Catalog, s: State, e: Event, w: View): State
    requires s.session.Some?
  {
    var ss := s.session.value;
    var moved := Ingest.Advance(ss, e).(pending := Assemble(tables, ss.pending, e));
    s.(view := w,
       position := if e.CommitEvent? then Max(s.position, ss.next + 1) else s.position,
       session := match OutcomeOf(tables, ss.pending, e)
                  case Nothing => Some(moved)
                  case Landed(lsn) => Some(moved.(applied := Max(ss.applied, lsn)))
                  case _ => None)
  }

  lemma FrameTaken(log: seq<Commit>, tables: Catalog, timely: bool, s: State, e: Event, w: View, base: nat)
    requires ValidLog(log) && Inv(log, tables, s) && s.session.Some? && (timely ==> ClockFits(log, s, base))
    requires MayCome(log, tables, s.fence, s.session.value, e)
    requires FrameEffect(tables, s.fence, s.session.value.pending, e, s.view, w)
    ensures var s' := FrameState(tables, s, e, w);
            && CanStep(log, tables, s, s') && Inv(log, tables, s')
            && (timely ==> Timely(s.view, s'.view) && ClockFits(log, s', base))
            && if s'.session.None? then s'.position == s.position else SessionInv(log, tables, s', s'.session.value)
  {
    var s' := FrameState(tables, s, e, w);
    assert e.CommitEvent? ==> CommitContract(log, tables, s, s.session.value.next);
    assert FrameStep(log, tables, s, s', e);
    hide FrameEffect, MayCome, ClockFits, Timely, ValidLog;
    FrameKeepsInv(log, tables, s, s', e);
    if timely {
      ClockAfterFrame(log, tables, s, s', e, base);
    }
    assert NextStep(log, tables, s, s', Frame(e));
  }
}
