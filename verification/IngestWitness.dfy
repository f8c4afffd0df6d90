/**
  What the ingest machine takes for granted can be met: a run with a commit streamed and
  mirrored, a cut, a reconciliation, and a commit streamed again and skipped; what the ingest
  task takes for granted can be met by the same; and a run that is not in time.
 */
module IngestWitness {
  import opened Wrappers
  import opened WalTypes
  import opened Database
  import opened Runtime
  import opened TruncateOrder
  import opened CommitEffects
  import opened SnapshotFences
  import opened JournalCursors
  import opened Ingest
  import opened StreamSessions
  import opened IngestTasks

  /** One table, without columns. */
  function One(): Catalog {
    map[0 := []]
  }

  /** Two commits, each inserting a row without columns into table 0. */
  function TwoInserts(): seq<Commit> {
    [Commit(5, 7, [Put(0, [])]), Commit(6, 9, [Put(0, [])])]
  }

  function InsertChange(): RowChange {
    RowChange(0, Insert, None, Some([]))
  }

  /** Before either commit, seeded from a snapshot that saw neither and bears the given LSN. */
  function SeededAt(lsn: nat): State {
    State(View(map[], [], lsn), 0, 0, SnapshotFence(5, []), 0, None, true)
  }

  function Seeded(): State {
    SeededAt(0)
  }

  /** A session has started, and then the Begin and the row frame of the first commit have arrived. */
  function Streaming(base: State, frames: nat): State {
    var pending := if frames == 0 then None else Some(Pending(5, if frames == 1 then [] else [InsertChange()], []));
    base.(session := Some(Session(0, frames > 0, if frames < 2 then 0 else 1, pending, 0, 0)), ready := false)
  }

  function Diff(lsn: nat): RawDiff {
    RawDiff(0, [], lsn, 1)
  }

  /** The first commit has been applied. */
  function Mirrored(): State {
    State(View(map[0 := multiset{[]}], [Diff(7)], 7), 1, 0, SnapshotFence(5, []), 0,
          Some(Session(1, false, 0, None, 7, 0)), false)
  }

  /** After a cut, a snapshot that saw both commits has been reconciled. */
  function Resynced(): State {
    State(View(map[0 := multiset{[], []}], [Diff(7), Diff(9)], 9), 2, 2, SnapshotFence(7, []), 0, None, true)
  }

  /** The first commit has been streamed again, and skipped. */
  function Skipped(): State {
    Resynced().(session := Some(Session(1, false, 0, None, 7, 0)), ready := false)
  }

  lemma {:induction false} PutApplies(bag: multiset<Row>, table: TableId)
    ensures AllApplicable(bag, [Put(0, [])], table)
    ensures RowsAfter(bag, [Put(0, [])], table) == if table == 0 then bag + multiset{[]} else bag
  {
    var put: DbOp := Put(0, []);
    assert [put][1..] == [];
  }

  lemma TwoInsertsReplay()
    ensures ValidLog(TwoInserts())
    ensures forall table ::
              && Replay(TwoInserts(), 0, table) == multiset{}
              && Replay(TwoInserts(), 1, table) == (if table == 0 then multiset{[]} else multiset{})
              && Replay(TwoInserts(), 2, table) == (if table == 0 then multiset{[], []} else multiset{})
  {
    hide RowsAfter, AllApplicable;
    forall bag, table
      ensures AllApplicable(bag, [Put(0, [])], table)
      ensures RowsAfter(bag, [Put(0, [])], table) == if table == 0 then bag + multiset{[]} else bag
    {
      PutApplies(bag, table);
    }
  }

  lemma FramesArrive(base: State)
    ensures CanStep(TwoInserts(), One(), Streaming(base, 0), Streaming(base, 1))
    ensures CanStep(TwoInserts(), One(), Streaming(base, 1), Streaming(base, 2))
  {
    assert NextStep(TwoInserts(), One(), Streaming(base, 0), Streaming(base, 1), Frame(Begin(5)));
    assert [] + [InsertChange()] == [InsertChange()];
    assert NextStep(TwoInserts(), One(), Streaming(base, 1), Streaming(base, 2), Frame(RowEvent(InsertChange())));
  }

  lemma PutsAreHarmless(n: nat)
    requires n < 2
    ensures Harmless(TwoInserts()[n].ops, 0)
  {
    TruncatesFirstIsHarmless(TwoInserts()[n].ops, 0);
  }

  lemma InsertLands(lsn: nat)
    ensures FrameStep(TwoInserts(), One(), Streaming(SeededAt(lsn), 2), Mirrored(), CommitEvent(7))
  {
    var v, w, changes := SeededAt(lsn).view, Mirrored().view, [InsertChange()];
    assert changes[1..] == [] && Diffs([], 7) == [];
    assert Diffs(changes, 7) == w.history;
    forall table
      ensures Rows(w.bags, table) == BagAfterAll(Rows(v.bags, table), changes, table)
    {
    }
    assert TruncateEffect(v, v, 7, []) && TransactionEffect(v, w, 7, changes);
    assert CommitEffect(v, w, 7, [], changes);
    assert !AlreadyInSnapshot(SnapshotFence(5, []), 5);
    PutsAreHarmless(0);
  }

  lemma InsertIsSkipped()
    ensures FrameStep(TwoInserts(), One(), Streaming(Resynced(), 2), Skipped(), CommitEvent(7))
  {
    assert AlreadyInSnapshot(SnapshotFence(7, []), 5);
    PutsAreHarmless(0);
  }

  lemma ResyncAddsOne()
    ensures Reconciled(Mirrored().view, Resynced().view, map[0 := multiset{[], []}], One().Keys, 9)
  {
    var v, w := Mirrored().view, Resynced().view;
    var added := w.history[|v.history|..];
    assert added == [Diff(9)] && added[1..] == [];
    forall table, row
      ensures Net(added, table, row) == if table == 0 && row == [] then 1 else 0
      ensures Mentions(added, table, row) == if table == 0 && row == [] then 1 else 0
    {
    }
  }

  lemma Resyncs()
    ensures CanStep(TwoInserts(), One(), Mirrored().(session := None), Resynced())
  {
    hide Reconciled, Replay;
    var s, s' := Mirrored().(session := None), Resynced();
    TwoInsertsReplay();
    ResyncAddsOne();
    assert FenceDescribes(s'.fence, TwoInserts(), 2);
    assert NextStep(TwoInserts(), One(), s, s', Reconcile(9, 2, s'.view.bags));
  }

  lemma BothStart()
    ensures CanStep(TwoInserts(), One(), Seeded(), Streaming(Seeded(), 0))
    ensures CanStep(TwoInserts(), One(), Resynced(), Streaming(Resynced(), 0))
  {
    assert NextStep(TwoInserts(), One(), Seeded(), Streaming(Seeded(), 0), StartSession);
    assert NextStep(TwoInserts(), One(), Resynced(), Streaming(Resynced(), 0), StartSession);
  }

  lemma SeededIsInit()
    ensures Init(TwoInserts(), One(), Seeded())
  {
    TwoInsertsReplay();
  }

  lemma CommitsAndCut()
    ensures CanStep(TwoInserts(), One(), Streaming(Seeded(), 2), Mirrored())
    ensures CanStep(TwoInserts(), One(), Mirrored(), Mirrored().(session := None))
    ensures CanStep(TwoInserts(), One(), Streaming(Resynced(), 2), Skipped())
  {
    InsertLands(0);
    assert NextStep(TwoInserts(), One(), Streaming(Seeded(), 2), Mirrored(), Frame(CommitEvent(7)));
    assert NextStep(TwoInserts(), One(), Mirrored(), Mirrored().(session := None), Cut);
    InsertIsSkipped();
    assert NextStep(TwoInserts(), One(), Streaming(Resynced(), 2), Skipped(), Frame(CommitEvent(7)));
  }

  function ResyncRun(): seq<State> {
    [Seeded(), Streaming(Seeded(), 0), Streaming(Seeded(), 1), Streaming(Seeded(), 2), Mirrored(),
     Mirrored().(session := None), Resynced(),
     Streaming(Resynced(), 0), Streaming(Resynced(), 1), Streaming(Resynced(), 2), Skipped()]
  }

  lemma ResyncStep(i: nat)
    requires i < 10
    ensures CanStep(TwoInserts(), One(), ResyncRun()[i], ResyncRun()[i + 1])
  {
    hide CanStep, Seeded, Streaming, Mirrored, Resynced, Skipped, TwoInserts;
    if i == 0 || i == 6 {
      BothStart();
    } else if i <= 2 {
      FramesArrive(Seeded());
    } else if i == 5 {
      Resyncs();
    } else if 7 <= i <= 8 {
      FramesArrive(Resynced());
    } else {
      CommitsAndCut();
    }
  }

  lemma ResyncIsRun()
    ensures ValidLog(TwoInserts()) && IsRun(TwoInserts(), One(), ResyncRun())
  {
    hide CanStep, Init, Replay;
    var log, run := TwoInserts(), ResyncRun();
    TwoInsertsReplay();
    SeededIsInit();
    forall i | 0 <= i < |run| - 1
      ensures CanStep(log, One(), run[i], run[i + 1])
    {
      ResyncStep(i);
    }
  }

  /**
    There is a run in time in which a commit is streamed and mirrored, the stream is cut, a
    snapshot that saw a further commit is reconciled, and the first commit is streamed again and
    skipped.
   */
  lemma SomeRunResyncs()
    ensures var log, run := TwoInserts(), ResyncRun();
            && ValidLog(log) && IsRun(log, One(), run) && InTime(run)
            && run[4].position == 1 && run[4].session.Some? && run[5].session.None?
            && run[6].snapshot == run[6].position == 2 == |log| && run[6].view.history != run[5].view.history
            && run[10].session.Some? && run[10].session.value.next == 1 && run[10].view == run[6].view
  {
    hide IsRun, ValidLog;
    ResyncIsRun();
  }

  // ----- the ingest task -----

  /** The frames of the first commit, and then the end of the connection. */
  function FirstCommitFrames(): seq<StreamEvent> {
    [XLogData(7, Begin(5)), XLogData(7, RowEvent(InsertChange())), XLogData(7, CommitEvent(7)), Closed]
  }

  /** The session after the first `k` of them. */
  function SessionAfter(k: nat): Session {
    if k == 0 then FreshSession(0)
    else if k == 1 then Session(0, true, 0, Some(Pending(5, [], [])), 0, 7)
    else if k == 2 then Session(0, true, 1, Some(Pending(5, [InsertChange()], [])), 0, 7)
    else Session(1, false, 0, None, 7, 7)
  }

  lemma SessionGoes(k: nat)
    requires k < 4
    ensures AfterEvent(One(), SessionAfter(k), FirstCommitFrames()[k]) == SessionAfter(k + 1)
    ensures EndedBy(One(), SessionAfter(k), FirstCommitFrames()[k]) == if k == 3 then Some(Disconnected) else None
  {
    assert [] + [InsertChange()] == [InsertChange()];
  }

  lemma {:induction false} SessionIs(k: nat)
    requires k <= 4
    ensures AfterEvents(One(), FreshSession(0), FirstCommitFrames()[..k]) == SessionAfter(k)
    decreases k
  {
    if k > 0 {
      SessionIs(k - 1);
      SessionGoes(k - 1);
      OneMoreEvent(One(), FreshSession(0), FirstCommitFrames(), k - 1);
    }
  }

  lemma {:induction false} NothingConfirmed(k: nat)
    requires k <= 4
    ensures ConfirmedAfter(One(), FreshSession(0), FirstCommitFrames()[..k], Lost()[..k], 0) == 0
    decreases k
  {
    if k > 0 {
      NothingConfirmed(k - 1);
      OneMoreConfirmed(One(), FreshSession(0), FirstCommitFrames(), Lost(), k - 1, 0);
    }
  }

  function Lost(): seq<bool> {
    [false, false, false, false]
  }

  /** The server may send those frames under either fence. */
  lemma {:induction false} FramesContinue(fence: SnapshotFence, k: nat)
    requires k <= 4 && InWindow(fence, 5)
    ensures Continues(TwoInserts(), One(), fence, SessionAfter(k), FirstCommitFrames()[k..])
    decreases 4 - k
  {
    if k < 4 {
      var rest := FirstCommitFrames()[k..];
      FramesContinue(fence, k + 1);
      assert rest[0] == FirstCommitFrames()[k] && rest[1..] == FirstCommitFrames()[k + 1..];
      FrameMayCome(fence, k);
      SessionGoes(k);
      if k < 3 {
        ContinuesAlike(TwoInserts(), One(), fence, SessionAfter(k + 1),
                       Ingest.Advance(SessionAfter(k), rest[0].payload), rest[1..]);
      }
    }
  }

  lemma FrameMayCome(fence: SnapshotFence, k: nat)
    requires k < 4 && InWindow(fence, 5)
    ensures var event := FirstCommitFrames()[k];
            event.XLogData? ==> MayCome(TwoInserts(), One(), fence, SessionAfter(k), event.payload)
  {
    PutsAreHarmless(0);
  }

  function CutShort(snapshot: Option<Snapshot>): Attempt {
    Attempt(snapshot, FirstCommitFrames())
  }

  lemma CutShortIsServed(fence: SnapshotFence, snapshot: Option<Snapshot>, seen: nat)
    requires InWindow(fence, 5)
    ensures Serves(TwoInserts(), One(), fence, 0, CutShort(snapshot), Script(seen, 0, Lost()))
  {
    FramesContinue(fence, 0);
    assert FirstCommitFrames()[0..] == FirstCommitFrames();
  }

  /** The snapshot taken after the cut, which saw both commits. */
  function SecondSnapshot(): Snapshot {
    Snapshot(9, SnapshotFence(7, []), map[0 := [[], []]])
  }

  function Attempts(): seq<Attempt> {
    [CutShort(None), CutShort(Some(SecondSnapshot()))]
  }

  function Scripts(): seq<Script> {
    [Script(0, 0, Lost()), Script(2, 0, Lost())]
  }

  function Standings(): seq<Standing> {
    [Standing(0, SnapshotFence(5, []), 0, 0), Standing(1, SnapshotFence(5, []), 0, 0),
     Standing(2, SnapshotFence(7, []), 9, 0)]
  }

  lemma CutShortIsTaken()
    ensures Taken(One(), FirstCommitFrames()) == 4
  {
    hide Taken;
    var frames := FirstCommitFrames();
    assert !Ends(One(), frames[0]) && !Ends(One(), frames[1]) && !Ends(One(), frames[2]);
  }

  lemma AfterCut(st: Standing, snapshot: Option<Snapshot>, seen: nat)
    requires st.confirmed == 0
    ensures AfterSession(One(), st, CutShort(snapshot), Script(seen, 0, Lost())) == st.(position := Max(st.position, 1))
  {
    SessionIs(4);
    NothingConfirmed(4);
    CutShortIsTaken();
    hide AfterEvents, ConfirmedAfter, Taken;
    assert FirstCommitFrames()[..4] == FirstCommitFrames() && Lost()[..4] == Lost();
  }

  lemma SecondSnapshotSees()
    ensures Supersedes(TwoInserts(), One(), true, Standings()[1], SecondSnapshot(), 2)
  {
    TwoInsertsReplay();
    assert FenceDescribes(SnapshotFence(7, []), TwoInserts(), 2);
    var rows: seq<Row> := [[], []];
    assert multiset(rows) == multiset{[], []};
  }

  /** Two turns, with a cut, a dated snapshot reconciled and the first commit streamed again, meet all that is asked. */
  lemma SomeTaskResyncs()
    ensures MayGoOn(One(), true, Seeded().view, Seeded().fence, TwoInserts(), Seeded(), Attempts(), Scripts(),
                    Standings())
    ensures Standings()[2].position == 2 && Attempts()[1].snapshot.Some?
  {
    hide Serves, Supersedes, AfterSession, Replay, Continues;
    CutShortIsServed(SnapshotFence(5, []), None, 0);
    CutShortIsServed(SnapshotFence(7, []), Some(SecondSnapshot()), 2);
    AfterCut(Standings()[0], None, 0);
    AfterCut(Adopt(Standings()[1], SecondSnapshot(), 2), Some(SecondSnapshot()), 2);
    SecondSnapshotSees();
    SeededStands();
  }

  lemma SeededStands()
    ensures ValidLog(TwoInserts()) && Between(TwoInserts(), One(), true, Seeded(), Standings()[0], true)
  {
    TwoInsertsReplay();
    SeededIsInit();
    InitInv(TwoInserts(), One(), Seeded());
  }

  // ----- a commit that comes late -----

  /** The snapshot bore an LSN past both commits but saw neither; then the first commit is streamed. */
  function LateRun(): seq<State> {
    [SeededAt(10), Streaming(SeededAt(10), 0), Streaming(SeededAt(10), 1), Streaming(SeededAt(10), 2), Mirrored()]
  }

  lemma LateStarts()
    ensures Init(TwoInserts(), One(), SeededAt(10))
    ensures CanStep(TwoInserts(), One(), SeededAt(10), Streaming(SeededAt(10), 0))
  {
    TwoInsertsReplay();
    assert NextStep(TwoInserts(), One(), SeededAt(10), Streaming(SeededAt(10), 0), StartSession);
  }

  lemma LateLands()
    ensures CanStep(TwoInserts(), One(), Streaming(SeededAt(10), 2), Mirrored())
  {
    InsertLands(10);
    hide FrameStep;
    assert NextStep(TwoInserts(), One(), Streaming(SeededAt(10), 2), Mirrored(), Frame(CommitEvent(7)));
  }

  lemma LateRunIsRun()
    ensures ValidLog(TwoInserts()) && IsRun(TwoInserts(), One(), LateRun())
  {
    hide CanStep, Init, Streaming, Mirrored, SeededAt, TwoInserts, Replay, ValidLog;
    TwoInsertsReplay();
    LateStarts();
    FramesArrive(SeededAt(10));
    LateLands();
  }

  /**
    There is a run that is not in time: the mirror is right throughout, as in every run, but a
    subscriber who takes a snapshot at its start never hears of the commit.
   */
  lemma SomeRunIsLate()
    ensures var log, run := TwoInserts(), LateRun();
            && ValidLog(log) && IsRun(log, One(), run) && !InTime(run)
            && run[4].position == 1 && MirrorsLog(log, One(), run[4].view.bags, 1)
            && !TailCompletes(run[0].view, run[0].view.clock, run[4].view, {0})
  {
    hide IsRun, ValidLog, TailCompletes, MirrorsLog, TwoInserts;
    LateRunIsRun();
    RunMirrors(TwoInserts(), One(), LateRun(), 4);
    assert !Timely(LateRun()[3].view, LateRun()[3 + 1].view);
    LateCommitIsMissed(0, [], 10, 7);
  }
}
