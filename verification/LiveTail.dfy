/**
  Cursors on a journal that goes on growing: what a cursor has yielded stays a prefix of what
  it should yield, and a snapshot together with its live tail is the mirror.
 */
module LiveTail {
  import opened Wrappers
  import opened WalTypes
  import opened QuerySnapshots
  import opened Runtime
  import opened JournalCursors

  lemma YieldedPersists(
    fromLsn: nat, tables: set<TableId>, before: seq<RawDiff>, now: seq<RawDiff>, n: nat)
    requires n <= |before| && before <= now
    ensures RelevantOf(fromLsn, tables, now[..n]) == RelevantOf(fromLsn, tables, before[..n])
  {
    assert now[..n] == before[..n];
  }

  /**
    Whatever the runtime does to its journal, a cursor that was not touched has still yielded
    exactly the relevant diffs of a prefix of the history, and one that lost entries has lost
    them for good.
   */
  twostate lemma CursorSurvives(cursor: JournalCursor)
    requires old(cursor.Valid()) && unchanged(cursor)
    requires cursor.runtime.Valid() && cursor.runtime.Grew()
    ensures cursor.Valid()
    ensures old(cursor.LostEntries()) ==> cursor.LostEntries()
  {
    YieldedPersists(cursor.fromLsn, cursor.tables, old(cursor.runtime.history), cursor.runtime.history, cursor.nextSeq);
  }

  /** A position from which everything after the snapshot can be read: only later steps since, and between commits. */
  ghost predicate TailAt(fromLsn: nat, tables: set<TableId>, nextSeq: nat, snapshot: View, now: View) {
    && fromLsn == snapshot.clock && Ordered(snapshot) && Extends(snapshot, now)
    && nextSeq <= |now.history| && AtBoundary(fromLsn, tables, now.history, nextSeq)
  }

  lemma TailStays(
    fromLsn: nat, tables: set<TableId>, nextSeq: nat, snapshot: View, v: View, w: View)
    requires TailAt(fromLsn, tables, nextSeq, snapshot, v) && Extends(v, w)
    ensures TailAt(fromLsn, tables, nextSeq, snapshot, w)
    ensures RelevantOf(fromLsn, tables, w.history[..nextSeq]) == RelevantOf(fromLsn, tables, v.history[..nextSeq])
  {
    ExtendsOrdered(snapshot, v);
    ExtendsTransitive(snapshot, v, w);
    BoundaryPersists(fromLsn, tables, v, w, nextSeq);
    YieldedPersists(fromLsn, tables, v.history, w.history, nextSeq);
  }

  /** A cursor that follows a snapshot: anchored at its clock, with only later steps since. */
  ghost predicate Follows(cursor: JournalCursor, snapshot: View)
    reads cursor, cursor.runtime
  {
    cursor.Valid() && TailAt(cursor.fromLsn, cursor.tables, cursor.nextSeq, snapshot, cursor.runtime.TheView())
  }

  /**
    A subscription: the updates that seed its dataflow from a snapshot, and a cursor anchored at
    the snapshot's clock.  It is refused only if the runtime has failed or the query does not
    resolve: the journal never drops a diff later than the clock.  The seed is the mirror's rows
    if and only if no table that has any is listed twice.
   */
  method Subscribe(runtime: PostgresWalRuntime, query: Query)
    returns (seed: seq<RawDiff>, cursor: Option<JournalCursor>)
    requires runtime.Valid() && Ordered(runtime.TheView())
    ensures cursor.None? <==> runtime.failed.Some? || !runtime.Resolves(query)
    ensures cursor.Some? ==>
              var c, listed := cursor.value, Listed(runtime.tablesByName, query.names);
              && fresh(c) && c.runtime == runtime && c.tables == runtime.ScannedTables(query)
              && Follows(c, runtime.TheView()) && !c.LostEntries() && AllAt(seed, runtime.clock)
              && (SeedsMirror(runtime.mirror, listed, seed) <==> RepeatsAreEmpty(runtime.mirror, listed))
  {
    seed, cursor := [], None;
    var batch := runtime.FetchSnapshot(query);
    if batch.Some? {
      seed := SnapshotToSeedUpdates(batch.value);
      cursor := OpenCursor(runtime, query, batch.value.lsn);
      ExtendsReflexive(runtime.TheView());
      SeedRightIff(runtime.mirror, Listed(runtime.tablesByName, query.names), batch.value.lsn);
    }
  }

  /**
    Drains a cursor that follows a snapshot.  Unless the journal dropped entries it had not
    read, what it has yielded in all, by this and earlier drains, and the snapshot add up to
    the mirror; and every batch is a whole transaction.
   */
  method DrainTail(cursor: JournalCursor, ghost snapshot: View) returns (batches: seq<LsnBatch>)
    requires Follows(cursor, snapshot)
    modifies cursor
    ensures Follows(cursor, snapshot)
    ensures cursor.yielded == old(cursor.yielded) + Together(batches)
    ensures AreTransactions(cursor.fromLsn, cursor.tables, cursor.runtime.history, batches)
    ensures cursor.LostEntries() == old(cursor.LostEntries())
    ensures cursor.LostEntries() ==> batches == []
    ensures !cursor.LostEntries() ==> AddsUp(snapshot, cursor.yielded, cursor.runtime.TheView(), cursor.tables)
  {
    ExtendsOrdered(snapshot, cursor.runtime.TheView());
    var drained := BatchByLsn(cursor);
    batches := drained.value;
    if !cursor.LostEntries() {
      forall table, row | table in cursor.tables
        ensures Multiplicity(Rows(cursor.runtime.TheView().bags, table), row)
             == Multiplicity(Rows(snapshot.bags, table), row) + Net(cursor.yielded, table, row)
      {
        SnapshotPlusTail(snapshot, cursor.runtime.TheView(), cursor.tables, cursor.yielded, table, row);
      }
    }
  }

  /** A cursor that follows a snapshot still does after any further steps of the runtime. */
  twostate lemma StillFollows(cursor: JournalCursor, snapshot: View)
    requires old(Follows(cursor, snapshot)) && unchanged(cursor)
    requires cursor.runtime.Valid() && cursor.runtime.Grew()
    requires Extends(old(cursor.runtime.TheView()), cursor.runtime.TheView())
    ensures Follows(cursor, snapshot)
    ensures old(cursor.LostEntries()) ==> cursor.LostEntries()
  {
    TailStays(cursor.fromLsn, cursor.tables, cursor.nextSeq, snapshot,
              old(cursor.runtime.TheView()), cursor.runtime.TheView());
  }
}
