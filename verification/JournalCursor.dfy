/**
  Cursors over the shared diff journal, filtered to a query's tables and anchored at the
  subscriber's snapshot, and the transactions they yield.
 */
module JournalCursors {
  import opened Wrappers
  import opened Sequences
  import opened WalTypes
  import opened QuerySnapshots
  import opened Runtime

  datatype LsnBatch = LsnBatch(lsn: nat, diffs: seq<RawDiff>)

  /** The diffs a cursor should surface: after its anchor, and of its tables. */
  predicate Relevant(fromLsn: nat, tables: set<TableId>, entry: RawDiff) {
    entry.lsn > fromLsn && entry.table in tables
  }

  function RelevantOf(fromLsn: nat, tables: set<TableId>, diffs: seq<RawDiff>): seq<RawDiff> {
    Filter(diffs, (d: RawDiff) => Relevant(fromLsn, tables, d))
  }

  /** All relevant diffs of one commit. */
  function TransactionAt(fromLsn: nat, tables: set<TableId>, history: seq<RawDiff>, lsn: nat): seq<RawDiff> {
    Filter(history, (d: RawDiff) => Relevant(fromLsn, tables, d) && d.lsn == lsn)
  }

  lemma RelevantStep(fromLsn: nat, tables: set<TableId>, history: seq<RawDiff>, i: nat)
    requires i < |history|
    ensures RelevantOf(fromLsn, tables, history[..i + 1])
         == RelevantOf(fromLsn, tables, history[..i])
            + (if Relevant(fromLsn, tables, history[i]) then [history[i]] else [])
  {
    assert history[..i + 1] == history[..i] + [history[i]];
    FilterConcat(history[..i], [history[i]], (d: RawDiff) => Relevant(fromLsn, tables, d));
    assert [history[i]][1..] == [];
  }

  /** `n` splits the history between commits, as far as the relevant diffs can tell. */
  ghost predicate AtBoundary(fromLsn: nat, tables: set<TableId>, history: seq<RawDiff>, n: nat)
    requires n <= |history|
  {
    forall i, j :: 0 <= i < n <= j < |history|
      && Relevant(fromLsn, tables, history[i]) && Relevant(fromLsn, tables, history[j])
      ==> history[i].lsn < history[j].lsn
  }

  /** The position of the first relevant diff from `n` on, or the end. */
  function FirstRelevant(fromLsn: nat, tables: set<TableId>, history: seq<RawDiff>, n: nat): (k: nat)
    requires n <= |history|
    ensures n <= k <= |history|
    ensures k < |history| ==> Relevant(fromLsn, tables, history[k])
    decreases |history| - n
  {
    if n == |history| || Relevant(fromLsn, tables, history[n]) then n
    else FirstRelevant(fromLsn, tables, history, n + 1)
  }

  lemma {:induction false} NoneBeforeFirst(fromLsn: nat, tables: set<TableId>, history: seq<RawDiff>, n: nat)
    requires n <= |history|
    ensures forall k :: n <= k < FirstRelevant(fromLsn, tables, history, n) ==> !Relevant(fromLsn, tables, history[k])
    decreases |history| - n
  {
    if n < |history| && !Relevant(fromLsn, tables, history[n]) {
      NoneBeforeFirst(fromLsn, tables, history, n + 1);
    }
  }

  /** The LSN of the first relevant diff from `n` on. */
  function NextLsn(fromLsn: nat, tables: set<TableId>, history: seq<RawDiff>, n: nat): Option<nat>
    requires n <= |history|
  {
    var k := FirstRelevant(fromLsn, tables, history, n);
    if k < |history| then Some(history[k].lsn) else None
  }

  /** In LSN order, the first relevant diff has the least LSN. */
  lemma UnreadFrom(fromLsn: nat, tables: set<TableId>, history: seq<RawDiff>, n: nat, k: nat)
    requires InLsnOrder(history) && n <= k < |history| && Relevant(fromLsn, tables, history[k])
    ensures NextLsn(fromLsn, tables, history, n).Some?
    ensures NextLsn(fromLsn, tables, history, n).value <= history[k].lsn
  {
    NoneBeforeFirst(fromLsn, tables, history, n);
  }

  /**
    What lies between a boundary and the next change of LSN is one whole transaction, and the
    end is a boundary again.
   */
  lemma WholeTransaction(
    fromLsn: nat, tables: set<TableId>, history: seq<RawDiff>, start: nat, end: nat, diffs: seq<RawDiff>, lsn: nat)
    requires InLsnOrder(history) && start <= end <= |history|
    requires AtBoundary(fromLsn, tables, history, start)
    requires diffs == RelevantOf(fromLsn, tables, history[start..end]) && diffs != [] && AllAt(diffs, lsn)
    requires NextLsn(fromLsn, tables, history, end) != Some(lsn)
    ensures diffs == TransactionAt(fromLsn, tables, history, lsn)
    ensures AtBoundary(fromLsn, tables, history, end)
  {
    var first := PositionOf(fromLsn, tables, history, start, end, diffs[0]);
    FilterMembers(history[start..end], (d: RawDiff) => Relevant(fromLsn, tables, d));
    assert history[first].lsn == lsn;
    forall k | start <= k < end && Relevant(fromLsn, tables, history[k])
      ensures history[k].lsn == lsn
    {
      assert history[k] in history[start..end];
      assert history[k] in diffs;
    }
    forall k | end <= k < |history| && Relevant(fromLsn, tables, history[k])
      ensures lsn < history[k].lsn
    {
      UnreadFrom(fromLsn, tables, history, end, k);
      var j := FirstRelevant(fromLsn, tables, history, end);
      assert history[first].lsn <= history[j].lsn;
    }
    MiddleIsTransaction(fromLsn, tables, history, start, end, lsn, first);
  }

  lemma PositionOf(fromLsn: nat, tables: set<TableId>, history: seq<RawDiff>, start: nat, end: nat, d: RawDiff)
    returns (k: nat)
    requires start <= end <= |history| && d in RelevantOf(fromLsn, tables, history[start..end])
    ensures start <= k < end && history[k] == d && Relevant(fromLsn, tables, d)
  {
    FilterMembers(history[start..end], (d: RawDiff) => Relevant(fromLsn, tables, d));
    var i :| 0 <= i < end - start && history[start..end][i] == d;
    k := start + i;
  }

  lemma MiddleIsTransaction(
    fromLsn: nat, tables: set<TableId>, history: seq<RawDiff>, start: nat, end: nat, lsn: nat, first: nat)
    requires start <= first < end <= |history| && AtBoundary(fromLsn, tables, history, start)
    requires Relevant(fromLsn, tables, history[first]) && history[first].lsn == lsn
    requires forall k :: start <= k < end && Relevant(fromLsn, tables, history[k]) ==> history[k].lsn == lsn
    requires forall k :: end <= k < |history| && Relevant(fromLsn, tables, history[k]) ==> lsn < history[k].lsn
    ensures RelevantOf(fromLsn, tables, history[start..end]) == TransactionAt(fromLsn, tables, history, lsn)
    ensures AtBoundary(fromLsn, tables, history, end)
  {
    var keep := (d: RawDiff) => Relevant(fromLsn, tables, d) && d.lsn == lsn;
    var a, b, c := history[..start], history[start..end], history[end..];
    assert history == a + b + c;
    forall d | d in a || d in c
      ensures !keep(d)
    {
      if d in a {
        var i :| 0 <= i < start && history[i] == d;
        assert Relevant(fromLsn, tables, d) ==> history[i].lsn < history[first].lsn;
      } else {
        var j :| end <= j < |history| && history[j] == d;
      }
    }
    forall d | d in b
      ensures keep(d) == Relevant(fromLsn, tables, d)
    {
      var k :| start <= k < end && history[k] == d;
    }
    FilterMiddle(a, b, c, keep, (d: RawDiff) => Relevant(fromLsn, tables, d));
  }

  class JournalCursor {
    const runtime: PostgresWalRuntime
    const fromLsn: nat
    const tables: set<TableId>
    var nextSeq: nat
    var poisoned: bool

    ghost var yielded: seq<RawDiff>   // everything returned so far

    /** What has been yielded is exactly the relevant diffs of a prefix of the untruncated history. */
    ghost predicate Valid()
      reads this, runtime
    {
      && runtime.Valid()
      && nextSeq <= |runtime.history|
      && yielded == RelevantOf(fromLsn, tables, runtime.history[..nextSeq])
    }

    /** The journal has dropped entries this cursor never saw. */
    ghost predicate LostEntries()
      reads this, runtime
    {
      poisoned || nextSeq < runtime.baseSeq
    }

    constructor (runtime: PostgresWalRuntime, fromLsn: nat, tables: set<TableId>)
      requires runtime.Valid() && runtime.truncatedThrough <= fromLsn
      ensures Valid() && this.runtime == runtime && this.fromLsn == fromLsn && this.tables == tables
      ensures nextSeq == runtime.baseSeq && !poisoned && yielded == []
    {
      this.runtime, this.fromLsn, this.tables := runtime, fromLsn, tables;
      nextSeq, poisoned, yielded := runtime.baseSeq, false, [];
      new;
      DroppedAreIrrelevant(fromLsn, tables, runtime.history, runtime.baseSeq);
    }

    /**
      The next relevant diff, if the journal still has everything from here on.  A cursor
      that lost entries yields nothing, and never will.
     */
    method NextDiff() returns (item: Option<RawDiff>)
      requires Valid()
      modifies this
      ensures Valid()
      ensures old(LostEntries()) ==> item.None? && poisoned && nextSeq == old(nextSeq) && yielded == old(yielded)
      ensures !old(LostEntries()) ==>
                var k := FirstRelevant(fromLsn, tables, runtime.history, old(nextSeq));
                && !LostEntries()
                && (item.None? <==> k == |runtime.history|)
                && (item.None? ==> nextSeq == |runtime.history| && yielded == old(yielded))
                && (item.Some? ==> item.value == runtime.history[k] && nextSeq == k + 1
                                   && yielded == old(yielded) + [item.value])
    {
      item := None;
      if poisoned {
        return;
      }
      if nextSeq < runtime.baseSeq {
        poisoned := true;
        return;
      }
      while nextSeq - runtime.baseSeq < |runtime.entries|
        invariant Valid() && !poisoned && old(nextSeq) <= nextSeq && runtime.baseSeq <= nextSeq
        invariant yielded == old(yielded)
        invariant FirstRelevant(fromLsn, tables, runtime.history, old(nextSeq))
               == FirstRelevant(fromLsn, tables, runtime.history, nextSeq)
        decreases |runtime.history| - nextSeq
      {
        var entry := runtime.entries[nextSeq - runtime.baseSeq];
        RelevantStep(fromLsn, tables, runtime.history, nextSeq);
        nextSeq := nextSeq + 1;
        if Relevant(fromLsn, tables, entry) {
          yielded := yielded + [entry];
          return Some(entry);
        }
      }
    }

    /** The LSN of the diff that `NextDiff` would yield. */
    method PeekLsn() returns (lsn: Option<nat>)
      requires Valid()
      ensures lsn == if LostEntries() then None else NextLsn(fromLsn, tables, runtime.history, nextSeq)
    {
      lsn := None;
      if poisoned || nextSeq < runtime.baseSeq {
        return;
      }
      var index := nextSeq - runtime.baseSeq;
      while index < |runtime.entries|
        invariant nextSeq - runtime.baseSeq <= index <= |runtime.entries|
        invariant FirstRelevant(fromLsn, tables, runtime.history, nextSeq)
               == FirstRelevant(fromLsn, tables, runtime.history, runtime.baseSeq + index)
      {
        var entry := runtime.entries[index];
        assert entry == runtime.history[runtime.baseSeq + index];
        if Relevant(fromLsn, tables, entry) {
          return Some(entry.lsn);
        }
        index := index + 1;
      }
    }

    /**
      `next_batch`, and so `next_transaction`: the diffs of one LSN, as far as it goes.  Between
      commits of a journal in LSN order it yields every relevant diff of the next commit, no part
      of another, and stops between commits again.
     */
    method NextBatch() returns (batch: Option<LsnBatch>)
      requires Valid()
      modifies this
      ensures Valid()
      ensures batch.Some? ==>
                && !LostEntries() && old(nextSeq) < nextSeq && yielded == old(yielded) + batch.value.diffs
                && IsBatch(fromLsn, tables, runtime.history, old(nextSeq), nextSeq, batch.value)
      ensures InLsnOrder(runtime.history) && AtBoundary(fromLsn, tables, runtime.history, old(nextSeq)) ==>
                && AtBoundary(fromLsn, tables, runtime.history, nextSeq)
                && (batch.Some? ==>
                      batch.value.diffs == TransactionAt(fromLsn, tables, runtime.history, batch.value.lsn))
      ensures old(LostEntries()) ==> batch.None? && LostEntries() && yielded == old(yielded)
      ensures batch.None? && !old(LostEntries()) ==>
                !LostEntries() && yielded == old(yielded) == RelevantOf(fromLsn, tables, runtime.history)
    {
      ghost var start, history := nextSeq, runtime.history;
      var first := NextDiff();
      if first.None? {
        assert history[..|history|] == history;
        EndIsBoundary(fromLsn, tables, history);
        return None;
      }
      var lsn := first.value.lsn;
      var more := DrainLsn(lsn);
      var diffs := [first.value] + more;
      assert yielded == old(yielded) + diffs && AllAt(diffs, lsn);
      if InLsnOrder(history) && AtBoundary(fromLsn, tables, history, start) {
        YieldedTransaction(fromLsn, tables, history, start, nextSeq, old(yielded), diffs, lsn);
      }
      batch := Some(LsnBatch(lsn, diffs));
    }

    /** Drain diffs for as long as the next one has the given LSN. */
    method DrainLsn(lsn: nat) returns (diffs: seq<RawDiff>)
      requires Valid() && !LostEntries()
      modifies this
      ensures Valid() && !LostEntries() && old(nextSeq) <= nextSeq
      ensures yielded == old(yielded) + diffs && AllAt(diffs, lsn)
      ensures NextLsn(fromLsn, tables, runtime.history, nextSeq) != Some(lsn)
    {
      diffs := [];
      var next := PeekLsn();
      while next.Some? && next.value == lsn
        invariant Valid() && !LostEntries() && old(nextSeq) <= nextSeq
        invariant yielded == old(yielded) + diffs && AllAt(diffs, lsn)
        invariant next == NextLsn(fromLsn, tables, runtime.history, nextSeq)
        decreases |runtime.history| - nextSeq
      {
        var item := NextDiff();
        diffs := diffs + [item.value];
        next := PeekLsn();
      }
    }
  }

  lemma EndIsBoundary(fromLsn: nat, tables: set<TableId>, history: seq<RawDiff>)
    ensures AtBoundary(fromLsn, tables, history, |history|)
  {
  }

  lemma YieldedTransaction(
    fromLsn: nat, tables: set<TableId>, history: seq<RawDiff>, start: nat, end: nat,
    before: seq<RawDiff>, diffs: seq<RawDiff>, lsn: nat)
    requires InLsnOrder(history) && start <= end <= |history|
    requires AtBoundary(fromLsn, tables, history, start)
    requires before == RelevantOf(fromLsn, tables, history[..start])
    requires before + diffs == RelevantOf(fromLsn, tables, history[..end])
    requires diffs != [] && AllAt(diffs, lsn) && NextLsn(fromLsn, tables, history, end) != Some(lsn)
    ensures diffs == TransactionAt(fromLsn, tables, history, lsn)
    ensures AtBoundary(fromLsn, tables, history, end)
  {
    SplitRelevant(fromLsn, tables, history, start, end);
    assert diffs == (before + diffs)[|before|..];
    WholeTransaction(fromLsn, tables, history, start, end, diffs, lsn);
  }

  lemma SplitRelevant(fromLsn: nat, tables: set<TableId>, history: seq<RawDiff>, start: nat, end: nat)
    requires start <= end <= |history|
    ensures RelevantOf(fromLsn, tables, history[..end])
         == RelevantOf(fromLsn, tables, history[..start]) + RelevantOf(fromLsn, tables, history[start..end])
  {
    assert history[..end] == history[..start] + history[start..end];
    FilterConcat(history[..start], history[start..end], (d: RawDiff) => Relevant(fromLsn, tables, d));
  }

  /** When the anchor is at or past every dropped LSN, nothing dropped was relevant. */
  lemma DroppedAreIrrelevant(fromLsn: nat, tables: set<TableId>, history: seq<RawDiff>, dropped: nat)
    requires dropped <= |history| && MaxLsn(history[..dropped]) <= fromLsn
    ensures RelevantOf(fromLsn, tables, history[..dropped]) == []
  {
    MaxLsnExceeds(history[..dropped], fromLsn);
    FilterNone(history[..dropped], (d: RawDiff) => Relevant(fromLsn, tables, d));
  }

  /**
    `open_cursor`: refused when the runtime has failed or the query does not resolve, and
    otherwise exactly when some dropped diff lies after the anchor.
   */
  method OpenCursor(runtime: PostgresWalRuntime, query: Query, fromLsn: nat)
    returns (cursor: Option<JournalCursor>)
    requires runtime.Valid()
    ensures cursor.None? <==>
              || runtime.failed.Some? || !runtime.Resolves(query)
              || exists i :: 0 <= i < runtime.baseSeq && runtime.history[i].lsn > fromLsn
    ensures cursor.Some? ==>
              var c := cursor.value;
              && fresh(c) && c.Valid() && c.runtime == runtime && c.fromLsn == fromLsn
              && c.tables == runtime.ScannedTables(query)
              && c.yielded == [] && !c.LostEntries()
              && AtBoundary(fromLsn, c.tables, runtime.history, c.nextSeq)
  {
    MaxLsnExceeds(runtime.history[..runtime.baseSeq], fromLsn);
    assert forall i :: 0 <= i < runtime.baseSeq ==> runtime.history[..runtime.baseSeq][i] == runtime.history[i];
    if runtime.failed.Some? {
      return None;
    }
    var scanned := runtime.QueryTables(query);
    if scanned.None? || runtime.truncatedThrough > fromLsn {
      return None;
    }
    var tables := set table | table in scanned.value;
    DroppedAreIrrelevant(fromLsn, tables, runtime.history, runtime.baseSeq);
    NothingBeforeIsBoundary(fromLsn, tables, runtime.history, runtime.baseSeq);
    var c := new JournalCursor(runtime, fromLsn, tables);
    cursor := Some(c);
  }

  lemma NothingBeforeIsBoundary(fromLsn: nat, tables: set<TableId>, history: seq<RawDiff>, n: nat)
    requires n <= |history| && RelevantOf(fromLsn, tables, history[..n]) == []
    ensures AtBoundary(fromLsn, tables, history, n)
  {
    FilterMembers(history[..n], (d: RawDiff) => Relevant(fromLsn, tables, d));
    forall i | 0 <= i < n
      ensures !Relevant(fromLsn, tables, history[i])
    {
      assert history[..n][i] == history[i];
      assert history[i] in history[..n];
    }
  }

  // ----- cursors across growth of the history -----

  /** A cursor position stays a boundary when later commits are appended. */
  lemma BoundaryPersists(fromLsn: nat, tables: set<TableId>, v: View, w: View, n: nat)
    requires n <= |v.history| && Ordered(v) && Extends(v, w)
    requires AtBoundary(fromLsn, tables, v.history, n)
    ensures AtBoundary(fromLsn, tables, w.history, n) && InLsnOrder(w.history)
  {
    ExtendsOrdered(v, w);
    assert forall i :: 0 <= i < |v.history| ==> w.history[i] == v.history[i];
  }

  lemma {:induction false} NetOfRelevant(fromLsn: nat, tables: set<TableId>, diffs: seq<RawDiff>, table: TableId,
                                         row: Row)
    requires table in tables && forall i :: 0 <= i < |diffs| ==> diffs[i].lsn > fromLsn
    ensures Net(RelevantOf(fromLsn, tables, diffs), table, row) == Net(diffs, table, row)
  {
    if diffs != [] {
      var head, rest := diffs[0], diffs[1..];
      assert head.lsn > fromLsn;
      NetOfRelevant(fromLsn, tables, rest, table, row);
      var kept := RelevantOf(fromLsn, tables, rest);
      if Relevant(fromLsn, tables, head) {
        assert RelevantOf(fromLsn, tables, diffs) == [head] + kept;
      } else {
        assert RelevantOf(fromLsn, tables, diffs) == kept;
      }
    }
  }

  /** Nothing at or before the anchor is relevant. */
  lemma TailOnly(fromLsn: nat, tables: set<TableId>, before: seq<RawDiff>, after: seq<RawDiff>)
    requires forall i :: 0 <= i < |before| ==> before[i].lsn <= fromLsn
    ensures RelevantOf(fromLsn, tables, before + after) == RelevantOf(fromLsn, tables, after)
  {
    var keep := (d: RawDiff) => Relevant(fromLsn, tables, d);
    FilterConcat(before, after, keep);
    FilterNone(before, keep);
  }

  /**
    Snapshot plus live tail: the bag seen by a snapshot, plus everything drained by a cursor
    anchored at the snapshot's clock, is the current mirror, for each of the query's tables.
   */
  lemma {:induction false} SnapshotPlusTail(snapshot: View, now: View, tables: set<TableId>, yielded: seq<RawDiff>,
                                            table: TableId, row: Row)
    requires Ordered(snapshot) && Extends(snapshot, now)
    requires yielded == RelevantOf(snapshot.clock, tables, now.history)
    requires table in tables
    ensures Multiplicity(Rows(now.bags, table), row)
         == Multiplicity(Rows(snapshot.bags, table), row) + Net(yielded, table, row)
  {
    var before, after := snapshot.history, now.history[|snapshot.history|..];
    TailOnly(snapshot.clock, tables, before, after);
    assert now.history == before + after;
    assert forall i :: 0 <= i < |after| ==> after[i] == now.history[|before| + i];
    NetOfRelevant(snapshot.clock, tables, after, table, row);
  }

  // ----- rows and clock read apart -----

  /** The rows and what a cursor anchored at `clock` yields add up to the mirror. */
  ghost predicate TailCompletes(v: View, clock: nat, now: View, tables: set<TableId>) {
    forall table, row :: table in tables ==>
      Multiplicity(Rows(now.bags, table), row)
        == Multiplicity(Rows(v.bags, table), row) + Net(RelevantOf(clock, tables, now.history), table, row)
  }

  /** The diffs that a cursor anchored at `clock` passes over. */
  function PassedOver(clock: nat, diffs: seq<RawDiff>): seq<RawDiff> {
    Filter(diffs, (d: RawDiff) => d.lsn <= clock)
  }

  /** What came after the rows and is passed over amounts to what came before them and is repeated. */
  ghost predicate MissesWhatItRepeats(v: View, clock: nat, now: View, tables: set<TableId>)
    requires v.history <= now.history
  {
    forall table, row :: table in tables ==>
      Net(PassedOver(clock, now.history[|v.history|..]), table, row)
        == Net(RelevantOf(clock, tables, v.history), table, row)
  }

  lemma {:induction false} NetSplits(clock: nat, tables: set<TableId>, diffs: seq<RawDiff>, table: TableId, row: Row)
    requires table in tables
    ensures Net(diffs, table, row)
         == Net(PassedOver(clock, diffs), table, row) + Net(RelevantOf(clock, tables, diffs), table, row)
  {
    if diffs != [] {
      var head, rest := diffs[0], diffs[1..];
      NetSplits(clock, tables, rest, table, row);
      assert PassedOver(clock, diffs) == (if head.lsn <= clock then [head] else []) + PassedOver(clock, rest);
      assert RelevantOf(clock, tables, diffs)
          == (if Relevant(clock, tables, head) then [head] else []) + RelevantOf(clock, tables, rest);
      NetConcat(if head.lsn <= clock then [head] else [], PassedOver(clock, rest), table, row);
      NetConcat(if Relevant(clock, tables, head) then [head] else [], RelevantOf(clock, tables, rest), table, row);
    }
  }

  /**
    For rows copied at any view and a clock read at any other moment, and however the history
    goes on, in LSN order or not: rows and tail add up to the mirror if and only if, on every
    table of the query, the later diffs at or before the clock, which the cursor passes over,
    amount to the earlier ones after the clock, which it repeats.
   */
  lemma {:induction false} TailCompletesIff(v: View, clock: nat, now: View, tables: set<TableId>)
    requires Conserves(v, now)
    ensures TailCompletes(v, clock, now, tables) <==> MissesWhatItRepeats(v, clock, now, tables)
  {
    hide PassedOver, RelevantOf, Net, Rows, Multiplicity;
    var added := now.history[|v.history|..];
    forall table, row | table in tables
      ensures Net(RelevantOf(clock, tables, now.history), table, row)
           == Net(RelevantOf(clock, tables, v.history), table, row)
              + Net(added, table, row) - Net(PassedOver(clock, added), table, row)
    {
      RelevantConcat(clock, tables, v.history, added);
      assert now.history == v.history + added;
      NetConcat(RelevantOf(clock, tables, v.history), RelevantOf(clock, tables, added), table, row);
      NetSplits(clock, tables, added, table, row);
    }
  }

  lemma RelevantConcat(fromLsn: nat, tables: set<TableId>, a: seq<RawDiff>, b: seq<RawDiff>)
    ensures RelevantOf(fromLsn, tables, a + b) == RelevantOf(fromLsn, tables, a) + RelevantOf(fromLsn, tables, b)
  {
    FilterConcat(a, b, (d: RawDiff) => Relevant(fromLsn, tables, d));
  }

  /** A commit that lands at or before the clock of a snapshot that has not seen it is missed by the tail. */
  lemma LateCommitIsMissed(table: TableId, row: Row, clock: nat, lsn: nat)
    requires lsn <= clock
    ensures var v, now := View(map[], [], clock), View(map[table := multiset{row}], [RawDiff(table, row, lsn, 1)], lsn);
            Conserves(v, now) && !TailCompletes(v, v.clock, now, {table})
  {
    var v, now := View(map[], [], clock), View(map[table := multiset{row}], [RawDiff(table, row, lsn, 1)], lsn);
    OneDiff(now.history[0], clock, {table});
    assert now.history[|v.history|..] == now.history;
    forall t, r
      ensures Multiplicity(Rows(now.bags, t), r) == Multiplicity(Rows(v.bags, t), r) + Net(now.history, t, r)
    {
      assert now.history[1..] == [];
    }
    assert Multiplicity(Rows(now.bags, table), row) == 1;
  }

  /** A commit that is in the rows but after the clock read with them is repeated by the tail. */
  lemma StaleClockRepeats(table: TableId, row: Row, clock: nat, lsn: nat)
    requires clock < lsn
    ensures var v := View(map[table := multiset{row}], [RawDiff(table, row, lsn, 1)], lsn);
            Conserves(v, v) && !TailCompletes(v, clock, v, {table})
  {
    var v := View(map[table := multiset{row}], [RawDiff(table, row, lsn, 1)], lsn);
    ConservesReflexive(v);
    OneDiff(v.history[0], clock, {table});
    assert v.history[1..] == [];
    assert Net(v.history, table, row) == 1;
  }

  lemma OneDiff(d: RawDiff, clock: nat, tables: set<TableId>)
    requires d.table in tables
    ensures RelevantOf(clock, tables, [d]) == if d.lsn > clock then [d] else []
  {
    assert [d][1..] == [];
  }

  lemma RelevantOfAll(cursor: JournalCursor)
    requires cursor.Valid() && cursor.nextSeq == |cursor.runtime.history|
    ensures cursor.yielded == RelevantOf(cursor.fromLsn, cursor.tables, cursor.runtime.history)
  {
    assert cursor.runtime.history[..cursor.nextSeq] == cursor.runtime.history;
  }

  /** The rows and the diffs add up to the bags of `now`, for each of the tables. */
  ghost predicate AddsUp(v: View, diffs: seq<RawDiff>, now: View, tables: set<TableId>) {
    forall table, row :: table in tables ==>
      Multiplicity(Rows(now.bags, table), row)
        == Multiplicity(Rows(v.bags, table), row) + Net(diffs, table, row)
  }

  /**
    Of any cursor that has read to the end of the journal, whatever its anchor: what it has
    yielded and rows copied at an earlier view add up to the mirror if and only if it missed
    what it repeats.
   */
  lemma {:induction false} ReadToEndAddsUpIff(cursor: JournalCursor, v: View)
    requires cursor.Valid() && cursor.nextSeq == |cursor.runtime.history|
    requires Conserves(v, cursor.runtime.TheView())
    ensures AddsUp(v, cursor.yielded, cursor.runtime.TheView(), cursor.tables)
       <==> MissesWhatItRepeats(v, cursor.fromLsn, cursor.runtime.TheView(), cursor.tables)
  {
    RelevantOfAll(cursor);
    TailCompletesIff(v, cursor.fromLsn, cursor.runtime.TheView(), cursor.tables);
  }

  // ----- draining -----

  /** A batch read from `before` to `n`: the diffs of one LSN, with another LSN next. */
  ghost predicate IsBatch(
    fromLsn: nat, tables: set<TableId>, history: seq<RawDiff>, before: nat, n: nat, b: LsnBatch)
    requires before <= |history| && n <= |history|
  {
    && b.diffs != [] && AllAt(b.diffs, b.lsn)
    && NextLsn(fromLsn, tables, history, before) == Some(b.lsn)
    && NextLsn(fromLsn, tables, history, n) != Some(b.lsn)
  }

  function Together(batches: seq<LsnBatch>): seq<RawDiff> {
    if batches == [] then [] else batches[0].diffs + Together(batches[1..])
  }

  lemma {:induction false} TogetherAppend(batches: seq<LsnBatch>, b: LsnBatch)
    ensures Together(batches + [b]) == Together(batches) + b.diffs
  {
    if batches == [] {
      assert [b][1..] == [];
    } else {
      TogetherAppend(batches[1..], b);
      assert (batches + [b])[1..] == batches[1..] + [b];
    }
  }

  lemma {:induction false} OneMoreTogether(start: seq<RawDiff>, batches: seq<LsnBatch>, b: LsnBatch)
    ensures start + Together(batches + [b]) == start + Together(batches) + b.diffs
  {
    hide Together;
    TogetherAppend(batches, b);
  }

  /** Batches of one LSN each, in strictly increasing order. */
  ghost predicate Ascending(batches: seq<LsnBatch>) {
    && (forall i :: 0 <= i < |batches| ==> batches[i].diffs != [] && AllAt(batches[i].diffs, batches[i].lsn))
    && (forall i, j :: 0 <= i < j < |batches| ==> batches[i].lsn < batches[j].lsn)
  }

  /** The batches are whole transactions, in strictly increasing LSN order. */
  ghost predicate AreTransactions(fromLsn: nat, tables: set<TableId>, history: seq<RawDiff>, batches: seq<LsnBatch>) {
    && Ascending(batches)
    && forall i :: 0 <= i < |batches| ==>
         batches[i].diffs == TransactionAt(fromLsn, tables, history, batches[i].lsn)
  }

  /** The batches read up to `n`, with another LSN next than that of the last of them. */
  ghost predicate BatchedSoFar(
    fromLsn: nat, tables: set<TableId>, history: seq<RawDiff>, n: nat, batches: seq<LsnBatch>, lastLsn: Option<nat>)
    requires n <= |history|
  {
    && Ascending(batches)
    && (lastLsn.None? <==> batches == [])
    && (lastLsn.Some? ==>
          batches[|batches| - 1].lsn == lastLsn.value && NextLsn(fromLsn, tables, history, n) != lastLsn)
  }

  lemma NothingBatched(fromLsn: nat, tables: set<TableId>, history: seq<RawDiff>, n: nat, start: seq<RawDiff>)
    requires n <= |history|
    ensures BatchedSoFar(fromLsn, tables, history, n, [], None) && start + Together([]) == start
    ensures AreTransactions(fromLsn, tables, history, [])
  {
  }

  lemma OneMoreBatch(
    fromLsn: nat, tables: set<TableId>, history: seq<RawDiff>, before: nat, n: nat,
    batches: seq<LsnBatch>, lastLsn: Option<nat>, b: LsnBatch)
    requires before <= n <= |history| && IsBatch(fromLsn, tables, history, before, n, b)
    requires BatchedSoFar(fromLsn, tables, history, before, batches, lastLsn)
    requires lastLsn.Some? ==> lastLsn.value <= b.lsn
    ensures BatchedSoFar(fromLsn, tables, history, n, batches + [b], Some(b.lsn))
    ensures AreTransactions(fromLsn, tables, history, batches)
            && b.diffs == TransactionAt(fromLsn, tables, history, b.lsn) ==>
              AreTransactions(fromLsn, tables, history, batches + [b])
  {
    hide NextLsn, TransactionAt, AllAt;
  }

  // ----- when draining succeeds -----

  lemma {:induction false} TogetherInOrder(batches: seq<LsnBatch>)
    requires Ascending(batches)
    ensures InLsnOrder(Together(batches))
    ensures forall d :: d in Together(batches) ==> batches != [] && batches[0].lsn <= d.lsn
  {
    if batches != [] {
      var rest := batches[1..];
      assert forall i :: 0 <= i < |rest| ==> rest[i] == batches[i + 1];
      TogetherInOrder(rest);
      var head, tail := batches[0].diffs, Together(rest);
      assert Together(batches) == head + tail;
      forall d | d in tail
        ensures batches[0].lsn <= d.lsn
      {
        assert rest[0] == batches[1];
      }
      forall i, j | 0 <= i <= j < |head + tail|
        ensures (head + tail)[i].lsn <= (head + tail)[j].lsn
      {
        if j >= |head| {
          assert (head + tail)[j] == tail[j - |head|] && tail[j - |head|] in tail;
          assert i >= |head| ==> (head + tail)[i] == tail[i - |head|];
        }
      }
    }
  }

  /** What is left of an ordered history after filtering is in order. */
  lemma {:induction false} RelevantInOrder(fromLsn: nat, tables: set<TableId>, diffs: seq<RawDiff>)
    requires InLsnOrder(diffs)
    ensures InLsnOrder(RelevantOf(fromLsn, tables, diffs))
  {
    if diffs != [] {
      var head, rest := diffs[0], diffs[1..];
      assert forall i :: 0 <= i < |rest| ==> rest[i] == diffs[i + 1];
      RelevantInOrder(fromLsn, tables, rest);
      var kept := RelevantOf(fromLsn, tables, rest);
      FilterMembers(rest, (d: RawDiff) => Relevant(fromLsn, tables, d));
      forall d | d in kept
        ensures head.lsn <= d.lsn
      {
        var i :| 0 <= i < |rest| && rest[i] == d;
      }
      if Relevant(fromLsn, tables, head) {
        var all := [head] + kept;
        assert RelevantOf(fromLsn, tables, diffs) == all;
        forall i, j | 0 <= i <= j < |all|
          ensures all[i].lsn <= all[j].lsn
        {
          assert j > 0 ==> all[j] == kept[j - 1] && kept[j - 1] in kept;
          assert i > 0 ==> all[i] == kept[i - 1];
        }
      }
    }
  }

  /** What has not been read from `n` on. */
  ghost function Unread(fromLsn: nat, tables: set<TableId>, history: seq<RawDiff>, n: nat): seq<RawDiff>
    requires n <= |history|
  {
    RelevantOf(fromLsn, tables, history[n..])
  }

  lemma UnreadSplits(fromLsn: nat, tables: set<TableId>, history: seq<RawDiff>, n: nat, m: nat,
                     start: seq<RawDiff>, diffs: seq<RawDiff>)
    requires n <= m <= |history|
    requires start == RelevantOf(fromLsn, tables, history[..n])
    requires start + diffs == RelevantOf(fromLsn, tables, history[..m])
    ensures Unread(fromLsn, tables, history, n) == diffs + Unread(fromLsn, tables, history, m)
  {
    hide RelevantOf;
    SplitRelevant(fromLsn, tables, history, n, m);
    assert diffs == (start + diffs)[|start|..];
    assert history[n..] == history[n..m] + history[m..];
    RelevantConcat(fromLsn, tables, history[n..m], history[m..]);
  }

  /** A batch before the one read last is an inversion of what was unread. */
  lemma {:induction false} InversionFound(batches: seq<LsnBatch>, b: LsnBatch, rest: seq<RawDiff>)
    requires batches != [] && Ascending(batches) && b.diffs != [] && AllAt(b.diffs, b.lsn)
    requires b.lsn < batches[|batches| - 1].lsn
    ensures !InLsnOrder(Together(batches) + b.diffs + rest)
  {
    var n := |batches| - 1;
    var last := batches[n].diffs;
    assert batches == batches[..n] + [batches[n]];
    TogetherAppend(batches[..n], batches[n]);
    var front := Together(batches[..n]);
    var all := Together(batches) + b.diffs + rest;
    assert all[|front|] == last[0] && all[|front| + |last|] == b.diffs[0];
  }

  lemma OrderedNeverInverts(fromLsn: nat, tables: set<TableId>, history: seq<RawDiff>, n: nat)
    requires n <= |history| && InLsnOrder(history)
    ensures InLsnOrder(Unread(fromLsn, tables, history, n))
  {
    assert forall i :: 0 <= i < |history[n..]| ==> history[n..][i] == history[n + i];
    RelevantInOrder(fromLsn, tables, history[n..]);
  }

  lemma {:induction false} Inverts(
    fromLsn: nat, tables: set<TableId>, history: seq<RawDiff>, first: nat, n: nat, start: seq<RawDiff>,
    batches: seq<LsnBatch>, b: LsnBatch)
    requires first <= n <= |history| && start == RelevantOf(fromLsn, tables, history[..first])
    requires start + Together(batches) + b.diffs == RelevantOf(fromLsn, tables, history[..n])
    requires batches != [] && Ascending(batches) && b.diffs != [] && AllAt(b.diffs, b.lsn)
    requires b.lsn < batches[|batches| - 1].lsn
    ensures !InLsnOrder(Unread(fromLsn, tables, history, first))
  {
    assert start + Together(batches) + b.diffs == start + (Together(batches) + b.diffs);
    UnreadSplits(fromLsn, tables, history, first, n, start, Together(batches) + b.diffs);
    InversionFound(batches, b, Unread(fromLsn, tables, history, n));
  }

  lemma {:induction false} DrainedInOrder(
    fromLsn: nat, tables: set<TableId>, history: seq<RawDiff>, first: nat, start: seq<RawDiff>, batches: seq<LsnBatch>)
    requires first <= |history| && start == RelevantOf(fromLsn, tables, history[..first])
    requires start + Together(batches) == RelevantOf(fromLsn, tables, history) && Ascending(batches)
    ensures InLsnOrder(Unread(fromLsn, tables, history, first))
  {
    assert history[..|history|] == history && history[|history|..] == [];
    UnreadSplits(fromLsn, tables, history, first, |history|, start, Together(batches));
    assert Together(batches) + [] == Together(batches);
    TogetherInOrder(batches);
  }

  /**
    `batch_by_lsn` over a journal cursor, on any journal: it reports an inversion if and only if
    what was unread is not in LSN order, and otherwise yields all of it.  On a journal in LSN
    order, from between commits, the batches are whole transactions.
   */
  method BatchByLsn(cursor: JournalCursor) returns (batches: Option<seq<LsnBatch>>)
    requires cursor.Valid()
    modifies cursor
    ensures cursor.Valid() && cursor.LostEntries() == old(cursor.LostEntries())
    ensures batches.None? <==>
              !old(cursor.LostEntries())
              && !InLsnOrder(Unread(cursor.fromLsn, cursor.tables, cursor.runtime.history, old(cursor.nextSeq)))
    ensures batches.Some? ==>
              && Ascending(batches.value) && cursor.yielded == old(cursor.yielded) + Together(batches.value)
              && (cursor.LostEntries() ==> batches.value == [])
              && (!cursor.LostEntries() ==>
                    cursor.yielded == RelevantOf(cursor.fromLsn, cursor.tables, cursor.runtime.history))
    ensures InLsnOrder(cursor.runtime.history)
            && AtBoundary(cursor.fromLsn, cursor.tables, cursor.runtime.history, old(cursor.nextSeq)) ==>
              && AtBoundary(cursor.fromLsn, cursor.tables, cursor.runtime.history, cursor.nextSeq)
              && batches.Some?
              && AreTransactions(cursor.fromLsn, cursor.tables, cursor.runtime.history, batches.value)
  {
    var result: seq<LsnBatch> := [];
    var lastLsn: Option<nat> := None;
    ghost var from, tables, history, first := cursor.fromLsn, cursor.tables, cursor.runtime.history, cursor.nextSeq;
    ghost var start, lost := cursor.yielded, cursor.LostEntries();
    ghost var whole := InLsnOrder(history) && AtBoundary(from, tables, history, first);
    if whole {
      OrderedNeverInverts(from, tables, history, first);
    }
    NothingBatched(from, tables, history, first, start);
    hide AtBoundary, InLsnOrder, TransactionAt, NextLsn, FirstRelevant, RelevantOf, AreTransactions, Together,
         JournalFits, Unread, Ascending, AllAt;
    while true
      invariant cursor.Valid() && first <= cursor.nextSeq <= |history|
      invariant cursor.LostEntries() == lost && (lost ==> result == [])
      invariant cursor.yielded == start + Together(result)
      invariant BatchedSoFar(from, tables, history, cursor.nextSeq, result, lastLsn)
      invariant whole ==> AtBoundary(from, tables, history, cursor.nextSeq)
                          && AreTransactions(from, tables, history, result)
      decreases |history| - cursor.nextSeq
    {
      ghost var before := cursor.nextSeq;
      var batch := cursor.NextBatch();
      if batch.None? {
        break;
      }
      if lastLsn.Some? && batch.value.lsn < lastLsn.value {
        Inverts(from, tables, history, first, cursor.nextSeq, start, result, batch.value);
        return None;
      }
      OneMoreBatch(from, tables, history, before, cursor.nextSeq, result, lastLsn, batch.value);
      lastLsn := Some(batch.value.lsn);
      OneMoreTogether(start, result, batch.value);
      result := result + [batch.value];
    }
    if !lost {
      DrainedInOrder(from, tables, history, first, start, result);
    }
    batches := Some(result);
  }
}
