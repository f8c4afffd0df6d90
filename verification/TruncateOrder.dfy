/**
  A commit applies its truncates first and its row operations second, whatever order the
  transaction ran them in.  When that leaves the mirror right, and when the emitted diffs
  amount to what the commit changed.
 */
module TruncateOrder {
  import opened Sequences
  import opened WalTypes
  import opened Database
  import opened Runtime

  /** The streamed tables truncated by the operations, in order. */
  function TruncatedTables(tables: set<TableId>, ops: seq<DbOp>): seq<TableId> {
    if ops == [] then []
    else
      var op := ops[|ops| - 1];
      TruncatedTables(tables, ops[..|ops| - 1])
      + if op.Truncate? then Filter(op.tables, (t: TableId) => t in tables) else []
  }

  lemma {:induction false} TruncatedMembers(tables: set<TableId>, ops: seq<DbOp>, table: TableId)
    requires table in tables
    ensures table in TruncatedTables(tables, ops) <==> exists op :: op in ops && Truncates(op, table)
    decreases |ops|
  {
    if ops != [] {
      var op, rest := ops[|ops| - 1], ops[..|ops| - 1];
      TruncatedMembers(tables, rest, table);
      if op.Truncate? {
        FilterMembers(op.tables, (t: TableId) => t in tables);
      }
      assert ops == rest + [op];
      assert op in ops && forall x :: x in ops <==> x == op || x in rest;
      if table in TruncatedTables(tables, rest) {
        var x :| x in rest && Truncates(x, table);
        assert x in ops && Truncates(x, table);
      } else if Truncates(op, table) {
        assert op in ops && Truncates(op, table);
      }
    }
  }

  /** The row operations of a list, truncates left out. */
  function RowOps(ops: seq<DbOp>): seq<DbOp> {
    if ops == [] then []
    else RowOps(ops[..|ops| - 1]) + if ops[|ops| - 1].Truncate? then [] else [ops[|ops| - 1]]
  }

  lemma {:induction false} RowsAfterLast(bag: multiset<Row>, ops: seq<DbOp>, op: DbOp, table: TableId)
    ensures RowsAfter(bag, ops + [op], table) == RowsAfterOp(RowsAfter(bag, ops, table), op, table)
    ensures AllApplicable(bag, ops + [op], table)
       <==> AllApplicable(bag, ops, table) && Applicable(RowsAfter(bag, ops, table), op, table)
    decreases |ops|
  {
    if ops == [] {
      assert [op][1..] == [];
    } else {
      assert (ops + [op])[1..] == ops[1..] + [op];
      RowsAfterLast(RowsAfterOp(bag, ops[0], table), ops[1..], op, table);
    }
  }

  lemma {:induction false} DeltaLast(ops: seq<DbOp>, op: DbOp, table: TableId, row: Row)
    ensures Delta(ops + [op], table, row) == Delta(ops, table, row) + OpDelta(op, table, row)
  {
    DeltaConcat(ops, [op], table, row);
    assert [op][1..] == [];
  }

  lemma {:induction false} RowOpsLast(ops: seq<DbOp>, op: DbOp)
    ensures RowOps(ops + [op]) == RowOps(ops) + if op.Truncate? then [] else [op]
  {
    assert (ops + [op])[..|ops|] == ops;
  }

  // ----- truncates first -----

  /** What the table starts from when truncates are applied before rows. */
  function AfterTruncates(tables: set<TableId>, bag: multiset<Row>, ops: seq<DbOp>, table: TableId): multiset<Row> {
    if table in TruncatedTables(tables, ops) then multiset{} else bag
  }

  /** Operations that leave the table's rows alone. */
  lemma {:induction false} NoRowsYet(bag: multiset<Row>, ops: seq<DbOp>, table: TableId)
    requires forall i :: 0 <= i < |ops| ==> !TouchesRows(ops[i], table)
    ensures RowsAfter(bag, RowOps(ops), table) == bag && AllApplicable(bag, RowOps(ops), table)
    decreases |ops|
  {
    if ops != [] {
      var op, rest := ops[|ops| - 1], ops[..|ops| - 1];
      assert ops == rest + [op] && !TouchesRows(op, table);
      assert forall i :: 0 <= i < |rest| ==> rest[i] == ops[i];
      NoRowsYet(bag, rest, table);
      RowOpsLast(rest, op);
      RowsAfterLast(bag, RowOps(rest), op, table);
      assert op.Truncate? ==> RowOps(ops) == RowOps(rest);
    }
  }

  lemma {:induction false} RowOpsTruncateNothing(ops: seq<DbOp>, table: TableId)
    ensures forall op :: op in RowOps(ops) ==> !Truncates(op, table)
    decreases |ops|
  {
    if ops != [] {
      RowOpsTruncateNothing(ops[..|ops| - 1], table);
    }
  }

  lemma {:induction false} RowOpsDelta(ops: seq<DbOp>, table: TableId, row: Row)
    ensures Delta(RowOps(ops), table, row) == Delta(ops, table, row)
    decreases |ops|
  {
    if ops != [] {
      var op, rest := ops[|ops| - 1], ops[..|ops| - 1];
      assert ops == rest + [op];
      RowOpsDelta(rest, table, row);
      DeltaLast(rest, op, table, row);
      DeltaLast(RowOps(rest), op, table, row);
      assert RowOps(rest) + [] == RowOps(rest);
    }
  }

  // ----- when truncates do not come first -----

  /** The position after the last truncate of the table. */
  function LastTruncate(ops: seq<DbOp>, table: TableId): (n: nat)
    ensures n <= |ops|
    ensures n > 0 ==> Truncates(ops[n - 1], table)
    ensures forall i :: n <= i < |ops| ==> !Truncates(ops[i], table)
    decreases |ops|
  {
    if ops == [] then 0
    else if Truncates(ops[|ops| - 1], table) then |ops|
    else LastTruncate(ops[..|ops| - 1], table)
  }

  /** The signed change that truncating first and then applying all rows emits for a row. */
  function EmittedNet(tables: set<TableId>, bag: multiset<Row>, ops: seq<DbOp>, table: TableId, row: Row): int {
    (if table in TruncatedTables(tables, ops) then -Multiplicity(bag, row) else 0) + Delta(ops, table, row)
  }

  /** What the commit really changes, in terms of the operations after the last truncate. */
  lemma {:induction false} TrueChange(bag: multiset<Row>, ops: seq<DbOp>, table: TableId, row: Row)
    requires AllApplicable(bag, ops, table)
    ensures var n := LastTruncate(ops, table);
            Multiplicity(RowsAfter(bag, ops, table), row)
            == (if n > 0 then 0 else Multiplicity(bag, row)) + Delta(ops[n..], table, row)
  {
    var n := LastTruncate(ops, table);
    assert ops == ops[..n] + ops[n..];
    RowsAfterConcat(bag, ops[..n], ops[n..], table);
    EmptyAfterTruncate(bag, ops, n, table);
    assert forall op :: op in ops[n..] ==> !Truncates(op, table);
    RowsAfterDelta(RowsAfter(bag, ops[..n], table), ops[n..], table, row);
  }

  lemma {:induction false} EmptyAfterTruncate(bag: multiset<Row>, ops: seq<DbOp>, n: nat, table: TableId)
    requires n <= |ops| && (n > 0 ==> Truncates(ops[n - 1], table))
    ensures RowsAfter(bag, ops[..n], table) == if n > 0 then multiset{} else bag
  {
    if n > 0 {
      assert ops[..n] == ops[..n - 1] + [ops[n - 1]];
      RowsAfterLast(bag, ops[..n - 1], ops[n - 1], table);
    }
  }

  /**
    For any commit of the database, the diffs emitted for a streamed table amount to what the
    commit changes if and only if the row operations before the last truncate of the table
    cancel out.
   */
  lemma {:induction false} CommitNetExactIff(tables: set<TableId>, bag: multiset<Row>, ops: seq<DbOp>, table: TableId)
    requires table in tables && AllApplicable(bag, ops, table)
    ensures EmitsTheChange(tables, bag, ops, table) <==> Cancels(ops[..LastTruncate(ops, table)], table)
  {
    var before := ops[..LastTruncate(ops, table)];
    forall row
      ensures EmittedNet(tables, bag, ops, table, row)
           == BagDifference(RowsAfter(bag, ops, table), bag, row) + Delta(before, table, row)
    {
      EmittedNetExcess(tables, bag, ops, table, row);
    }
    if !Cancels(before, table) {
      var row :| Delta(before, table, row) != 0;
      assert EmittedNet(tables, bag, ops, table, row) != BagDifference(RowsAfter(bag, ops, table), bag, row);
    }
  }

  /** The emitted diffs amount to the change of the table. */
  ghost predicate EmitsTheChange(tables: set<TableId>, bag: multiset<Row>, ops: seq<DbOp>, table: TableId) {
    forall row :: EmittedNet(tables, bag, ops, table, row) == BagDifference(RowsAfter(bag, ops, table), bag, row)
  }

  /** The row operations on the table have no net effect. */
  ghost predicate Cancels(ops: seq<DbOp>, table: TableId) {
    forall row :: Delta(ops, table, row) == 0
  }

  lemma {:induction false} EmittedNetExcess(tables: set<TableId>, bag: multiset<Row>, ops: seq<DbOp>, table: TableId,
                                            row: Row)
    requires table in tables && AllApplicable(bag, ops, table)
    ensures EmittedNet(tables, bag, ops, table, row)
         == Multiplicity(RowsAfter(bag, ops, table), row) - Multiplicity(bag, row)
            + Delta(ops[..LastTruncate(ops, table)], table, row)
  {
    var n := LastTruncate(ops, table);
    assert ops == ops[..n] + ops[n..];
    TruncatedMembers(tables, ops, table);
    if n > 0 {
      assert ops[n - 1] in ops;
    } else {
      assert forall op :: op in ops ==> !Truncates(op, table);
    }
    TrueChange(bag, ops, table, row);
    DeltaConcat(ops[..n], ops[n..], table, row);
  }

  // ----- the mirror -----

  /** The rows the mirror has after the commit, when it was right before. */
  function MirroredRows(tables: set<TableId>, bag: multiset<Row>, ops: seq<DbOp>, table: TableId): multiset<Row> {
    RowsAfter(AfterTruncates(tables, bag, ops, table), RowOps(ops), table)
  }

  /** Applied to an empty table, the row operations leave it empty. */
  predicate LeavesNothing(ops: seq<DbOp>, table: TableId) {
    RowsAfter(multiset{}, RowOps(ops), table) == multiset{}
  }

  lemma {:induction false} RowOpsConcat(a: seq<DbOp>, b: seq<DbOp>)
    ensures RowOps(a + b) == RowOps(a) + RowOps(b)
    decreases |b|
  {
    if b == [] {
      assert a + b == a && RowOps(a) + [] == RowOps(a);
    } else {
      hide RowOps;
      RowOpsConcat(a, b[..|b| - 1]);
      OneMoreRowOp(a, b[..|b| - 1], b[|b| - 1]);
      assert b[..|b| - 1] + [b[|b| - 1]] == b;
    }
  }

  lemma {:induction false} OneMoreRowOp(a: seq<DbOp>, b: seq<DbOp>, op: DbOp)
    requires RowOps(a + b) == RowOps(a) + RowOps(b)
    ensures RowOps(a + (b + [op])) == RowOps(a) + RowOps(b + [op])
  {
    hide RowOps;
    assert a + (b + [op]) == a + b + [op];
    RowOpsLast(a + b, op);
    RowOpsLast(b, op);
  }

  /** Without a truncate of the table, its row operations are all that matters to it. */
  lemma {:induction false} RowOpsSuffice(bag: multiset<Row>, ops: seq<DbOp>, table: TableId)
    requires forall i :: 0 <= i < |ops| ==> !Truncates(ops[i], table)
    ensures RowsAfter(bag, RowOps(ops), table) == RowsAfter(bag, ops, table)
    ensures AllApplicable(bag, RowOps(ops), table) <==> AllApplicable(bag, ops, table)
    decreases |ops|
  {
    if ops != [] {
      var op, rest := ops[|ops| - 1], ops[..|ops| - 1];
      assert ops == rest + [op] && !Truncates(op, table);
      RowOpsSuffice(bag, rest, table);
      RowOpsLast(rest, op);
      RowsAfterLast(bag, rest, op, table);
      RowsAfterLast(bag, RowOps(rest), op, table);
      assert op.Truncate? ==> RowOps(ops) == RowOps(rest);
    }
  }

  lemma ExtraRowStays(extra: multiset<Row>, bag: multiset<Row>, op: DbOp, table: TableId)
    requires Applicable(bag, op, table) && !Truncates(op, table)
    ensures RowsAfterOp(extra + bag, op, table) == extra + RowsAfterOp(bag, op, table)
  {
  }

  /** Operations that find the rows they take away leave any further rows where they are. */
  lemma {:induction false} ExtraRowsStay(extra: multiset<Row>, bag: multiset<Row>, ops: seq<DbOp>, table: TableId)
    requires AllApplicable(bag, ops, table) && forall i :: 0 <= i < |ops| ==> !Truncates(ops[i], table)
    ensures RowsAfter(extra + bag, ops, table) == extra + RowsAfter(bag, ops, table)
    decreases |ops|
  {
    if ops != [] {
      ExtraRowStays(extra, bag, ops[0], table);
      ExtraRowsStay(extra, RowsAfterOp(bag, ops[0], table), ops[1..], table);
    }
  }

  /** Where the last truncate splits the operations. */
  lemma {:induction false} SplitAtTruncate(tables: set<TableId>, ops: seq<DbOp>, table: TableId)
    requires table in tables
    ensures var n := LastTruncate(ops, table);
            && (table in TruncatedTables(tables, ops) <==> n > 0)
            && ops == ops[..n] + ops[n..]
            && RowOps(ops) == RowOps(ops[..n]) + RowOps(ops[n..])
            && forall i :: 0 <= i < |ops[n..]| ==> !Truncates(ops[n..][i], table)
  {
    var n := LastTruncate(ops, table);
    TruncatedMembers(tables, ops, table);
    if n > 0 {
      assert ops[n - 1] in ops && Truncates(ops[n - 1], table);
    }
    assert ops == ops[..n] + ops[n..];
    RowOpsConcat(ops[..n], ops[n..]);
  }

  /**
    For any commit of the database, the mirror of a streamed table is right after it if and
    only if the row operations before the last truncate of the table, applied to an empty
    table, leave it empty.
   */
  lemma {:induction false} CommitMirrorRightIff(tables: set<TableId>, bag: multiset<Row>, ops: seq<DbOp>,
                                                table: TableId)
    requires table in tables && AllApplicable(bag, ops, table)
    ensures MirroredRows(tables, bag, ops, table) == RowsAfter(bag, ops, table)
       <==> LeavesNothing(ops[..LastTruncate(ops, table)], table)
  {
    var n := LastTruncate(ops, table);
    var before, after := ops[..n], ops[n..];
    SplitAtTruncate(tables, ops, table);
    RowsAfterConcat(bag, before, after, table);
    EmptyAfterTruncate(bag, ops, n, table);
    var start := AfterTruncates(tables, bag, ops, table);
    RowsAfterConcat(start, RowOps(before), RowOps(after), table);
    var left := RowsAfter(start, RowOps(before), table);
    RowOpsSuffice(left, after, table);
    if n > 0 {
      ExtraRowsStay(left, multiset{}, after, table);
      assert left + multiset{} == left;
      SameIffNothingExtra(left, RowsAfter(multiset{}, after, table));
    }
  }

  lemma SameIffNothingExtra(extra: multiset<Row>, bag: multiset<Row>)
    ensures extra + bag == bag <==> extra == multiset{}
  {
    if extra != multiset{} {
      var row :| row in extra;
      assert (extra + bag)[row] > bag[row];
    }
  }

  // ----- commits that do no harm -----

  /** What the rows before the last truncate do is undone before it, in the bag and in the count. */
  ghost predicate Harmless(ops: seq<DbOp>, table: TableId) {
    var before := ops[..LastTruncate(ops, table)];
    LeavesNothing(before, table) && Cancels(before, table)
  }

  lemma OpFallsShort(bag: multiset<Row>, op: DbOp, table: TableId, row: Row)
    requires !Truncates(op, table)
    ensures Multiplicity(RowsAfterOp(bag, op, table), row) >= Multiplicity(bag, row) + OpDelta(op, table, row)
  {
  }

  lemma OpFitsIff(bag: multiset<Row>, op: DbOp, table: TableId)
    requires !Truncates(op, table)
    ensures Applicable(bag, op, table) <==>
              forall row :: Multiplicity(RowsAfterOp(bag, op, table), row)
                == Multiplicity(bag, row) + OpDelta(op, table, row)
  {
    if Applicable(bag, op, table) {
      forall row
        ensures Multiplicity(RowsAfterOp(bag, op, table), row) == Multiplicity(bag, row) + OpDelta(op, table, row)
      {
        RowsAfterOneOp(bag, op, table, row);
      }
    } else {
      var row := if op.Replace? then op.before else op.row;
      assert Multiplicity(RowsAfterOp(bag, op, table), row) != Multiplicity(bag, row) + OpDelta(op, table, row);
    }
  }

  /** A bag never falls below the signed count, and meets it only if every removal found its row. */
  lemma {:induction false} CountsMeetOnlyIfApplicable(bag: multiset<Row>, ops: seq<DbOp>, table: TableId)
    requires forall i :: 0 <= i < |ops| ==> !Truncates(ops[i], table)
    ensures forall row ::
              Multiplicity(RowsAfter(bag, ops, table), row) >= Multiplicity(bag, row) + Delta(ops, table, row)
    ensures (forall row ::
              Multiplicity(RowsAfter(bag, ops, table), row) == Multiplicity(bag, row) + Delta(ops, table, row))
            ==> AllApplicable(bag, ops, table)
    decreases |ops|
  {
    if ops != [] {
      var next, rest := RowsAfterOp(bag, ops[0], table), ops[1..];
      CountsMeetOnlyIfApplicable(next, rest, table);
      forall row
        ensures Multiplicity(next, row) >= Multiplicity(bag, row) + OpDelta(ops[0], table, row)
      {
        OpFallsShort(bag, ops[0], table, row);
      }
      OpFitsIff(bag, ops[0], table);
    }
  }

  /** In a harmless commit every row that is taken away is there when it is. */
  lemma {:induction false} HarmlessIsApplicable(tables: set<TableId>, bag: multiset<Row>, ops: seq<DbOp>,
                                                table: TableId)
    requires table in tables && AllApplicable(bag, ops, table) && Harmless(ops, table)
    ensures AllApplicable(AfterTruncates(tables, bag, ops, table), RowOps(ops), table)
  {
    var n := LastTruncate(ops, table);
    var before, after := ops[..n], ops[n..];
    var start := AfterTruncates(tables, bag, ops, table);
    SplitAtTruncate(tables, ops, table);
    RowsAfterConcat(bag, before, after, table);
    EmptyAfterTruncate(bag, ops, n, table);
    RowsAfterConcat(start, RowOps(before), RowOps(after), table);
    RowOpsSuffice(RowsAfter(bag, before, table), after, table);
    if n > 0 {
      RowOpsTruncateNothing(before, table);
      forall row
        ensures Delta(RowOps(before), table, row) == 0
      {
        RowOpsDelta(before, table, row);
      }
      CountsMeetOnlyIfApplicable(multiset{}, RowOps(before), table);
    }
  }

  /** When no row operation precedes a truncate of its table, as is usual, no harm is done. */
  lemma TruncatesFirstIsHarmless(ops: seq<DbOp>, table: TableId)
    requires TruncatesFirst(ops, table)
    ensures Harmless(ops, table)
  {
    var n := LastTruncate(ops, table);
    var before := ops[..n];
    forall i | 0 <= i < n
      ensures !TouchesRows(before[i], table)
    {
      assert i < n - 1 ==> !TouchesRows(ops[i], table);
    }
    NoRowsYet(multiset{}, before, table);
    forall row
      ensures Delta(before, table, row) == 0
    {
      NoRowsNoDelta(before, table, row);
    }
  }

  lemma {:induction false} NoRowsNoDelta(ops: seq<DbOp>, table: TableId, row: Row)
    requires forall i :: 0 <= i < |ops| ==> !TouchesRows(ops[i], table)
    ensures Delta(ops, table, row) == 0
  {
    if ops != [] {
      NoRowsNoDelta(ops[1..], table, row);
    }
  }

  // ----- failing inputs -----

  /** A row inserted and truncated away in one commit stays in the mirror, and is emitted as a live insertion. */
  lemma {:induction false} InsertThenTruncateResurrects(table: TableId, row: Row)
    ensures var ops := [Put(table, row), Truncate([table])];
            && RowsAfter(multiset{}, ops, table) == multiset{}
            && MirroredRows({table}, multiset{}, ops, table) == multiset{row}
            && EmittedNet({table}, multiset{}, ops, table, row) == 1
  {
    var put, truncate := Put(table, row), Truncate([table]);
    TwoOps(put, truncate, multiset{}, table, row);
    assert RowOps([put, truncate]) == [put];
    RowsAfterLast(multiset{}, [], put, table);
    assert [] + [put] == [put];
  }

  /** A row deleted before its table is truncated leaves the mirror right, but is retracted twice. */
  lemma {:induction false} DeleteThenTruncateRetractsTwice(table: TableId, row: Row)
    ensures var ops := [Remove(table, row), Truncate([table])];
            && RowsAfter(multiset{row}, ops, table) == multiset{}
            && MirroredRows({table}, multiset{row}, ops, table) == multiset{}
            && EmittedNet({table}, multiset{row}, ops, table, row) == -2
  {
    var remove, truncate := Remove(table, row), Truncate([table]);
    TwoOps(remove, truncate, multiset{row}, table, row);
    assert RowOps([remove, truncate]) == [remove];
    RowsAfterLast(multiset{}, [], remove, table);
    assert [] + [remove] == [remove];
  }

  lemma {:induction false} TwoOps(op: DbOp, truncate: DbOp, bag: multiset<Row>, table: TableId, row: Row)
    requires !op.Truncate? && truncate == Truncate([table])
    ensures RowsAfter(bag, [op, truncate], table) == multiset{}
    ensures Delta([op, truncate], table, row) == OpDelta(op, table, row)
    ensures RowOps([op, truncate]) == [op]
    ensures table in TruncatedTables({table}, [op, truncate])
  {
    var ops := [op, truncate];
    assert ops == [op] + [truncate];
    RowsAfterLast(bag, [op], truncate, table);
    DeltaLast([op], truncate, table, row);
    assert [op][1..] == [] && [op] == [] + [op];
    RowOpsLast([op], truncate);
    RowOpsLast([], op);
    assert truncate in ops && Truncates(truncate, table);
    TruncatedMembers({table}, ops, table);
  }
}
