/**
  From the frames of a commit to its effect on the mirror and the journal: what the assembled
  changes mean for the database's operations, and when applying truncates first and rows
  second is the same as running the operations in order.
 */
module CommitEffects {
  import opened Wrappers
  import opened WalTypes
  import opened Database
  import opened Runtime
  import opened TruncateOrder

  // ----- wire images of operations -----

  /** The change is the stream's image of a row operation, with full old rows. */
  predicate EncodesChange(op: DbOp, c: RowChange) {
    match op
    case Put(table, row) => c.table == table && c.op == Insert && c.new_ == Some(row)
    case Replace(table, before, after) =>
      && c.table == table && c.op == Update && c.old_ == Some(before)
      && c.new_.Some? && ImageOf(c.new_.value, after, before)
    case Remove(table, row) => c.table == table && c.op == Delete && c.old_ == Some(row)
    case Truncate(_) => false
  }

  /** Applying the image does to the bag what the operation does, and emits its signed effect. */
  lemma {:induction false} ChangeIsOp(op: DbOp, c: RowChange, bag: multiset<Row>, lsn: nat, table: TableId, row: Row)
    requires CompleteRows(op) && EncodesChange(op, c)
    ensures c.table == table ==> BagAfter(bag, c) == RowsAfterOp(bag, op, table)
    ensures c.table != table ==> RowsAfterOp(bag, op, table) == bag
    ensures Net(DiffsOf(c, lsn), table, row) == OpDelta(op, table, row)
  {
    match op {
      case Put(_, r) =>
        CompleteResolves(r, None);
        SingleNet(c.table, r, lsn, 1, table, row);
      case Replace(_, before, after) =>
        CompleteResolves(before, None);
        ImageResolves(c.new_.value, after, before);
        ReplacementNet(c.table, before, after, lsn, table, row);
      case Remove(_, r) =>
        CompleteResolves(r, None);
        SingleNet(c.table, r, lsn, -1, table, row);
    }
  }

  lemma {:induction false} SingleNet(t: TableId, r: Row, lsn: nat, diff: int, table: TableId, row: Row)
    ensures Net([RawDiff(t, r, lsn, diff)], table, row) == if t == table && r == row then diff else 0
  {
    assert [RawDiff(t, r, lsn, diff)][1..] == [];
  }

  lemma {:induction false} ReplacementNet(t: TableId, before: Row, after: Row, lsn: nat, table: TableId, row: Row)
    ensures Net([RawDiff(t, before, lsn, -1), RawDiff(t, after, lsn, 1)], table, row)
         == if t == table then (if after == row then 1 else 0) - (if before == row then 1 else 0) else 0
  {
    NetConcat([RawDiff(t, before, lsn, -1)], [RawDiff(t, after, lsn, 1)], table, row);
    SingleNet(t, before, lsn, -1, table, row);
    SingleNet(t, after, lsn, 1, table, row);
    assert [RawDiff(t, before, lsn, -1), RawDiff(t, after, lsn, 1)]
        == [RawDiff(t, before, lsn, -1)] + [RawDiff(t, after, lsn, 1)];
  }

  /** The changes are images, in order, of the row operations on the streamed tables. */
  ghost predicate Represents(tables: set<TableId>, changes: seq<RowChange>, ops: seq<DbOp>)
    decreases |ops|
  {
    if ops == [] then changes == []
    else
      var op, rest := ops[|ops| - 1], ops[..|ops| - 1];
      if !op.Truncate? && op.table in tables then
        && changes != []
        && EncodesChange(op, changes[|changes| - 1])
        && Represents(tables, changes[..|changes| - 1], rest)
      else Represents(tables, changes, rest)
  }

  /** One more change keeps step with one more row operation. */
  lemma {:induction false} OneMoreChange(changes: seq<RowChange>, c: RowChange, ops: seq<DbOp>, op: DbOp,
                                         bag: multiset<Row>,
                      lsn: nat, table: TableId, row: Row)
    requires CompleteRows(op) && EncodesChange(op, c)
    requires BagAfterAll(bag, changes, table) == RowsAfter(bag, RowOps(ops), table)
    requires Net(Diffs(changes, lsn), table, row) == Delta(ops, table, row)
    ensures BagAfterAll(bag, changes + [c], table) == RowsAfter(bag, RowOps(ops + [op]), table)
    ensures Net(Diffs(changes + [c], lsn), table, row) == Delta(ops + [op], table, row)
  {
    ChangeIsOp(op, c, BagAfterAll(bag, changes, table), lsn, table, row);
    BagAfterAllAppend(bag, changes, c, table);
    RowOpsLast(ops, op);
    RowsAfterLast(bag, RowOps(ops), op, table);
    DiffsAppend(changes, c, lsn);
    NetConcat(Diffs(changes, lsn), DiffsOf(c, lsn), table, row);
    DeltaLast(ops, op, table, row);
  }

  lemma {:induction false} OneMoreElsewhere(ops: seq<DbOp>, op: DbOp, bag: multiset<Row>, table: TableId, row: Row)
    requires !TouchesRows(op, table)
    ensures RowsAfter(bag, RowOps(ops + [op]), table) == RowsAfter(bag, RowOps(ops), table)
    ensures Delta(ops + [op], table, row) == Delta(ops, table, row)
  {
    RowOpsLast(ops, op);
    RowsAfterLast(bag, RowOps(ops), op, table);
    DeltaLast(ops, op, table, row);
    assert RowOps(ops) + [] == RowOps(ops);
  }

  /** On a streamed table, the assembled changes do what the row operations do. */
  lemma {:induction false} ChangesAreRowOps(
    tables: set<TableId>, changes: seq<RowChange>, ops: seq<DbOp>, bag: multiset<Row>, lsn: nat, table: TableId,
    row: Row)
    requires Represents(tables, changes, ops) && table in tables && forall op :: op in ops ==> CompleteRows(op)
    ensures BagAfterAll(bag, changes, table) == RowsAfter(bag, RowOps(ops), table)
    ensures Net(Diffs(changes, lsn), table, row) == Delta(ops, table, row)
    decreases |ops|
  {
    if ops != [] {
      var op, rest := ops[|ops| - 1], ops[..|ops| - 1];
      assert ops == rest + [op] && op in ops;
      assert forall x :: x in rest ==> x in ops;
      if !op.Truncate? && op.table in tables {
        var c, init := changes[|changes| - 1], changes[..|changes| - 1];
        assert changes == init + [c];
        ChangesAreRowOps(tables, init, rest, bag, lsn, table, row);
        OneMoreChange(init, c, rest, op, bag, lsn, table, row);
      } else {
        ChangesAreRowOps(tables, changes, rest, bag, lsn, table, row);
        OneMoreElsewhere(rest, op, bag, table, row);
      }
    }
  }

  /** Tables that are not streamed are left alone. */
  lemma {:induction false} ChangesElsewhere(
    tables: set<TableId>, changes: seq<RowChange>, ops: seq<DbOp>, bag: multiset<Row>, lsn: nat, table: TableId,
    row: Row)
    requires Represents(tables, changes, ops) && table !in tables
    ensures BagAfterAll(bag, changes, table) == bag
    ensures Net(Diffs(changes, lsn), table, row) == 0
    decreases |ops|
  {
    if ops != [] {
      var op, rest := ops[|ops| - 1], ops[..|ops| - 1];
      if !op.Truncate? && op.table in tables {
        var c, init := changes[|changes| - 1], changes[..|changes| - 1];
        ChangesElsewhere(tables, init, rest, bag, lsn, table, row);
        assert changes == init + [c];
        BagAfterAllAppend(bag, init, c, table);
        DiffsAppend(init, c, lsn);
        NetConcat(Diffs(init, lsn), DiffsOf(c, lsn), table, row);
        NetOther(DiffsOf(c, lsn), table, row);
      } else {
        ChangesElsewhere(tables, changes, rest, bag, lsn, table, row);
      }
    }
  }

  // ----- the effect on a view -----

  /** What `apply_truncate` does to a view; a commit without truncates does not call it. */
  ghost predicate TruncateEffect(v: View, w: View, lsn: nat, truncated: seq<TableId>) {
    if truncated == [] then w == v
    else
      && Conserves(v, w) && AllAt(w.history[|v.history|..], lsn) && w.clock == lsn
      && forall table :: Rows(w.bags, table) == if table in truncated then multiset{} else Rows(v.bags, table)
  }

  /** What `apply_transaction` does to a view; a commit without changes does not call it. */
  ghost predicate TransactionEffect(v: View, w: View, lsn: nat, changes: seq<RowChange>) {
    if changes == [] then w == v
    else
      && w.history == v.history + Diffs(changes, lsn) && w.clock == lsn
      && forall table :: Rows(w.bags, table) == BagAfterAll(Rows(v.bags, table), changes, table)
  }

  /** The two calls of a commit, one after the other. */
  ghost predicate CommitEffect(v: View, w: View, lsn: nat, truncated: seq<TableId>, changes: seq<RowChange>) {
    exists mid :: TruncateEffect(v, mid, lsn, truncated) && TransactionEffect(mid, w, lsn, changes)
  }

  /** Every row the changes take away is present when they do, so that the diffs account for the change. */
  lemma {:induction false} TransactionConserves(
    tables: set<TableId>, v: View, w: View, lsn: nat, changes: seq<RowChange>, ops: seq<DbOp>)
    requires TransactionEffect(v, w, lsn, changes)
    requires Represents(tables, changes, ops) && forall op :: op in ops ==> CompleteRows(op)
    requires forall table :: table in tables ==> AllApplicable(Rows(v.bags, table), RowOps(ops), table)
    ensures Conserves(v, w) && AllAt(w.history[|v.history|..], lsn)
  {
    if changes == [] {
      ConservesReflexive(v);
      assert w.history[|v.history|..] == [];
    } else {
      assert w.history[|v.history|..] == Diffs(changes, lsn);
      DiffsAt(changes, lsn);
      forall table, row
        ensures Multiplicity(Rows(w.bags, table), row)
             == Multiplicity(Rows(v.bags, table), row) + Net(Diffs(changes, lsn), table, row)
      {
        var bag := Rows(v.bags, table);
        if table in tables {
          ChangesAreRowOps(tables, changes, ops, bag, lsn, table, row);
          RowOpsTruncateNothing(ops, table);
          RowsAfterDelta(bag, RowOps(ops), table, row);
          RowOpsDelta(ops, table, row);
        } else {
          ChangesElsewhere(tables, changes, ops, bag, lsn, table, row);
        }
      }
    }
  }

  lemma TruncateConserves(v: View, w: View, lsn: nat, truncated: seq<TableId>)
    requires TruncateEffect(v, w, lsn, truncated)
    ensures Conserves(v, w) && AllAt(w.history[|v.history|..], lsn)
    ensures forall table :: Rows(w.bags, table) == if table in truncated then multiset{} else Rows(v.bags, table)
  {
    if truncated == [] {
      ConservesReflexive(v);
      assert w.history[|v.history|..] == [];
    }
  }

  /**
    Applying an assembled commit that does no harm to a mirror of the database leaves a mirror
    of the database after the commit, and the emitted diffs account for every change.
   */
  lemma {:induction false} CommitIsMirrored(
    tables: set<TableId>, v: View, w: View, commit: Commit, changes: seq<RowChange>)
    requires CommitEffect(v, w, commit.lsn, TruncatedTables(tables, commit.ops), changes)
    requires Represents(tables, changes, commit.ops) && forall op :: op in commit.ops ==> CompleteRows(op)
    requires forall table :: table in tables ==>
               AllApplicable(Rows(v.bags, table), commit.ops, table) && Harmless(commit.ops, table)
    ensures forall table :: table in tables ==> Rows(w.bags, table) == RowsAfter(Rows(v.bags, table), commit.ops, table)
    ensures Conserves(v, w) && AllAt(w.history[|v.history|..], commit.lsn)
    ensures w.clock == v.clock || w.clock == commit.lsn
    ensures w.history != v.history ==> w.clock == commit.lsn
  {
    var truncated, lsn, ops := TruncatedTables(tables, commit.ops), commit.lsn, commit.ops;
    var mid :| TruncateEffect(v, mid, lsn, truncated) && TransactionEffect(mid, w, lsn, changes);
    TruncateConserves(v, mid, lsn, truncated);
    forall table | table in tables
      ensures AllApplicable(Rows(mid.bags, table), RowOps(ops), table)
      ensures Rows(w.bags, table) == RowsAfter(Rows(v.bags, table), ops, table)
    {
      TableIsMirrored(tables, v, mid, w, lsn, ops, changes, table);
    }
    TransactionConserves(tables, mid, w, lsn, changes, ops);
    CommitConserves(v, mid, w, lsn);
  }

  lemma CommitConserves(v: View, mid: View, w: View, lsn: nat)
    requires Conserves(v, mid) && AllAt(mid.history[|v.history|..], lsn)
    requires Conserves(mid, w) && AllAt(w.history[|mid.history|..], lsn)
    ensures Conserves(v, w) && AllAt(w.history[|v.history|..], lsn)
    ensures w.history != v.history ==> mid.history != v.history || w.history != mid.history
  {
    ConservesTransitive(v, mid, w);
    assert w.history[|v.history|..] == mid.history[|v.history|..] + w.history[|mid.history|..];
  }

  lemma {:induction false} TableIsMirrored(
    tables: set<TableId>, v: View, mid: View, w: View, lsn: nat, ops: seq<DbOp>, changes: seq<RowChange>,
    table: TableId)
    requires Rows(mid.bags, table) == AfterTruncates(tables, Rows(v.bags, table), ops, table)
    requires TransactionEffect(mid, w, lsn, changes)
    requires Represents(tables, changes, ops) && forall op :: op in ops ==> CompleteRows(op)
    requires table in tables && AllApplicable(Rows(v.bags, table), ops, table) && Harmless(ops, table)
    ensures AllApplicable(Rows(mid.bags, table), RowOps(ops), table)
    ensures Rows(w.bags, table) == RowsAfter(Rows(v.bags, table), ops, table)
  {
    HarmlessIsApplicable(tables, Rows(v.bags, table), ops, table);
    CommitMirrorRightIff(tables, Rows(v.bags, table), ops, table);
    TableAfterTransaction(tables, mid, w, lsn, ops, changes, table);
  }

  lemma {:induction false} TableAfterTransaction(
    tables: set<TableId>, mid: View, w: View, lsn: nat, ops: seq<DbOp>, changes: seq<RowChange>, table: TableId)
    requires TransactionEffect(mid, w, lsn, changes) && table in tables
    requires Represents(tables, changes, ops) && forall op :: op in ops ==> CompleteRows(op)
    ensures Rows(w.bags, table) == RowsAfter(Rows(mid.bags, table), RowOps(ops), table)
  {
    ChangesAreRowOps(tables, changes, ops, Rows(mid.bags, table), lsn, table, []);
    if changes == [] {
      assert BagAfterAll(Rows(mid.bags, table), changes, table) == Rows(mid.bags, table);
    }
  }

  /** The mirrored tables are the database's after the commit. */
  ghost predicate MirrorsCommit(tables: set<TableId>, v: View, w: View, ops: seq<DbOp>) {
    forall table :: table in tables ==> Rows(w.bags, table) == RowsAfter(Rows(v.bags, table), ops, table)
  }

  /**
    For any commit of the database whatsoever, applying it leaves the mirror right and emits
    what changed if and only if the commit does no harm to any streamed table.
   */
  lemma {:induction false} CommitExactIff(
    tables: set<TableId>, v: View, w: View, commit: Commit, changes: seq<RowChange>)
    requires CommitEffect(v, w, commit.lsn, TruncatedTables(tables, commit.ops), changes)
    requires Represents(tables, changes, commit.ops) && forall op :: op in commit.ops ==> CompleteRows(op)
    requires forall table :: table in tables ==> AllApplicable(Rows(v.bags, table), commit.ops, table)
    ensures MirrorsCommit(tables, v, w, commit.ops) && Conserves(v, w)
       <==> forall table :: table in tables ==> Harmless(commit.ops, table)
  {
    if forall table :: table in tables ==> Harmless(commit.ops, table) {
      CommitIsMirrored(tables, v, w, commit, changes);
    }
    if MirrorsCommit(tables, v, w, commit.ops) && Conserves(v, w) {
      forall table | table in tables
        ensures Harmless(commit.ops, table)
      {
        RightIsHarmless(tables, v, w, commit, changes, table);
      }
    }
  }

  lemma {:induction false} RightIsHarmless(
    tables: set<TableId>, v: View, w: View, commit: Commit, changes: seq<RowChange>, table: TableId)
    requires CommitEffect(v, w, commit.lsn, TruncatedTables(tables, commit.ops), changes)
    requires Represents(tables, changes, commit.ops) && forall op :: op in commit.ops ==> CompleteRows(op)
    requires table in tables && AllApplicable(Rows(v.bags, table), commit.ops, table)
    requires Rows(w.bags, table) == RowsAfter(Rows(v.bags, table), commit.ops, table) && Conserves(v, w)
    ensures Harmless(commit.ops, table)
  {
    var truncated, ops := TruncatedTables(tables, commit.ops), commit.ops;
    var bag := Rows(v.bags, table);
    assert MirroredRows(tables, bag, ops, table) == Rows(w.bags, table) by {
      var mid :| TruncateEffect(v, mid, commit.lsn, truncated) && TransactionEffect(mid, w, commit.lsn, changes);
      TruncateConserves(v, mid, commit.lsn, truncated);
      TableAfterTransaction(tables, mid, w, commit.lsn, ops, changes, table);
    }
    CommitMirrorRightIff(tables, bag, ops, table);
    forall row
      ensures EmittedNet(tables, bag, ops, table, row) == BagDifference(RowsAfter(bag, ops, table), bag, row)
    {
      EmittedByCommit(tables, v, w, commit, changes, table, row);
    }
    CommitNetExactIff(tables, bag, ops, table);
  }

  /** That is what the two calls of a commit emit. */
  lemma {:induction false} EmittedByCommit(
    tables: set<TableId>, v: View, w: View, commit: Commit, changes: seq<RowChange>, table: TableId, row: Row)
    requires CommitEffect(v, w, commit.lsn, TruncatedTables(tables, commit.ops), changes)
    requires Represents(tables, changes, commit.ops) && forall op :: op in commit.ops ==> CompleteRows(op)
    requires table in tables
    ensures v.history <= w.history
    ensures Net(w.history[|v.history|..], table, row) == EmittedNet(tables, Rows(v.bags, table), commit.ops, table, row)
  {
    var truncated, lsn := TruncatedTables(tables, commit.ops), commit.lsn;
    var mid :| TruncateEffect(v, mid, lsn, truncated) && TransactionEffect(mid, w, lsn, changes);
    TruncateEmits(v, mid, lsn, truncated, table, row);
    TransactionEmits(tables, mid, w, lsn, changes, commit.ops, table, row);
    NetSplits(v.history, mid.history, w.history, table, row);
  }

  lemma {:induction false} NetSplits(u: seq<RawDiff>, v: seq<RawDiff>, w: seq<RawDiff>, table: TableId, row: Row)
    requires u <= v <= w
    ensures Net(w[|u|..], table, row) == Net(v[|u|..], table, row) + Net(w[|v|..], table, row)
  {
    assert w[|u|..] == v[|u|..] + w[|v|..];
    NetConcat(v[|u|..], w[|v|..], table, row);
  }

  lemma {:induction false} TruncateEmits(v: View, w: View, lsn: nat, truncated: seq<TableId>, table: TableId, row: Row)
    requires TruncateEffect(v, w, lsn, truncated)
    ensures v.history <= w.history
    ensures Net(w.history[|v.history|..], table, row)
         == if table in truncated then -Multiplicity(Rows(v.bags, table), row) else 0
  {
    TruncateConserves(v, w, lsn, truncated);
    assert Multiplicity(Rows(w.bags, table), row)
        == Multiplicity(Rows(v.bags, table), row) + Net(w.history[|v.history|..], table, row);
  }

  lemma {:induction false} TransactionEmits(
    tables: set<TableId>, v: View, w: View, lsn: nat, changes: seq<RowChange>, ops: seq<DbOp>, table: TableId, row: Row)
    requires TransactionEffect(v, w, lsn, changes)
    requires Represents(tables, changes, ops) && table in tables && forall op :: op in ops ==> CompleteRows(op)
    ensures v.history <= w.history
    ensures Net(w.history[|v.history|..], table, row) == Delta(ops, table, row)
  {
    ChangesAreRowOps(tables, changes, ops, multiset{}, lsn, table, row);
    assert w.history[|v.history|..] == Diffs(changes, lsn);
  }
}
