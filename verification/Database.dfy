/**
  The database as the replication stream sees it: a log of commits, each a list of operations
  in the order the transaction ran them, and the rows that replaying the log yields.
 */
module Database {
  import opened WalTypes

  datatype DbOp =
    | Put(table: TableId, row: Row)
    | Replace(table: TableId, before: Row, after: Row)
    | Remove(table: TableId, row: Row)
    | Truncate(tables: seq<TableId>)

  datatype Commit = Commit(xid: nat, lsn: nat, ops: seq<DbOp>)

  predicate TouchesRows(op: DbOp, table: TableId) {
    !op.Truncate? && op.table == table
  }

  predicate Truncates(op: DbOp, table: TableId) {
    op.Truncate? && table in op.tables
  }

  /** The table's rows after one operation. */
  function RowsAfterOp(bag: multiset<Row>, op: DbOp, table: TableId): multiset<Row> {
    if Truncates(op, table) then multiset{}
    else if !TouchesRows(op, table) then bag
    else
      match op
      case Put(_, row) => bag + multiset{row}
      case Replace(_, before, after) => bag - multiset{before} + multiset{after}
      case Remove(_, row) => bag - multiset{row}
      case Truncate(_) => bag
  }

  function RowsAfter(bag: multiset<Row>, ops: seq<DbOp>, table: TableId): multiset<Row>
    decreases |ops|
  {
    if ops == [] then bag else RowsAfter(RowsAfterOp(bag, ops[0], table), ops[1..], table)
  }

  /** The rows of `table` after the first `n` commits. */
  function Replay(log: seq<Commit>, n: nat, table: TableId): multiset<Row>
    requires n <= |log|
  {
    if n == 0 then multiset{} else RowsAfter(Replay(log, n - 1, table), log[n - 1].ops, table)
  }

  /** The operation takes away only rows that are there. */
  predicate Applicable(bag: multiset<Row>, op: DbOp, table: TableId) {
    match op
    case Put(_, _) => true
    case Replace(t, before, _) => t == table ==> before in bag
    case Remove(t, row) => t == table ==> row in bag
    case Truncate(_) => true
  }

  predicate AllApplicable(bag: multiset<Row>, ops: seq<DbOp>, table: TableId)
    decreases |ops|
  {
    ops == [] ||
    (Applicable(bag, ops[0], table) && AllApplicable(RowsAfterOp(bag, ops[0], table), ops[1..], table))
  }

  ghost predicate CompleteRows(op: DbOp) {
    match op
    case Put(_, row) => Complete(row)
    case Replace(_, before, after) => Complete(before) && Complete(after)
    case Remove(_, row) => Complete(row)
    case Truncate(_) => true
  }

  /** A log a database can produce: LSNs increase, and only present rows are taken away. */
  ghost predicate ValidLog(log: seq<Commit>) {
    && (forall i :: 0 <= i < |log| ==> 0 < log[i].lsn)
    && (forall i, j :: 0 <= i < j < |log| ==> log[i].lsn < log[j].lsn)
    && (forall i, op :: 0 <= i < |log| && op in log[i].ops ==> CompleteRows(op))
    && (forall i, table :: 0 <= i < |log| ==> AllApplicable(Replay(log, i, table), log[i].ops, table))
  }

  /** Within one commit, no row operation on the table comes before a truncate of it. */
  predicate TruncatesFirst(ops: seq<DbOp>, table: TableId) {
    forall i, j :: 0 <= i < j < |ops| && TouchesRows(ops[i], table) ==> !Truncates(ops[j], table)
  }

  // ----- signed effect of operations -----

  /** The signed effect of one row operation. */
  function OpDelta(op: DbOp, table: TableId, row: Row): int {
    if !TouchesRows(op, table) then 0
    else
      match op
      case Put(_, r) => if r == row then 1 else 0
      case Replace(_, before, after) => (if after == row then 1 else 0) - (if before == row then 1 else 0)
      case Remove(_, r) => if r == row then -1 else 0
      case Truncate(_) => 0
  }

  /** The signed effect of the row operations of a list, truncates left aside. */
  function Delta(ops: seq<DbOp>, table: TableId, row: Row): int {
    if ops == [] then 0 else OpDelta(ops[0], table, row) + Delta(ops[1..], table, row)
  }

  lemma {:induction false} DeltaConcat(a: seq<DbOp>, b: seq<DbOp>, table: TableId, row: Row)
    ensures Delta(a + b, table, row) == Delta(a, table, row) + Delta(b, table, row)
  {
    if a == [] {
      assert a + b == b;
    } else {
      DeltaConcat(a[1..], b, table, row);
      assert (a + b)[1..] == a[1..] + b;
    }
  }

  lemma RowsAfterOneOp(bag: multiset<Row>, op: DbOp, table: TableId, row: Row)
    requires Applicable(bag, op, table) && !Truncates(op, table)
    ensures Multiplicity(RowsAfterOp(bag, op, table), row) == Multiplicity(bag, row) + OpDelta(op, table, row)
  {
  }

  /** Without a truncate, applicable operations change the bag by their signed effect. */
  lemma {:induction false} RowsAfterDelta(bag: multiset<Row>, ops: seq<DbOp>, table: TableId, row: Row)
    requires AllApplicable(bag, ops, table) && forall op :: op in ops ==> !Truncates(op, table)
    ensures Multiplicity(RowsAfter(bag, ops, table), row) == Multiplicity(bag, row) + Delta(ops, table, row)
    decreases |ops|
  {
    if ops != [] {
      assert ops[0] in ops;
      RowsAfterOneOp(bag, ops[0], table, row);
      assert forall op :: op in ops[1..] ==> op in ops;
      RowsAfterDelta(RowsAfterOp(bag, ops[0], table), ops[1..], table, row);
    }
  }

  lemma {:induction false} RowsAfterConcat(bag: multiset<Row>, a: seq<DbOp>, b: seq<DbOp>, table: TableId)
    ensures RowsAfter(bag, a + b, table) == RowsAfter(RowsAfter(bag, a, table), b, table)
    ensures AllApplicable(bag, a + b, table)
       <==> AllApplicable(bag, a, table) && AllApplicable(RowsAfter(bag, a, table), b, table)
    decreases |a|
  {
    if a == [] {
      assert a + b == b;
    } else {
      assert (a + b)[1..] == a[1..] + b;
      RowsAfterConcat(RowsAfterOp(bag, a[0], table), a[1..], b, table);
    }
  }
}
