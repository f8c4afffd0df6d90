/** Rows, row changes and diffs, as they travel from the replication stream to subscribers. */
module WalTypes {
  import opened Wrappers

  type TableId = nat

  /** The streamed tables, and the names of each one's columns as introspected. */
  type Catalog = map<TableId, seq<string>>

  /** A column value; `Unchanged` stands for a large value the stream did not resend. */
  datatype Datum = Null | Unchanged | Value(text: string)

  type Row = seq<Datum>
  type Tuple = seq<Datum>

  datatype RowOp = Insert | Update | Delete

  datatype RowChange = RowChange(table: TableId, op: RowOp, old_: Option<Tuple>, new_: Option<Tuple>)

  /** One signed row of the journal. */
  datatype RawDiff = RawDiff(table: TableId, row: Row, lsn: nat, diff: int)

  /** `tuple_to_row`: placeholders take the old row's value in the same column, or null. */
  function TupleToRow(tuple: Tuple, old_: Option<Row>): (row: Row)
    ensures |row| == |tuple|
  {
    seq(|tuple|, i requires 0 <= i < |tuple| =>
      if tuple[i] == Unchanged then
        if old_.Some? && i < |old_.value| then old_.value[i] else Null
      else tuple[i])
  }

  /** A row as the database holds it. */
  predicate Complete(row: Row) {
    forall i :: 0 <= i < |row| ==> row[i] != Unchanged
  }

  /** `tuple` is an image of `row` that may leave out columns equal to those of `old`. */
  predicate ImageOf(tuple: Tuple, row: Row, old_: Row) {
    && |tuple| == |row|
    && forall i :: 0 <= i < |row| ==>
         tuple[i] == row[i] || (tuple[i] == Unchanged && i < |old_| && row[i] == old_[i])
  }

  /** Resolving an image against the old row recovers the row. */
  lemma ImageResolves(tuple: Tuple, row: Row, old_: Row)
    requires Complete(row) && ImageOf(tuple, row, old_)
    ensures TupleToRow(tuple, Some(old_)) == row
  {
  }

  lemma CompleteResolves(row: Row, old_: Option<Row>)
    requires Complete(row)
    ensures TupleToRow(row, old_) == row
  {
  }

  // ----- bags of rows per table -----

  type Bags = map<TableId, multiset<Row>>

  function Rows(bags: Bags, table: TableId): multiset<Row> {
    if table in bags then bags[table] else multiset{}
  }

  function Multiplicity(bag: multiset<Row>, row: Row): int {
    bag[row]
  }

  /** The signed number of times the diffs add `row` to `table`. */
  function Net(diffs: seq<RawDiff>, table: TableId, row: Row): int {
    if diffs == [] then 0
    else (if diffs[0].table == table && diffs[0].row == row then diffs[0].diff else 0) + Net(diffs[1..], table, row)
  }

  lemma {:induction false} NetConcat(a: seq<RawDiff>, b: seq<RawDiff>, table: TableId, row: Row)
    ensures Net(a + b, table, row) == Net(a, table, row) + Net(b, table, row)
  {
    if a == [] {
      assert a + b == b;
    } else {
      NetConcat(a[1..], b, table, row);
      assert (a + b)[1..] == a[1..] + b;
    }
  }

  lemma {:induction false} NetOther(diffs: seq<RawDiff>, table: TableId, row: Row)
    requires forall d :: d in diffs ==> d.table != table || d.row != row
    ensures Net(diffs, table, row) == 0
  {
    if diffs != [] {
      NetOther(diffs[1..], table, row);
    }
  }

  /** Every diff is at `lsn`. */
  predicate AllAt(diffs: seq<RawDiff>, lsn: nat) {
    forall i :: 0 <= i < |diffs| ==> diffs[i].lsn == lsn
  }

  // ----- one row change -----

  /** The diffs `apply_transaction` emits for one change. */
  function DiffsOf(c: RowChange, lsn: nat): seq<RawDiff> {
    match c.op
    case Insert =>
      if c.new_.Some? then [RawDiff(c.table, TupleToRow(c.new_.value, None), lsn, 1)] else []
    case Update =>
      if c.old_.Some? && c.new_.Some? then
        var oldRow := TupleToRow(c.old_.value, None);
        [RawDiff(c.table, oldRow, lsn, -1), RawDiff(c.table, TupleToRow(c.new_.value, Some(oldRow)), lsn, 1)]
      else []
    case Delete =>
      if c.old_.Some? then [RawDiff(c.table, TupleToRow(c.old_.value, None), lsn, -1)] else []
  }

  /** What one change does to its table's bag; taking away a row that is not there does nothing. */
  function BagAfter(bag: multiset<Row>, c: RowChange): multiset<Row> {
    match c.op
    case Insert =>
      if c.new_.Some? then bag + multiset{TupleToRow(c.new_.value, None)} else bag
    case Update =>
      if c.old_.Some? && c.new_.Some? then
        var oldRow := TupleToRow(c.old_.value, None);
        bag - multiset{oldRow} + multiset{TupleToRow(c.new_.value, Some(oldRow))}
      else bag
    case Delete =>
      if c.old_.Some? then bag - multiset{TupleToRow(c.old_.value, None)} else bag
  }

  function Diffs(changes: seq<RowChange>, lsn: nat): seq<RawDiff> {
    if changes == [] then [] else DiffsOf(changes[0], lsn) + Diffs(changes[1..], lsn)
  }

  /** What a list of changes does to the bag of `table`. */
  function BagAfterAll(bag: multiset<Row>, changes: seq<RowChange>, table: TableId): multiset<Row>
    decreases |changes|
  {
    if changes == [] then bag
    else BagAfterAll(if changes[0].table == table then BagAfter(bag, changes[0]) else bag, changes[1..], table)
  }

  lemma {:induction false} DiffsAppend(changes: seq<RowChange>, c: RowChange, lsn: nat)
    ensures Diffs(changes + [c], lsn) == Diffs(changes, lsn) + DiffsOf(c, lsn)
  {
    if changes == [] {
      assert [c][1..] == [];
    } else {
      DiffsAppend(changes[1..], c, lsn);
      assert (changes + [c])[1..] == changes[1..] + [c];
    }
  }

  lemma {:induction false} BagAfterAllAppend(bag: multiset<Row>, changes: seq<RowChange>, c: RowChange, table: TableId)
    ensures BagAfterAll(bag, changes + [c], table)
         == var before := BagAfterAll(bag, changes, table); if c.table == table then BagAfter(before, c) else before
    decreases |changes|
  {
    if changes == [] {
      assert [c][1..] == [];
    } else {
      BagAfterAllAppend(if changes[0].table == table then BagAfter(bag, changes[0]) else bag, changes[1..], c, table);
      assert (changes + [c])[1..] == changes[1..] + [c];
    }
  }

  lemma {:induction false} DiffsAt(changes: seq<RowChange>, lsn: nat)
    ensures AllAt(Diffs(changes, lsn), lsn)
  {
    if changes != [] {
      DiffsAt(changes[1..], lsn);
    }
  }
}
