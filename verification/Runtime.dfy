/**
  The Postgres runtime: an in-memory mirror of the streamed tables and a bounded journal of
  row diffs.  `history` is the journal as it would be without a bound.
 */
module Runtime {
  import opened Wrappers
  import opened Sequences
  import opened WalTypes
  import opened QuerySnapshots

  // ----- the journal -----

  function MaxLsn(diffs: seq<RawDiff>): nat {
    if diffs == [] then 0
    else
      var m, last := MaxLsn(diffs[..|diffs| - 1]), diffs[|diffs| - 1].lsn;
      if m < last then last else m
  }

  /** The maximum exceeds a bound exactly when some diff does. */
  lemma {:induction false} MaxLsnExceeds(diffs: seq<RawDiff>, bound: nat)
    ensures MaxLsn(diffs) > bound <==> exists i :: 0 <= i < |diffs| && diffs[i].lsn > bound
  {
    if diffs != [] {
      var init, last := diffs[..|diffs| - 1], |diffs| - 1;
      MaxLsnExceeds(init, bound);
      if i :| 0 <= i < |init| && init[i].lsn > bound {
        assert diffs[i].lsn > bound;
      }
      if i :| 0 <= i < |diffs| && diffs[i].lsn > bound {
        assert i == last || init[i].lsn > bound;
      }
    }
  }

  /** The bounded journal holds the end of the history and remembers the highest LSN it dropped. */
  ghost predicate JournalFits(
    history: seq<RawDiff>, entries: seq<RawDiff>, baseSeq: nat, truncatedThrough: nat, capacity: nat)
  {
    && baseSeq <= |history| && entries == history[baseSeq..]
    && |entries| <= capacity && 1 <= capacity
    && truncatedThrough == MaxLsn(history[..baseSeq])
  }

  /** A journal that is full may drop its first entry. */
  lemma {:induction false} DropsFirst(
    history: seq<RawDiff>, entries: seq<RawDiff>, baseSeq: nat, truncatedThrough: nat, capacity: nat)
    requires JournalFits(history, entries, baseSeq, truncatedThrough, capacity) && entries != []
    ensures var dropped := entries[0].lsn;
            JournalFits(history, entries[1..], baseSeq + 1,
                        if truncatedThrough < dropped then dropped else truncatedThrough, capacity)
  {
    var longer := history[..baseSeq + 1];
    assert longer[..baseSeq] == history[..baseSeq] && longer[baseSeq] == entries[0];
    assert entries[1..] == history[baseSeq + 1..];
  }

  lemma {:induction false} TakesOne(
    history: seq<RawDiff>, entries: seq<RawDiff>, baseSeq: nat, truncatedThrough: nat, capacity: nat, diff: RawDiff)
    requires JournalFits(history, entries, baseSeq, truncatedThrough, capacity) && |entries| < capacity
    ensures JournalFits(history + [diff], entries + [diff], baseSeq, truncatedThrough, capacity)
  {
    assert (history + [diff])[..baseSeq] == history[..baseSeq];
    assert (history + [diff])[baseSeq..] == history[baseSeq..] + [diff];
  }

  // ----- views and their growth -----

  type Mirror = map<TableId, seq<Row>>

  function BagsOf(mirror: Mirror): Bags {
    map table | table in mirror :: multiset(mirror[table])
  }

  /** What subscribers can observe of a runtime. */
  datatype View = View(bags: Bags, history: seq<RawDiff>, clock: nat)

  ghost predicate InLsnOrder(history: seq<RawDiff>) {
    forall i, j :: 0 <= i <= j < |history| ==> history[i].lsn <= history[j].lsn
  }

  /** History is in LSN order and never ahead of the clock. */
  ghost predicate Ordered(v: View) {
    && InLsnOrder(v.history)
    && (forall i :: 0 <= i < |v.history| ==> v.history[i].lsn <= v.clock)
  }

  /** The change of every bag is the net of the diffs emitted since. */
  ghost predicate Conserves(v: View, w: View) {
    v.history <= w.history &&
    forall table, row :: Multiplicity(Rows(w.bags, table), row)
      == Multiplicity(Rows(v.bags, table), row) + Net(w.history[|v.history|..], table, row)
  }

  /** `w` is a later view: its new diffs are all after `v`'s clock, and account for all that changed. */
  ghost predicate Extends(v: View, w: View) {
    && Conserves(v, w)
    && v.clock <= w.clock
    && InLsnOrder(w.history[|v.history|..])
    && forall i :: |v.history| <= i < |w.history| ==> v.clock < w.history[i].lsn <= w.clock
  }

  lemma ConservesTransitive(u: View, v: View, w: View)
    requires Conserves(u, v) && Conserves(v, w)
    ensures Conserves(u, w)
  {
    assert w.history[|u.history|..] == v.history[|u.history|..] + w.history[|v.history|..];
    forall table, row
      ensures Multiplicity(Rows(w.bags, table), row)
           == Multiplicity(Rows(u.bags, table), row) + Net(w.history[|u.history|..], table, row)
    {
      NetConcat(v.history[|u.history|..], w.history[|v.history|..], table, row);
    }
  }

  lemma ExtendsReflexive(v: View)
    ensures Extends(v, v)
  {
    assert v.history[|v.history|..] == [];
  }

  lemma ExtendsOrdered(v: View, w: View)
    requires Ordered(v) && Extends(v, w)
    ensures Ordered(w)
  {
    var n := |v.history|;
    forall i, j | 0 <= i <= j < |w.history|
      ensures w.history[i].lsn <= w.history[j].lsn
    {
      if j < n {
        assert w.history[i] == v.history[i] && w.history[j] == v.history[j];
      } else if i < n {
        assert w.history[i] == v.history[i];
      } else {
        assert w.history[i] == w.history[n..][i - n] && w.history[j] == w.history[n..][j - n];
      }
    }
    forall i | 0 <= i < |w.history|
      ensures w.history[i].lsn <= w.clock
    {
      if i < n {
        assert w.history[i] == v.history[i];
      }
    }
  }

  lemma ExtendsTransitive(u: View, v: View, w: View)
    requires Extends(u, v) && Extends(v, w)
    ensures Extends(u, w)
  {
    ConservesTransitive(u, v, w);
    var emitted, added := v.history[|u.history|..], w.history[|v.history|..];
    assert w.history[|u.history|..] == emitted + added;
    assert forall i :: 0 <= i < |emitted| ==> emitted[i] == v.history[|u.history| + i];
    assert forall i :: 0 <= i < |added| ==> added[i] == w.history[|v.history| + i];
    forall i | |u.history| <= i < |w.history|
      ensures u.clock < w.history[i].lsn <= w.clock
    {
      if i < |v.history| {
        assert w.history[i] == v.history[i];
      }
    }
  }

  // ----- sequences of rows as bags -----

  /** `Vec::swap_remove`. */
  function SwapRemove(rows: seq<Row>, i: nat): seq<Row>
    requires i < |rows|
  {
    rows[i := rows[|rows| - 1]][..|rows| - 1]
  }

  lemma SwapRemoveBag(rows: seq<Row>, i: nat)
    requires i < |rows|
    ensures multiset(SwapRemove(rows, i)) == multiset(rows) - multiset{rows[i]}
  {
    var last := rows[|rows| - 1];
    var moved := rows[i := last];
    assert moved == SwapRemove(rows, i) + [last];
    assert multiset(moved) == multiset(rows) - multiset{rows[i]} + multiset{last};
    assert multiset(moved) == multiset(SwapRemove(rows, i)) + multiset{last};
    assert multiset(SwapRemove(rows, i)) == multiset(moved) - multiset{last};
  }

  lemma ReplaceBag(rows: seq<Row>, i: nat, row: Row)
    requires i < |rows|
    ensures multiset(rows[i := row]) == multiset(rows) - multiset{rows[i]} + multiset{row}
  {
  }

  /** The position of a row, if it is there. */
  method FindRow(rows: seq<Row>, row: Row) returns (position: Option<nat>)
    ensures position.None? <==> row !in multiset(rows)
    ensures position.Some? ==> position.value < |rows| && rows[position.value] == row
  {
    for i := 0 to |rows|
      invariant forall j :: 0 <= j < i ==> rows[j] != row
    {
      if rows[i] == row {
        return Some(i);
      }
    }
    position := None;
  }

  /** The rows of a table after one change. */
  method ChangeRows(rows: seq<Row>, change: RowChange) returns (changed: seq<Row>)
    ensures multiset(changed) == BagAfter(multiset(rows), change)
  {
    changed := rows;
    match change.op {
      case Insert =>
        if change.new_.Some? {
          changed := rows + [TupleToRow(change.new_.value, None)];
        }
      case Update =>
        if change.old_.Some? && change.new_.Some? {
          var oldRow := TupleToRow(change.old_.value, None);
          var newRow := TupleToRow(change.new_.value, Some(oldRow));
          var position := FindRow(rows, oldRow);
          if position.Some? {
            ReplaceBag(rows, position.value, newRow);
            changed := rows[position.value := newRow];
          } else {
            changed := rows + [newRow];
          }
        }
      case Delete =>
        if change.old_.Some? {
          var position := FindRow(rows, TupleToRow(change.old_.value, None));
          if position.Some? {
            SwapRemoveBag(rows, position.value);
            changed := SwapRemove(rows, position.value);
          }
        }
    }
  }

  lemma RowsUpdated(mirror: Mirror, table: TableId, rows: seq<Row>)
    ensures forall t :: Rows(BagsOf(mirror[table := rows]), t)
              == if t == table then multiset(rows) else Rows(BagsOf(mirror), t)
  {
    var updated := mirror[table := rows];
    forall t
      ensures Rows(BagsOf(updated), t) == if t == table then multiset(rows) else Rows(BagsOf(mirror), t)
    {
      assert t in BagsOf(updated) <==> t in updated;
      assert t in BagsOf(mirror) <==> t in mirror;
    }
  }

  // ----- bag difference -----

  /** How many more copies of the row the new bag holds. */
  function BagDifference(newBag: multiset<Row>, oldBag: multiset<Row>, row: Row): int {
    Multiplicity(newBag, row) - Multiplicity(oldBag, row)
  }

  function CountOf(counts: map<Row, int>, row: Row): int {
    if row in counts then counts[row] else 0
  }

  /** The signed difference of two lists of rows, per row. */
  method CountRows(newRows: seq<Row>, oldRows: seq<Row>) returns (counts: map<Row, int>)
    ensures forall row :: CountOf(counts, row) == BagDifference(multiset(newRows), multiset(oldRows), row)
  {
    counts := map[];
    for i := 0 to |newRows|
      invariant forall row :: CountOf(counts, row) == multiset(newRows[..i])[row]
    {
      assert newRows[..i + 1] == newRows[..i] + [newRows[i]];
      counts := counts[newRows[i] := CountOf(counts, newRows[i]) + 1];
    }
    assert newRows[..|newRows|] == newRows;
    for i := 0 to |oldRows|
      invariant forall row :: CountOf(counts, row) == BagDifference(multiset(newRows), multiset(oldRows[..i]), row)
    {
      assert oldRows[..i + 1] == oldRows[..i] + [oldRows[i]];
      counts := counts[oldRows[i] := CountOf(counts, oldRows[i]) - 1];
    }
    assert oldRows[..|oldRows|] == oldRows;
  }

  function Abs(x: int): nat {
    if x < 0 then -x else x
  }

  /** How many diffs mention the row of the table. */
  function Mentions(diffs: seq<RawDiff>, table: TableId, row: Row): nat {
    if diffs == [] then 0
    else (if diffs[0].table == table && diffs[0].row == row then 1 else 0) + Mentions(diffs[1..], table, row)
  }

  lemma {:induction false} MentionsConcat(a: seq<RawDiff>, b: seq<RawDiff>, table: TableId, row: Row)
    ensures Mentions(a + b, table, row) == Mentions(a, table, row) + Mentions(b, table, row)
  {
    if a == [] {
      assert a + b == b;
    } else {
      MentionsConcat(a[1..], b, table, row);
      assert (a + b)[1..] == a[1..] + b;
    }
  }

  /** One retraction for each row. */
  function Retractions(table: TableId, rows: seq<Row>, lsn: nat): seq<RawDiff> {
    seq(|rows|, i requires 0 <= i < |rows| => RawDiff(table, rows[i], lsn, -1))
  }

  lemma {:induction false} RetractionsNet(table: TableId, rows: seq<Row>, lsn: nat, t: TableId, row: Row)
    ensures Net(Retractions(table, rows, lsn), t, row) == if t == table then -Multiplicity(multiset(rows), row) else 0
    decreases |rows|
  {
    if rows != [] {
      assert Retractions(table, rows, lsn)[1..] == Retractions(table, rows[1..], lsn);
      assert rows == [rows[0]] + rows[1..];
      RetractionsNet(table, rows[1..], lsn, t, row);
    }
  }

  /** `n` copies of one diff. */
  function Copies(d: RawDiff, n: nat): seq<RawDiff> {
    seq(n, i requires 0 <= i < n => d)
  }

  lemma {:induction false} CopiesNet(d: RawDiff, n: nat, table: TableId, row: Row)
    ensures Net(Copies(d, n), table, row) == if d.table == table && d.row == row then n * d.diff else 0
    ensures Mentions(Copies(d, n), table, row) == if d.table == table && d.row == row then n else 0
    decreases n
  {
    if n > 0 {
      CopiesNet(d, n - 1, table, row);
      assert Copies(d, n)[1..] == Copies(d, n - 1);
      assert n * d.diff == d.diff + (n - 1) * d.diff;
    }
  }

  /** As many diffs for each row as its count says, in any order of the rows. */
  method DifferenceDiffs(table: TableId, lsn: nat, counts: map<Row, int>) returns (diffs: seq<RawDiff>)
    ensures AllAt(diffs, lsn)
    ensures forall t, row :: Net(diffs, t, row) == if t == table then CountOf(counts, row) else 0
    ensures forall t, row :: Mentions(diffs, t, row) == if t == table then Abs(CountOf(counts, row)) else 0
  {
    diffs := [];
    var rest := counts.Keys;
    while rest != {}
      invariant rest <= counts.Keys && AllAt(diffs, lsn)
      invariant forall t, row :: Net(diffs, t, row) == if t == table && row !in rest then CountOf(counts, row) else 0
      invariant forall t, row :: Mentions(diffs, t, row)
                  == if t == table && row !in rest then Abs(CountOf(counts, row)) else 0
      decreases rest
    {
      var row :| row in rest;
      var count := counts[row];
      var d := RawDiff(table, row, lsn, if count > 0 then 1 else -1);
      var added := Copies(d, Abs(count));
      forall t, r
        ensures Net(diffs + added, t, r) == Net(diffs, t, r) + if t == table && r == row then count else 0
        ensures Mentions(diffs + added, t, r)
             == Mentions(diffs, t, r) + if t == table && r == row then Abs(count) else 0
      {
        NetConcat(diffs, added, t, r);
        MentionsConcat(diffs, added, t, r);
        CopiesNet(d, Abs(count), t, r);
      }
      diffs := diffs + added;
      rest := rest - {row};
    }
  }

  /** One table has been reconciled to `bag`, by exactly the bag difference. */
  ghost predicate ReconciledOne(v: View, w: View, table: TableId, bag: multiset<Row>, lsn: nat) {
    && Conserves(v, w)
    && AllAt(w.history[|v.history|..], lsn)
    && (forall t :: Rows(w.bags, t) == if t == table then bag else Rows(v.bags, t))
    && (forall t, row :: Mentions(w.history[|v.history|..], t, row)
          == if t == table then Abs(BagDifference(bag, Rows(v.bags, table), row)) else 0)
  }

  /** The tables of `done` have been reconciled to the given bags, and no other. */
  ghost predicate Reconciled(v: View, w: View, bags: Bags, done: set<TableId>, lsn: nat) {
    && Conserves(v, w)
    && AllAt(w.history[|v.history|..], lsn)
    && (forall t :: Rows(w.bags, t) == if t in done then Rows(bags, t) else Rows(v.bags, t))
    && Sparing(w.history[|v.history|..], v.bags, bags, done)
  }

  /** Of each row no more diffs than its count in the bags differs by, and those of `done` only. */
  ghost predicate Sparing(diffs: seq<RawDiff>, before: Bags, bags: Bags, done: set<TableId>) {
    forall t, row :: Mentions(diffs, t, row)
      == if t in done then Abs(BagDifference(Rows(bags, t), Rows(before, t), row)) else 0
  }

  lemma {:induction false} SparingOneMore(emitted: seq<RawDiff>, added: seq<RawDiff>, before: Bags, bags: Bags,
                                          done: set<TableId>,
                       table: TableId)
    requires Sparing(emitted, before, bags, done) && table !in done
    requires forall t, row :: Mentions(added, t, row)
               == if t == table then Abs(BagDifference(Rows(bags, table), Rows(before, table), row)) else 0
    ensures Sparing(emitted + added, before, bags, done + {table})
  {
    hide BagDifference, Rows;
    forall t, row
      ensures Mentions(emitted + added, t, row)
           == if t in done + {table} then Abs(BagDifference(Rows(bags, t), Rows(before, t), row)) else 0
    {
      MentionsConcat(emitted, added, t, row);
    }
  }

  lemma ReconciledNone(v: View, bags: Bags, lsn: nat)
    ensures Reconciled(v, v, bags, {}, lsn)
  {
    assert v.history[|v.history|..] == [];
  }

  lemma ReconciledTable(u: View, v: View, w: View, bags: Bags, done: set<TableId>, table: TableId, lsn: nat)
    requires Reconciled(u, v, bags, done, lsn) && table !in done
    requires ReconciledOne(v, w, table, Rows(bags, table), lsn)
    ensures Reconciled(u, w, bags, done + {table}, lsn)
  {
    var emitted, added := v.history[|u.history|..], w.history[|v.history|..];
    assert w.history[|u.history|..] == emitted + added;
    hide Sparing, Net, Mentions;
    ConservesTransitive(u, v, w);
    SparingOneMore(emitted, added, u.bags, bags, done, table);
  }

  lemma ReconciledClock(v: View, w: View, bags: Bags, done: set<TableId>, lsn: nat)
    requires Reconciled(v, w, bags, done, lsn)
    ensures Reconciled(v, w.(clock := lsn), bags, done, lsn)
  {
  }

  /** Each table's bag after `changes`. */
  ghost predicate BagsFollow(before: Bags, after: Bags, changes: seq<RowChange>) {
    forall table :: Rows(after, table) == BagAfterAll(Rows(before, table), changes, table)
  }

  ghost predicate BagsFollowOne(before: Bags, after: Bags, change: RowChange) {
    forall table :: Rows(after, table) ==
      if change.table == table then BagAfter(Rows(before, table), change) else Rows(before, table)
  }

  lemma BagsFollowAppend(first: Bags, before: Bags, after: Bags, changes: seq<RowChange>, change: RowChange)
    requires BagsFollow(first, before, changes) && BagsFollowOne(before, after, change)
    ensures BagsFollow(first, after, changes + [change])
  {
    forall table
      ensures Rows(after, table) == BagAfterAll(Rows(first, table), changes + [change], table)
    {
      BagAfterAllAppend(Rows(first, table), changes, change, table);
    }
  }

  lemma {:induction false} OneMoreChange(
    first: Bags, before: Bags, after: Bags, start: seq<RawDiff>, changes: seq<RowChange>, i: nat, lsn: nat)
    requires i < |changes| && BagsFollow(first, before, changes[..i]) && BagsFollowOne(before, after, changes[i])
    ensures BagsFollow(first, after, changes[..i + 1])
    ensures start + Diffs(changes[..i], lsn) + DiffsOf(changes[i], lsn) == start + Diffs(changes[..i + 1], lsn)
  {
    assert changes[..i + 1] == changes[..i] + [changes[i]];
    BagsFollowAppend(first, before, after, changes[..i], changes[i]);
    DiffsAppend(changes[..i], changes[i], lsn);
  }

  // ----- names of tables -----

  /** A table as found in the database's catalog. */
  datatype Introspected = Introspected(id: TableId, namespace: string, name: string, columns: seq<string>)

  function QualifiedName(t: Introspected): string {
    t.namespace + "." + t.name
  }

  /** The columns of each table by its id. */
  function ColumnsOf(tables: seq<Introspected>): Catalog {
    if tables == [] then map[]
    else
      var last := tables[|tables| - 1];
      ColumnsOf(tables[..|tables| - 1])[last.id := last.columns]
  }

  /** Of the tables with one id, the last is kept, and every name stands for one of the tables. */
  ghost predicate KeepsTables(tables: seq<Introspected>, columns: Catalog, byName: map<string, TableId>) {
    && columns.Keys == (set t | t in tables :: t.id) && byName.Values <= columns.Keys
    && forall i :: 0 <= i < |tables| && (forall j :: i < j < |tables| ==> tables[j].id != tables[i].id) ==>
         columns[tables[i].id] == tables[i].columns
  }

  /** No later table has the same qualified name. */
  ghost predicate LastSoCalled(tables: seq<Introspected>, i: nat)
    requires i < |tables|
  {
    forall j :: i < j < |tables| ==> QualifiedName(tables[j]) != QualifiedName(tables[i])
  }

  /** No earlier table has the same bare name, and none has it as its qualified name. */
  ghost predicate FirstSoCalled(tables: seq<Introspected>, i: nat)
    requires i < |tables|
  {
    && (forall j :: 0 <= j < i ==> tables[j].name != tables[i].name)
    && (forall j :: 0 <= j < |tables| ==> QualifiedName(tables[j]) != tables[i].name)
  }

  function Lookup(byName: map<string, TableId>, name: string): Option<TableId> {
    if name in byName then Some(byName[name]) else None
  }

  predicate IsCalled(t: Introspected, name: string) {
    QualifiedName(t) == name || t.name == name
  }

  ghost predicate NoOtherNames(tables: seq<Introspected>, byName: map<string, TableId>) {
    forall name :: name in byName ==> exists i :: 0 <= i < |tables| && IsCalled(tables[i], name)
  }

  ghost predicate QualifiedNames(tables: seq<Introspected>, byName: map<string, TableId>) {
    forall i :: 0 <= i < |tables| && LastSoCalled(tables, i) ==>
      Lookup(byName, QualifiedName(tables[i])) == Some(tables[i].id)
  }

  ghost predicate BareNames(tables: seq<Introspected>, byName: map<string, TableId>) {
    forall i :: 0 <= i < |tables| && FirstSoCalled(tables, i) ==> Lookup(byName, tables[i].name) == Some(tables[i].id)
  }

  /** A qualified name stands for the last table with it, a bare name for the first, and there are no other names. */
  ghost predicate ResolvesNames(tables: seq<Introspected>, byName: map<string, TableId>) {
    NoOtherNames(tables, byName) && QualifiedNames(tables, byName) && BareNames(tables, byName)
  }

  /** The names after one more table. */
  function WithNames(byName: map<string, TableId>, t: Introspected): map<string, TableId> {
    var qualified := byName[QualifiedName(t) := t.id];
    if t.name in qualified then qualified else qualified[t.name := t.id]
  }

  lemma OneMoreTable(tables: seq<Introspected>, columns: Catalog, byName: map<string, TableId>, t: Introspected)
    requires KeepsTables(tables, columns, byName)
    ensures KeepsTables(tables + [t], columns[t.id := t.columns], WithNames(byName, t))
  {
    var all, columns', byName' := tables + [t], columns[t.id := t.columns], WithNames(byName, t);
    assert all[|tables|] == t;
    assert forall i :: 0 <= i < |tables| ==> all[i] == tables[i];
    forall name | name in byName'
      ensures byName'[name] in columns'
    {
      assert name in byName ==> byName[name] in byName.Values;
    }
    forall i | 0 <= i < |all| && (forall j :: i < j < |all| ==> all[j].id != all[i].id)
      ensures columns'[all[i].id] == all[i].columns
    {
      if i < |tables| {
        assert all[|tables|].id != all[i].id;
      }
    }
  }

  lemma {:induction false} OneMoreNamed(tables: seq<Introspected>, byName: map<string, TableId>, t: Introspected)
    requires ResolvesNames(tables, byName)
    ensures ResolvesNames(tables + [t], WithNames(byName, t))
  {
    hide QualifiedName;
    var n, all, byName' := |tables|, tables + [t], WithNames(byName, t);
    assert all[n] == t && forall i :: 0 <= i < n ==> all[i] == tables[i];
    forall name | name in byName'
      ensures exists i :: 0 <= i < |all| && IsCalled(all[i], name)
    {
      if name in byName {
        var i :| 0 <= i < n && IsCalled(tables[i], name);
        assert IsCalled(all[i], name);
      } else {
        assert IsCalled(all[n], name);
      }
    }
    assert NoOtherNames(all, byName');
    hide NoOtherNames;
    forall i | 0 <= i < |all| && LastSoCalled(all, i)
      ensures Lookup(byName', QualifiedName(all[i])) == Some(all[i].id)
    {
      if i < n {
        assert QualifiedName(all[n]) != QualifiedName(all[i]);
        assert LastSoCalled(tables, i);
      }
    }
    forall i | 0 <= i < |all| && FirstSoCalled(all, i)
      ensures Lookup(byName', all[i].name) == Some(all[i].id)
    {
      BareName(tables, byName, t, i);
    }
  }

  lemma {:induction false} BareName(tables: seq<Introspected>, byName: map<string, TableId>, t: Introspected, i: nat)
    requires NoOtherNames(tables, byName) && BareNames(tables, byName)
    requires i <= |tables| && FirstSoCalled(tables + [t], i)
    ensures Lookup(WithNames(byName, t), (tables + [t])[i].name) == Some((tables + [t])[i].id)
  {
    hide QualifiedName;
    var n, all := |tables|, tables + [t];
    assert all[n] == t && forall j :: 0 <= j < n ==> all[j] == tables[j];
    assert QualifiedName(all[n]) != all[i].name;
    if i < n {
      assert FirstSoCalled(tables, i);
    } else {
      NotYetCalled(tables, byName, t);
    }
  }

  lemma {:induction false} NotYetCalled(tables: seq<Introspected>, byName: map<string, TableId>, t: Introspected)
    requires NoOtherNames(tables, byName) && FirstSoCalled(tables + [t], |tables|)
    ensures t.name !in byName
  {
    var all := tables + [t];
    assert forall j :: 0 <= j < |tables| ==> all[j] == tables[j];
    assert forall j :: 0 <= j < |tables| ==> !IsCalled(tables[j], t.name);
  }

  lemma NoTables()
    ensures KeepsTables([], map[], map[]) && ResolvesNames([], map[])
  {
  }

  /** The loop of `from_tables`. */
  method RegisterTables(tables: seq<Introspected>) returns (byName: map<string, TableId>, columns: Catalog)
    ensures columns == ColumnsOf(tables) && KeepsTables(tables, columns, byName) && ResolvesNames(tables, byName)
  {
    byName, columns := map[], map[];
    hide KeepsTables, ResolvesNames;
    assert KeepsTables([], columns, byName) && ResolvesNames([], byName) by {
      NoTables();
    }
    for i := 0 to |tables|
      invariant columns == ColumnsOf(tables[..i])
      invariant KeepsTables(tables[..i], columns, byName) && ResolvesNames(tables[..i], byName)
    {
      var t := tables[i];
      ghost var earlier, before := tables[..i], byName;
      assert tables[..i + 1] == earlier + [t] && tables[..i + 1][..i] == earlier;
      columns := columns[t.id := t.columns];
      byName := byName[QualifiedName(t) := t.id];
      if t.name !in byName {
        byName := byName[t.name := t.id];
      }
      OneMoreTable(earlier, ColumnsOf(earlier), before, t);
      OneMoreNamed(earlier, before, t);
      assert byName == WithNames(before, t);
    }
    assert tables[..|tables|] == tables;
  }

  // ----- the runtime -----

  class PostgresWalRuntime {
    const tablesByName: map<string, TableId>
    const columns: Catalog
    const tables: set<TableId>          // the streamed tables
    const capacity: nat

    var mirror: Mirror
    var entries: seq<RawDiff>
    var baseSeq: nat                    // sequence number of the first entry
    var truncatedThrough: nat           // highest LSN dropped from the front
    var clock: nat                      // last applied commit LSN
    var reconciles: nat
    var failed: Option<string>

    ghost var history: seq<RawDiff>

    /** The streamed tables are those with columns, and names stand for some of them. */
    ghost predicate Catalogued() {
      tables == columns.Keys && tablesByName.Values <= tables
    }

    ghost predicate Valid()
      reads this
    {
      Catalogued() && JournalFits(history, entries, baseSeq, truncatedThrough, capacity)
    }

    /** The journal has only grown, and only forgotten from the front. */
    twostate predicate Grew()
      reads this
    {
      old(history) <= history && old(baseSeq) <= baseSeq
    }

    ghost function TheView(): View
      reads this
    {
      View(BagsOf(mirror), history, clock)
    }

    constructor (introspected: seq<Introspected>, journalCapacity: nat)
      ensures Valid() && columns == ColumnsOf(introspected) && KeepsTables(introspected, columns, tablesByName)
      ensures ResolvesNames(introspected, tablesByName)
      ensures mirror == map[] && history == [] && clock == 0 && failed == None
      ensures journalCapacity <= capacity && 1 <= capacity && (capacity == journalCapacity || capacity == 1)
    {
      var byName, catalog := RegisterTables(introspected);
      tablesByName, columns, tables := byName, catalog, catalog.Keys;
      capacity := if journalCapacity < 1 then 1 else journalCapacity;
      mirror, entries, baseSeq, truncatedThrough, clock, reconciles, failed := map[], [], 0, 0, 0, 0, None;
      history := [];
    }

    /** `Journal::push`: a full journal drops its oldest entry. */
    method Push(diff: RawDiff)
      requires Valid()
      modifies this`entries, this`baseSeq, this`truncatedThrough, this`history
      ensures Valid() && history == old(history) + [diff]
      ensures baseSeq == if old(|entries|) == capacity then old(baseSeq) + 1 else old(baseSeq)
    {
      if |entries| == capacity {
        var dropped := entries[0];
        DropsFirst(history, entries, baseSeq, truncatedThrough, capacity);
        entries := entries[1..];
        baseSeq := baseSeq + 1;
        truncatedThrough := if truncatedThrough < dropped.lsn then dropped.lsn else truncatedThrough;
      }
      assert |entries| < capacity;
      hide JournalFits;
      TakesOne(history, entries, baseSeq, truncatedThrough, capacity, diff);
      entries := entries + [diff];
      history := history + [diff];
    }

    /** Seeds the mirror from the initial snapshot, with no journal entries. */
    method SeedSnapshot(lsn: nat, rows: Mirror)
      requires Valid()
      modifies this`mirror, this`clock
      ensures Valid() && mirror == rows && clock == lsn
    {
      mirror := rows;
      clock := lsn;
    }

    /** Applies one committed transaction to the mirror and the journal. */
    method ApplyTransaction(commitLsn: nat, changes: seq<RowChange>)
      requires Valid()
      modifies this`mirror, this`entries, this`baseSeq, this`truncatedThrough, this`clock, this`history
      ensures Valid() && Grew()
      ensures history == old(history) + Diffs(changes, commitLsn)
      ensures BagsFollow(BagsOf(old(mirror)), BagsOf(mirror), changes)
      ensures clock == if changes == [] then old(clock) else commitLsn
    {
      if changes == [] {
        return;
      }
      ApplyChanges(commitLsn, changes);
      clock := commitLsn;
    }

    /** The loop over changes. */
    method ApplyChanges(lsn: nat, changes: seq<RowChange>)
      requires Valid()
      modifies this`mirror, this`entries, this`baseSeq, this`truncatedThrough, this`history
      ensures Valid() && Grew()
      ensures history == old(history) + Diffs(changes, lsn)
      ensures BagsFollow(BagsOf(old(mirror)), BagsOf(mirror), changes)
    {
      ghost var first, start := BagsOf(mirror), history;
      for i := 0 to |changes|
        invariant Valid() && old(baseSeq) <= baseSeq
        invariant history == start + Diffs(changes[..i], lsn)
        invariant BagsFollow(first, BagsOf(mirror), changes[..i])
      {
        ghost var before := BagsOf(mirror);
        ApplyChange(lsn, changes[i]);
        OneMoreChange(first, before, BagsOf(mirror), start, changes, i, lsn);
      }
      assert changes[..|changes|] == changes;
    }

    /** One turn of the loop over changes. */
    method ApplyChange(lsn: nat, change: RowChange)
      requires Valid()
      modifies this`mirror, this`entries, this`baseSeq, this`truncatedThrough, this`history
      ensures Valid() && Grew()
      ensures history == old(history) + DiffsOf(change, lsn)
      ensures BagsFollowOne(BagsOf(old(mirror)), BagsOf(mirror), change)
    {
      var table := change.table;
      var rows := if table in mirror then mirror[table] else [];
      var changed := ChangeRows(rows, change);
      RowsUpdated(mirror, table, changed);
      mirror := mirror[table := changed];
      PushAll(DiffsOf(change, lsn));
    }

    method PushAll(diffs: seq<RawDiff>)
      requires Valid()
      modifies this`entries, this`baseSeq, this`truncatedThrough, this`history
      ensures Valid() && Grew()
      ensures history == old(history) + diffs
    {
      for i := 0 to |diffs|
        invariant Valid() && Grew()
        invariant history == old(history) + diffs[..i]
      {
        Push(diffs[i]);
      }
    }

    /** Applies a truncate: retracts every mirrored row of the tables. */
    method ApplyTruncate(commitLsn: nat, truncated: seq<TableId>)
      requires Valid()
      modifies this`mirror, this`entries, this`baseSeq, this`truncatedThrough, this`clock, this`history
      ensures Valid() && Grew() && clock == commitLsn
      ensures Conserves(old(TheView()), TheView())
      ensures AllAt(history[|old(history)|..], commitLsn)
      ensures forall table :: Rows(BagsOf(mirror), table) ==
                if table in truncated then multiset{} else Rows(BagsOf(old(mirror)), table)
    {
      hide Net, Catalogued, JournalFits;
      ConservesReflexive(TheView());
      for i := 0 to |truncated|
        invariant Valid() && Grew() && clock == old(clock)
        invariant Conserves(old(TheView()), TheView())
        invariant AllAt(history[|old(history)|..], commitLsn)
        invariant forall table :: Rows(BagsOf(mirror), table) ==
                    if table in truncated[..i] then multiset{} else Rows(BagsOf(old(mirror)), table)
      {
        ghost var before := TheView();
        TruncateTable(commitLsn, truncated[i]);
        ConservesTransitive(old(TheView()), before, TheView());
        assert truncated[..i + 1] == truncated[..i] + [truncated[i]];
      }
      assert truncated[..|truncated|] == truncated;
      clock := commitLsn;
    }

    method TruncateTable(lsn: nat, table: TableId)
      requires Valid()
      modifies this`mirror, this`entries, this`baseSeq, this`truncatedThrough, this`history
      ensures Valid() && Grew()
      ensures Conserves(old(TheView()), TheView())
      ensures AllAt(history[|old(history)|..], lsn)
      ensures forall t :: Rows(BagsOf(mirror), t) == if t == table then multiset{} else Rows(BagsOf(old(mirror)), t)
    {
      var rows := if table in mirror then mirror[table] else [];
      RowsUpdated(mirror, table, []);
      mirror := mirror[table := []];
      var diffs := Retractions(table, rows, lsn);
      forall t, row
        ensures Net(diffs, t, row) == if t == table then -Multiplicity(multiset(rows), row) else 0
      {
        RetractionsNet(table, rows, lsn, t, row);
      }
      PushAll(diffs);
      assert history[|old(history)|..] == diffs;
    }

    /**
      Reconciles a fresh snapshot against the mirror: emits exactly the bag difference of
      each streamed table at `lsn`, and adopts the fresh rows.
     */
    method ReconcileSnapshot(lsn: nat, rows: Mirror)
      requires Valid()
      modifies this`mirror, this`entries, this`baseSeq, this`truncatedThrough, this`clock, this`reconciles, this`history
      ensures Valid() && Grew() && clock == lsn && reconciles == old(reconciles) + 1
      ensures Reconciled(old(TheView()), TheView(), BagsOf(rows), tables, lsn)
    {
      reconciles := reconciles + 1;
      ReconcileTables(lsn, rows);
      ReconciledClock(old(TheView()), TheView(), BagsOf(rows), tables, lsn);
      clock := lsn;
    }

    /** The loop over streamed tables. */
    method ReconcileTables(lsn: nat, rows: Mirror)
      requires Valid()
      modifies this`mirror, this`entries, this`baseSeq, this`truncatedThrough, this`history
      ensures Valid() && Grew()
      ensures Reconciled(old(TheView()), TheView(), BagsOf(rows), tables, lsn)
    {
      hide Catalogued, JournalFits, Reconciled;
      ghost var start := TheView();
      ReconciledNone(start, BagsOf(rows), lsn);
      var rest := tables;
      ghost var done := {};
      while rest != {}
        invariant Valid() && Grew()
        invariant done == tables - rest && rest <= tables
        invariant Reconciled(start, TheView(), BagsOf(rows), done, lsn)
        decreases rest
      {
        var table :| table in rest;
        ReconcileNext(lsn, table, rows, start, done);
        rest, done := rest - {table}, done + {table};
      }
      assert done == tables;
    }

    /** One turn of the loop over streamed tables. */
    method ReconcileNext(lsn: nat, table: TableId, rows: Mirror, ghost start: View, ghost done: set<TableId>)
      requires Valid() && table !in done && Reconciled(start, TheView(), BagsOf(rows), done, lsn)
      modifies this`mirror, this`entries, this`baseSeq, this`truncatedThrough, this`history
      ensures Valid() && Grew()
      ensures Reconciled(start, TheView(), BagsOf(rows), done + {table}, lsn)
    {
      var newRows := if table in rows then rows[table] else [];
      assert multiset(newRows) == Rows(BagsOf(rows), table);
      ReconcileTable(lsn, table, newRows);
      ReconciledTable(start, old(TheView()), TheView(), BagsOf(rows), done, table, lsn);
    }

    method ReconcileTable(lsn: nat, table: TableId, newRows: seq<Row>)
      requires Valid()
      modifies this`mirror, this`entries, this`baseSeq, this`truncatedThrough, this`history
      ensures Valid() && Grew()
      ensures ReconciledOne(old(TheView()), TheView(), table, multiset(newRows), lsn)
    {
      var oldRows := if table in mirror then mirror[table] else [];
      var counts := CountRows(newRows, oldRows);
      RowsUpdated(mirror, table, newRows);
      mirror := mirror[table := newRows];
      var diffs := DifferenceDiffs(table, lsn, counts);
      PushAll(diffs);
      assert history[|old(history)|..] == diffs;
    }

    /** `fail`: latches the first failure. */
    method Fail(message: string)
      requires Valid()
      modifies this`failed
      ensures Valid() && failed == if old(failed).Some? then old(failed) else Some(message)
    {
      if failed.None? {
        failed := Some(message);
      }
    }

    /** The query parses and scans streamed tables only. */
    predicate Resolves(query: Query) {
      query.Scans? && forall i :: 0 <= i < |query.names| ==> query.names[i] in tablesByName
    }

    /** The tables that the query's names stand for. */
    ghost function ScannedTables(query: Query): set<TableId>
      requires Resolves(query)
    {
      set table | table in Listed(tablesByName, query.names)
    }

    /** `query_tables`: the tables of the query's names, each name once; or an error. */
    method QueryTables(query: Query) returns (scanned: Option<seq<TableId>>)
      requires Valid()
      ensures scanned.Some? <==> Resolves(query)
      ensures scanned.Some? ==>
                && scanned.value == Listed(tablesByName, query.names) && ScannedTables(query) <= tables
                && (Distinct(scanned.value) <==> OneNameEach(tablesByName, query.names))
    {
      if query.Unparsable? {
        return None;
      }
      var found: seq<TableId>, seen: set<string> := [], {};
      for i := 0 to |query.names|
        invariant AllNamed(tablesByName, query.names[..i])
        invariant forall name :: name in seen <==> name in query.names[..i]
        invariant found == Listed(tablesByName, query.names[..i])
      {
        var name := query.names[i];
        assert query.names[..i + 1] == query.names[..i] + [name];
        if name !in seen {
          seen := seen + {name};
          if name !in tablesByName {
            return None;
          }
          found := found + [tablesByName[name]];
        }
        OneMoreName(tablesByName, query.names[..i], name);
      }
      assert query.names[..|query.names|] == query.names;
      ListedOnceIff(tablesByName, query.names);
      scanned := Some(found);
    }

    /** `fetch_snapshot`: the clock, and a copy of the mirrored rows for each table listed. */
    method FetchSnapshot(query: Query) returns (batch: Option<SnapshotBatch>)
      requires Valid()
      ensures batch.None? <==> failed.Some? || !Resolves(query)
      ensures batch.Some? ==>
                && batch.value.lsn == clock
                && batch.value.tables == CopyOf(mirror, Listed(tablesByName, query.names))
    {
      if failed.Some? {
        return None;
      }
      var scanned := QueryTables(query);
      if scanned.None? {
        return None;
      }
      var copy: seq<TableRows> := [];
      for i := 0 to |scanned.value|
        invariant copy == CopyOf(mirror, scanned.value[..i])
      {
        var table := scanned.value[i];
        copy := copy + [TableRows(table, if table in mirror then mirror[table] else [])];
      }
      assert scanned.value[..|scanned.value|] == scanned.value;
      batch := Some(SnapshotBatch(clock, copy));
    }
  }

  lemma ConservesReflexive(v: View)
    ensures Conserves(v, v)
  {
    assert v.history[|v.history|..] == [];
  }
}
