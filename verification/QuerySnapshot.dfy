/**
  The tables a query names, the copy of their rows that a snapshot is, and the updates that
  seed a dataflow from it.
 */
module QuerySnapshots {
  import opened Sequences
  import opened WalTypes

  /** What a query's text amounts to: nothing, or a graph that scans tables by name. */
  datatype Query = Unparsable | Scans(names: seq<string>)

  /** The rows of one table. */
  datatype TableRows = TableRows(table: TableId, rows: seq<Row>)

  datatype SnapshotBatch = SnapshotBatch(lsn: nat, tables: seq<TableRows>)

  // ----- names -----

  /** Each name once, where it comes first. */
  function FirstNames(names: seq<string>): seq<string>
    decreases |names|
  {
    if names == [] then []
    else
      var earlier, name := names[..|names| - 1], names[|names| - 1];
      FirstNames(earlier) + if name in earlier then [] else [name]
  }

  lemma {:induction false} FirstNamesAre(names: seq<string>)
    ensures forall name :: name in FirstNames(names) <==> name in names
    ensures forall i, j :: 0 <= i < j < |FirstNames(names)| ==> FirstNames(names)[i] != FirstNames(names)[j]
    decreases |names|
  {
    if names != [] {
      var earlier := names[..|names| - 1];
      FirstNamesAre(earlier);
      assert names == earlier + [names[|names| - 1]];
    }
  }

  ghost predicate AllNamed(byName: map<string, TableId>, names: seq<string>) {
    forall name :: name in names ==> name in byName
  }

  /** The tables that the names stand for, in order. */
  function Resolved(byName: map<string, TableId>, names: seq<string>): (tables: seq<TableId>)
    requires AllNamed(byName, names)
    ensures |tables| == |names|
  {
    seq(|names|, i requires 0 <= i < |names| => assert names[i] in names; byName[names[i]])
  }

  /** No two different names stand for one table. */
  ghost predicate OneNameEach(byName: map<string, TableId>, names: seq<string>)
    requires AllNamed(byName, names)
  {
    forall a, b :: a in names && b in names && byName[a] == byName[b] ==> a == b
  }

  /** The tables listed for a query: those of its names, each name once. */
  function Listed(byName: map<string, TableId>, names: seq<string>): (tables: seq<TableId>)
    requires AllNamed(byName, names)
    ensures forall table :: table in tables <==> exists name :: name in names && byName[name] == table
  {
    FirstNamesAre(names);
    var first := FirstNames(names);
    var tables := Resolved(byName, first);
    assert forall table :: table in tables ==> exists name :: name in names && byName[name] == table by {
      forall table | table in tables
        ensures exists name :: name in names && byName[name] == table
      {
        var i :| 0 <= i < |tables| && tables[i] == table;
        assert first[i] in first;
      }
    }
    assert forall name :: name in names ==> byName[name] in tables by {
      forall name | name in names
        ensures byName[name] in tables
      {
        assert name in first;
        var i :| 0 <= i < |first| && first[i] == name;
        assert tables[i] == byName[name];
      }
    }
    tables
  }

  /** How often a table is listed. */
  function Times(tables: seq<TableId>, table: TableId): nat {
    multiset(tables)[table]
  }

  lemma OneMoreName(byName: map<string, TableId>, names: seq<string>, name: string)
    requires AllNamed(byName, names + [name])
    ensures AllNamed(byName, names)
    ensures Listed(byName, names + [name]) == Listed(byName, names) + if name in names then [] else [byName[name]]
  {
    assert forall other :: other in names ==> other in names + [name];
    assert (names + [name])[..|names|] == names;
  }

  /** Each table is listed once if and only if the query calls no table by two names. */
  lemma ListedOnceIff(byName: map<string, TableId>, names: seq<string>)
    requires AllNamed(byName, names)
    ensures Distinct(Listed(byName, names)) <==> OneNameEach(byName, names)
  {
    FirstNamesAre(names);
    var first, tables := FirstNames(names), Listed(byName, names);
    if Distinct(tables) {
      forall a, b | a in names && b in names && byName[a] == byName[b]
        ensures a == b
      {
        assert a in first && b in first;
        var i :| 0 <= i < |first| && first[i] == a;
        var j :| 0 <= j < |first| && first[j] == b;
        assert tables[i] == tables[j];
      }
    }
    if OneNameEach(byName, names) {
      forall i, j | 0 <= i < j < |tables|
        ensures tables[i] != tables[j]
      {
        assert first[i] in first && first[j] in first;
      }
    }
  }

  // ----- rows -----

  function RowsIn(mirror: map<TableId, seq<Row>>, table: TableId): seq<Row> {
    if table in mirror then mirror[table] else []
  }

  function CopyOf(mirror: map<TableId, seq<Row>>, tables: seq<TableId>): (copy: seq<TableRows>)
    ensures |copy| == |tables|
  {
    seq(|tables|, i requires 0 <= i < |tables| => TableRows(tables[i], RowsIn(mirror, tables[i])))
  }

  function Insertions(table: TableId, rows: seq<Row>, lsn: nat): (diffs: seq<RawDiff>)
    ensures |diffs| == |rows|
  {
    seq(|rows|, i requires 0 <= i < |rows| => RawDiff(table, rows[i], lsn, 1))
  }

  /** The updates that a snapshot amounts to. */
  function SeedUpdates(tables: seq<TableRows>, lsn: nat): seq<RawDiff>
    decreases |tables|
  {
    if tables == [] then []
    else
      var last := tables[|tables| - 1];
      SeedUpdates(tables[..|tables| - 1], lsn) + Insertions(last.table, last.rows, lsn)
  }

  /** `snapshot_to_seed_updates`: one insertion for each row of each table in the list. */
  method SnapshotToSeedUpdates(batch: SnapshotBatch) returns (updates: seq<RawDiff>)
    ensures updates == SeedUpdates(batch.tables, batch.lsn) && AllAt(updates, batch.lsn)
  {
    updates := [];
    for i := 0 to |batch.tables|
      invariant updates == SeedUpdates(batch.tables[..i], batch.lsn) && AllAt(updates, batch.lsn)
    {
      var entry := batch.tables[i];
      ghost var before := updates;
      for k := 0 to |entry.rows|
        invariant updates == before + Insertions(entry.table, entry.rows[..k], batch.lsn) && AllAt(updates, batch.lsn)
      {
        var update := RawDiff(entry.table, entry.rows[k], batch.lsn, 1);
        assert Insertions(entry.table, entry.rows[..k + 1], batch.lsn)
            == Insertions(entry.table, entry.rows[..k], batch.lsn) + [update];
        updates := updates + [update];
      }
      assert entry.rows[..|entry.rows|] == entry.rows;
      assert batch.tables[..i + 1][..i] == batch.tables[..i];
    }
    assert batch.tables[..|batch.tables|] == batch.tables;
  }

  lemma {:induction false} InsertionsNet(table: TableId, rows: seq<Row>, lsn: nat, t: TableId, row: Row)
    ensures Net(Insertions(table, rows, lsn), t, row) == if t == table then Multiplicity(multiset(rows), row) else 0
  {
    if rows != [] {
      assert Insertions(table, rows, lsn)[1..] == Insertions(table, rows[1..], lsn);
      InsertionsNet(table, rows[1..], lsn, t, row);
      assert rows == [rows[0]] + rows[1..];
    }
  }

  /** Each listing of a table contributes its rows. */
  ghost predicate SeedsEachListing(
    mirror: map<TableId, seq<Row>>, tables: seq<TableId>, lsn: nat, table: TableId, row: Row)
  {
    Net(SeedUpdates(CopyOf(mirror, tables), lsn), table, row)
      == Times(tables, table) * Multiplicity(multiset(RowsIn(mirror, table)), row)
  }

  lemma {:induction false} SeedNet(
    mirror: map<TableId, seq<Row>>, tables: seq<TableId>, lsn: nat, table: TableId, row: Row)
    ensures SeedsEachListing(mirror, tables, lsn, table, row)
    decreases |tables|
  {
    if tables == [] {
      NothingListed(mirror, lsn, table, row);
    } else {
      hide *;
      var earlier, last := tables[..|tables| - 1], tables[|tables| - 1];
      SeedNet(mirror, earlier, lsn, table, row);
      OneMoreListing(mirror, earlier, last, lsn, table, row);
      assert tables == earlier + [last];
    }
  }

  lemma NothingListed(mirror: map<TableId, seq<Row>>, lsn: nat, table: TableId, row: Row)
    ensures SeedsEachListing(mirror, [], lsn, table, row)
  {
    assert CopyOf(mirror, []) == [] && Times([], table) == 0;
  }

  lemma {:induction false} OneMoreListing(
    mirror: map<TableId, seq<Row>>, tables: seq<TableId>, last: TableId, lsn: nat, table: TableId, row: Row)
    requires SeedsEachListing(mirror, tables, lsn, table, row)
    ensures SeedsEachListing(mirror, tables + [last], lsn, table, row)
  {
    var copy := CopyOf(mirror, tables + [last]);
    var before, added := SeedUpdates(CopyOf(mirror, tables), lsn), Insertions(last, RowsIn(mirror, last), lsn);
    assert copy[..|tables|] == CopyOf(mirror, tables) && copy[|tables|] == TableRows(last, RowsIn(mirror, last));
    assert SeedUpdates(copy, lsn) == before + added;
    hide SeedUpdates, Insertions, CopyOf, Net, Multiplicity;
    NetConcat(before, added, table, row);
    InsertionsNet(last, RowsIn(mirror, last), lsn, table, row);
    OneMoreTime(Times(tables, table), Multiplicity(multiset(RowsIn(mirror, table)), row));
    TimesLast(tables, last, table);
    hide Times, RowsIn;
  }

  lemma TimesLast(tables: seq<TableId>, last: TableId, table: TableId)
    ensures Times(tables + [last], table) == Times(tables, table) + if last == table then 1 else 0
  {
  }

  lemma OneMoreTime(n: nat, m: int)
    ensures (n + 1) * m == n * m + m
  {
  }

  /** The seed puts into each table of the query what the mirror holds of it. */
  ghost predicate SeedsMirror(mirror: map<TableId, seq<Row>>, tables: seq<TableId>, seed: seq<RawDiff>) {
    forall table, row :: table in tables ==>
      Net(seed, table, row) == Multiplicity(multiset(RowsIn(mirror, table)), row)
  }

  /** Every table that is listed more than once is empty. */
  ghost predicate RepeatsAreEmpty(mirror: map<TableId, seq<Row>>, tables: seq<TableId>) {
    forall table :: table in tables ==> Times(tables, table) == 1 || RowsIn(mirror, table) == []
  }

  /** Seeding is right if and only if every table listed more than once is empty. */
  lemma {:induction false} SeedRightIff(mirror: map<TableId, seq<Row>>, tables: seq<TableId>, lsn: nat)
    ensures SeedsMirror(mirror, tables, SeedUpdates(CopyOf(mirror, tables), lsn)) <==> RepeatsAreEmpty(mirror, tables)
  {
    var seed := SeedUpdates(CopyOf(mirror, tables), lsn);
    forall table, row
      ensures Net(seed, table, row) == Times(tables, table) * Multiplicity(multiset(RowsIn(mirror, table)), row)
    {
      SeedNet(mirror, tables, lsn, table, row);
    }
    if SeedsMirror(mirror, tables, seed) {
      forall table | table in tables && RowsIn(mirror, table) != []
        ensures Times(tables, table) == 1
      {
        var row := RowsIn(mirror, table)[0];
        assert row in multiset(RowsIn(mirror, table));
        assert table in multiset(tables);
        OnlyOnce(Times(tables, table), Multiplicity(multiset(RowsIn(mirror, table)), row));
      }
    }
  }

  lemma OnlyOnce(n: nat, m: nat)
    requires n * m == m && m > 0
    ensures n == 1
  {
    assert n >= 2 ==> n * m >= 2 * m;
  }

  /** Tables are listed once exactly when no multiplicity exceeds one. */
  lemma ListedOnce(tables: seq<TableId>, table: TableId)
    requires Distinct(tables) && table in tables
    ensures Times(tables, table) == 1
  {
    var i :| 0 <= i < |tables| && tables[i] == table;
    assert tables == tables[..i] + [table] + tables[i + 1..];
    assert table !in tables[..i] && table !in tables[i + 1..];
    assert multiset(tables[..i])[table] == 0 && multiset(tables[i + 1..])[table] == 0;
  }

  /** A query that calls no table by two names is seeded right, whatever the mirror holds. */
  lemma OneNameSeedsRight(byName: map<string, TableId>, names: seq<string>, mirror: map<TableId, seq<Row>>)
    requires AllNamed(byName, names) && OneNameEach(byName, names)
    ensures RepeatsAreEmpty(mirror, Listed(byName, names))
  {
    ListedOnceIff(byName, names);
    forall table | table in Listed(byName, names)
      ensures Times(Listed(byName, names), table) == 1
    {
      ListedOnce(Listed(byName, names), table);
    }
  }

  /** A table called by its bare and by its qualified name is seeded twice. */
  lemma {:induction false} TwoNamesSeedTwice(row: Row, lsn: nat)
    ensures var byName, names := map["tickets" := 0, "public.tickets" := 0], ["tickets", "public.tickets"];
            var mirror := map[0 := [row]];
            && Listed(byName, names) == [0, 0]
            && Net(SeedUpdates(CopyOf(mirror, Listed(byName, names)), lsn), 0, row) == 2
  {
    var byName, names := map["tickets" := 0, "public.tickets" := 0], ["tickets", "public.tickets"];
    assert names[..1] == ["tickets"] && ["tickets"][..0] == [];
    assert FirstNames(["tickets"]) == ["tickets"];
    assert "public.tickets" !in ["tickets"];
    assert FirstNames(names) == ["tickets"] + ["public.tickets"] == names;
    assert Listed(byName, names) == [0, 0];
    SeedNet(map[0 := [row]], [0, 0], lsn, 0, row);
    assert Times([0, 0], 0) == 2 && multiset([row])[row] == 1;
  }
}
