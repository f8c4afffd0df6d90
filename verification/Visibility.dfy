/**
  Visibility rules and what they let a user see of a table: latest rows first, where
  configured, then those that some rule admits.
 */
module Visibility {
  import opened Wrappers
  import opened Sequences
  import opened Predicates

  // ----- rules -----

  datatype LatestBy = LatestBy(key: seq<string>, version: string)

  datatype Mode = RowVisibility | Subscribe | Both

  datatype Rule = Rule(
    name: string, table: string, mode: Mode, canonical: string, predicate_: Predicate, latest: Option<LatestBy>)

  predicate AffectsVisibility(mode: Mode) {
    mode == RowVisibility || mode == Both
  }

  /** The visibility rules on a table, in order. */
  function TableRules(rules: seq<Rule>, table: string): seq<Rule> {
    Filter(rules, (r: Rule) => AffectsVisibility(r.mode) && r.table == table)
  }

  /** All rules on one table ask for the same current-row selection. */
  ghost predicate LatestAgrees(rules: seq<Rule>) {
    forall r, r' :: r in rules && r' in rules && r.table == r'.table ==> r.latest == r'.latest
  }

  /** What `compile_rules` demands of a rule set. */
  ghost predicate WellCompiled(rules: seq<Rule>) {
    && (forall i, j :: 0 <= i < j < |rules| ==> rules[i].name != rules[j].name)
    && (forall i, j :: 0 <= i < j < |rules| && rules[i].table == rules[j].table ==>
          rules[i].latest == rules[j].latest && rules[i].canonical != rules[j].canonical)
  }

  lemma WellCompiledAgrees(rules: seq<Rule>)
    requires WellCompiled(rules)
    ensures LatestAgrees(rules)
  {
    forall r, r' | r in rules && r' in rules && r.table == r'.table
      ensures r.latest == r'.latest
    {
      var i :| 0 <= i < |rules| && rules[i] == r;
      var j :| 0 <= j < |rules| && rules[j] == r';
      if i < j {
        assert rules[i].latest == rules[j].latest;
      } else if j < i {
        assert rules[j].latest == rules[i].latest;
      }
    }
  }

  /** The duplicate-name check and the pairwise checks of `compile_rules`. */
  method CheckRules(rules: seq<Rule>) returns (accepted: bool)
    ensures accepted <==> WellCompiled(rules)
  {
    var names: set<string> := {};
    for i := 0 to |rules|
      invariant names == set k | 0 <= k < i :: rules[k].name
      invariant forall k, l :: 0 <= k < l < i ==> rules[k].name != rules[l].name
    {
      if rules[i].name in names {
        return false;
      }
      names := names + {rules[i].name};
    }
    for index := 0 to |rules|
      invariant forall k, l :: 0 <= k < index && k < l < |rules| && rules[k].table == rules[l].table ==>
                  rules[k].latest == rules[l].latest && rules[k].canonical != rules[l].canonical
    {
      for other := index + 1 to |rules|
        invariant forall l :: index < l < other && rules[index].table == rules[l].table ==>
                    rules[index].latest == rules[l].latest && rules[index].canonical != rules[l].canonical
      {
        if rules[index].table == rules[other].table && rules[index].latest != rules[other].latest {
          return false;
        }
        if rules[index].table == rules[other].table && rules[index].canonical == rules[other].canonical {
          return false;
        }
      }
    }
    accepted := true;
  }

  // ----- relations -----

  type Relation = seq<Row>
  type Tables = map<string, Relation>

  function ColumnOf(row: Row, name: string): SqlValue {
    if name in row then row[name] else SqlNull
  }

  function VersionOf(row: Row, name: string): int {
    var v := ColumnOf(row, name);
    if v.SqlInt? then v.i else 0
  }

  predicate SameKey(latest: LatestBy, a: Row, b: Row) {
    forall i :: 0 <= i < |latest.key| ==> ColumnOf(a, latest.key[i]) == ColumnOf(b, latest.key[i])
  }

  /** No row with the same key has a higher version. */
  predicate IsLatest(rows: Relation, latest: LatestBy, row: Row) {
    forall i :: 0 <= i < |rows| && SameKey(latest, rows[i], row) ==>
      VersionOf(rows[i], latest.version) <= VersionOf(row, latest.version)
  }

  /** `DISTINCT ON (key) ... ORDER BY version DESC`: for each key one row, of the highest version. */
  ghost predicate IsSelection(rows: Relation, latest: LatestBy, selected: Relation) {
    && (forall row :: row in selected ==> row in rows && IsLatest(rows, latest, row))
    && (forall row :: row in rows ==> exists i :: 0 <= i < |selected| && SameKey(latest, selected[i], row))
    && (forall i, j :: 0 <= i < j < |selected| ==> !SameKey(latest, selected[i], selected[j]))
  }

  // ----- meaning -----

  /**
    What an engine makes of a query: whether a predicate admits a row, which of several rows of
    the highest version is selected, what its other operators compute, and how it evaluates a
    recursive query.  There, given whether the recursion is by `UNION ALL` and what the base
    term and the rounds so far produced, `working` is what the next round reads, and `collect`
    what the whole yields.  It goes on for at most `rounds` rounds.
   */
  datatype Semantics = Semantics(
    admits: (Predicate, Row, Context) -> bool,
    select: (Relation, LatestBy) -> Relation,
    operator: (nat, seq<Relation>) -> Relation,
    working: (bool, seq<Relation>) -> Relation,
    collect: (bool, seq<Relation>) -> Relation,
    rounds: nat)

  /** A disjunction admits what a disjunct admits, truth admits everything, and binding changes nothing. */
  ghost predicate Lawful(admits: (Predicate, Row, Context) -> bool) {
    && (forall p, q, row, ctx {:trigger admits(Or(p, q), row, ctx)} ::
          admits(Or(p, q), row, ctx) <==> admits(p, row, ctx) || admits(q, row, ctx))
    && (forall row, ctx {:trigger admits(Truth(true), row, ctx)} :: admits(Truth(true), row, ctx))
    && (forall p, row, ctx, any :: BindingKeeps(admits, p, row, ctx, any))
  }

  ghost predicate BindingKeeps(admits: (Predicate, Row, Context) -> bool, p: Predicate, row: Row, ctx: Context,
                               any: Context) {
    Materialize(p, ctx).Ok? ==> admits(Materialize(p, ctx).value, row, any) == admits(p, row, ctx)
  }

  // ----- what a user may see -----

  predicate Admits(sem: Semantics, ctx: Context, rules: seq<Rule>, row: Row) {
    exists i :: 0 <= i < |rules| && sem.admits(rules[i].predicate_, row, ctx)
  }

  function CurrentRows(sem: Semantics, rows: Relation, latest: Option<LatestBy>): Relation {
    if latest.Some? then sem.select(rows, latest.value) else rows
  }

  /** The rows of a protected table that the user may see. */
  function VisibleRows(sem: Semantics, ctx: Context, rules: seq<Rule>, rows: Relation): Relation {
    if rules == [] then rows
    else Filter(CurrentRows(sem, rows, rules[0].latest), (row: Row) => Admits(sem, ctx, rules, row))
  }

  function RowsOf(db: Tables, table: string): Relation {
    if table in db then db[table] else []
  }

  /** The tables as the user may see them; a table that is not there has no rows. */
  function CutDown(sem: Semantics, ctx: Context, rules: seq<Rule>, tables: set<string>, db: Tables): Tables {
    map table | table in tables :: VisibleRows(sem, ctx, TableRules(rules, table), RowsOf(db, table))
  }

  // ----- what that amounts to -----

  /** The rule protects the rows of the table: it is on the table, and not for subscribing alone. */
  ghost predicate Protects(r: Rule, table: string) {
    r.table == table && r.mode != Subscribe
  }

  /** Some rule that protects the table admits the row. */
  ghost predicate Permitted(sem: Semantics, ctx: Context, rules: seq<Rule>, table: string, row: Row) {
    exists r :: r in rules && Protects(r, table) && sem.admits(r.predicate_, row, ctx)
  }

  /** The visibility rules on a table are those on it that are not for subscribing alone. */
  lemma TableRulesAre(rules: seq<Rule>, table: string)
    ensures forall r :: r in TableRules(rules, table) <==> r in rules && Protects(r, table)
  {
    FilterMembers(rules, (r: Rule) => AffectsVisibility(r.mode) && r.table == table);
  }

  /** A table without such rules is left whole. */
  lemma {:induction false} UnprotectedIsWhole(
    sem: Semantics, ctx: Context, rules: seq<Rule>, tables: set<string>, db: Tables, table: string)
    requires table in tables && forall r :: r in rules ==> !Protects(r, table)
    ensures CutDown(sem, ctx, rules, tables, db)[table] == if table in db then db[table] else []
  {
    FilterNone(rules, (r: Rule) => AffectsVisibility(r.mode) && r.table == table);
  }

  /**
    A table with such rules is cut down to the rows that some of them admits, each as often as it
    is in the table, or among its current rows if the rules ask for those.
   */
  lemma {:induction false} ProtectedIsCut(
    sem: Semantics, ctx: Context, rules: seq<Rule>, tables: set<string>, db: Tables, table: string, rule: Rule,
    row: Row)
    requires table in tables && LatestAgrees(rules) && rule in rules && Protects(rule, table)
    ensures var rows := if table in db then db[table] else [];
            var current := if rule.latest.Some? then sem.select(rows, rule.latest.value) else rows;
            multiset(CutDown(sem, ctx, rules, tables, db)[table])[row]
              == if Permitted(sem, ctx, rules, table, row) then multiset(current)[row] else 0
  {
    TableRulesAre(rules, table);
    var own, rows := TableRules(rules, table), RowsOf(db, table);
    assert rule in own && own[0] in own && own[0] in rules;
    assert own[0].latest == rule.latest;
    AdmitsIffPermitted(sem, ctx, rules, table, row);
    FilterCounts(CurrentRows(sem, rows, own[0].latest), (r: Row) => Admits(sem, ctx, own, r), row);
  }

  lemma AdmitsIffPermitted(sem: Semantics, ctx: Context, rules: seq<Rule>, table: string, row: Row)
    ensures Admits(sem, ctx, TableRules(rules, table), row) <==> Permitted(sem, ctx, rules, table, row)
  {
    TableRulesAre(rules, table);
    var own := TableRules(rules, table);
    if Admits(sem, ctx, own, row) {
      var i :| 0 <= i < |own| && sem.admits(own[i].predicate_, row, ctx);
      assert own[i] in own;
    }
    if Permitted(sem, ctx, rules, table, row) {
      var r :| r in rules && Protects(r, table) && sem.admits(r.predicate_, row, ctx);
      assert r in own;
      var i :| 0 <= i < |own| && own[i] == r;
    }
  }

  // ----- consequences -----

  /**
    Of the versions of an entity only the highest can show: when it is hidden from the user, no
    lower version shows in its place.
   */
  lemma OnlyNewestShows(sem: Semantics, ctx: Context, rules: seq<Rule>, rows: Relation, row: Row, other: Row)
    requires rules != [] && rules[0].latest.Some?
    requires IsSelection(rows, rules[0].latest.value, sem.select(rows, rules[0].latest.value))
    requires row in VisibleRows(sem, ctx, rules, rows) && other in rows && SameKey(rules[0].latest.value, other, row)
    ensures VersionOf(other, rules[0].latest.value.version) <= VersionOf(row, rules[0].latest.value.version)
    ensures row in rows && Admits(sem, ctx, rules, row)
    ensures var version := rules[0].latest.value.version;
            version in other && version in row && other[version].SqlInt? && row[version].SqlInt? ==>
              other[version].i <= row[version].i
  {
    var latest := rules[0].latest.value;
    FilterMembers(sem.select(rows, latest), (r: Row) => Admits(sem, ctx, rules, r));
    var j :| 0 <= j < |rows| && rows[j] == other;
  }

  predicate SameVersion(latest: LatestBy, a: Row, b: Row) {
    VersionOf(a, latest.version) == VersionOf(b, latest.version)
  }

  /** Key and version identify a row, as the database must enforce. */
  ghost predicate UniqueVersions(rows: Relation, latest: LatestBy) {
    forall a, b :: a in rows && b in rows && SameKey(latest, a, b) && SameVersion(latest, a, b) ==> a == b
  }

  lemma NewestIsOne(latest: LatestBy, rows: Relation, a: Row, b: Row)
    requires UniqueVersions(rows, latest) && a in rows && b in rows && SameKey(latest, a, b)
    requires IsLatest(rows, latest, a) && IsLatest(rows, latest, b)
    ensures a == b
  {
    var i :| 0 <= i < |rows| && rows[i] == a;
    var j :| 0 <= j < |rows| && rows[j] == b;
    assert SameKey(latest, rows[i], b) && SameKey(latest, rows[j], a);
    assert SameVersion(latest, a, b);
  }

  /** Where key and version identify a row, an entity shows exactly when its newest version is admitted. */
  lemma ShowsIffNewestAdmitted(sem: Semantics, ctx: Context, rules: seq<Rule>, rows: Relation, newest: Row)
    requires rules != [] && rules[0].latest.Some? && UniqueVersions(rows, rules[0].latest.value)
    requires IsSelection(rows, rules[0].latest.value, sem.select(rows, rules[0].latest.value))
    requires newest in rows && IsLatest(rows, rules[0].latest.value, newest)
    ensures (exists row :: row in VisibleRows(sem, ctx, rules, rows) && SameKey(rules[0].latest.value, newest, row))
       <==> Admits(sem, ctx, rules, newest)
  {
    var latest := rules[0].latest.value;
    var selected := sem.select(rows, latest);
    forall row | row in selected && SameKey(latest, newest, row)
      ensures row == newest
    {
      NewestIsOne(latest, rows, newest, row);
    }
    FilterMembers(selected, (r: Row) => Admits(sem, ctx, rules, r));
    var k :| 0 <= k < |selected| && SameKey(latest, selected[k], newest);
    assert selected[k] in selected && SameKey(latest, newest, selected[k]);
  }

  /** The visible rows do not depend on the order of the rules. */
  lemma RuleOrderIsIrrelevant(sem: Semantics, ctx: Context, rules: seq<Rule>, rules': seq<Rule>, table: string,
                              rows: Relation)
    requires LatestAgrees(rules) && multiset(rules) == multiset(rules')
    ensures VisibleRows(sem, ctx, TableRules(rules, table), rows)
              == VisibleRows(sem, ctx, TableRules(rules', table), rows)
  {
    var a, b := TableRules(rules, table), TableRules(rules', table);
    FilterMembers(rules, (r: Rule) => AffectsVisibility(r.mode) && r.table == table);
    FilterMembers(rules', (r: Rule) => AffectsVisibility(r.mode) && r.table == table);
    forall r
      ensures r in a <==> r in b
    {
      assert r in rules <==> r in multiset(rules);
      assert r in rules' <==> r in multiset(rules');
    }
    if a != [] {
      assert a[0] in b && b != [] && b[0] in a;
      var current := CurrentRows(sem, rows, a[0].latest);
      forall row | row in current
        ensures Admits(sem, ctx, a, row) == Admits(sem, ctx, b, row)
      {
        AdmitsByMembers(sem, ctx, a, b, row);
        AdmitsByMembers(sem, ctx, b, a, row);
      }
      FilterAgree(current, (row: Row) => Admits(sem, ctx, a, row), (row: Row) => Admits(sem, ctx, b, row));
    } else {
      WithinEmpty(a, b);
    }
  }

  lemma AdmitsByMembers(sem: Semantics, ctx: Context, a: seq<Rule>, b: seq<Rule>, row: Row)
    requires forall r :: r in a ==> r in b
    ensures Admits(sem, ctx, a, row) ==> Admits(sem, ctx, b, row)
  {
    if Admits(sem, ctx, a, row) {
      var i :| 0 <= i < |a| && sem.admits(a[i].predicate_, row, ctx);
      assert a[i] in b;
      var j :| 0 <= j < |b| && b[j] == a[i];
    }
  }
}
