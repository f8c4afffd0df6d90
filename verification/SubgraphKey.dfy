/**
  The key by which subscriptions share a dataflow: the query's text and every binding of the
  user's context.  When sharing a key means sharing a query and its bindings, and that users
  who share one may see the same rows.
 */
module SubgraphKeys {
  import opened Sequences
  import opened Framing
  import opened UserValues
  import opened Predicates
  import opened Visibility
  import opened EngineEval

  // ----- the key -----

  /** The sequence lists the fields in order, each once. */
  ghost predicate Lists(sorted: seq<string>, fields: set<string>) {
    StrictlyAscending(sorted) && forall f :: f in sorted <==> f in fields
  }

  lemma {:induction false} ListsOneMore(sorted: seq<string>, fields: set<string>, f: string)
    requires Lists(sorted, fields)
    ensures Lists(InsertDistinct(f, sorted), fields + {f})
  {
    hide StrictlyAscending, InsertDistinct;
    InsertDistinctAscends(f, sorted);
    forall g
      ensures g in InsertDistinct(f, sorted) <==> g in fields + {f}
    {
      InsertDistinctMembers(f, sorted, g);
    }
  }

  /** The fields of a context in order. */
  ghost function SortedFields(fields: set<string>): (sorted: seq<string>)
    ensures Lists(sorted, fields)
  {
    if fields == {} then []
    else
      var f :| f in fields;
      var rest := SortedFields(fields - {f});
      ListsOneMore(rest, fields - {f}, f);
      assert fields - {f} + {f} == fields;
      InsertDistinct(f, rest)
  }

  lemma {:induction false} SortedFieldsAre(sorted: seq<string>, fields: set<string>)
    requires Lists(sorted, fields)
    ensures SortedFields(fields) == sorted
  {
    hide StrictlyAscending;
    AscendingUnique(SortedFields(fields), sorted);
  }

  function Entry(field: string, repr: string): string {
    field + "=" + Frame(repr) + ";"
  }

  function Entries(fields: seq<string>, ctx: Context): string
    requires forall f :: f in fields ==> f in ctx
  {
    if fields == [] then "" else Entry(fields[0], CanonicalRepr(ctx[fields[0]])) + Entries(fields[1..], ctx)
  }

  ghost function SubgraphKey(query: string, ctx: Context): string {
    query + "|" + Entries(SortedFields(ctx.Keys), ctx)
  }

  lemma {:induction false} EntriesAppend(fields: seq<string>, f: string, ctx: Context)
    requires f in ctx && forall g :: g in fields ==> g in ctx
    ensures Entries(fields + [f], ctx) == Entries(fields, ctx) + Entry(f, CanonicalRepr(ctx[f]))
  {
    hide Entry, CanonicalRepr;
    if fields == [] {
      assert [f][1..] == [];
      assert Entries([f], ctx) == Entry(f, CanonicalRepr(ctx[f])) + "";
    } else {
      EntriesAppend(fields[1..], f, ctx);
      assert (fields + [f])[1..] == fields[1..] + [f];
    }
  }

  method SortFields(ctx: Context) returns (fields: seq<string>)
    ensures fields == SortedFields(ctx.Keys)
  {
    var rest := ctx.Keys;
    fields := [];
    assert Lists(fields, ctx.Keys - rest);
    hide Lists;
    while rest != {}
      invariant rest <= ctx.Keys && Lists(fields, ctx.Keys - rest)
      decreases rest
    {
      var f :| f in rest;
      ListsOneMore(fields, ctx.Keys - rest, f);
      assert ctx.Keys - rest + {f} == ctx.Keys - (rest - {f});
      fields, rest := InsertDistinct(f, fields), rest - {f};
    }
    assert ctx.Keys - {} == ctx.Keys;
    SortedFieldsAre(fields, ctx.Keys);
  }

  method WriteEntries(fields: seq<string>, ctx: Context) returns (entries: string)
    requires forall f :: f in fields ==> f in ctx
    ensures entries == Entries(fields, ctx)
  {
    entries := "";
    assert entries == Entries([], ctx);
    hide Entries, Entry, CanonicalRepr;
    for i := 0 to |fields|
      invariant entries == Entries(fields[..i], ctx)
    {
      assert fields[i] in ctx && forall g :: g in fields[..i] ==> g in fields;
      EntriesAppend(fields[..i], fields[i], ctx);
      assert fields[..i + 1] == fields[..i] + [fields[i]];
      entries := entries + Entry(fields[i], CanonicalRepr(ctx[fields[i]]));
    }
    assert fields[..|fields|] == fields;
  }

  /** `canonical_subgraph_key`: collect the entries, sort them by field, and write them out. */
  method CanonicalSubgraphKey(query: string, ctx: Context) returns (key: string)
    ensures key == SubgraphKey(query, ctx)
  {
    hide StrictlyAscending, Entries;
    var fields := SortFields(ctx);
    var entries := WriteEntries(fields, ctx);
    key := query + "|" + entries;
  }

  // ----- exactness -----

  /** Field names as SQL has them: without an equals sign. */
  predicate PlainNames(fields: set<string>) {
    forall f :: f in fields ==> '=' !in f
  }

  lemma EntryDecodes(f: string, g: string, a: string, b: string, x: string, y: string)
    requires Entry(f, a) + x == Entry(g, b) + y && '=' !in f && '=' !in g
    ensures f == g && a == b && x == y
  {
    assert Entry(f, a) + x == f + "=" + (Frame(a) + (";" + x));
    assert Entry(g, b) + y == g + "=" + (Frame(b) + (";" + y));
    SplitAtFirst('=', f, g, Frame(a) + (";" + x), Frame(b) + (";" + y));
    FrameDecodes(a, b, ";" + x, ";" + y);
    assert x == (";" + x)[1..] && y == (";" + y)[1..];
  }

  /** The entries determine the fields and the representations of their values. */
  lemma {:induction false} EntriesDecode(fields: seq<string>, fields': seq<string>, ctx: Context, ctx': Context)
    requires forall f :: f in fields ==> f in ctx && '=' !in f
    requires forall f :: f in fields' ==> f in ctx' && '=' !in f
    requires Entries(fields, ctx) == Entries(fields', ctx')
    ensures fields == fields'
    ensures forall f :: f in fields ==> CanonicalRepr(ctx[f]) == CanonicalRepr(ctx'[f])
    decreases |fields|
  {
    EntriesEmpty(fields, ctx);
    EntriesEmpty(fields', ctx');
    if fields != [] {
      var f, f' := fields[0], fields'[0];
      EntryDecodes(f, f', CanonicalRepr(ctx[f]), CanonicalRepr(ctx'[f']),
                   Entries(fields[1..], ctx), Entries(fields'[1..], ctx'));
      EntriesDecode(fields[1..], fields'[1..], ctx, ctx');
      assert fields == [f] + fields[1..] && fields' == [f'] + fields'[1..];
    }
  }

  lemma {:induction false} EntriesEmpty(fields: seq<string>, ctx: Context)
    requires forall f :: f in fields ==> f in ctx
    ensures Entries(fields, ctx) == "" <==> fields == []
  {
    if fields != [] {
      var entry := Entry(fields[0], CanonicalRepr(ctx[fields[0]]));
      assert |entry| > 0;
    }
  }

  /** The contexts bind the same fields, to values that mean the same. */
  ghost predicate SameContext(ctx: Context, ctx': Context) {
    ctx.Keys == ctx'.Keys && SameBindings(ctx.Keys, ctx, ctx')
  }

  lemma {:induction false} SameEntries(fields: seq<string>, ctx: Context, ctx': Context)
    requires forall f :: f in fields ==> f in ctx && f in ctx' && SameValue(ctx[f], ctx'[f])
    ensures Entries(fields, ctx) == Entries(fields, ctx')
  {
    if fields != [] {
      ReprIsExact(ctx[fields[0]], ctx'[fields[0]]);
      SameEntries(fields[1..], ctx, ctx');
    }
  }

  lemma {:induction false} EntriesExact(ctx: Context, ctx': Context)
    requires PlainNames(ctx.Keys) && PlainNames(ctx'.Keys)
    ensures Entries(SortedFields(ctx.Keys), ctx) == Entries(SortedFields(ctx'.Keys), ctx') <==> SameContext(ctx, ctx')
  {
    hide StrictlyAscending, Entries, SameValue, CanonicalRepr;
    var fields, fields' := SortedFields(ctx.Keys), SortedFields(ctx'.Keys);
    if SameContext(ctx, ctx') {
      SameEntries(fields, ctx, ctx');
    }
    if Entries(fields, ctx) == Entries(fields', ctx') {
      EntriesDecode(fields, fields', ctx, ctx');
      assert ctx.Keys == (set f | f in fields) == (set f | f in fields') == ctx'.Keys;
      forall f | f in ctx.Keys
        ensures SameValue(ctx[f], ctx'[f])
      {
        ReprIsExact(ctx[f], ctx'[f]);
      }
    }
  }

  /** For one query, whatever its text: the same key if and only if the contexts mean the same. */
  lemma SameQueryKeyExact(query: string, ctx: Context, ctx': Context)
    requires PlainNames(ctx.Keys) && PlainNames(ctx'.Keys)
    ensures SubgraphKey(query, ctx) == SubgraphKey(query, ctx') <==> SameContext(ctx, ctx')
  {
    var a, b := Entries(SortedFields(ctx.Keys), ctx), Entries(SortedFields(ctx'.Keys), ctx');
    EntriesExact(ctx, ctx');
    var head := query + "|";
    assert a == (head + a)[|head|..] && b == (head + b)[|head|..];
  }

  /** The longer query is the shorter, a bar, and a text with which the shorter's entries begin, before another bar. */
  ghost predicate Continues(query: string, ctx: Context, query': string, ctx': Context) {
    exists d: string ::
      && query' == query + "|" + d
      && Entries(SortedFields(ctx.Keys), ctx) == d + "|" + Entries(SortedFields(ctx'.Keys), ctx')
  }

  lemma ContinuesCollides(query: string, query': string, ctx: Context, ctx': Context)
    requires Continues(query, ctx, query', ctx')
    ensures SubgraphKey(query, ctx) == SubgraphKey(query', ctx')
  {
    hide SortedFields, Entries;
    var d: string :| query' == query + "|" + d
      && Entries(SortedFields(ctx.Keys), ctx) == d + "|" + Entries(SortedFields(ctx'.Keys), ctx');
    assert query + "|" + (d + "|" + Entries(SortedFields(ctx'.Keys), ctx'))
        == query + "|" + d + "|" + Entries(SortedFields(ctx'.Keys), ctx');
  }

  lemma OnlyContinuesCollides(query: string, query': string, ctx: Context, ctx': Context)
    requires SubgraphKey(query, ctx) == SubgraphKey(query', ctx') && |query| < |query'|
    ensures Continues(query, ctx, query', ctx')
  {
    hide SortedFields, Entries;
    var a, b := Entries(SortedFields(ctx.Keys), ctx), Entries(SortedFields(ctx'.Keys), ctx');
    var key, n := query + "|" + a, |query|;
    assert key == query' + "|" + b;
    var d := query'[n + 1..];
    assert query' == key[..|query'|] && key[..n] == query && key[n] == '|';
    assert query' == query + "|" + d;
    assert a == key[n + 1..] == (query' + "|" + b)[n + 1..];
    assert (query' + "|" + b)[n + 1..] == d + "|" + b;
  }

  /** For any queries and contexts: keys collide across queries in this one way only. */
  lemma SubgraphKeyIff(query: string, query': string, ctx: Context, ctx': Context)
    requires PlainNames(ctx.Keys) && PlainNames(ctx'.Keys)
    ensures SubgraphKey(query, ctx) == SubgraphKey(query', ctx') <==>
              || (query == query' && SameContext(ctx, ctx'))
              || Continues(query, ctx, query', ctx') || Continues(query', ctx', query, ctx)
  {
    hide SubgraphKey, Continues, SameContext;
    SameQueryKeyExact(query, ctx, ctx');
    if Continues(query, ctx, query', ctx') {
      ContinuesCollides(query, query', ctx, ctx');
    }
    if Continues(query', ctx', query, ctx) {
      ContinuesCollides(query', query, ctx', ctx);
    }
    if SubgraphKey(query, ctx) == SubgraphKey(query', ctx') && query != query' {
      SameLengthSameQuery(query, query', ctx, ctx');
      if |query| < |query'| {
        OnlyContinuesCollides(query, query', ctx, ctx');
      } else {
        OnlyContinuesCollides(query', query, ctx', ctx);
      }
    }
  }

  lemma SameLengthSameQuery(query: string, query': string, ctx: Context, ctx': Context)
    requires SubgraphKey(query, ctx) == SubgraphKey(query', ctx') && query != query'
    ensures |query| != |query'|
  {
    hide SortedFields, Entries;
    assert query == SubgraphKey(query, ctx)[..|query|] && query' == SubgraphKey(query', ctx')[..|query'|];
  }

  /**
    The text could begin the entries of a context with plain names: it has no equals sign, or
    what follows the first is a digit.
   */
  predicate MayBegin(d: string) {
    '=' !in d || exists i :: 0 <= i < |d| - 1 && d[i] == '=' && '=' !in d[..i] && d[i + 1] in "0123456789"
  }

  /** The longer query is the shorter, a bar, and what could begin entries. */
  ghost predicate Ambiguous(query: string, query': string) {
    exists d: string :: query' == query + "|" + d && MayBegin(d)
  }

  lemma TextMayBegin(f: string, tail: string, d: string, rest: string)
    requires f + "=" + tail == d + "|" + rest && '=' !in f && '=' in d
    requires tail != [] && tail[0] in "0123456789"
    ensures MayBegin(d)
  {
    var text, n := f + "=" + tail, |f|;
    FirstSeparator('=', f, tail);
    assert forall k :: 0 <= k < |d| ==> text[k] == d[k];
    var i :| 0 <= i < |d| && d[i] == '=';
    assert n <= i;
    assert '=' !in d[..n];
    assert text[n + 1] == tail[0];
    assert text[|d|] == '|';
    assert n + 1 < |d|;
  }

  /** What precedes a bar in the entries of a context with plain names may begin entries. */
  lemma {:induction false} BeginningMayBegin(fields: seq<string>, ctx: Context, d: string, rest: string)
    requires forall f :: f in fields ==> f in ctx && '=' !in f
    requires Entries(fields, ctx) == d + "|" + rest
    ensures MayBegin(d)
  {
    EntriesEmpty(fields, ctx);
    if '=' in d {
      var f := fields[0];
      var frame := Frame(CanonicalRepr(ctx[f]));
      var more := Entries(fields[1..], ctx);
      assert Entries(fields, ctx) == f + "=" + frame + ";" + more;
      hide CanonicalRepr, ByteLen, MayBegin, Entries, Decimal;
      assert f + "=" + (frame + ";" + more) == f + "=" + frame + ";" + more;
      assert frame[0] == Decimal(ByteLen(CanonicalRepr(ctx[f])))[0];
      TextMayBegin(f, frame + ";" + more, d, rest);
    }
  }

  /**
    For queries neither of which is the other, a bar, and what could begin entries, as all
    queries without a bar are: the same key if and only if the same query and contexts that
    mean the same.
   */
  lemma SubgraphKeyExact(query: string, query': string, ctx: Context, ctx': Context)
    requires !Ambiguous(query, query') && !Ambiguous(query', query) && PlainNames(ctx.Keys) && PlainNames(ctx'.Keys)
    ensures SubgraphKey(query, ctx) == SubgraphKey(query', ctx') <==> query == query' && SameContext(ctx, ctx')
  {
    hide SubgraphKey, SameContext, MayBegin;
    SubgraphKeyIff(query, query', ctx, ctx');
    if Continues(query, ctx, query', ctx') {
      NotContinued(query, query', ctx, ctx');
    }
    if Continues(query', ctx', query, ctx) {
      NotContinued(query', query, ctx', ctx);
    }
  }

  lemma NotContinued(query: string, query': string, ctx: Context, ctx': Context)
    requires Continues(query, ctx, query', ctx') && PlainNames(ctx.Keys)
    ensures Ambiguous(query, query')
  {
    hide Entries, MayBegin;
    var d: string :| query' == query + "|" + d
      && Entries(SortedFields(ctx.Keys), ctx) == d + "|" + Entries(SortedFields(ctx'.Keys), ctx');
    BeginningMayBegin(SortedFields(ctx.Keys), ctx, d, Entries(SortedFields(ctx'.Keys), ctx'));
  }

  lemma NoBarIsUnambiguous(query: string, query': string)
    requires '|' !in query'
    ensures !Ambiguous(query, query')
  {
    forall d: string
      ensures query' != query + "|" + d
    {
      assert (query + "|" + d)[|query|] == '|';
    }
  }

  // ----- what the conditions are for -----

  lemma {:induction false} OneField(f: string, v: UserValue)
    ensures SortedFields({f}) == [f]
    ensures Entries([f], map[f := v]) == Entry(f, CanonicalRepr(v))
  {
    SortedFieldsAre([f], {f});
    assert [f][1..] == [];
    assert Entry(f, CanonicalRepr(v)) + "" == Entry(f, CanonicalRepr(v));
  }

  lemma {:induction false} OneFieldKey(query: string, f: string, v: UserValue)
    ensures SubgraphKey(query, map[f := v]) == query + "|" + Entry(f, CanonicalRepr(v))
  {
    hide Entry, CanonicalRepr;
    OneField(f, v);
    assert (map[f := v]).Keys == {f};
  }

  /** Wherever what follows the bar has no equals sign, some contexts collide. */
  lemma NoEqualsCollides(query: string, d: string, g: string, v: UserValue)
    requires '=' !in d && '=' !in g
    ensures var ctx: Context, ctx': Context := map[d + "|" + g := v], map[g := v];
            && PlainNames(ctx.Keys) && PlainNames(ctx'.Keys) && Ambiguous(query, query + "|" + d)
            && SubgraphKey(query, ctx) == SubgraphKey(query + "|" + d, ctx')
  {
    var repr := CanonicalRepr(v);
    hide CanonicalRepr, Frame, SubgraphKey;
    OneFieldKey(query, d + "|" + g, v);
    OneFieldKey(query + "|" + d, g, v);
    assert query + "|" + (d + "|" + g + "=" + Frame(repr) + ";")
        == query + "|" + d + "|" + (g + "=" + Frame(repr) + ";");
    assert MayBegin(d);
    assert (map[d + "|" + g := v]).Keys == {d + "|" + g} && (map[g := v]).Keys == {g};
  }

  /**
    The query is not framed: for any query there is one with a bar, and a pair of contexts, that
    together have the same key.
   */
  lemma BarInQueryCollides(query: string, f: string, g: string, v: UserValue) returns (query': string, text: string)
    ensures query != query' && '|' in query'
    ensures SubgraphKey(query, map[f := Text(text)]) == SubgraphKey(query', map[g := v])
  {
    hide SubgraphKey, Decimal, ByteLen;
    var inner := g + "=" + Frame(CanonicalRepr(v));
    text := "|" + inner;
    assert CanonicalRepr(Text(text)) == "text:" + text;
    var count := Decimal(ByteLen("text:" + text));
    query' := query + "|" + (f + "=" + count + ":text:");
    OneFieldKey(query, f, Text(text));
    OneFieldKey(query', g, v);
    assert query'[|query|] == '|';
    BarRegroups(query, f, count, inner);
    hide Frame;
    assert inner + ";" == Entry(g, CanonicalRepr(v));
  }

  lemma BarRegroups(query: string, f: string, count: string, inner: string)
    ensures query + "|" + (f + "=" + (count + ":" + ("text:" + ("|" + inner))) + ";")
         == query + "|" + (f + "=" + count + ":text:") + "|" + (inner + ";")
  {
    assert ":text:" == ":" + "text:";
  }

  /** Nor are field names: one with an equals sign can pass for two fields. */
  lemma EqualsInNameCollides(query: string, v: UserValue)
    ensures var name := "a=" + Frame("null") + ";b";
            SubgraphKey(query, map["a" := Null, "b" := v]) == SubgraphKey(query, map[name := v])
  {
    hide Frame, CanonicalRepr, SortedFields, Entries;
    TwoFields(v);
    OneFieldKey(query, "a=" + Frame("null") + ";b", v);
    EqualsRegroups(Frame("null"), Frame(CanonicalRepr(v)));
  }

  lemma EqualsRegroups(first: string, second: string)
    ensures "a" + "=" + first + ";" + ("b" + "=" + second + ";") == "a=" + first + ";b" + "=" + second + ";"
  {
    assert "a" + "=" == "a=";
    assert ";" + "b" == ";b";
  }

  lemma SortedTwoFields()
    ensures SortedFields({"a", "b"}) == ["a", "b"]
  {
    assert StringLeq("a", "b");
    SortedFieldsAre(["a", "b"], {"a", "b"});
  }

  lemma {:induction false} TwoFields(v: UserValue)
    ensures var ctx: Context := map["a" := Null, "b" := v];
            Entries(SortedFields(ctx.Keys), ctx) == Entry("a", "null") + Entry("b", CanonicalRepr(v))
  {
    var ctx: Context := map["a" := Null, "b" := v];
    SortedTwoFields();
    hide Entry, SortedFields;
    assert ctx.Keys == {"a", "b"};
    assert ["a", "b"][1..] == ["b"] && ["b"][1..] == [];
    assert Entries(["b"], ctx) == Entry("b", CanonicalRepr(v)) + "" == Entry("b", CanonicalRepr(v));
    assert CanonicalRepr(Null) == "null";
  }

  // ----- what sharing a key shares -----

  /** The verdict on a predicate depends only on what the fields it reads are bound to. */
  ghost predicate ReadsBindings(admits: (Predicate, Row, Context) -> bool) {
    forall p, row, ctx, ctx' :: SameBindings(Fields(p), ctx, ctx') ==> admits(p, row, ctx) == admits(p, row, ctx')
  }

  lemma EngineReadsBindings(holds: Comparison)
    ensures ReadsBindings(EngineVerdict(holds))
  {
    forall p, row, ctx, ctx' | SameBindings(Fields(p), ctx, ctx')
      ensures Engine(holds, p, row, ctx) == Engine(holds, p, row, ctx')
    {
      EngineSameVerdict(holds, p, row, ctx, ctx');
    }
  }

  /** Every field the rules read is bound. */
  ghost predicate AllBound(rules: seq<Rule>, ctx: Context) {
    forall i :: 0 <= i < |rules| ==> Fields(rules[i].predicate_) <= ctx.Keys
  }

  lemma SameContextSameRows(sem: Semantics, rules: seq<Rule>, ctx: Context, ctx': Context, rows: Relation)
    requires ReadsBindings(sem.admits) && AllBound(rules, ctx) && SameContext(ctx, ctx')
    ensures VisibleRows(sem, ctx, rules, rows) == VisibleRows(sem, ctx', rules, rows)
  {
    if rules != [] {
      var current := CurrentRows(sem, rows, rules[0].latest);
      forall row | row in current
        ensures Admits(sem, ctx, rules, row) == Admits(sem, ctx', rules, row)
      {
        forall i | 0 <= i < |rules|
          ensures sem.admits(rules[i].predicate_, row, ctx) == sem.admits(rules[i].predicate_, row, ctx')
        {
          assert SameBindings(Fields(rules[i].predicate_), ctx, ctx');
        }
      }
      FilterAgree(current, (row: Row) => Admits(sem, ctx, rules, row), (row: Row) => Admits(sem, ctx', rules, row));
    }
  }

  /**
    Users whose subscriptions to a query share a key may see the same rows of every table, so
    that one rewritten query, and one dataflow, serves them all.
   */
  lemma SharedKeySharesView(
    sem: Semantics, query: string, rules: seq<Rule>, ctx: Context, ctx': Context, tables: set<string>, db: Tables)
    requires ReadsBindings(sem.admits) && AllBound(rules, ctx)
    requires PlainNames(ctx.Keys) && PlainNames(ctx'.Keys)
    requires SubgraphKey(query, ctx) == SubgraphKey(query, ctx')
    ensures CutDown(sem, ctx, rules, tables, db) == CutDown(sem, ctx', rules, tables, db)
  {
    SameQueryKeyExact(query, ctx, ctx');
    forall table | table in tables
      ensures VisibleRows(sem, ctx, TableRules(rules, table), RowsOf(db, table))
           == VisibleRows(sem, ctx', TableRules(rules, table), RowsOf(db, table))
    {
      FilterMembers(rules, (r: Rule) => AffectsVisibility(r.mode) && r.table == table);
      forall i | 0 <= i < |TableRules(rules, table)|
        ensures Fields(TableRules(rules, table)[i].predicate_) <= ctx.Keys
      {
        assert TableRules(rules, table)[i] in rules;
      }
      SameContextSameRows(sem, TableRules(rules, table), ctx, ctx', RowsOf(db, table));
    }
  }
}
