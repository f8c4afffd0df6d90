/**
  Rewriting a query graph so that every scan of a protected table yields only the rows the
  user may see.
 */
module Rewriter {
  import opened Wrappers
  import opened Sequences
  import opened Predicates
  import opened Visibility

  // ----- query graphs -----

  datatype Kind =
    | BaseTable(table: string)
    | FilterNode(condition: Predicate)
    | DistinctOn(latest: LatestBy)
    | Fixpoint(cte: string, unionAll: bool)
    | RecursiveRef(cte: string)
    | Operator(id: nat)

  datatype Node = Node(kind: Kind, inputs: seq<nat>)

  datatype Graph = Graph(nodes: seq<Node>, root: nat)

  /** What a node makes of its inputs; of a fixpoint they are what its rounds produced. */
  function Compute(sem: Semantics, db: Tables, env: Tables, kind: Kind, inputs: seq<Relation>): Relation {
    match kind
    case BaseTable(table) => RowsOf(db, table)
    case FilterNode(condition) =>
      if inputs == [] then [] else Filter(inputs[0], (row: Row) => sem.admits(condition, row, map[]))
    case DistinctOn(latest) => if inputs == [] then [] else sem.select(inputs[0], latest)
    case Fixpoint(_, unionAll) => if inputs == [] then [] else sem.collect(unionAll, inputs)
    case RecursiveRef(cte) => RowsOf(env, cte)
    case Operator(id) => sem.operator(id, inputs)
  }

  /** The tables a graph scans. */
  function Scanned(g: Graph): set<string> {
    set n | 0 <= n < |g.nodes| && g.nodes[n].kind.BaseTable? :: g.nodes[n].kind.table
  }

  /** An acyclic graph, by a rank that decreases from each node to its inputs. */
  ghost predicate Ranked(nodes: seq<Node>, ranks: seq<nat>) {
    && |ranks| == |nodes|
    && forall n, i :: 0 <= n < |nodes| && 0 <= i < |nodes[n].inputs| ==>
         nodes[n].inputs[i] < |nodes| && ranks[nodes[n].inputs[i]] < ranks[n]
  }

  /** The relation that a node denotes, given the working tables of the fixpoints it lies in. */
  ghost function Denote(sem: Semantics, db: Tables, env: Tables, nodes: seq<Node>, ranks: seq<nat>, n: nat): Relation
    requires Ranked(nodes, ranks) && n < |nodes|
    decreases ranks[n], 1, 0
  {
    if nodes[n].kind.Fixpoint?
    then Compute(sem, db, env, nodes[n].kind, Produced(sem, db, env, nodes, ranks, n, sem.rounds))
    else Compute(sem, db, env, nodes[n].kind, DenoteInputs(sem, db, env, nodes, ranks, n))
  }

  ghost function DenoteInputs(sem: Semantics, db: Tables, env: Tables, nodes: seq<Node>, ranks: seq<nat>, n: nat)
    : (r: seq<Relation>)
    requires Ranked(nodes, ranks) && n < |nodes|
    ensures |r| == |nodes[n].inputs|
    decreases ranks[n], 0, 0
  {
    seq(|nodes[n].inputs|, i requires 0 <= i < |nodes[n].inputs| =>
      Denote(sem, db, env, nodes, ranks, nodes[n].inputs[i]))
  }

  /** What the base term of a fixpoint and the first `k` rounds of its step term produce. */
  ghost function Produced(
    sem: Semantics, db: Tables, env: Tables, nodes: seq<Node>, ranks: seq<nat>, n: nat, k: nat): seq<Relation>
    requires Ranked(nodes, ranks) && n < |nodes| && nodes[n].kind.Fixpoint?
    decreases ranks[n], 0, k
  {
    if |nodes[n].inputs| != 2 then []
    else if k == 0 then [Denote(sem, db, env, nodes, ranks, nodes[n].inputs[0])]
    else
      var before := Produced(sem, db, env, nodes, ranks, n, k - 1);
      var inner := env[nodes[n].kind.cte := sem.working(nodes[n].kind.unionAll, before)];
      before + [Denote(sem, db, inner, nodes, ranks, nodes[n].inputs[1])]
  }

  // ----- splicing -----

  function Redirect(inputs: seq<nat>, from: nat, to: nat): (r: seq<nat>)
    ensures |r| == |inputs|
  {
    seq(|inputs|, i requires 0 <= i < |inputs| => if inputs[i] == from then to else inputs[i])
  }

  function RedirectAll(nodes: seq<Node>, from: nat, to: nat): (r: seq<Node>)
    ensures |r| == |nodes|
  {
    seq(|nodes|, n requires 0 <= n < |nodes| => Node(nodes[n].kind, Redirect(nodes[n].inputs, from, to)))
  }

  class MirGraph {
    var nodes: seq<Node>
    var root: nat

    constructor (nodes: seq<Node>, root: nat)
      ensures this.nodes == nodes && this.root == root
    {
      this.nodes, this.root := nodes, root;
    }

    /**
      Inserts a node above `target`.  Every edge that led to the target now leads to the new
      node, every other edge is as it was, and the new node alone consumes the target.
     */
    method SpliceAbove(target: nat, kind: Kind) returns (inserted: nat)
      modifies this
      ensures inserted == |old(nodes)| && |nodes| == inserted + 1
      ensures forall n :: 0 <= n < inserted ==> EdgesRedirected(old(nodes)[n], nodes[n], target, inserted)
      ensures nodes[inserted] == Node(kind, [target])
      ensures root == if old(root) == target then inserted else old(root)
    {
      inserted := |nodes|;
      for n := 0 to inserted
        invariant |nodes| == inserted && root == old(root)
        invariant forall m :: 0 <= m < n ==> EdgesRedirected(old(nodes)[m], nodes[m], target, inserted)
        invariant forall m :: n <= m < inserted ==> nodes[m] == old(nodes)[m]
      {
        var inputs := RedirectEdges(nodes[n].inputs, target, inserted);
        nodes := nodes[n := nodes[n].(inputs := inputs)];
      }
      nodes := nodes + [Node(kind, [target])];
      if root == target {
        root := inserted;
      }
    }
  }

  /** The loop over the edges that a node consumes. */
  method RedirectEdges(inputs: seq<nat>, target: nat, inserted: nat) returns (redirected: seq<nat>)
    ensures |redirected| == |inputs|
    ensures forall i :: 0 <= i < |inputs| ==> redirected[i] == if inputs[i] == target then inserted else inputs[i]
  {
    redirected := inputs;
    for i := 0 to |inputs|
      invariant |redirected| == |inputs|
      invariant forall k :: 0 <= k < i ==> redirected[k] == if inputs[k] == target then inserted else inputs[k]
      invariant forall k :: i <= k < |inputs| ==> redirected[k] == inputs[k]
    {
      if redirected[i] == target {
        redirected := redirected[i := inserted];
      }
    }
  }

  /** The node is the same but for the edges from `target`, which now come from `inserted`. */
  ghost predicate EdgesRedirected(before: Node, after: Node, target: nat, inserted: nat) {
    && after.kind == before.kind && |after.inputs| == |before.inputs|
    && forall i :: 0 <= i < |before.inputs| ==>
         after.inputs[i] == if before.inputs[i] == target then inserted else before.inputs[i]
  }

  /** Redirecting every edge gives the graph that the shape results are about. */
  lemma SplicedIsRedirected(before: seq<Node>, after: seq<Node>, target: nat, kind: Kind)
    requires |after| == |before| + 1 && after[|before|] == Node(kind, [target])
    requires forall n :: 0 <= n < |before| ==> EdgesRedirected(before[n], after[n], target, |before|)
    ensures after == SplicedNodes(before, target, kind)
  {
    var spliced := SplicedNodes(before, target, kind);
    forall n | 0 <= n < |before|
      ensures after[n] == spliced[n]
    {
      assert EdgesRedirected(before[n], after[n], target, |before|);
      assert after[n].inputs == Redirect(before[n].inputs, target, |before|);
    }
  }

  /**
    The kinds spliced above a node, lowest first, lead from the node to its top through nodes
    that are not among the first `count`.
   */
  ghost predicate Tower(nodes: seq<Node>, count: nat, n: nat, top: nat, kinds: seq<Kind>)
    decreases |kinds|
  {
    if kinds == [] then top == n
    else
      && count <= top < |nodes| && |nodes[top].inputs| == 1
      && nodes[top].kind == kinds[|kinds| - 1]
      && Tower(nodes, count, n, nodes[top].inputs[0], kinds[..|kinds| - 1])
  }

  /** An original node's inputs have been redirected to their tops. */
  ghost predicate InputsAtTops(original: Node, node: Node, tops: seq<nat>) {
    && node.kind == original.kind && |node.inputs| == |original.inputs|
    && forall i :: 0 <= i < |original.inputs| ==>
         original.inputs[i] < |tops| && node.inputs[i] == tops[original.inputs[i]]
  }

  /** One original node, its tower and their ranks. */
  ghost predicate WellSpliced(
    original: Node, rank: nat, nodes: seq<Node>, ranks': seq<nat>, tops: seq<nat>, count: nat, n: nat, kinds: seq<Kind>)
    requires count <= |nodes| == |ranks'| && n < count == |tops|
  {
    && tops[n] < |nodes| && |kinds| <= 2
    && InputsAtTops(original, nodes[n], tops)
    && Tower(nodes, count, n, tops[n], kinds)
    && ranks'[n] == 3 * rank
    && ranks'[tops[n]] == 3 * rank + |kinds|
  }

  /**
    How a graph relates to the one it was spliced from: original nodes keep their kind and
    consume the tops of their inputs, and nothing else consumes a top.
   */
  ghost predicate SplicedFrom(
    g: Graph, ranks: seq<nat>, nodes: seq<Node>, root: nat, tops: seq<nat>, kinds: seq<seq<Kind>>, ranks': seq<nat>)
  {
    var count := |g.nodes|;
    && Ranked(g.nodes, ranks) && Ranked(nodes, ranks')
    && count <= |nodes| && |tops| == count && |kinds| == count
    && (forall n :: 0 <= n < count ==> WellSpliced(g.nodes[n], ranks[n], nodes, ranks', tops, count, n, kinds[n]))
    && (forall m, n :: 0 <= m < n < count ==> tops[m] != tops[n])
    && (forall n :: count <= n < |nodes| ==> |nodes[n].inputs| == 1 && nodes[n].inputs[0] !in tops)
    && g.root < count && root == tops[g.root]
  }

  lemma UnsplicedGraph(g: Graph, ranks: seq<nat>) returns (tops: seq<nat>, kinds: seq<seq<Kind>>, ranks': seq<nat>)
    requires Ranked(g.nodes, ranks) && g.root < |g.nodes|
    ensures SplicedFrom(g, ranks, g.nodes, g.root, tops, kinds, ranks')
    ensures forall n :: 0 <= n < |g.nodes| ==> kinds[n] == [] && tops[n] == n
  {
    var count := |g.nodes|;
    tops := seq(count, n => n);
    kinds := seq(count, n => []);
    ranks' := seq(count, n requires 0 <= n < count => 3 * ranks[n]);
  }

  /** Towers stand on nodes that splicing elsewhere does not touch. */
  lemma {:induction false} TowerStays(nodes: seq<Node>, nodes': seq<Node>, count: nat, n: nat, top: nat,
                                      kinds: seq<Kind>)
    requires Tower(nodes, count, n, top, kinds) && |nodes| <= |nodes'|
    requires forall k :: count <= k < |nodes| ==> nodes'[k] == nodes[k]
    ensures Tower(nodes', count, n, top, kinds)
    decreases |kinds|
  {
    if |kinds| > 0 {
      TowerStays(nodes, nodes', count, n, nodes[top].inputs[0], kinds[..|kinds| - 1]);
    }
  }

  /** The nodes after splicing above `target`. */
  function SplicedNodes(nodes: seq<Node>, target: nat, kind: Kind): (r: seq<Node>)
    ensures |r| == |nodes| + 1
  {
    RedirectAll(nodes, target, |nodes|) + [Node(kind, [target])]
  }

  /** Splicing above a top redirects exactly the consumers of that node. */
  lemma SpliceRedirects(
    g: Graph, ranks: seq<nat>, nodes: seq<Node>, root: nat, tops: seq<nat>, kinds: seq<seq<Kind>>, ranks': seq<nat>,
    n: nat, kind: Kind)
    requires SplicedFrom(g, ranks, nodes, root, tops, kinds, ranks') && n < |g.nodes|
    ensures var nodes2, tops2 := SplicedNodes(nodes, tops[n], kind), tops[n := |nodes|];
            && (forall k :: |g.nodes| <= k < |nodes| ==> nodes2[k] == nodes[k])
            && (forall m :: 0 <= m < |g.nodes| ==> InputsAtTops(g.nodes[m], nodes2[m], tops2))
  {
    var count, target := |g.nodes|, tops[n];
    var nodes2, tops2 := SplicedNodes(nodes, target, kind), tops[n := |nodes|];
    forall k | count <= k < |nodes|
      ensures nodes2[k] == nodes[k]
    {
      assert nodes[k].inputs[0] != target;
      assert Redirect(nodes[k].inputs, target, |nodes|) == nodes[k].inputs;
    }
    forall m | 0 <= m < count
      ensures InputsAtTops(g.nodes[m], nodes2[m], tops2)
    {
      assert WellSpliced(g.nodes[m], ranks[m], nodes, ranks', tops, count, m, kinds[m]);
      forall i | 0 <= i < |g.nodes[m].inputs|
        ensures nodes2[m].inputs[i] == tops2[g.nodes[m].inputs[i]]
      {
        var x := g.nodes[m].inputs[i];
        assert nodes[m].inputs[i] == tops[x];
        assert tops[x] == target <==> x == n;
      }
    }
  }

  lemma SpliceRanks(
    g: Graph, ranks: seq<nat>, nodes: seq<Node>, root: nat, tops: seq<nat>, kinds: seq<seq<Kind>>, ranks': seq<nat>,
    n: nat, kind: Kind)
    requires SplicedFrom(g, ranks, nodes, root, tops, kinds, ranks') && n < |g.nodes| && |kinds[n]| < 2
    ensures Ranked(SplicedNodes(nodes, tops[n], kind), ranks' + [3 * ranks[n] + |kinds[n]| + 1])
  {
    var count := |g.nodes|;
    var nodes2, tops2 := SplicedNodes(nodes, tops[n], kind), tops[n := |nodes|];
    var ranks2 := ranks' + [3 * ranks[n] + |kinds[n]| + 1];
    SpliceRedirects(g, ranks, nodes, root, tops, kinds, ranks', n, kind);
    assert WellSpliced(g.nodes[n], ranks[n], nodes, ranks', tops, count, n, kinds[n]);
    forall m, i | 0 <= m < |nodes2| && 0 <= i < |nodes2[m].inputs|
      ensures nodes2[m].inputs[i] < |nodes2| && ranks2[nodes2[m].inputs[i]] < ranks2[m]
    {
      if m < count {
        var x := g.nodes[m].inputs[i];
        assert WellSpliced(g.nodes[m], ranks[m], nodes, ranks', tops, count, m, kinds[m]);
        assert InputsAtTops(g.nodes[m], nodes2[m], tops2);
        assert x < count && ranks[x] < ranks[m];
        assert WellSpliced(g.nodes[x], ranks[x], nodes, ranks', tops, count, x, kinds[x]);
        assert nodes2[m].inputs[i] == tops2[x];
        assert ranks2[tops2[x]] <= 3 * ranks[x] + 2;
      } else if m < |nodes| {
        assert nodes2[m] == nodes[m];
      }
    }
  }

  lemma SpliceKeepsNode(
    g: Graph, ranks: seq<nat>, nodes: seq<Node>, root: nat, tops: seq<nat>, kinds: seq<seq<Kind>>, ranks': seq<nat>,
    n: nat, kind: Kind, m: nat)
    requires SplicedFrom(g, ranks, nodes, root, tops, kinds, ranks') && n < |g.nodes| && |kinds[n]| < 2
    requires m < |g.nodes|
    ensures WellSpliced(g.nodes[m], ranks[m], SplicedNodes(nodes, tops[n], kind),
                        ranks' + [3 * ranks[n] + |kinds[n]| + 1], tops[n := |nodes|], |g.nodes|, m,
                        kinds[n := kinds[n] + [kind]][m])
  {
    var nodes2 := SplicedNodes(nodes, tops[n], kind);
    SpliceRedirects(g, ranks, nodes, root, tops, kinds, ranks', n, kind);
    assert WellSpliced(g.nodes[m], ranks[m], nodes, ranks', tops, |g.nodes|, m, kinds[m]);
    TowerStays(nodes, nodes2, |g.nodes|, m, tops[m], kinds[m]);
    if m == n {
      assert (kinds[n] + [kind])[..|kinds[n]|] == kinds[n];
      assert nodes2[|nodes|] == Node(kind, [tops[n]]);
    }
  }

  /** Splicing one more kind above an original node. */
  lemma SpliceKeepsShape(
    g: Graph, ranks: seq<nat>, nodes: seq<Node>, root: nat, tops: seq<nat>, kinds: seq<seq<Kind>>, ranks': seq<nat>,
    n: nat, kind: Kind)
    requires SplicedFrom(g, ranks, nodes, root, tops, kinds, ranks') && n < |g.nodes| && |kinds[n]| < 2
    ensures SplicedFrom(g, ranks, SplicedNodes(nodes, tops[n], kind), if root == tops[n] then |nodes| else root,
                        tops[n := |nodes|], kinds[n := kinds[n] + [kind]], ranks' + [3 * ranks[n] + |kinds[n]| + 1])
  {
    hide WellSpliced, SplicedNodes;
    SpliceRanks(g, ranks, nodes, root, tops, kinds, ranks', n, kind);
    SpliceStaysSingle(g, ranks, nodes, root, tops, kinds, ranks', n, kind);
    var count, nodes2, tops2 := |g.nodes|, SplicedNodes(nodes, tops[n], kind), tops[n := |nodes|];
    var kinds2, ranks2 := kinds[n := kinds[n] + [kind]], ranks' + [3 * ranks[n] + |kinds[n]| + 1];
    forall m | 0 <= m < count
      ensures WellSpliced(g.nodes[m], ranks[m], nodes2, ranks2, tops2, count, m, kinds2[m])
    {
      SpliceKeepsNode(g, ranks, nodes, root, tops, kinds, ranks', n, kind, m);
    }
  }

  /** Spliced nodes have one input, below the top of its tower. */
  lemma SpliceStaysSingle(
    g: Graph, ranks: seq<nat>, nodes: seq<Node>, root: nat, tops: seq<nat>, kinds: seq<seq<Kind>>, ranks': seq<nat>,
    n: nat, kind: Kind)
    requires SplicedFrom(g, ranks, nodes, root, tops, kinds, ranks') && n < |g.nodes| && |kinds[n]| < 2
    ensures forall m :: 0 <= m < |g.nodes| ==> tops[m] < |nodes|
    ensures var nodes2 := SplicedNodes(nodes, tops[n], kind);
            forall k :: |g.nodes| <= k < |nodes2| ==>
              |nodes2[k].inputs| == 1 && nodes2[k].inputs[0] !in tops[n := |nodes|]
  {
    var count, target := |g.nodes|, tops[n];
    var nodes2, tops2 := SplicedNodes(nodes, target, kind), tops[n := |nodes|];
    SpliceRedirects(g, ranks, nodes, root, tops, kinds, ranks', n, kind);
    forall m | 0 <= m < count
      ensures tops[m] < |nodes|
    {
      assert WellSpliced(g.nodes[m], ranks[m], nodes, ranks', tops, count, m, kinds[m]);
    }
    hide WellSpliced, InputsAtTops, Tower;
    forall k | count <= k < |nodes2|
      ensures |nodes2[k].inputs| == 1 && nodes2[k].inputs[0] !in tops2
    {
      if k < |nodes| {
        assert nodes2[k] == nodes[k] && nodes[k].inputs[0] < |nodes|;
      } else {
        assert forall m :: 0 <= m < count && m != n ==> tops2[m] != target;
      }
    }
  }

  // ----- what is spliced above a table -----

  function MaterializeAll(rules: seq<Rule>, ctx: Context): (r: Bound<seq<Predicate>>)
    ensures r.Ok? ==> |r.value| == |rules|
  {
    if rules == [] then Ok([])
    else
      var first := Materialize(rules[0].predicate_, ctx);
      if first.MissingUserValue? then MissingUserValue(first.field)
      else
        var rest := MaterializeAll(rules[1..], ctx);
        if rest.MissingUserValue? then rest else Ok([first.value] + rest.value)
  }

  /** `(p1) OR (p2) OR ...`; a single clause stands by itself. */
  function Disjunction(clauses: seq<Predicate>): Predicate
    requires clauses != []
  {
    if |clauses| == 1 then clauses[0]
    else Or(Disjunction(clauses[..|clauses| - 1]), clauses[|clauses| - 1])
  }

  predicate HasTautology(rules: seq<Rule>) {
    exists i :: 0 <= i < |rules| && IsTautology(rules[i].predicate_)
  }

  function LatestKinds(latest: Option<LatestBy>): seq<Kind> {
    if latest.Some? then [DistinctOn(latest.value)] else []
  }

  /** The nodes spliced above a base table under the given rules, lowest first. */
  function Plan(rules: seq<Rule>, ctx: Context): (r: Bound<seq<Kind>>)
    ensures r.Ok? ==> |r.value| <= 2 && forall i :: 0 <= i < |r.value| ==> Plain(r.value[i])
  {
    if rules == [] then Ok([])
    else if HasTautology(rules) then Ok(LatestKinds(rules[0].latest))
    else
      var clauses := MaterializeAll(rules, ctx);
      if clauses.MissingUserValue? then MissingUserValue(clauses.field)
      else Ok(LatestKinds(rules[0].latest) + [FilterNode(Disjunction(clauses.value))])
  }

  /** A disjunction admits a row exactly when some clause does. */
  lemma {:induction false} DisjunctionTrue(sem: Semantics, clauses: seq<Predicate>, row: Row)
    requires Lawful(sem.admits) && clauses != []
    ensures sem.admits(Disjunction(clauses), row, map[]) <==>
              exists i :: 0 <= i < |clauses| && sem.admits(clauses[i], row, map[])
    decreases |clauses|
  {
    if |clauses| > 1 {
      var init, last := clauses[..|clauses| - 1], |clauses| - 1;
      DisjunctionTrue(sem, init, row);
      if i :| 0 <= i < |init| && sem.admits(init[i], row, map[]) {
        assert clauses[i] == init[i];
      }
      if i :| 0 <= i < |clauses| && sem.admits(clauses[i], row, map[]) {
        assert i < last ==> init[i] == clauses[i];
      }
    }
  }

  lemma {:induction false} MaterializeAllMeaning(sem: Semantics, rules: seq<Rule>, ctx: Context, row: Row)
    requires Lawful(sem.admits) && MaterializeAll(rules, ctx).Ok?
    ensures forall i :: 0 <= i < |rules| ==>
              sem.admits(MaterializeAll(rules, ctx).value[i], row, map[]) == sem.admits(rules[i].predicate_, row, ctx)
  {
    if rules != [] {
      assert BindingKeeps(sem.admits, rules[0].predicate_, row, ctx, map[]);
      MaterializeAllMeaning(sem, rules[1..], ctx, row);
    }
  }

  /** The filter lets through exactly the rows that some rule admits. */
  lemma {:induction false} FilterAdmits(sem: Semantics, rules: seq<Rule>, ctx: Context, row: Row)
    requires Lawful(sem.admits) && rules != [] && MaterializeAll(rules, ctx).Ok?
    ensures sem.admits(Disjunction(MaterializeAll(rules, ctx).value), row, map[]) <==> Admits(sem, ctx, rules, row)
  {
    var clauses := MaterializeAll(rules, ctx).value;
    DisjunctionTrue(sem, clauses, row);
    MaterializeAllMeaning(sem, rules, ctx, row);
    if i :| 0 <= i < |clauses| && sem.admits(clauses[i], row, map[]) {
      assert sem.admits(rules[i].predicate_, row, ctx);
    }
    if i :| 0 <= i < |rules| && sem.admits(rules[i].predicate_, row, ctx) {
      assert sem.admits(clauses[i], row, map[]);
    }
  }

  /** What a stack of spliced nodes makes of a relation. */
  function Stack(sem: Semantics, kinds: seq<Kind>, rows: Relation): Relation {
    if kinds == [] then rows
    else Compute(sem, map[], map[], kinds[|kinds| - 1], [Stack(sem, kinds[..|kinds| - 1], rows)])
  }

  /** What is spliced looks at its input only. */
  predicate Plain(kind: Kind) {
    kind.FilterNode? || kind.DistinctOn?
  }

  lemma {:induction false} FilterAll<X>(s: seq<X>, keep: X -> bool)
    requires forall x :: x in s ==> keep(x)
    ensures Filter(s, keep) == s
  {
    if s != [] {
      FilterAll(s[1..], keep);
      assert s == [s[0]] + s[1..];
    }
  }

  lemma {:induction false} LatestStack(sem: Semantics, latest: Option<LatestBy>, rows: Relation)
    ensures Stack(sem, LatestKinds(latest), rows) == CurrentRows(sem, rows, latest)
  {
    if latest.Some? {
      var kinds := LatestKinds(latest);
      assert kinds[..0] == [];
    }
  }

  /** The nodes spliced above a table cut it down to the visible rows; eliding a tautology changes nothing. */
  lemma {:induction false} PlanShowsVisible(sem: Semantics, rules: seq<Rule>, ctx: Context, rows: Relation)
    requires Lawful(sem.admits) && Plan(rules, ctx).Ok?
    ensures Stack(sem, Plan(rules, ctx).value, rows) == VisibleRows(sem, ctx, rules, rows)
  {
    if rules != [] {
      var current := CurrentRows(sem, rows, rules[0].latest);
      LatestStack(sem, rules[0].latest, rows);
      if HasTautology(rules) {
        var i :| 0 <= i < |rules| && IsTautology(rules[i].predicate_);
        forall row
          ensures Admits(sem, ctx, rules, row)
        {
          assert sem.admits(rules[i].predicate_, row, ctx);
        }
        FilterAll(current, (row: Row) => Admits(sem, ctx, rules, row));
      } else {
        var condition := Disjunction(MaterializeAll(rules, ctx).value);
        var below, kinds := LatestKinds(rules[0].latest), Plan(rules, ctx).value;
        assert kinds[..|kinds| - 1] == below;
        forall row
          ensures sem.admits(condition, row, map[]) <==> Admits(sem, ctx, rules, row)
        {
          FilterAdmits(sem, rules, ctx, row);
        }
        FilterAgree(current, (row: Row) => sem.admits(condition, row, map[]),
                    (row: Row) => Admits(sem, ctx, rules, row));
      }
    }
  }

  // ----- the rewritten graph -----

  /** Every base table carries its plan, and no other node carries anything. */
  ghost predicate Planned(g: Graph, rules: seq<Rule>, ctx: Context, kinds: seq<seq<Kind>>, upTo: nat) {
    && |kinds| == |g.nodes|
    && forall n :: 0 <= n < |g.nodes| ==>
         if n < upTo && g.nodes[n].kind.BaseTable?
         then Plan(TableRules(rules, g.nodes[n].kind.table), ctx) == Ok(kinds[n])
         else kinds[n] == []
  }

  ghost predicate Rewritten(
    g: Graph, ranks: seq<nat>, rules: seq<Rule>, ctx: Context, out: Graph, tops: seq<nat>, ranks': seq<nat>)
  {
    exists kinds :: SplicedFrom(g, ranks, out.nodes, out.root, tops, kinds, ranks')
                    && Planned(g, rules, ctx, kinds, |g.nodes|)
  }

  lemma {:induction false} TowerDenotes(
    sem: Semantics, db: Tables, env: Tables, nodes: seq<Node>, ranks: seq<nat>, count: nat, n: nat, top: nat,
    kinds: seq<Kind>)
    requires Ranked(nodes, ranks) && n < |nodes| && top < |nodes| && Tower(nodes, count, n, top, kinds)
    requires forall i :: 0 <= i < |kinds| ==> Plain(kinds[i])
    ensures Denote(sem, db, env, nodes, ranks, top) == Stack(sem, kinds, Denote(sem, db, env, nodes, ranks, n))
    decreases |kinds|
  {
    if kinds != [] {
      var below := nodes[top].inputs[0];
      TowerDenotes(sem, db, env, nodes, ranks, count, n, below, kinds[..|kinds| - 1]);
      assert DenoteInputs(sem, db, env, nodes, ranks, top) == [Denote(sem, db, env, nodes, ranks, below)];
      assert Plain(kinds[|kinds| - 1]);
    }
  }

  /** Over the full tables, the top of each node denotes what the node denoted over the cut-down tables. */
  lemma {:induction false} TopsDenote(
    sem: Semantics, db: Tables, env: Tables, g: Graph, ranks: seq<nat>, rules: seq<Rule>, ctx: Context,
    out: Graph, tops: seq<nat>, kinds: seq<seq<Kind>>, ranks': seq<nat>, tables: set<string>, n: nat)
    requires Lawful(sem.admits) && n < |g.nodes| && Scanned(g) <= tables
    requires SplicedFrom(g, ranks, out.nodes, out.root, tops, kinds, ranks') && Planned(g, rules, ctx, kinds, |g.nodes|)
    ensures tops[n] < |out.nodes|
    ensures Denote(sem, db, env, out.nodes, ranks', tops[n])
         == Denote(sem, CutDown(sem, ctx, rules, tables, db), env, g.nodes, ranks, n)
    decreases ranks[n], 1, 0
  {
    var cut := CutDown(sem, ctx, rules, tables, db);
    assert WellSpliced(g.nodes[n], ranks[n], out.nodes, ranks', tops, |g.nodes|, n, kinds[n]);
    TowerDenotes(sem, db, env, out.nodes, ranks', |g.nodes|, n, tops[n], kinds[n]);
    if g.nodes[n].kind.BaseTable? {
      var table := g.nodes[n].kind.table;
      PlanShowsVisible(sem, TableRules(rules, table), ctx, RowsOf(db, table));
      assert table in Scanned(g);
    } else if g.nodes[n].kind.Fixpoint? {
      RoundsProduce(sem, db, env, g, ranks, rules, ctx, out, tops, kinds, ranks', tables, n, sem.rounds);
    } else {
      forall i | 0 <= i < |g.nodes[n].inputs|
        ensures Denote(sem, db, env, out.nodes, ranks', out.nodes[n].inputs[i])
             == Denote(sem, cut, env, g.nodes, ranks, g.nodes[n].inputs[i])
      {
        TopsDenote(sem, db, env, g, ranks, rules, ctx, out, tops, kinds, ranks', tables, g.nodes[n].inputs[i]);
      }
      assert DenoteInputs(sem, db, env, out.nodes, ranks', n) == DenoteInputs(sem, cut, env, g.nodes, ranks, n);
      SameComputation(sem, db, cut, env, g.nodes[n].kind, DenoteInputs(sem, cut, env, g.nodes, ranks, n));
    }
  }

  /** Each round of a recursive query produces what it produced over the cut-down tables. */
  lemma {:induction false} RoundsProduce(
    sem: Semantics, db: Tables, env: Tables, g: Graph, ranks: seq<nat>, rules: seq<Rule>, ctx: Context,
    out: Graph, tops: seq<nat>, kinds: seq<seq<Kind>>, ranks': seq<nat>, tables: set<string>, n: nat, k: nat)
    requires Lawful(sem.admits) && n < |g.nodes| && Scanned(g) <= tables && g.nodes[n].kind.Fixpoint?
    requires SplicedFrom(g, ranks, out.nodes, out.root, tops, kinds, ranks') && Planned(g, rules, ctx, kinds, |g.nodes|)
    ensures out.nodes[n].kind == g.nodes[n].kind
    ensures Produced(sem, db, env, out.nodes, ranks', n, k)
         == Produced(sem, CutDown(sem, ctx, rules, tables, db), env, g.nodes, ranks, n, k)
    decreases ranks[n], 0, k
  {
    hide Denote, CutDown, Tower, Planned, Lawful, Scanned, RowsOf;
    assert WellSpliced(g.nodes[n], ranks[n], out.nodes, ranks', tops, |g.nodes|, n, kinds[n]);
    if |g.nodes[n].inputs| == 2 {
      if k == 0 {
        TopsDenote(sem, db, env, g, ranks, rules, ctx, out, tops, kinds, ranks', tables, g.nodes[n].inputs[0]);
      } else {
        RoundsProduce(sem, db, env, g, ranks, rules, ctx, out, tops, kinds, ranks', tables, n, k - 1);
        var before := Produced(sem, db, env, out.nodes, ranks', n, k - 1);
        var inner := env[g.nodes[n].kind.cte := sem.working(g.nodes[n].kind.unionAll, before)];
        TopsDenote(sem, db, inner, g, ranks, rules, ctx, out, tops, kinds, ranks', tables, g.nodes[n].inputs[1]);
      }
    }
  }

  lemma SameComputation(sem: Semantics, db: Tables, db': Tables, env: Tables, kind: Kind, inputs: seq<Relation>)
    requires !kind.BaseTable?
    ensures Compute(sem, db, env, kind, inputs) == Compute(sem, db', env, kind, inputs)
  {
  }

  /**
    Rewriting preserves meaning: whatever the tables, and whatever the engine makes of predicates,
    operators and recursion within the laws, the rewritten query yields what the original yields
    over tables cut down to the rows the user may see.
   */
  lemma {:induction false} RewritePreservesMeaning(
    sem: Semantics, db: Tables, g: Graph, ranks: seq<nat>, rules: seq<Rule>, ctx: Context,
    out: Graph, tops: seq<nat>, ranks': seq<nat>)
    requires Lawful(sem.admits) && Rewritten(g, ranks, rules, ctx, out, tops, ranks')
    ensures g.root < |g.nodes| && out.root < |out.nodes| && Ranked(g.nodes, ranks) && Ranked(out.nodes, ranks')
    ensures Denote(sem, db, map[], out.nodes, ranks', out.root)
         == Denote(sem, CutDown(sem, ctx, rules, Scanned(g), db), map[], g.nodes, ranks, g.root)
  {
    var kinds :| SplicedFrom(g, ranks, out.nodes, out.root, tops, kinds, ranks')
                 && Planned(g, rules, ctx, kinds, |g.nodes|);
    TopsDenote(sem, db, map[], g, ranks, rules, ctx, out, tops, kinds, ranks', Scanned(g), g.root);
  }

  /** The bookkeeping of what has been spliced so far. */
  datatype Splicing = Splicing(tops: seq<nat>, kinds: seq<seq<Kind>>, ranks: seq<nat>)

  ghost predicate Tracks(g: Graph, ranks: seq<nat>, nodes: seq<Node>, root: nat, sp: Splicing) {
    SplicedFrom(g, ranks, nodes, root, sp.tops, sp.kinds, sp.ranks)
  }

  lemma Unspliced(g: Graph, ranks: seq<nat>) returns (sp: Splicing)
    requires Ranked(g.nodes, ranks) && g.root < |g.nodes|
    ensures Tracks(g, ranks, g.nodes, g.root, sp) && |sp.tops| == |sp.kinds| == |g.nodes|
    ensures forall n :: 0 <= n < |g.nodes| ==> sp.kinds[n] == [] && sp.tops[n] == n
  {
    var tops, kinds, ranks' := UnsplicedGraph(g, ranks);
    sp := Splicing(tops, kinds, ranks');
  }

  lemma TrackedNode(g: Graph, ranks: seq<nat>, nodes: seq<Node>, root: nat, sp: Splicing, n: nat)
    requires Tracks(g, ranks, nodes, root, sp) && n < |g.nodes|
    ensures n < |nodes| && |sp.tops| == |sp.kinds| == |g.nodes| && nodes[n].kind == g.nodes[n].kind
  {
    assert WellSpliced(g.nodes[n], ranks[n], nodes, sp.ranks, sp.tops, |g.nodes|, n, sp.kinds[n]);
  }

  lemma TrackedIsRewritten(g: Graph, ranks: seq<nat>, rules: seq<Rule>, ctx: Context, out: Graph, sp: Splicing)
    requires Tracks(g, ranks, out.nodes, out.root, sp) && Planned(g, rules, ctx, sp.kinds, |g.nodes|)
    ensures Rewritten(g, ranks, rules, ctx, out, sp.tops, sp.ranks)
  {
  }

  /** Splice a node above the top of an original node. */
  method SpliceTop(output: MirGraph, target: nat, kind: Kind, ghost g: Graph, ghost ranks: seq<nat>, ghost n: nat,
                   ghost sp: Splicing)
    returns (inserted: nat, ghost sp': Splicing)
    requires Tracks(g, ranks, output.nodes, output.root, sp)
    requires n < |g.nodes| && target == sp.tops[n] && |sp.kinds[n]| < 2
    modifies output
    ensures Tracks(g, ranks, output.nodes, output.root, sp')
    ensures inserted == sp'.tops[n] && sp'.kinds == sp.kinds[n := sp.kinds[n] + [kind]]
    ensures |sp'.tops| == |sp.tops| && forall m :: 0 <= m < |sp.tops| && m != n ==> sp'.tops[m] == sp.tops[m]
  {
    SpliceKeepsShape(g, ranks, output.nodes, output.root, sp.tops, sp.kinds, sp.ranks, n, kind);
    sp' := Splicing(sp.tops[n := |output.nodes|], sp.kinds[n := sp.kinds[n] + [kind]],
                    sp.ranks + [3 * ranks[n] + |sp.kinds[n]| + 1]);
    ghost var before := output.nodes;
    hide SplicedFrom;
    inserted := output.SpliceAbove(target, kind);
    SplicedIsRedirected(before, output.nodes, target, kind);
  }

  /** Splice a table's plan above it. */
  method ProtectTable(output: MirGraph, index: nat, rules: seq<Rule>, ctx: Context,
                      ghost g: Graph, ghost ranks: seq<nat>, ghost sp: Splicing)
    returns (missing: Option<string>, filtered: bool, ghost sp': Splicing)
    requires Tracks(g, ranks, output.nodes, output.root, sp)
    requires index < |g.nodes| && sp.tops[index] == index && sp.kinds[index] == []
    modifies output
    ensures missing.Some? <==> Plan(rules, ctx).MissingUserValue?
    ensures missing.Some? ==> Plan(rules, ctx) == MissingUserValue(missing.value)
    ensures missing.None? ==> Tracks(g, ranks, output.nodes, output.root, sp')
    ensures missing.None? ==> sp'.kinds == sp.kinds[index := Plan(rules, ctx).value] && filtered == NeedsFilter(rules)
    ensures missing.None? ==>
              |sp'.tops| == |sp.tops| && forall m :: 0 <= m < |sp.tops| && m != index ==> sp'.tops[m] == sp.tops[m]
  {
    hide SplicedFrom;
    TrackedNode(g, ranks, output.nodes, output.root, sp, index);
    missing, filtered, sp' := None, false, sp;
    assert sp.kinds[index := []] == sp.kinds;
    if rules == [] {
      return;
    }
    assert sp.kinds[index] + LatestKinds(rules[0].latest) == LatestKinds(rules[0].latest);
    var target := index;
    if rules[0].latest.Some? {
      target, sp' := SpliceTop(output, target, DistinctOn(rules[0].latest.value), g, ranks, index, sp');
    }
    assert sp'.kinds == sp.kinds[index := LatestKinds(rules[0].latest)];
    if HasTautology(rules) {
      return;
    }
    var clauses := MaterializeAll(rules, ctx);
    if clauses.MissingUserValue? {
      return Some(clauses.field), false, sp';
    }
    target, sp' := SpliceTop(output, target, FilterNode(Disjunction(clauses.value)), g, ranks, index, sp');
    assert sp'.kinds == sp.kinds[index := Plan(rules, ctx).value];
    filtered := true;
  }

  // ----- statistics -----

  datatype RewriteStats = RewriteStats(tablesVisited: nat, filtersInserted: nat, rulesElided: nat)

  /** The rules that take part in a filter. */
  function RulesInPlay(rules: seq<Rule>): seq<Rule> {
    Filter(rules, (r: Rule) => AffectsVisibility(r.mode) && !IsTautology(r.predicate_))
  }

  /** A table's rules leave something to filter. */
  predicate NeedsFilter(rules: seq<Rule>) {
    rules != [] && !HasTautology(rules)
  }

  /** The rules in play are those that protect rows and are not plainly true. */
  lemma RulesInPlayAre(rules: seq<Rule>)
    ensures forall r :: r in RulesInPlay(rules) <==> r in rules && r.mode != Subscribe && r.predicate_ != Truth(true)
  {
    FilterMembers(rules, (r: Rule) => AffectsVisibility(r.mode) && !IsTautology(r.predicate_));
  }

  /** A scan is filtered if and only if some rule protects the table, and none that does is plainly true. */
  lemma {:induction false} NeedsFilterIff(rules: seq<Rule>, table: string)
    ensures NeedsFilter(TableRules(rules, table)) <==>
              && (exists r :: r in rules && Protects(r, table))
              && (forall r :: r in rules && Protects(r, table) ==> r.predicate_ != Truth(true))
  {
    var own := TableRules(rules, table);
    TableRulesAre(rules, table);
    if own != [] {
      assert own[0] in own;
    }
    if i :| 0 <= i < |own| && IsTautology(own[i].predicate_) {
      assert own[i] in own;
    }
    if r :| r in rules && Protects(r, table) && r.predicate_ == Truth(true) {
      assert r in own;
      var i :| 0 <= i < |own| && own[i] == r;
      assert IsTautology(own[i].predicate_);
    }
  }

  /** The numbers of scans, and of filtered scans, among the first `n` nodes. */
  function ScansUpTo(nodes: seq<Node>, rules: seq<Rule>, n: nat): (nat, nat)
    requires n <= |nodes|
  {
    if n == 0 then (0, 0)
    else
      var (scans, filtered) := ScansUpTo(nodes, rules, n - 1);
      var kind := nodes[n - 1].kind;
      if !kind.BaseTable? then (scans, filtered)
      else (scans + 1, if NeedsFilter(TableRules(rules, kind.table)) then filtered + 1 else filtered)
  }

  lemma OneMorePlanned(g: Graph, rules: seq<Rule>, ctx: Context, kinds: seq<seq<Kind>>, n: nat)
    requires n < |g.nodes| && Planned(g, rules, ctx, kinds, n)
    ensures |kinds| == |g.nodes| && kinds[n] == []
    ensures var kind := g.nodes[n].kind;
            if !kind.BaseTable? then Planned(g, rules, ctx, kinds, n + 1)
            else Plan(TableRules(rules, kind.table), ctx).Ok? ==>
                   Planned(g, rules, ctx, kinds[n := Plan(TableRules(rules, kind.table), ctx).value], n + 1)
  {
  }

  /** `rewrite`: clone the graph and splice each base table's plan above it. */
  method Rewrite(g: Graph, rules: seq<Rule>, ctx: Context, ghost ranks: seq<nat>)
    returns (out: Bound<Graph>, stats: RewriteStats, ghost sp: Splicing)
    requires Ranked(g.nodes, ranks) && g.root < |g.nodes|
    ensures out.Ok? ==> Rewritten(g, ranks, rules, ctx, out.value, sp.tops, sp.ranks)
    ensures out.Ok? ==>
              && (stats.tablesVisited, stats.filtersInserted) == ScansUpTo(g.nodes, rules, |g.nodes|)
              && stats.rulesElided == |rules| - |RulesInPlay(rules)|
    ensures out.MissingUserValue? <==>
              exists n :: 0 <= n < |g.nodes| && g.nodes[n].kind.BaseTable?
                          && Plan(TableRules(rules, g.nodes[n].kind.table), ctx).MissingUserValue?
    ensures out.MissingUserValue? ==>
              exists n :: 0 <= n < |g.nodes| && g.nodes[n].kind.BaseTable?
                          && Plan(TableRules(rules, g.nodes[n].kind.table), ctx) == MissingUserValue(out.field)
  {
    hide Tracks, Ranked, Plan, TableRules, Rewritten, NeedsFilter;
    var output := new MirGraph(g.nodes, g.root);
    sp := Unspliced(g, ranks);
    var visited, inserted := 0, 0;
    stats := RewriteStats(0, 0, 0);
    for index := 0 to |g.nodes|
      invariant fresh(output)
      invariant (visited, inserted) == ScansUpTo(g.nodes, rules, index)
      invariant Tracks(g, ranks, output.nodes, output.root, sp) && |sp.tops| == |sp.kinds| == |g.nodes|
      invariant Planned(g, rules, ctx, sp.kinds, index)
      invariant forall n :: index <= n < |g.nodes| ==> sp.tops[n] == n
    {
      TrackedNode(g, ranks, output.nodes, output.root, sp, index);
      OneMorePlanned(g, rules, ctx, sp.kinds, index);
      if output.nodes[index].kind.BaseTable? {
        visited := visited + 1;
        var missing, filtered;
        missing, filtered, sp :=
          ProtectTable(output, index, TableRules(rules, output.nodes[index].kind.table), ctx, g, ranks, sp);
        if missing.Some? {
          return MissingUserValue(missing.value), stats, sp;
        }
        if filtered {
          inserted := inserted + 1;
        }
      }
    }
    TrackedIsRewritten(g, ranks, rules, ctx, Graph(output.nodes, output.root), sp);
    out := Ok(Graph(output.nodes, output.root));
    stats := RewriteStats(visited, inserted, |rules| - |RulesInPlay(rules)|);
  }
}
