/**
  The CDC V2 protocol: messages that state irrevocable facts about a collection, and what a
  reader may conclude from a set of them.  `facts(t)` is the set of updates that truly occur
  at `t`; it is finite at each time while the collection as a whole need not be.
 */
module Capture {
  import opened Lattices
  import opened Frontiers
  import opened Sequences

  /** A datum, the time at which its multiplicity changes, and the difference. */
  type Update<D, T, R> = (D, T, R)

  datatype Progress<T> = Progress(lower: seq<T>, upper: seq<T>, counts: seq<(T, nat)>)

  datatype Message<D, T, R> =
    | Updates(updates: seq<Update<D, T, R>>)
    | Statement(progress: Progress<T>)

  // ----- counting -----

  function At<D(==), T(==), R(==)>(updates: set<Update<D, T, R>>, t: T): set<Update<D, T, R>> {
    set u | u in updates && u.1 == t
  }

  /** The sum of the entries for `t` in a list of signed counts. */
  function Total<T(==)>(changes: seq<(T, int)>, t: T): int {
    if changes == [] then 0
    else (if changes[0].0 == t then changes[0].1 else 0) + Total(changes[1..], t)
  }

  /** A `MutableAntichain`'s count; absent times count zero. */
  function Count<T>(counts: map<T, int>, t: T): int {
    if t in counts then counts[t] else 0
  }

  // ----- truth -----

  ghost predicate WellTimed<D(!new), T(!new), R(!new)>(facts: T -> set<Update<D, T, R>>) {
    forall t, u :: u in facts(t) ==> u.1 == t
  }

  /** The interval of times a statement speaks about. */
  predicate Covers<T(==)>(L: Lattice<T>, p: Progress<T>, t: T) {
    Beyond(L, Elements(p.lower), t) && !Beyond(L, Elements(p.upper), t)
  }

  ghost predicate TruthfulUpdates<D(!new), T(!new), R(!new)>(
    facts: T -> set<Update<D, T, R>>, updates: seq<Update<D, T, R>>)
  {
    forall u :: u in updates ==> u in facts(u.1)
  }

  /** The statement's counts are exact on its interval, and it lists no time outside. */
  ghost predicate TruthfulProgress<D(!new), T(!new), R(!new)>(
    L: Lattice<T>, facts: T -> set<Update<D, T, R>>, p: Progress<T>)
  {
    && (forall t :: Covers(L, p, t) ==> Total(p.counts, t) == |facts(t)|)
    && (forall i :: 0 <= i < |p.counts| ==> Covers(L, p, p.counts[i].0))
  }

  ghost predicate Truthful<D(!new), T(!new), R(!new)>(
    L: Lattice<T>, facts: T -> set<Update<D, T, R>>, m: Message<D, T, R>)
  {
    match m
    case Updates(updates) => TruthfulUpdates(facts, updates) && Distinct(updates)
    case Statement(p) => TruthfulProgress(L, facts, p)
  }

  ghost predicate AllTruthful<D(!new), T(!new), R(!new)>(
    L: Lattice<T>, facts: T -> set<Update<D, T, R>>, messages: seq<Message<D, T, R>>)
  {
    forall m :: m in messages ==> Truthful(L, facts, m)
  }

  // ----- what a list of messages establishes -----

  /** Every update that some message carries. */
  function Received<D(==), T(==), R(==)>(messages: seq<Message<D, T, R>>): set<Update<D, T, R>> {
    set m, u | m in messages && m.Updates? && u in m.updates :: u
  }

  /** `f` is past the upper bound of every received statement whose lower bound it is past. */
  ghost predicate Closed<D, T(!new), R>(L: Lattice<T>, messages: seq<Message<D, T, R>>, f: set<T>) {
    forall p :: Statement(p) in messages && FrontierLeq(L, Elements(p.lower), f)
                ==> FrontierLeq(L, Elements(p.upper), f)
  }

  /** No frontier past the minimum that is closed under the statements is short of `f`. */
  ghost predicate Reachable<D, T(!new), R>(
    L: Lattice<T>, bottom: T, messages: seq<Message<D, T, R>>, f: set<T>)
  {
    forall g :: FrontierLeq(L, {bottom}, g) && Closed(L, messages, g) ==> FrontierLeq(L, f, g)
  }

  /** Some fact at `t` has been promised by the accepted statements and not received. */
  ghost predicate Outstanding<D, T, R>(
    L: Lattice<T>, facts: T -> set<Update<D, T, R>>, received: set<Update<D, T, R>>, accepted: set<T>, t: T)
  {
    !Beyond(L, accepted, t) && |At(received, t)| < |facts(t)|
  }

  /** `t` is at or after an outstanding time. */
  ghost predicate Awaiting<D, T(!new), R>(
    L: Lattice<T>, facts: T -> set<Update<D, T, R>>, received: set<Update<D, T, R>>, accepted: set<T>, t: T)
  {
    exists s :: Outstanding(L, facts, received, accepted, s) && L.leq(s, t)
  }

  /**
    The frontier a reader of `messages` must have reported: `accepted` is the least closed
    frontier, and a time is unreported exactly when it is beyond `accepted` or at or after a
    time with facts still missing.
   */
  ghost predicate Settled<D(!new), T(!new), R(!new)>(
    L: Lattice<T>, bottom: T, facts: T -> set<Update<D, T, R>>, messages: seq<Message<D, T, R>>,
    accepted: set<T>, reported: set<T>)
  {
    && IsAntichain(L, accepted)
    && FrontierLeq(L, {bottom}, accepted)
    && Closed(L, messages, accepted)
    && Reachable(L, bottom, messages, accepted)
    && IsFrontierOf(L, reported,
         t => Beyond(L, accepted, t) || Awaiting(L, facts, Received(messages), accepted, t))
  }

  /** What a reader has emitted: each true update not beyond the frontier, once. */
  ghost predicate EmittedExactly<D(!new), T(!new), R(!new)>(
    L: Lattice<T>, facts: T -> set<Update<D, T, R>>, emitted: seq<Update<D, T, R>>, frontier: set<T>)
  {
    && Distinct(emitted)
    && forall u :: u in emitted <==> u in facts(u.1) && !Beyond(L, frontier, u.1)
  }

  // ----- order and duplication do not matter -----

  ghost predicate SameMessages<D(!new), T(!new), R(!new)>(
    one: seq<Message<D, T, R>>, other: seq<Message<D, T, R>>)
  {
    forall m :: m in one <==> m in other
  }

  lemma SameMessagesSameReceived<D(!new), T(!new), R(!new)>(
    one: seq<Message<D, T, R>>, other: seq<Message<D, T, R>>)
    requires SameMessages(one, other)
    ensures Received(one) == Received(other)
  {
  }

  lemma AcceptedIsUnique<D(!new), T(!new), R(!new)>(
    L: Lattice<T>, bottom: T, one: seq<Message<D, T, R>>, other: seq<Message<D, T, R>>, f: set<T>, g: set<T>)
    requires IsPartialOrder(L) && SameMessages(one, other)
    requires IsAntichain(L, f) && FrontierLeq(L, {bottom}, f) && Closed(L, one, f) && Reachable(L, bottom, one, f)
    requires IsAntichain(L, g) && FrontierLeq(L, {bottom}, g) && Closed(L, other, g) && Reachable(L, bottom, other, g)
    ensures f == g
  {
    assert Closed(L, other, f) && Closed(L, one, g);
    FrontierLeqAntisymmetric(L, f, g);
  }

  /**
    Confluence: two readings of the same messages, in any order and with any duplication,
    settle on the same accepted and the same reported frontier.
   */
  lemma OrderIndependence<D(!new), T(!new), R(!new)>(
    L: Lattice<T>, bottom: T, facts: T -> set<Update<D, T, R>>,
    one: seq<Message<D, T, R>>, other: seq<Message<D, T, R>>,
    accepted1: set<T>, reported1: set<T>, accepted2: set<T>, reported2: set<T>)
    requires IsPartialOrder(L) && SameMessages(one, other)
    requires Settled(L, bottom, facts, one, accepted1, reported1)
    requires Settled(L, bottom, facts, other, accepted2, reported2)
    ensures accepted1 == accepted2 && reported1 == reported2
  {
    AcceptedIsUnique(L, bottom, one, other, accepted1, accepted2);
    SameMessagesSameReceived(one, other);
    FrontierUnique(L, reported1, reported2);
  }

  // ----- completeness -----

  /** A gapless chain of statements that leads from the minimum to `goal`. */
  ghost predicate IsChain<T>(L: Lattice<T>, bottom: T, chain: seq<Progress<T>>, goal: set<T>) {
    if chain == [] then FrontierLeq(L, goal, {bottom})
    else
      var last := chain[|chain| - 1];
      && FrontierLeq(L, goal, Elements(last.upper))
      && IsChain(L, bottom, chain[..|chain| - 1], Elements(last.lower))
  }

  lemma {:induction false} ChainAccepted<D(!new), T(!new), R(!new)>(
    L: Lattice<T>, bottom: T, messages: seq<Message<D, T, R>>, chain: seq<Progress<T>>, goal: set<T>, accepted: set<T>)
    requires IsPartialOrder(L)
    requires IsChain(L, bottom, chain, goal)
    requires forall p :: p in chain ==> Statement(p) in messages
    requires FrontierLeq(L, {bottom}, accepted) && Closed(L, messages, accepted)
    ensures FrontierLeq(L, goal, accepted)
    decreases |chain|
  {
    if chain == [] {
      FrontierLeqTransitive(L, goal, {bottom}, accepted);
    } else {
      var last := chain[|chain| - 1];
      ChainAccepted(L, bottom, messages, chain[..|chain| - 1], Elements(last.lower), accepted);
      assert last in chain;
      FrontierLeqTransitive(L, goal, Elements(last.upper), accepted);
    }
  }

  /**
    Completeness: once a chain of statements from the minimum to `goal` and every fact at a
    time not beyond `goal` have arrived, in whatever order, the reported frontier is at or
    past `goal`.
   */
  lemma {:induction false} Completeness<D(!new), T(!new), R(!new)>(
    L: Lattice<T>, bottom: T, facts: T -> set<Update<D, T, R>>, messages: seq<Message<D, T, R>>,
    chain: seq<Progress<T>>, goal: set<T>, accepted: set<T>, reported: set<T>)
    requires IsPartialOrder(L)
    requires Settled(L, bottom, facts, messages, accepted, reported)
    requires IsChain(L, bottom, chain, goal)
    requires forall p :: p in chain ==> Statement(p) in messages
    requires forall t, u :: !Beyond(L, goal, t) && u in facts(t) ==> u in At(Received(messages), t)
    ensures FrontierLeq(L, goal, reported)
  {
    ChainAccepted(L, bottom, messages, chain, goal, accepted);
    FrontierLeqMeaning(L, goal, accepted);
    forall x | x in reported
      ensures Beyond(L, goal, x)
    {
      assert L.leq(x, x) && Beyond(L, reported, x);
      if !Beyond(L, accepted, x) {
        var s :| Outstanding(L, facts, Received(messages), accepted, s) && L.leq(s, x);
        if !Beyond(L, goal, s) {
          SubsetSize(facts(s), At(Received(messages), s));
        }
        BeyondUpward(L, goal, s, x);
      }
    }
  }

  lemma SubsetSize<X>(a: set<X>, b: set<X>)
    requires a <= b
    ensures |a| <= |b|
    ensures |a| == |b| ==> a == b
  {
    assert b == a + (b - a);
  }
}
