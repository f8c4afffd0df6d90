/**
  Logical compaction: advancing every time by a frontier and consolidating leaves unchanged
  what can be observed at any time beyond the frontier.
 */
module Compaction {
  import opened Wrappers
  import opened Lattices
  import opened Frontiers
  import opened Differences
  import opened Consolidation

  /** The entries that have taken effect for datum `d` by time `t`. */
  function EffectiveBy<D(==), T>(L: Lattice<T>, d: D, t: T): ((D, T)) -> bool {
    (k: (D, T)) => k.0 == d && L.leq(k.1, t)
  }

  /** The accumulated difference of datum `d` at time `t`. */
  function Accumulated<D(==), T, R>(L: Lattice<T>, G: Semigroup<R>, updates: seq<((D, T), R)>, d: D, t: T): Option<R> {
    Net(G, Sum(G, updates, EffectiveBy(L, d, t)))
  }

  function Advanced<D, T, R>(L: Lattice<T>, f: seq<T>, updates: seq<((D, T), R)>): (r: seq<((D, T), R)>)
    ensures |r| == |updates|
  {
    seq(|updates|, i requires 0 <= i < |updates| =>
      ((updates[i].0.0, Advance(L, f, updates[i].0.1)), updates[i].1))
  }

  /** Advancing the times changes no accumulation beyond the frontier. */
  lemma {:induction false} AdvancedAccumulates<D(!new), T(!new), R(!new)>(
    L: Lattice<T>, G: Semigroup<R>, f: seq<T>, updates: seq<((D, T), R)>, d: D, t: T)
    requires IsLattice(L) && f != [] && Beyond(L, Elements(f), t)
    ensures Sum(G, Advanced(L, f, updates), EffectiveBy(L, d, t)) == Sum(G, updates, EffectiveBy(L, d, t))
  {
    if updates != [] {
      AdvanceIsGreatest(L, f, updates[0].0.1);
      assert Advanced(L, f, updates)[1..] == Advanced(L, f, updates[1..]);
      AdvancedAccumulates(L, G, f, updates[1..], d, t);
    }
  }

  /**
    Compact the history of a collection up to a non-empty frontier.  Every datum keeps its
    accumulated difference at every time beyond the frontier, and at most one entry, never
    zero, remains for each datum and time.
   */
  method CompactHistory<D(==, !new), T(==, !new), R(==, !new)>(
    L: Lattice<T>, leq: ((D, T), (D, T)) -> bool, G: Semigroup<R>, f: seq<T>, updates: seq<((D, T), R)>)
    returns (out: seq<((D, T), R)>)
    requires IsLattice(L) && IsTotalOrder(leq) && IsDifference(G) && f != []
    ensures forall d, t :: Beyond(L, Elements(f), t) ==>
              Accumulated(L, G, out, d, t) == Accumulated(L, G, updates, d, t)
    ensures StrictlySorted(leq, out) && NonZero(G, out)
    ensures |out| <= |updates|
  {
    var advanced := [];
    for i := 0 to |updates|
      invariant advanced == Advanced(L, f, updates)[..i]
    {
      var time := AdvanceBy(L, f, updates[i].0.1);
      advanced := advanced + [((updates[i].0.0, time), updates[i].1)];
    }
    assert advanced == Advanced(L, f, updates);
    out := ConsolidateFrom(leq, G, advanced, 0);
    assert advanced[0..] == advanced && out[0..] == out;
    forall d, t | Beyond(L, Elements(f), t)
      ensures Accumulated(L, G, out, d, t) == Accumulated(L, G, updates, d, t)
    {
      AdvancedAccumulates(L, G, f, updates, d, t);
    }
  }
}
