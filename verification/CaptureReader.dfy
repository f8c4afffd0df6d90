/**
  The state of the deduplicating, re-ordering reader between the steps of its main loop, the
  invariant that ties it to the messages consumed so far, and one lemma for each step.
 */
module CaptureReader {
  import opened Lattices
  import opened Frontiers
  import opened Sequences
  import opened Capture

  datatype Reader<D(==), T(==), R(==)> = Reader(
    updates: set<Update<D, T, R>>,   // received, and beyond the reported frontier
    reported: set<T>,                // the frontier through which updates have been reported
    progress: set<T>,                // the frontier of accepted progress statements
    counts: map<T, int>,             // announced minus received, per time; may be negative
    queue: seq<Progress<T>>)         // statements not yet actionable

  // ----- update_iter -----

  /** `MutableAntichain::update_iter`. */
  function AddAll<T>(counts: map<T, int>, changes: seq<(T, int)>): map<T, int>
    decreases |changes|
  {
    if changes == [] then counts
    else
      var (t, c) := changes[0];
      AddAll(counts[t := Count(counts, t) + c], changes[1..])
  }

  lemma {:induction false} AddAllCounts<T(!new)>(counts: map<T, int>, changes: seq<(T, int)>)
    ensures forall t :: Count(AddAll(counts, changes), t) == Count(counts, t) + Total(changes, t)
    decreases |changes|
  {
    if changes != [] {
      var (t, c) := changes[0];
      AddAllCounts(counts[t := Count(counts, t) + c], changes[1..]);
    }
  }

  /** One decrement for each update. */
  function Decrements<D, T, R>(updates: seq<Update<D, T, R>>): seq<(T, int)> {
    seq(|updates|, i requires 0 <= i < |updates| => (updates[i].1, -1))
  }

  /** The number of positions of `updates` at `t`. */
  function Occurrences<D, T(==), R>(updates: seq<Update<D, T, R>>, t: T): nat {
    if updates == [] then 0 else (if updates[0].1 == t then 1 else 0) + Occurrences(updates[1..], t)
  }

  lemma {:induction false} DecrementsTotal<D, T(!new), R>(updates: seq<Update<D, T, R>>, t: T)
    ensures Total(Decrements(updates), t) == 0 - Occurrences(updates, t)
  {
    if updates != [] {
      assert Decrements(updates)[1..] == Decrements(updates[1..]);
      DecrementsTotal(updates[1..], t);
    }
  }

  /** Occurrences count the distinct updates exactly when nothing is repeated. */
  lemma {:induction false} OccurrencesBound<D(!new), T(!new), R(!new)>(updates: seq<Update<D, T, R>>, t: T)
    ensures |At(Elements(updates), t)| <= Occurrences(updates, t)
    ensures Distinct(updates) ==> |At(Elements(updates), t)| == Occurrences(updates, t)
  {
    if updates == [] {
      assert At(Elements(updates), t) == {};
    } else {
      OccurrencesBound(updates[1..], t);
      AtFirst(updates, t);
    }
  }

  lemma AtFirst<D(!new), T(!new), R(!new)>(updates: seq<Update<D, T, R>>, t: T)
    requires updates != []
    ensures var u, rest := updates[0], At(Elements(updates[1..]), t);
            |At(Elements(updates), t)| == if u.1 == t && u !in updates[1..] then |rest| + 1 else |rest|
    ensures Distinct(updates) ==> updates[0] !in updates[1..] && Distinct(updates[1..])
  {
    var u, rest := updates[0], updates[1..];
    assert Elements(updates) == {u} + Elements(rest);
    if u.1 == t && u !in rest {
      assert At(Elements(updates), t) == {u} + At(Elements(rest), t);
    } else {
      assert At(Elements(updates), t) == At(Elements(rest), t);
    }
  }

  lemma RepeatIsOvercounted<D(!new), T(!new), R(!new)>(updates: seq<Update<D, T, R>>) returns (t: T)
    requires !Distinct(updates)
    ensures |At(Elements(updates), t)| < Occurrences(updates, t)
  {
    var u, rest := updates[0], updates[1..];
    assert Elements(updates) == {u} + Elements(rest);
    if u in rest {
      t := u.1;
      assert Elements(updates) == Elements(rest);
      OccurrencesBound(rest, t);
    } else {
      assert Distinct(rest) ==> Distinct(updates);
      t := RepeatIsOvercounted(rest);
      if u.1 == t {
        assert At(Elements(updates), t) == {u} + At(Elements(rest), t);
      } else {
        assert At(Elements(updates), t) == At(Elements(rest), t);
      }
    }
  }

  // ----- the invariant -----

  /**
    The signed counts are exact: at each time, what the accepted statements announce minus
    what has been received, whichever came first.
   */
  ghost predicate CountsExact<D, T(!new), R>(
    L: Lattice<T>, facts: T -> set<Update<D, T, R>>, received: set<Update<D, T, R>>,
    progress: set<T>, counts: map<T, int>)
  {
    forall t :: Count(counts, t) == (if Beyond(L, progress, t) then 0 else |facts(t)|) - |At(received, t)|
  }

  /** The retained updates are exactly those received beyond the reported frontier, and below it nothing is missing. */
  ghost predicate UpdatesExact<D, T(!new), R>(
    L: Lattice<T>, facts: T -> set<Update<D, T, R>>, received: set<Update<D, T, R>>,
    reported: set<T>, updates: set<Update<D, T, R>>)
  {
    && updates == (set u | u in received && Beyond(L, reported, u.1))
    && forall t :: !Beyond(L, reported, t) ==> At(received, t) == facts(t)
  }

  /** Every consumed statement is queued or already covered by the progress frontier, which overreaches none. */
  ghost predicate StatementsExact<D, T(!new), R>(
    L: Lattice<T>, bottom: T, consumed: seq<Message<D, T, R>>, progress: set<T>, queue: seq<Progress<T>>)
  {
    && FrontierLeq(L, {bottom}, progress)
    && (forall p :: p in queue ==> Statement(p) in consumed)
    && (forall p :: Statement(p) in consumed ==> p in queue || FrontierLeq(L, Elements(p.upper), progress))
    && Reachable(L, bottom, consumed, progress)
  }

  ghost predicate Inv<D(!new), T(!new), R(!new)>(
    L: Lattice<T>, bottom: T, facts: T -> set<Update<D, T, R>>, consumed: seq<Message<D, T, R>>, s: Reader<D, T, R>)
  {
    && AllTruthful(L, facts, consumed)
    && IsAntichain(L, s.reported) && IsAntichain(L, s.progress)
    && FrontierLeq(L, s.reported, s.progress)
    && UpdatesExact(L, facts, Received(consumed), s.reported, s.updates)
    && CountsExact(L, facts, Received(consumed), s.progress, s.counts)
    && StatementsExact(L, bottom, consumed, s.progress, s.queue)
  }

  predicate Actionable<T(==)>(L: Lattice<T>, p: Progress<T>, progress: set<T>) {
    FrontierLeq(L, Elements(p.lower), progress)
  }

  /** No queued statement is actionable. */
  ghost predicate Drained<D, T, R>(L: Lattice<T>, s: Reader<D, T, R>) {
    forall p :: p in s.queue ==> !Actionable(L, p, s.progress)
  }

  ghost predicate PositiveBelow<T(!new)>(L: Lattice<T>, counts: map<T, int>, t: T) {
    exists s :: Count(counts, s) > 0 && L.leq(s, t)
  }

  /** The lower bound of `progress` and of the times with a positive count. */
  ghost predicate IsLowerBound<D, T(!new), R>(L: Lattice<T>, s: Reader<D, T, R>, bound: set<T>) {
    IsFrontierOf(L, bound, t => Beyond(L, s.progress, t) || PositiveBelow(L, s.counts, t))
  }

  /** Between messages the reader has drained its queue and reported all it can. */
  ghost predicate Quiescent<D(!new), T(!new), R(!new)>(L: Lattice<T>, s: Reader<D, T, R>) {
    Drained(L, s) && IsLowerBound(L, s, s.reported)
  }

  // ----- facts about the invariant -----

  lemma ReceivedSound<D(!new), T(!new), R(!new)>(
    L: Lattice<T>, facts: T -> set<Update<D, T, R>>, messages: seq<Message<D, T, R>>, t: T)
    requires AllTruthful(L, facts, messages)
    ensures At(Received(messages), t) <= facts(t)
  {
    forall u | u in At(Received(messages), t)
      ensures u in facts(t)
    {
      var m :| m in messages && m.Updates? && u in m.updates;
      assert Truthful(L, facts, m);
    }
  }

  /** At quiescence the reader's frontiers are the ones the consumed messages determine. */
  lemma QuiescentIsSettled<D(!new), T(!new), R(!new)>(
    L: Lattice<T>, bottom: T, facts: T -> set<Update<D, T, R>>, consumed: seq<Message<D, T, R>>, s: Reader<D, T, R>)
    requires IsPartialOrder(L) && Inv(L, bottom, facts, consumed, s) && Quiescent(L, s)
    ensures Settled(L, bottom, facts, consumed, s.progress, s.reported)
  {
    var received := Received(consumed);
    forall t
      ensures Count(s.counts, t) > 0 <==> Outstanding(L, facts, received, s.progress, t)
    {
      ReceivedSound(L, facts, consumed, t);
      SubsetSize(At(received, t), facts(t));
    }
    forall t
      ensures PositiveBelow(L, s.counts, t) <==> Awaiting(L, facts, received, s.progress, t)
    {
      if PositiveBelow(L, s.counts, t) {
        var u :| Count(s.counts, u) > 0 && L.leq(u, t);
        assert Outstanding(L, facts, received, s.progress, u);
      }
      if Awaiting(L, facts, received, s.progress, t) {
        var u :| Outstanding(L, facts, received, s.progress, u) && L.leq(u, t);
        assert Count(s.counts, u) > 0;
      }
    }
    forall p | Statement(p) in consumed && FrontierLeq(L, Elements(p.lower), s.progress)
      ensures FrontierLeq(L, Elements(p.upper), s.progress)
    {
      assert p in s.queue ==> !Actionable(L, p, s.progress);
    }
  }

  // ----- accepting updates -----

  lemma ReceivedAppend<D(!new), T(!new), R(!new)>(messages: seq<Message<D, T, R>>, m: Message<D, T, R>)
    ensures Received(messages + [m]) == Received(messages) + (if m.Updates? then Elements(m.updates) else {})
  {
    var left, right := Received(messages + [m]), Received(messages) + (if m.Updates? then Elements(m.updates) else {});
    forall u
      ensures u in left <==> u in right
    {
      if u in left {
        var k :| k in messages + [m] && k.Updates? && u in k.updates;
      }
      if u in Received(messages) {
        var k :| k in messages && k.Updates? && u in k.updates;
        assert k in messages + [m];
      }
      if m.Updates? && u in m.updates {
        assert m in messages + [m];
      }
    }
  }

  /** The updates that survive the `retain`: unreported and not already held. */
  function Kept<D(==), T(==), R(==)>(L: Lattice<T>, s: Reader<D, T, R>,
                                     updates: seq<Update<D, T, R>>): seq<Update<D, T, R>> {
    Filter(updates, (u: Update<D, T, R>) => Beyond(L, s.reported, u.1) && u !in s.updates)
  }

  /** The state after the `Updates` arm. */
  function AcceptUpdates<D(==), T(==), R(==)>(L: Lattice<T>, s: Reader<D, T, R>,
                                              updates: seq<Update<D, T, R>>): Reader<D, T, R> {
    var kept := Kept(L, s, updates);
    s.(counts := AddAll(s.counts, Decrements(kept)), updates := s.updates + Elements(kept))
  }

  /** What is kept is exactly what had not been received. */
  lemma KeptIsNew<D(!new), T(!new), R(!new)>(
    L: Lattice<T>, bottom: T, facts: T -> set<Update<D, T, R>>, consumed: seq<Message<D, T, R>>, s: Reader<D, T, R>,
    updates: seq<Update<D, T, R>>)
    requires Inv(L, bottom, facts, consumed, s) && TruthfulUpdates(facts, updates)
    ensures Elements(Kept(L, s, updates)) == Elements(updates) - Received(consumed)
    ensures forall u :: u in Kept(L, s, updates) ==> Beyond(L, s.reported, u.1)
  {
    var received := Received(consumed);
    FilterMembers(updates, (u: Update<D, T, R>) => Beyond(L, s.reported, u.1) && u !in s.updates);
    forall u | u in updates
      ensures u in received <==> !(Beyond(L, s.reported, u.1) && u !in s.updates)
    {
      if !Beyond(L, s.reported, u.1) {
        assert u in At(received, u.1);
      }
    }
  }

  /** A truthful list keeps the counts exact if and only if what is kept of it repeats nothing. */
  lemma CountsExactIffNoRepeat<D(!new), T(!new), R(!new)>(
    L: Lattice<T>, bottom: T, facts: T -> set<Update<D, T, R>>, consumed: seq<Message<D, T, R>>, s: Reader<D, T, R>,
    updates: seq<Update<D, T, R>>)
    requires Inv(L, bottom, facts, consumed, s) && TruthfulUpdates(facts, updates)
    ensures CountsExact(L, facts, Received(consumed + [Updates(updates)]), s.progress,
                        AcceptUpdates(L, s, updates).counts)
       <==> Distinct(Kept(L, s, updates))
  {
    var received, kept := Received(consumed), Kept(L, s, updates);
    var received' := Received(consumed + [Updates(updates)]);
    var s' := AcceptUpdates(L, s, updates);
    KeptIsNew(L, bottom, facts, consumed, s, updates);
    ReceivedAppend(consumed, Updates(updates));
    AddAllCounts(s.counts, Decrements(kept));
    forall t
      ensures |At(received', t)| == |At(received, t)| + |At(Elements(kept), t)|
      ensures Count(s'.counts, t) == Count(s.counts, t) - Occurrences(kept, t)
      ensures Distinct(kept) ==> |At(Elements(kept), t)| == Occurrences(kept, t)
    {
      assert At(received', t) == At(received, t) + At(Elements(kept), t);
      DecrementsTotal(kept, t);
      OccurrencesBound(kept, t);
    }
    if !Distinct(kept) {
      var t := RepeatIsOvercounted(kept);
      assert Count(s'.counts, t) != (if Beyond(L, s.progress, t) then 0 else |facts(t)|) - |At(received', t)|;
    }
  }

  lemma StatementsExactAppend<D(!new), T(!new), R(!new)>(
    L: Lattice<T>, bottom: T, consumed: seq<Message<D, T, R>>, m: Message<D, T, R>, progress: set<T>,
    queue: seq<Progress<T>>, queue': seq<Progress<T>>)
    requires StatementsExact(L, bottom, consumed, progress, queue)
    requires queue' == queue + (if m.Statement? then [m.progress] else [])
    ensures StatementsExact(L, bottom, consumed + [m], progress, queue')
  {
    forall g | FrontierLeq(L, {bottom}, g) && Closed(L, consumed + [m], g)
      ensures FrontierLeq(L, progress, g)
    {
      assert Closed(L, consumed, g) by {
        forall p | Statement(p) in consumed && FrontierLeq(L, Elements(p.lower), g)
          ensures FrontierLeq(L, Elements(p.upper), g)
        {
          assert Statement(p) in consumed + [m];
        }
      }
    }
  }

  lemma AcceptUpdatesKeepsInv<D(!new), T(!new), R(!new)>(
    L: Lattice<T>, bottom: T, facts: T -> set<Update<D, T, R>>, consumed: seq<Message<D, T, R>>, s: Reader<D, T, R>,
    updates: seq<Update<D, T, R>>)
    requires Inv(L, bottom, facts, consumed, s) && Truthful(L, facts, Updates(updates))
    ensures Inv(L, bottom, facts, consumed + [Updates(updates)], AcceptUpdates(L, s, updates))
  {
    var received, kept := Received(consumed), Kept(L, s, updates);
    var received' := Received(consumed + [Updates(updates)]);
    KeptIsNew(L, bottom, facts, consumed, s, updates);
    ReceivedAppend(consumed, Updates(updates));
    FilterDistinct(updates, (u: Update<D, T, R>) => Beyond(L, s.reported, u.1) && u !in s.updates);
    CountsExactIffNoRepeat(L, bottom, facts, consumed, s, updates);
    StatementsExactAppend(L, bottom, consumed, Updates(updates), s.progress, s.queue, s.queue);
    forall t | !Beyond(L, s.reported, t)
      ensures At(received', t) == facts(t)
    {
      forall u | u in At(received', t)
        ensures u in At(received, t)
      {
        assert u in kept ==> Beyond(L, s.reported, u.1);
      }
    }
    assert AllTruthful(L, facts, consumed + [Updates(updates)]);
  }

  // ----- accepting statements -----

  lemma QueueKeepsInv<D(!new), T(!new), R(!new)>(
    L: Lattice<T>, bottom: T, facts: T -> set<Update<D, T, R>>, consumed: seq<Message<D, T, R>>, s: Reader<D, T, R>,
    p: Progress<T>)
    requires Inv(L, bottom, facts, consumed, s) && TruthfulProgress(L, facts, p)
    ensures Inv(L, bottom, facts, consumed + [Statement(p)], s.(queue := s.queue + [p]))
  {
    var m: Message<D, T, R> := Statement(p);
    ReceivedAppend(consumed, m);
    assert Received(consumed + [m]) == Received(consumed);
    StatementsExactAppend(L, bottom, consumed, m, s.progress, s.queue, s.queue + [p]);
    assert Truthful(L, facts, m);
    assert AllTruthful(L, facts, consumed + [m]);
  }

  /** The counts of a statement that the progress frontier has not passed. */
  function FreshCounts<T(==)>(L: Lattice<T>, counts: seq<(T, nat)>, progress: set<T>): seq<(T, nat)> {
    Filter(counts, (c: (T, nat)) => Beyond(L, progress, c.0))
  }

  lemma {:induction false} FreshCountsTotal<T(!new)>(L: Lattice<T>, counts: seq<(T, nat)>, progress: set<T>, t: T)
    ensures Total(FreshCounts(L, counts, progress), t) == if Beyond(L, progress, t) then Total(counts, t) else 0
  {
    if counts != [] {
      FreshCountsTotal(L, counts[1..], progress, t);
      var kept := FreshCounts(L, counts[1..], progress);
      if Beyond(L, progress, counts[0].0) {
        assert FreshCounts(L, counts, progress) == [counts[0]] + kept;
      } else {
        assert FreshCounts(L, counts, progress) == kept;
      }
    }
  }

  lemma {:induction false} TotalElsewhere<T(!new)>(counts: seq<(T, int)>, t: T)
    requires forall i :: 0 <= i < |counts| ==> counts[i].0 != t
    ensures Total(counts, t) == 0
  {
    if counts != [] {
      assert counts[0].0 != t;
      forall i | 0 <= i < |counts[1..]|
        ensures counts[1..][i].0 != t
      {
        assert counts[1..][i] == counts[i + 1];
      }
      TotalElsewhere(counts[1..], t);
    }
  }

  /** The counts added while passing from `progress` to `next` are the facts in between. */
  lemma StatementCounts<D(!new), T(!new), R(!new)>(
    L: Lattice<T>, facts: T -> set<Update<D, T, R>>, p: Progress<T>, progress: set<T>, next: set<T>, t: T)
    requires IsPartialOrder(L) && TruthfulProgress(L, facts, p) && Actionable(L, p, progress)
    requires IsFrontierOf(L, next, x => Beyond(L, Elements(p.upper), x) && Beyond(L, progress, x))
    ensures Total(FreshCounts(L, p.counts, progress), t)
         == if Beyond(L, progress, t) && !Beyond(L, next, t) then |facts(t)| else 0
  {
    FreshCountsTotal(L, p.counts, progress, t);
    FrontierLeqMeaning(L, Elements(p.lower), progress);
    if Beyond(L, progress, t) && Beyond(L, Elements(p.upper), t) {
      forall i | 0 <= i < |p.counts|
        ensures p.counts[i].0 != t
      {
        assert Covers(L, p, p.counts[i].0);
      }
      TotalElsewhere(p.counts, t);
    }
  }

  lemma {:induction false} CountsExactAfterStatement<D(!new), T(!new), R(!new)>(
    L: Lattice<T>, facts: T -> set<Update<D, T, R>>, received: set<Update<D, T, R>>, progress: set<T>,
    counts: map<T, int>, p: Progress<T>, next: set<T>)
    requires IsPartialOrder(L) && TruthfulProgress(L, facts, p) && Actionable(L, p, progress)
    requires IsFrontierOf(L, next, x => Beyond(L, Elements(p.upper), x) && Beyond(L, progress, x))
    requires CountsExact(L, facts, received, progress, counts)
    ensures CountsExact(L, facts, received, next, AddAll(counts, FreshCounts(L, p.counts, progress)))
  {
    AddAllCounts(counts, FreshCounts(L, p.counts, progress));
    forall t
      ensures Count(AddAll(counts, FreshCounts(L, p.counts, progress)), t)
           == (if Beyond(L, next, t) then 0 else |facts(t)|) - |At(received, t)|
    {
      StatementCounts(L, facts, p, progress, next, t);
    }
  }

  /** Acting on an actionable statement keeps the statement bookkeeping, whatever covered statements are pruned. */
  lemma StatementsExactAfterStatement<D(!new), T(!new), R(!new)>(
    L: Lattice<T>, bottom: T, consumed: seq<Message<D, T, R>>, progress: set<T>, queue: seq<Progress<T>>,
    position: nat, next: set<T>, queue': seq<Progress<T>>)
    requires IsPartialOrder(L) && StatementsExact(L, bottom, consumed, progress, queue)
    requires position < |queue| && Actionable(L, queue[position], progress)
    requires IsFrontierOf(L, next, x => Beyond(L, Elements(queue[position].upper), x) && Beyond(L, progress, x))
    requires queue' == Pruned(L, queue[..position] + queue[position + 1..], next)
    ensures StatementsExact(L, bottom, consumed, next, queue')
  {
    var p := queue[position];
    assert p in queue;
    FrontierLeqMeaning(L, progress, next);
    FrontierLeqMeaning(L, Elements(p.upper), next);
    StatementsStay(L, consumed, progress, queue, position, next, queue');
    StaysReachable(L, bottom, consumed, progress, p, next);
    FrontierLeqTransitive(L, {bottom}, progress, next);
    hide FrontierLeq, Reachable, IsPartialOrder, IsFrontierOf, Actionable, Pruned;
  }

  /** Statements leave the queue only when the frontier has passed them. */
  lemma StatementsStay<D(!new), T(!new), R(!new)>(
    L: Lattice<T>, consumed: seq<Message<D, T, R>>, progress: set<T>, queue: seq<Progress<T>>,
    position: nat, next: set<T>, queue': seq<Progress<T>>)
    requires IsPartialOrder(L) && position < |queue|
    requires FrontierLeq(L, progress, next) && FrontierLeq(L, Elements(queue[position].upper), next)
    requires forall p :: p in queue ==> Statement(p) in consumed
    requires forall p :: Statement(p) in consumed ==> p in queue || FrontierLeq(L, Elements(p.upper), progress)
    requires queue' == Pruned(L, queue[..position] + queue[position + 1..], next)
    ensures forall p :: p in queue' ==> Statement(p) in consumed
    ensures forall p :: Statement(p) in consumed ==> p in queue' || FrontierLeq(L, Elements(p.upper), next)
  {
    var rest := queue[..position] + queue[position + 1..];
    FilterMembers(rest, (q: Progress<T>) => !FrontierLeq(L, Elements(q.upper), next));
    hide FrontierLeq;
    forall q | Statement(q) in consumed
      ensures q in queue' || FrontierLeq(L, Elements(q.upper), next)
    {
      if q !in queue {
        FrontierLeqTransitive(L, Elements(q.upper), progress, next);
      } else if q != queue[position] {
        assert q in rest;
      }
    }
  }

  /** Whatever the statements imply has passed the progress frontier has passed the joined one. */
  lemma StaysReachable<D(!new), T(!new), R(!new)>(
    L: Lattice<T>, bottom: T, consumed: seq<Message<D, T, R>>, progress: set<T>, p: Progress<T>, next: set<T>)
    requires IsPartialOrder(L) && Reachable(L, bottom, consumed, progress)
    requires Statement(p) in consumed && FrontierLeq(L, Elements(p.lower), progress)
    requires IsFrontierOf(L, next, x => Beyond(L, Elements(p.upper), x) && Beyond(L, progress, x))
    ensures Reachable(L, bottom, consumed, next)
  {
    forall g | FrontierLeq(L, {bottom}, g) && Closed(L, consumed, g)
      ensures FrontierLeq(L, next, g)
    {
      assert FrontierLeq(L, progress, g);
      FrontierLeqTransitive(L, Elements(p.lower), progress, g);
      PassesJoin(L, Elements(p.upper), progress, next, g);
    }
  }

  lemma PassesJoin<T(!new)>(L: Lattice<T>, a: set<T>, b: set<T>, next: set<T>, g: set<T>)
    requires IsPartialOrder(L) && FrontierLeq(L, a, g) && FrontierLeq(L, b, g)
    requires IsFrontierOf(L, next, x => Beyond(L, a, x) && Beyond(L, b, x))
    ensures FrontierLeq(L, next, g)
  {
    FrontierLeqMeaning(L, a, g);
    FrontierLeqMeaning(L, b, g);
    FrontierLeqMeaning(L, next, g);
  }

  /** The statements left after dropping those the frontier covers. */
  function Pruned<T(==)>(L: Lattice<T>, queue: seq<Progress<T>>, progress: set<T>): seq<Progress<T>> {
    Filter(queue, (p: Progress<T>) => !FrontierLeq(L, Elements(p.upper), progress))
  }

  /** The state after acting on the statement at `position`, given the joined frontier. */
  function ActOn<D, T(==), R>(L: Lattice<T>, s: Reader<D, T, R>, position: nat, next: set<T>): Reader<D, T, R>
    requires position < |s.queue|
  {
    s.(counts := AddAll(s.counts, FreshCounts(L, s.queue[position].counts, s.progress)),
       queue := Pruned(L, s.queue[..position] + s.queue[position + 1..], next),
       progress := next)
  }

  lemma ActOnKeepsInv<D(!new), T(!new), R(!new)>(
    L: Lattice<T>, bottom: T, facts: T -> set<Update<D, T, R>>, consumed: seq<Message<D, T, R>>, s: Reader<D, T, R>,
    position: nat, next: set<T>)
    requires IsPartialOrder(L) && Inv(L, bottom, facts, consumed, s)
    requires position < |s.queue| && Actionable(L, s.queue[position], s.progress)
    requires IsFrontierOf(L, next, x => Beyond(L, Elements(s.queue[position].upper), x) && Beyond(L, s.progress, x))
    ensures Inv(L, bottom, facts, consumed, ActOn(L, s, position, next))
  {
    var p := s.queue[position];
    var m: Message<D, T, R> := Statement(p);
    assert m in consumed && Truthful(L, facts, m);
    CountsExactAfterStatement(L, facts, Received(consumed), s.progress, s.counts, p, next);
    StatementsExactAfterStatement(L, bottom, consumed, s.progress, s.queue, position, next,
                                  ActOn(L, s, position, next).queue);
    FrontierLeqMeaning(L, s.progress, next);
    FrontierLeqTransitive(L, s.reported, s.progress, next);
  }

  // ----- reporting -----

  /** The state after reporting through `bound`. */
  function ReportThrough<D(==), T(==), R(==)>(L: Lattice<T>, s: Reader<D, T, R>, bound: set<T>): Reader<D, T, R> {
    s.(updates := UpdatesBeyond(L, s.updates, bound), reported := bound)
  }

  function UpdatesBeyond<D(==), T(==), R(==)>(L: Lattice<T>, updates: set<Update<D, T, R>>, bound: set<T>)
    : set<Update<D, T, R>>
  {
    set u | u in updates && Beyond(L, bound, u.1)
  }

  function UpdatesBefore<D(==), T(==), R(==)>(L: Lattice<T>, updates: set<Update<D, T, R>>, bound: set<T>)
    : set<Update<D, T, R>>
  {
    set u | u in updates && !Beyond(L, bound, u.1)
  }

  /** The lower bound never retreats, and below it every fact has been received. */
  lemma LowerBoundIsSafe<D(!new), T(!new), R(!new)>(
    L: Lattice<T>, bottom: T, facts: T -> set<Update<D, T, R>>, consumed: seq<Message<D, T, R>>, s: Reader<D, T, R>,
    bound: set<T>)
    requires IsPartialOrder(L) && Inv(L, bottom, facts, consumed, s) && IsLowerBound(L, s, bound)
    ensures FrontierLeq(L, s.reported, bound)
    ensures FrontierLeq(L, bound, s.progress)
    ensures forall t :: !Beyond(L, bound, t) ==> At(Received(consumed), t) == facts(t)
  {
    FrontierLeqMeaning(L, s.reported, s.progress);
    forall t | Beyond(L, bound, t)
      ensures Beyond(L, s.reported, t)
    {
      if PositiveBelow(L, s.counts, t) && !Beyond(L, s.progress, t) {
        var x :| Count(s.counts, x) > 0 && L.leq(x, t);
        assert !Beyond(L, s.reported, x) ==> At(Received(consumed), x) == facts(x);
        BeyondUpward(L, s.reported, x, t);
      }
    }
    FrontierLeqMeaning(L, s.reported, bound);
    FrontierLeqMeaning(L, bound, s.progress);
    forall t | !Beyond(L, bound, t)
      ensures At(Received(consumed), t) == facts(t)
    {
      ReceivedSound(L, facts, consumed, t);
      SubsetSize(At(Received(consumed), t), facts(t));
      assert L.leq(t, t);
      assert !PositiveBelow(L, s.counts, t);
      assert Count(s.counts, t) <= 0;
    }
  }

  /** What is held and not beyond the new bound is exactly the true updates of the carved interval. */
  lemma CarvedInterval<D(!new), T(!new), R(!new)>(
    L: Lattice<T>, bottom: T, facts: T -> set<Update<D, T, R>>, consumed: seq<Message<D, T, R>>, s: Reader<D, T, R>,
    bound: set<T>)
    requires IsPartialOrder(L) && WellTimed(facts) && Inv(L, bottom, facts, consumed, s) && IsLowerBound(L, s, bound)
    ensures Inv(L, bottom, facts, consumed, ReportThrough(L, s, bound))
    ensures forall u :: u in s.updates && !Beyond(L, bound, u.1)
                   <==> u in facts(u.1) && Beyond(L, s.reported, u.1) && !Beyond(L, bound, u.1)
  {
    LowerBoundIsSafe(L, bottom, facts, consumed, s, bound);
    FrontierLeqMeaning(L, s.reported, bound);
    var received := Received(consumed);
    forall u
      ensures u in s.updates && !Beyond(L, bound, u.1)
         <==> u in facts(u.1) && Beyond(L, s.reported, u.1) && !Beyond(L, bound, u.1)
    {
      if !Beyond(L, bound, u.1) {
        assert u in At(received, u.1) <==> u in facts(u.1);
      }
    }
    assert ReportThrough(L, s, bound).updates == (set u | u in received && Beyond(L, bound, u.1));
  }

  // ----- a message that repeats a triple -----

  lemma {:induction false} TwiceTheSame(u: Update<int, int, int>, t: int)
    ensures Occurrences([u, u], t) == if t == u.1 then 2 else 0
  {
    assert [u, u][1..] == [u];
    assert Occurrences([u], t) == if t == u.1 then 1 else 0;
  }

  /** A statement that two updates occur at time 0 and none before time 1. */
  lemma TwoAtZero(facts: int -> set<Update<int, int, int>>)
    requires |facts(0)| == 2
    ensures TruthfulProgress(TotalOrder(), facts, Progress([0], [1], [(0, 2)]))
    ensures Actionable(TotalOrder(), Progress([0], [1], [(0, 2)]), {0})
  {
    var L, p := TotalOrder(), Progress([0], [1], [(0, 2)]);
    assert Elements(p.lower) == {0} && Elements(p.upper) == {1};
    assert 0 in {0} && L.leq(0, 0) && !Beyond(L, {1}, 0);
    forall t | Covers(L, p, t)
      ensures t == 0
    {
      assert 1 in {1} && (t >= 1 ==> L.leq(1, t));
    }
  }

  /** A reader that has received one triple twice, in one message. */
  function HeldTwice(u: Update<int, int, int>): Reader<int, int, int> {
    AcceptUpdates(TotalOrder(), Reader({}, {0}, {0}, map[], []), [u, u])
  }

  lemma HeldTwiceCounts(u: Update<int, int, int>, t: int)
    requires u.1 == 0
    ensures HeldTwice(u).updates == {u}
    ensures Count(HeldTwice(u).counts, t) == if t == 0 then -2 else 0
  {
    var L, start: Reader<int, int, int> := TotalOrder(), Reader({}, {0}, {0}, map[], []);
    assert 0 in {0} && L.leq(0, 0);
    assert [u, u][1..] == [u];
    var keep := (v: Update<int, int, int>) => Beyond(L, start.reported, v.1) && v !in start.updates;
    assert keep(u) && Filter([u], keep) == [u];
    assert Kept(L, start, [u, u]) == [u, u];
    AddAllCounts(start.counts, Decrements([u, u]));
    DecrementsTotal([u, u], t);
    TwiceTheSame(u, t);
  }

  /** The same reader after acting on the statement that two updates occur at time 0. */
  function ActedTwice(u: Update<int, int, int>): Reader<int, int, int> {
    ActOn(TotalOrder(), HeldTwice(u).(queue := [Progress([0], [1], [(0, 2)])]), 0, {1})
  }

  lemma ActedTwiceCounts(u: Update<int, int, int>, t: int)
    requires u.1 == 0
    ensures Count(ActedTwice(u).counts, t) == 0
    ensures ActedTwice(u).updates == {u} && ActedTwice(u).progress == {1}
  {
    var L, counts: seq<(int, nat)> := TotalOrder(), [(0, 2)];
    var held := HeldTwice(u);
    HeldTwiceCounts(u, t);
    assert 0 in {0} && L.leq(0, 0);
    assert FreshCounts(L, counts, {0}) == counts;
    AddAllCounts(held.counts, counts);
    assert Total(counts, t) == if t == 0 then 2 else 0;
  }

  lemma BalancedBound<D(!new), T(!new), R(!new)>(L: Lattice<T>, s: Reader<D, T, R>)
    requires IsAntichain(L, s.progress) && forall t :: Count(s.counts, t) <= 0
    ensures IsLowerBound(L, s, s.progress)
  {
  }

  lemma RepeatIsTruthful(first: Update<int, int, int>, second: Update<int, int, int>,
                         facts: int -> set<Update<int, int, int>>)
    requires first != second && first.1 == 0 && second.1 == 0 && facts(0) == {first, second}
    ensures TruthfulUpdates(facts, [first, first])
    ensures TruthfulProgress(TotalOrder(), facts, Progress([0], [1], [(0, 2)]))
    ensures Actionable(TotalOrder(), Progress([0], [1], [(0, 2)]), {0})
  {
    TwoAtZero(facts);
  }

  lemma RepeatPassesZero(u: Update<int, int, int>)
    requires u.1 == 0
    ensures IsLowerBound(TotalOrder(), ActedTwice(u), {1}) && !Beyond(TotalOrder(), {1}, 0)
    ensures ActedTwice(u).updates == {u}
  {
    hide ActedTwice;
    var s := ActedTwice(u);
    ActedTwiceCounts(u, 0);
    forall t
      ensures Count(s.counts, t) <= 0
    {
      ActedTwiceCounts(u, t);
    }
    BalancedBound(TotalOrder(), s);
  }

  /**
    A message that carries one triple twice is counted twice.  Two updates occur at time 0 and
    only the first is ever received, yet the counts balance and the bound passes time 0.
   */
  lemma RepeatedTripleLosesUpdate(first: Update<int, int, int>, second: Update<int, int, int>,
                                  facts: int -> set<Update<int, int, int>>)
    requires first != second && first.1 == 0 && second.1 == 0 && facts(0) == {first, second}
    ensures TruthfulUpdates(facts, [first, first])
    ensures TruthfulProgress(TotalOrder(), facts, Progress([0], [1], [(0, 2)]))
    ensures Actionable(TotalOrder(), Progress([0], [1], [(0, 2)]), {0})
    ensures IsLowerBound(TotalOrder(), ActedTwice(first), {1}) && !Beyond(TotalOrder(), {1}, 0)
    ensures second in facts(0) && second !in ActedTwice(first).updates
  {
    hide *;
    RepeatIsTruthful(first, second, facts);
    RepeatPassesZero(first);
  }
}
