/**
  `Iter`: draws messages from a source that may duplicate and re-order them, and yields each
  true update once, in batches that carve successive intervals of time.
 */
module CaptureIter {
  import opened Lattices
  import opened Frontiers
  import opened Sequences
  import opened Capture
  import opened CaptureReader
  import opened Wrappers

  /** The true updates of the interval from `from` to `until`, once each. */
  ghost predicate IsInterval<D(!new), T(!new), R(!new)>(
    L: Lattice<T>, facts: T -> set<Update<D, T, R>>, batch: seq<Update<D, T, R>>, from: set<T>, until: set<T>)
  {
    && Distinct(batch)
    && forall u :: u in batch <==> u in facts(u.1) && Beyond(L, from, u.1) && !Beyond(L, until, u.1)
  }

  lemma EmittedGrows<D(!new), T(!new), R(!new)>(
    L: Lattice<T>, facts: T -> set<Update<D, T, R>>, emitted: seq<Update<D, T, R>>, from: set<T>,
    batch: seq<Update<D, T, R>>, until: set<T>)
    requires IsPartialOrder(L) && FrontierLeq(L, from, until)
    requires EmittedExactly(L, facts, emitted, from) && IsInterval(L, facts, batch, from, until)
    ensures EmittedExactly(L, facts, emitted + batch, until)
  {
    FrontierLeqMeaning(L, from, until);
    assert forall u :: u in emitted ==> u !in batch;
  }

  lemma PublishIsExact<D(!new), T(!new), R(!new)>(
    L: Lattice<T>, minimum: T, facts: T -> set<Update<D, T, R>>, consumed: seq<Message<D, T, R>>, s: Reader<D, T, R>,
    emitted: seq<Update<D, T, R>>, batch: seq<Update<D, T, R>>, bound: set<T>)
    requires IsPartialOrder(L) && WellTimed(facts) && Inv(L, minimum, facts, consumed, s)
    requires Drained(L, s) && IsLowerBound(L, s, bound) && EmittedExactly(L, facts, emitted, s.reported)
    requires Distinct(batch) && Elements(batch) == UpdatesBefore(L, s.updates, bound)
    ensures FrontierLeq(L, s.reported, bound)
    ensures Inv(L, minimum, facts, consumed, ReportThrough(L, s, bound)) && Quiescent(L, ReportThrough(L, s, bound))
    ensures IsInterval(L, facts, batch, s.reported, bound)
    ensures EmittedExactly(L, facts, emitted + batch, bound)
  {
    CarvedInterval(L, minimum, facts, consumed, s, bound);
    LowerBoundIsSafe(L, minimum, facts, consumed, s, bound);
    assert forall u :: u in batch <==> u in Elements(batch);
    EmittedGrows(L, facts, emitted, s.reported, batch, bound);
  }

  /** Before any message, all times are still to be reported. */
  lemma NothingRead<D(!new), T(!new), R(!new)>(L: Lattice<T>, minimum: T, facts: T -> set<Update<D, T, R>>)
    requires IsLattice(L) && IsMinimum(L, minimum) && WellTimed(facts)
    ensures var s: Reader<D, T, R> := Reader({}, {minimum}, {minimum}, map[], []);
            Inv(L, minimum, facts, [], s) && Quiescent(L, s) && EmittedExactly(L, facts, [], {minimum})
  {
    hide JoinIsLub, MeetIsGlb;
    var s: Reader<D, T, R> := Reader({}, {minimum}, {minimum}, map[], []);
    assert forall t :: L.leq(minimum, t) && Beyond(L, {minimum}, t);
    assert Received<D, T, R>([]) == {};
    assert forall t :: At(Received<D, T, R>([]), t) == {};
    FrontierLeqReflexive(L, {minimum});
    assert Reachable<D, T, R>(L, minimum, [], {minimum});
    assert IsLowerBound(L, s, {minimum});
  }

  class Iter<D(==, !new), T(==, !new), R(==, !new)> {
    const L: Lattice<T>
    const minimum: T
    ghost const facts: T -> set<Update<D, T, R>>

    var source: seq<Message<D, T, R>>
    var updates: set<Update<D, T, R>>
    var reportedFrontier: set<T>
    var progressFrontier: set<T>
    var messagesFrontier: map<T, int>
    var progressQueue: seq<Progress<T>>

    ghost var consumed: seq<Message<D, T, R>>   // the messages drawn so far
    ghost var emitted: seq<Update<D, T, R>>     // the concatenation of the batches returned so far

    ghost function State(): Reader<D, T, R>
      reads this
    {
      Reader(updates, reportedFrontier, progressFrontier, messagesFrontier, progressQueue)
    }

    /** What holds within a call to `Next`, before the frontiers are compared. */
    ghost predicate Reading()
      reads this
    {
      && IsLattice(L) && IsMinimum(L, minimum) && WellTimed(facts)
      && AllTruthful(L, facts, source)
      && Inv(L, minimum, facts, consumed, State())
      && EmittedExactly(L, facts, emitted, reportedFrontier)
    }

    /** What holds between calls. */
    ghost predicate Valid()
      reads this
    {
      Reading() && Quiescent(L, State())
    }

    constructor (L: Lattice<T>, minimum: T, messages: seq<Message<D, T, R>>, ghost facts: T -> set<Update<D, T, R>>)
      requires IsLattice(L) && IsMinimum(L, minimum) && WellTimed(facts)
      requires AllTruthful(L, facts, messages)
      ensures Valid()
      ensures this.L == L && this.minimum == minimum && this.facts == facts
      ensures source == messages && consumed == [] && emitted == []
      ensures reportedFrontier == {minimum}
    {
      this.L, this.minimum, this.facts := L, minimum, facts;
      source := messages;
      updates := {};
      reportedFrontier := {minimum};
      progressFrontier := {minimum};
      messagesFrontier := map[];
      progressQueue := [];
      consumed, emitted := [], [];
      new;
      NothingRead(L, minimum, facts);
    }

    /**
      Reads until an interval can be carved.  A batch holds, once each, exactly the true
      updates in the interval from the old frontier to the new one, and the frontier moves
      strictly forward; without a batch, the source is exhausted and nothing was reported.
     */
    method Next() returns (item: Option<(seq<Update<D, T, R>>, set<T>)>)
      requires Valid()
      modifies this
      ensures Valid()
      ensures |source| <= |old(source)|
      ensures consumed + source == old(consumed) + old(source)
      ensures item.Some? ==>
                |source| < |old(source)| && Carved(old(reportedFrontier), old(emitted), item.value.0, item.value.1)
      ensures item.None? ==>
                source == [] && reportedFrontier == old(reportedFrontier) && emitted == old(emitted)
    {
      item := None;
      while source != []
        invariant Valid()
        invariant |source| <= |old(source)|
        invariant consumed + source == old(consumed) + old(source)
        invariant reportedFrontier == old(reportedFrontier) && emitted == old(emitted)
        invariant item.None?
        decreases |source|
      {
        TakeOne(consumed, source);
        item := Step();
        if item.Some? {
          return;
        }
      }
    }

    /** One turn of the loop: take a message, drain the queue, and report if the lower bound moved. */
    method Step() returns (item: Option<(seq<Update<D, T, R>>, set<T>)>)
      requires Valid() && source != []
      modifies this
      ensures Valid()
      ensures source == old(source)[1..] && consumed == old(consumed) + [old(source)[0]]
      ensures item.Some? ==> Carved(old(reportedFrontier), old(emitted), item.value.0, item.value.1)
      ensures item.None? ==> reportedFrontier == old(reportedFrontier) && emitted == old(emitted)
    {
      hide Inv, IsPartialOrder, JoinIsLub, MeetIsGlb, IsMinimum, WellTimed, EmittedExactly, AllTruthful, IsInterval;
      Accept(source[0]);
      DrainProgress();
      var lowerBound := LowerBound();
      if lowerBound != reportedFrontier {
        var batch := Publish(lowerBound);
        item := Some((batch, lowerBound));
      } else {
        item := None;
      }
    }

    /** The frontier of the progress frontier and the times with messages still to come. */
    method LowerBound() returns (lowerBound: set<T>)
      requires Reading()
      ensures IsLowerBound(L, State(), lowerBound)
    {
      var unresolved := PositiveFrontier(L, messagesFrontier);
      lowerBound := ExtendWith(L, progressFrontier, unresolved);
    }

    /** The batch is the carved interval, and the state has moved past it. */
    ghost predicate Carved(oldFrontier: set<T>, oldEmitted: seq<Update<D, T, R>>, batch: seq<Update<D, T, R>>,
                           frontier: set<T>)
      reads this
    {
      && reportedFrontier == frontier
      && FrontierLess(L, oldFrontier, frontier)
      && emitted == oldEmitted + batch
      && IsInterval(L, facts, batch, oldFrontier, frontier)
    }

    /** The `match` on one message. */
    method Accept(message: Message<D, T, R>)
      requires Reading() && source != [] && message == source[0]
      modifies this`source, this`updates, this`messagesFrontier, this`progressQueue, this`consumed
      ensures Reading()
      ensures source == old(source)[1..] && consumed == old(consumed) + [message]
      ensures State() == match message
                         case Updates(received) => AcceptUpdates(L, old(State()), received)
                         case Statement(progress) => old(State()).(queue := old(State()).queue + [progress])
    {
      hide Inv, IsPartialOrder, JoinIsLub, MeetIsGlb, IsMinimum, WellTimed, EmittedExactly, AddAll, Decrements,
           TruthfulUpdates, TruthfulProgress;
      ghost var before := State();
      assert message in source && Truthful(L, facts, message);
      source := source[1..];
      match message {
        case Updates(received) =>
          var reported, held := reportedFrontier, updates;
          var kept := Filter(received, (u: Update<D, T, R>) => Beyond(L, reported, u.1) && u !in held);
          messagesFrontier := AddAll(messagesFrontier, Decrements(kept));
          updates := updates + Elements(kept);
          assert kept == Kept(L, before, received) by {
            FilterAgree(received, (u: Update<D, T, R>) => Beyond(L, reported, u.1) && u !in held,
                        (u: Update<D, T, R>) => Beyond(L, before.reported, u.1) && u !in before.updates);
          }
          AcceptUpdatesKeepsInv(L, minimum, facts, consumed, before, received);
        case Statement(progress) =>
          progressQueue := progressQueue + [progress];
          QueueKeepsInv(L, minimum, facts, consumed, before, progress);
      }
      consumed := consumed + [message];
    }

    /** Act on statements until none is actionable. */
    method DrainProgress()
      requires Reading()
      modifies this`messagesFrontier, this`progressFrontier, this`progressQueue
      ensures Reading() && Drained(L, State())
    {
      var position := FindActionable(L, progressQueue, progressFrontier);
      while position.Some?
        invariant Reading()
        invariant position.Some? ==>
                    && 0 <= position.value < |progressQueue|
                    && Actionable(L, progressQueue[position.value], progressFrontier)
        invariant position.None? ==> Drained(L, State())
        decreases |progressQueue|, position.Some?
      {
        ActOnStatement(position.value);
        position := FindActionable(L, progressQueue, progressFrontier);
      }
    }

    /** Remove an actionable statement, take up its counts and join its upper bound into the progress frontier. */
    method ActOnStatement(position: nat)
      requires Reading()
      requires position < |progressQueue| && Actionable(L, progressQueue[position], progressFrontier)
      modifies this`messagesFrontier, this`progressFrontier, this`progressQueue
      ensures Reading()
      ensures |progressQueue| < |old(progressQueue)|
      ensures State() == ActOn(L, old(State()), position, progressFrontier)
      ensures forall p :: p in progressQueue <==>
                && p in old(progressQueue)[..position] + old(progressQueue)[position + 1..]
                && !FrontierLeq(L, Elements(p.upper), progressFrontier)
    {
      hide Inv, IsPartialOrder, JoinIsLub, MeetIsGlb, IsMinimum, WellTimed, EmittedExactly, AddAll, AllTruthful,
           FrontierLeq;
      ghost var before := State();
      var progress := progressQueue[position];
      var rest := progressQueue[..position] + progressQueue[position + 1..];
      // Record the counts that the frontier has not passed yet.
      messagesFrontier := AddAll(messagesFrontier, FreshCounts(L, progress.counts, progressFrontier));
      // Times beyond both the statement's upper bound and the progress frontier.
      var elements := ToSeq(progressFrontier);
      var newFrontier := AntichainJoin(L, progress.upper, elements);
      progressQueue := Pruned(L, rest, newFrontier);
      progressFrontier := newFrontier;
      ActOnKeepsInv(L, minimum, facts, consumed, before, position, newFrontier);
      FilterMembers(rest, (p: Progress<T>) => !FrontierLeq(L, Elements(p.upper), newFrontier));
      assert State() == ActOn(L, before, position, newFrontier);
    }

    /** Hand over the held updates that are not beyond `bound`. */
    method Publish(bound: set<T>) returns (batch: seq<Update<D, T, R>>)
      requires Reading() && Drained(L, State()) && IsLowerBound(L, State(), bound)
      modifies this`updates, this`reportedFrontier, this`emitted
      ensures Valid()
      ensures reportedFrontier == bound && FrontierLeq(L, old(reportedFrontier), bound)
      ensures emitted == old(emitted) + batch && IsInterval(L, facts, batch, old(reportedFrontier), bound)
    {
      batch := ToSeq(UpdatesBefore(L, updates, bound));
      PublishIsExact(L, minimum, facts, consumed, State(), emitted, batch, bound);
      updates := UpdatesBeyond(L, updates, bound);
      reportedFrontier := bound;
      emitted := emitted + batch;
      assert State() == ReportThrough(L, old(State()), bound);
    }
  }

  lemma TakeOne<X>(taken: seq<X>, rest: seq<X>)
    requires rest != []
    ensures taken + [rest[0]] + rest[1..] == taken + rest
  {
    assert rest == [rest[0]] + rest[1..];
  }

  /** The elements of a set, in some order. */
  method ToSeq<X(==)>(s: set<X>) returns (r: seq<X>)
    ensures Elements(r) == s && Distinct(r)
  {
    r := [];
    var rest := s;
    while rest != {}
      invariant rest <= s && Elements(r) == s - rest && Distinct(r)
      decreases rest
    {
      var x :| x in rest;
      assert x !in r;
      assert Elements(r + [x]) == Elements(r) + {x};
      r, rest := r + [x], rest - {x};
    }
  }

  /** The first actionable statement. */
  method FindActionable<T(==)>(L: Lattice<T>, queue: seq<Progress<T>>, progress: set<T>) returns (position: Option<nat>)
    ensures position.Some? ==>
              && 0 <= position.value < |queue| && Actionable(L, queue[position.value], progress)
              && forall j :: 0 <= j < position.value ==> !Actionable(L, queue[j], progress)
    ensures position.None? ==> forall p :: p in queue ==> !Actionable(L, p, progress)
  {
    for i := 0 to |queue|
      invariant forall j :: 0 <= j < i ==> !Actionable(L, queue[j], progress)
    {
      if Actionable(L, queue[i], progress) {
        return Some(i);
      }
    }
    position := None;
  }

  /** `extend` by the elements of another frontier. */
  method ExtendWith<T(==, !new)>(L: Lattice<T>, f: set<T>, times: set<T>) returns (g: set<T>)
    requires IsPartialOrder(L) && IsAntichain(L, f)
    ensures IsFrontierOf(L, g, t => Beyond(L, f, t) || Beyond(L, times, t))
  {
    var elements := ToSeq(times);
    g := Extend(L, f, elements);
  }

  /** `MutableAntichain::frontier`: the minimal times with a positive count. */
  method PositiveFrontier<T(==, !new)>(L: Lattice<T>, counts: map<T, int>) returns (f: set<T>)
    requires IsPartialOrder(L)
    ensures IsFrontierOf(L, f, t => PositiveBelow(L, counts, t))
  {
    var positive := set t | t in counts && counts[t] > 0;
    f := ExtendWith(L, {}, positive);
    forall t
      ensures Beyond(L, positive, t) <==> PositiveBelow(L, counts, t)
    {
      if Beyond(L, positive, t) {
        var s :| s in positive && L.leq(s, t);
        assert Count(counts, s) > 0;
      }
      if PositiveBelow(L, counts, t) {
        var s :| Count(counts, s) > 0 && L.leq(s, t);
        assert s in positive;
      }
    }
  }

  /**
    Reads a whole stream of messages.  Whatever the order and duplication of the messages,
    the updates handed out are exactly the true ones not beyond the final frontier, once
    each, and that frontier is the one the set of messages determines (`Settled`).
   */
  method Replay<D(==, !new), T(==, !new), R(==, !new)>(
    L: Lattice<T>, minimum: T, messages: seq<Message<D, T, R>>, ghost facts: T -> set<Update<D, T, R>>)
    returns (emitted: seq<Update<D, T, R>>, frontier: set<T>)
    requires IsLattice(L) && IsMinimum(L, minimum) && WellTimed(facts)
    requires AllTruthful(L, facts, messages)
    ensures EmittedExactly(L, facts, emitted, frontier)
    ensures exists accepted :: Settled(L, minimum, facts, messages, accepted, frontier)
  {
    var iter := new Iter(L, minimum, messages, facts);
    emitted := [];
    while true
      invariant iter.Valid() && fresh(iter) && iter.L == L && iter.minimum == minimum && iter.facts == facts
      invariant iter.consumed + iter.source == messages
      invariant emitted == iter.emitted
      decreases |iter.source|
    {
      var item := iter.Next();
      match item {
        case None => break;
        case Some((batch, _)) => emitted := emitted + batch;
      }
    }
    assert iter.consumed == messages;
    frontier := iter.reportedFrontier;
    QuiescentIsSettled(L, minimum, facts, messages, iter.State());
  }
}
