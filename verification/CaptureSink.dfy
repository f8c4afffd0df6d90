/**
  The sink that records a stream as CDC V2 messages, and the round trip through a reader.

  `UpdatesWriter` instances write each batch they see and send its timestamp counts over a
  channel to the one `ProgressWriter`, which announces exact counts whenever its frontier
  strictly advances.  Batches of counts may be delivered in any order and at any moment that
  the frontier contract allows.
 */
module CaptureSink {
  import opened Lattices
  import opened Frontiers
  import opened Sequences
  import opened Capture
  import opened CaptureReader
  import opened CaptureIter

  /** The truth recorded by a stream of updates. */
  ghost function FactsOf<D(!new), T(!new), R(!new)>(seen: seq<Update<D, T, R>>): T -> set<Update<D, T, R>> {
    t => At(Elements(seen), t)
  }

  /** For each time, how many of the updates are at it. */
  ghost predicate CountsTimes<D(!new), T(!new), R(!new)>(counts: seq<(T, int)>, updates: seq<Update<D, T, R>>) {
    && (forall t :: Total(counts, t) == Occurrences(updates, t))
    && (forall j :: 0 <= j < |counts| ==> counts[j].1 > 0 && Occurrences(updates, counts[j].0) > 0)
  }

  lemma {:induction false} OccurrencesAppend<D, T(!new), R>(updates: seq<Update<D, T, R>>, u: Update<D, T, R>, t: T)
    ensures Occurrences(updates + [u], t) == Occurrences(updates, t) + if u.1 == t then 1 else 0
  {
    if updates == [] {
      assert [u][1..] == [];
    } else {
      OccurrencesAppend(updates[1..], u, t);
      assert (updates + [u])[1..] == updates[1..] + [u];
    }
  }

  lemma {:induction false} OccursSomewhere<D, T(!new), R>(updates: seq<Update<D, T, R>>, t: T)
    requires Occurrences(updates, t) > 0
    ensures exists u :: u in updates && u.1 == t
  {
    if updates[0].1 == t {
      assert updates[0] in updates;
    } else {
      OccursSomewhere(updates[1..], t);
      var u :| u in updates[1..] && u.1 == t;
      assert u in updates;
    }
  }

  /** The change batch of one input: a count for each time, drained in any order. */
  method SumTimes<D, T(==, !new), R>(updates: seq<Update<D, T, R>>) returns (counts: seq<(T, int)>)
    ensures forall t :: Total(counts, t) == Occurrences(updates, t)
    ensures forall j :: 0 <= j < |counts| ==> counts[j].1 > 0 && Occurrences(updates, counts[j].0) > 0
  {
    var batch: map<T, int> := map[];
    for i := 0 to |updates|
      invariant forall t :: Count(batch, t) == Occurrences(updates[..i], t)
      invariant forall t :: t in batch ==> batch[t] > 0
    {
      var time := updates[i].1;
      assert updates[..i + 1] == updates[..i] + [updates[i]];
      ghost var before := batch;
      batch := batch[time := Count(batch, time) + 1];
      forall t
        ensures Count(batch, t) == Occurrences(updates[..i + 1], t)
      {
        assert Count(before, t) == Occurrences(updates[..i], t);
        OccurrencesAppend(updates[..i], updates[i], t);
      }
    }
    assert updates[..|updates|] == updates;
    counts := Drain(batch);
  }

  /** The entries of a change batch, in any order. */
  method Drain<T(==, !new)>(batch: map<T, int>) returns (counts: seq<(T, int)>)
    requires forall t :: t in batch ==> batch[t] > 0
    ensures forall t :: Total(counts, t) == Count(batch, t)
    ensures forall j :: 0 <= j < |counts| ==> counts[j].1 > 0 && Count(batch, counts[j].0) > 0
  {
    counts := [];
    var rest := batch.Keys;
    while rest != {}
      invariant rest <= batch.Keys
      invariant forall t :: Total(counts, t) == if t in rest then 0 else Count(batch, t)
      invariant forall j :: 0 <= j < |counts| ==> counts[j].1 > 0 && Count(batch, counts[j].0) > 0
      decreases rest
    {
      var time :| time in rest;
      forall t
        ensures Total(counts + [(time, batch[time])], t) == Total(counts, t) + if t == time then batch[time] else 0
      {
        TotalAppend(counts, (time, batch[time]), t);
      }
      counts := counts + [(time, batch[time])];
      rest := rest - {time};
    }
  }

  /** The counts for `t` that are on their way. */
  ghost function ChannelTotal<T>(channel: seq<seq<(T, int)>>, t: T): int {
    if channel == [] then 0 else Total(channel[0], t) + ChannelTotal(channel[1..], t)
  }

  lemma {:induction false} ChannelTotalConcat<T>(a: seq<seq<(T, int)>>, b: seq<seq<(T, int)>>, t: T)
    ensures ChannelTotal(a + b, t) == ChannelTotal(a, t) + ChannelTotal(b, t)
  {
    if a == [] {
      assert a + b == b;
    } else {
      ChannelTotalConcat(a[1..], b, t);
      assert (a + b)[1..] == a[1..] + b;
    }
  }

  lemma {:induction false} ChannelTotalRemove<T>(channel: seq<seq<(T, int)>>, i: nat, t: T)
    requires i < |channel|
    ensures ChannelTotal(channel[..i] + channel[i + 1..], t) == ChannelTotal(channel, t) - Total(channel[i], t)
  {
    ChannelTotalConcat(channel[..i], channel[i + 1..], t);
    ChannelTotalConcat(channel[..i], channel[i..], t);
    assert channel == channel[..i] + channel[i..];
    assert channel[i..][1..] == channel[i + 1..];
  }

  /** Every count in flight is for a time beyond the frontier. */
  ghost predicate ChannelBeyond<T>(L: Lattice<T>, channel: seq<seq<(T, int)>>, f: set<T>) {
    forall i, j :: 0 <= i < |channel| && 0 <= j < |channel[i]| ==> Beyond(L, f, channel[i][j].0)
  }

  lemma {:induction false} ChannelElsewhere<T(!new)>(L: Lattice<T>, channel: seq<seq<(T, int)>>, f: set<T>, t: T)
    requires ChannelBeyond(L, channel, f) && !Beyond(L, f, t)
    ensures ChannelTotal(channel, t) == 0
  {
    if channel != [] {
      TotalElsewhere(channel[0], t);
      forall i, j | 0 <= i < |channel[1..]| && 0 <= j < |channel[1..][i]|
        ensures Beyond(L, f, channel[1..][i][j].0)
      {
        assert channel[1..][i] == channel[i + 1];
      }
      ChannelElsewhere(L, channel[1..], f, t);
    }
  }

  ghost predicate ChannelPositive<T>(channel: seq<seq<(T, int)>>) {
    forall i, j :: 0 <= i < |channel| && 0 <= j < |channel[i]| ==> channel[i][j].1 > 0
  }

  /** Counts not yet announced are exactly the input at times beyond the frontier. */
  ghost predicate CountsAccounted<D(!new), T(!new), R(!new)>(
    L: Lattice<T>, seen: seq<Update<D, T, R>>, channel: seq<seq<(T, int)>>, timestamps: map<T, int>, frontier: set<T>)
  {
    forall t :: Count(timestamps, t) + ChannelTotal(channel, t)
             == if Beyond(L, frontier, t) then |At(Elements(seen), t)| else 0
  }

  lemma AccountedUpdates<D(!new), T(!new), R(!new)>(
    L: Lattice<T>, seen: seq<Update<D, T, R>>, channel: seq<seq<(T, int)>>, timestamps: map<T, int>, frontier: set<T>,
    updates: seq<Update<D, T, R>>, counts: seq<(T, int)>)
    requires CountsAccounted(L, seen, channel, timestamps, frontier)
    requires ChannelBeyond(L, channel, frontier) && ChannelPositive(channel)
    requires Distinct(updates) && forall u :: u in updates ==> u !in seen && Beyond(L, frontier, u.1)
    requires CountsTimes(counts, updates)
    ensures CountsAccounted(L, seen + updates, channel + [counts], timestamps, frontier)
    ensures ChannelBeyond(L, channel + [counts], frontier) && ChannelPositive(channel + [counts])
  {
    forall j | 0 <= j < |counts|
      ensures Beyond(L, frontier, counts[j].0)
    {
      OccursSomewhere(updates, counts[j].0);
    }
    forall t
      ensures Count(timestamps, t) + ChannelTotal(channel + [counts], t)
           == if Beyond(L, frontier, t) then |At(Elements(seen + updates), t)| else 0
    {
      OccurrencesBound(updates, t);
      assert At(Elements(seen + updates), t) == At(Elements(seen), t) + At(Elements(updates), t);
      ChannelTotalConcat(channel, [counts], t);
      if !Beyond(L, frontier, t) {
        TotalElsewhere(counts, t);
      }
    }
  }

  /** Receiving a batch of counts changes nothing about the sums. */
  lemma {:induction false} AccountedReceived<D(!new), T(!new), R(!new)>(
    L: Lattice<T>, seen: seq<Update<D, T, R>>, channel: seq<seq<(T, int)>>, timestamps: map<T, int>, frontier: set<T>,
    i: nat)
    requires CountsAccounted(L, seen, channel, timestamps, frontier)
    requires ChannelBeyond(L, channel, frontier) && ChannelPositive(channel) && i < |channel|
    ensures var rest := channel[..i] + channel[i + 1..];
            && CountsAccounted(L, seen, rest, AddAll(timestamps, channel[i]), frontier)
            && ChannelBeyond(L, rest, frontier) && ChannelPositive(rest)
  {
    hide Beyond, Total, ChannelTotal, AddAll, Count, At, Elements;
    var rest := channel[..i] + channel[i + 1..];
    AddAllCounts(timestamps, channel[i]);
    forall t
      ensures ChannelTotal(rest, t) == ChannelTotal(channel, t) - Total(channel[i], t)
    {
      ChannelTotalRemove(channel, i, t);
    }
    assert forall k :: 0 <= k < |rest| ==> rest[k] == channel[if k < i then k else k + 1];
  }

  // ----- the writer -----

  class Sink<D(==, !new), T(==, !new), R(==, !new)> {
    const L: Lattice<T>
    const minimum: T

    var channel: seq<seq<(T, int)>>     // counts sent by UpdatesWriters and not yet received
    var frontier: set<T>                // through which progress has been announced
    var timestamps: map<T, int>         // received counts not yet announced
    var written: seq<Message<D, T, R>>  // everything handed to the send queues, in order

    ghost var seen: seq<Update<D, T, R>>     // the input so far
    ghost var chain: seq<Progress<T>>        // the statements announced so far

    ghost predicate Valid()
      reads this
    {
      && IsLattice(L) && IsMinimum(L, minimum) && IsAntichain(L, frontier)
      && Distinct(seen)
      && Recorded(L, minimum, seen, written, chain, frontier)
      && ChannelBeyond(L, channel, frontier) && ChannelPositive(channel)
      && (forall t :: t in timestamps ==> 0 <= timestamps[t])
      && CountsAccounted(L, seen, channel, timestamps, frontier)
    }

    constructor (L: Lattice<T>, minimum: T)
      requires IsLattice(L) && IsMinimum(L, minimum)
      ensures Valid() && this.L == L && this.minimum == minimum
      ensures seen == [] && frontier == {minimum}
    {
      this.L, this.minimum := L, minimum;
      channel, frontier, timestamps, written, seen, chain := [], {minimum}, map[], [], [], [];
      new;
      NothingRecorded<D, T, R>(L, minimum);
      NothingCounted<D, T, R>(L, {minimum});
      hide *;
    }

    /**
      `UpdatesWriter` on one batch.  The input respects the frontier and is consolidated: no
      update repeats within the batch or with earlier input.
     */
    method WriteUpdates(updates: seq<Update<D, T, R>>)
      requires Valid()
      requires Distinct(updates) && forall u :: u in updates ==> u !in seen && Beyond(L, frontier, u.1)
      modifies this`channel, this`written, this`seen
      ensures Valid()
      ensures seen == old(seen) + updates && written == old(written) + [Updates(updates)]
      ensures |channel| == |old(channel)| + 1 && channel[..|old(channel)|] == old(channel)
      ensures CountsTimes(channel[|old(channel)|], updates)
    {
      var counts := SumTimes(updates);
      AccountedUpdates(L, seen, channel, timestamps, frontier, updates, counts);
      RecordedUpdates(L, minimum, seen, written, chain, frontier, updates);
      channel := channel + [counts];
      written := written + [Updates(updates)];
      seen := seen + updates;
    }

    /** `ProgressWriter` receives one batch of counts. */
    method ReceiveCounts(i: nat)
      requires Valid() && i < |channel|
      modifies this`channel, this`timestamps
      ensures Valid()
      ensures channel == old(channel)[..i] + old(channel)[i + 1..]
      ensures timestamps == AddAll(old(timestamps), old(channel)[i])
    {
      AccountedReceived(L, seen, channel, timestamps, frontier, i);
      AddPositive(timestamps, channel[i]);
      hide *;
      timestamps := AddAll(timestamps, channel[i]);
      channel := channel[..i] + channel[i + 1..];
    }

    /**
      `ProgressWriter` learns of a new input frontier, beyond which all counts still in
      flight must lie.  If it strictly advances, announce the counts in between.
     */
    method AdvanceTo(newFrontier: set<T>)
      requires Valid() && IsAntichain(L, newFrontier) && ChannelBeyond(L, channel, newFrontier)
      modifies this`frontier, this`timestamps, this`written, this`chain
      ensures Valid()
      ensures frontier == if FrontierLess(L, old(frontier), newFrontier) then newFrontier else old(frontier)
      ensures frontier == old(frontier) ==> written == old(written) && timestamps == old(timestamps)
      ensures frontier != old(frontier) ==>
                && |written| == |old(written)| + 1 && written[..|old(written)|] == old(written)
                && Announces(written[|old(written)|], old(frontier), frontier)
    {
      hide IsLattice, IsMinimum, Recorded, ChannelPositive, CountsAccounted, SplitAt, TruthfulProgress, IsAntichain;
      if FrontierLess(L, frontier, newFrontier) {
        var announce, retained := Split(L, timestamps, newFrontier);
        var lower := ToSeq(frontier);
        var upper := ToSeq(newFrontier);
        var progress := Progress(lower, upper, announce);
        AnnouncementIsTrue(L, seen, channel, timestamps, frontier, newFrontier, progress, retained);
        RecordedStatement(L, minimum, seen, written, chain, frontier, progress);
        timestamps := retained;
        written := written + [Statement(progress)];
        chain := chain + [progress];
        frontier := newFrontier;
      }
    }
  }

  /** The message is a statement for the interval between the frontiers. */
  ghost predicate Announces<D, T, R>(message: Message<D, T, R>, from: set<T>, until: set<T>) {
    message.Statement? && Elements(message.progress.lower) == from && Elements(message.progress.upper) == until
  }

  /** What `Split` gives: the part of the counts before the new frontier, and the rest. */
  ghost predicate SplitAt<T(!new)>(
    L: Lattice<T>, timestamps: map<T, int>, newFrontier: set<T>, announce: seq<(T, nat)>, retained: map<T, int>)
  {
    && (forall t :: Total(announce, t) == if Beyond(L, newFrontier, t) then 0 else Count(timestamps, t))
    && (forall i :: 0 <= i < |announce| ==>
          !Beyond(L, newFrontier, announce[i].0) && Count(timestamps, announce[i].0) > 0)
    && (forall t :: Count(retained, t) == if Beyond(L, newFrontier, t) then Count(timestamps, t) else 0)
  }

  /** The announced counts are exact on the interval, and the retained ones account for the rest. */
  lemma AnnouncementIsTrue<D(!new), T(!new), R(!new)>(
    L: Lattice<T>, seen: seq<Update<D, T, R>>, channel: seq<seq<(T, int)>>, timestamps: map<T, int>,
    frontier: set<T>, newFrontier: set<T>, progress: Progress<T>, retained: map<T, int>)
    requires IsLattice(L) && FrontierLeq(L, frontier, newFrontier)
    requires Elements(progress.lower) == frontier && Elements(progress.upper) == newFrontier
    requires CountsAccounted(L, seen, channel, timestamps, frontier)
    requires ChannelBeyond(L, channel, frontier) && ChannelBeyond(L, channel, newFrontier)
    requires SplitAt(L, timestamps, newFrontier, progress.counts, retained)
    ensures TruthfulProgress(L, FactsOf(seen), progress)
    ensures CountsAccounted(L, seen, channel, retained, newFrontier)
  {
    FrontierLeqMeaning(L, frontier, newFrontier);
    var announce := progress.counts;
    forall t
      ensures Covers(L, progress, t) ==> Total(announce, t) == |At(Elements(seen), t)|
      ensures Count(retained, t) + ChannelTotal(channel, t)
           == if Beyond(L, newFrontier, t) then |At(Elements(seen), t)| else 0
    {
      if !Beyond(L, newFrontier, t) {
        ChannelElsewhere(L, channel, newFrontier, t);
      }
    }
    forall i | 0 <= i < |announce|
      ensures Covers(L, progress, announce[i].0)
    {
      var t := announce[i].0;
      assert Count(timestamps, t) > 0;
      if !Beyond(L, frontier, t) {
        ChannelElsewhere(L, channel, frontier, t);
      }
    }
  }

  lemma {:induction false} AddPositive<T(!new)>(counts: map<T, int>, changes: seq<(T, int)>)
    requires forall t :: t in counts ==> 0 <= counts[t]
    requires forall j :: 0 <= j < |changes| ==> changes[j].1 > 0
    ensures forall t :: t in AddAll(counts, changes) ==> 0 <= AddAll(counts, changes)[t]
    decreases |changes|
  {
    if changes != [] {
      var (t, c) := changes[0];
      assert changes[0].1 > 0;
      AddPositive(counts[t := Count(counts, t) + c], changes[1..]);
    }
  }

  /**
    Drain the change batch: positive counts at times not beyond the frontier are announced,
    the rest retained.
   */
  method Split<T(==, !new)>(L: Lattice<T>, timestamps: map<T, int>, newFrontier: set<T>)
    returns (announce: seq<(T, nat)>, retained: map<T, int>)
    requires forall t :: t in timestamps ==> 0 <= timestamps[t]
    ensures SplitAt(L, timestamps, newFrontier, announce, retained)
    ensures forall t :: t in retained ==> 0 <= retained[t]
  {
    announce, retained := [], map[];
    var rest := timestamps.Keys;
    while rest != {}
      invariant rest <= timestamps.Keys
      invariant forall t :: Total(announce, t)
                  == if Beyond(L, newFrontier, t) || t in rest then 0 else Count(timestamps, t)
      invariant forall i :: 0 <= i < |announce| ==>
                  !Beyond(L, newFrontier, announce[i].0) && Count(timestamps, announce[i].0) > 0
      invariant forall t :: Count(retained, t)
                  == if Beyond(L, newFrontier, t) && t !in rest then Count(timestamps, t) else 0
      invariant forall t :: t in retained ==> 0 <= retained[t]
      decreases rest
    {
      var time :| time in rest;
      var count := timestamps[time];
      if !Beyond(L, newFrontier, time) {
        if count != 0 {
          forall t
            ensures Total(announce + [(time, count)], t) == Total(announce, t) + if t == time then count else 0
          {
            TotalAppend(announce, (time, count), t);
          }
          announce := announce + [(time, count)];
        }
      } else {
        retained := retained[time := count];
      }
      rest := rest - {time};
    }
  }

  lemma {:induction false} TotalAppend<T(!new)>(changes: seq<(T, int)>, change: (T, int), t: T)
    ensures Total(changes + [change], t) == Total(changes, t) + if change.0 == t then change.1 else 0
  {
    if changes != [] {
      TotalAppend(changes[1..], change, t);
      assert (changes + [change])[1..] == changes[1..] + [change];
    }
  }

  // ----- what has been recorded -----

  /**
    The written messages carry exactly the input, are true of it, and their statements form
    a gapless chain from the minimum to the frontier.
   */
  ghost predicate Recorded<D(!new), T(!new), R(!new)>(
    L: Lattice<T>, minimum: T, seen: seq<Update<D, T, R>>, written: seq<Message<D, T, R>>,
    chain: seq<Progress<T>>, frontier: set<T>)
  {
    && AllTruthful(L, FactsOf(seen), written)
    && Received(written) == Elements(seen)
    && (forall p :: p in chain <==> Statement(p) in written)
    && (forall p :: p in chain ==> FrontierLeq(L, Elements(p.upper), frontier))
    && IsChain(L, minimum, chain, frontier)
  }

  /** Before any input, nothing is recorded and nothing is outstanding. */
  lemma NothingRecorded<D(!new), T(!new), R(!new)>(L: Lattice<T>, minimum: T)
    requires IsLattice(L) && IsMinimum(L, minimum)
    ensures IsAntichain(L, {minimum}) && Recorded<D, T, R>(L, minimum, [], [], [], {minimum})
  {
    hide JoinIsLub, MeetIsGlb, IsMinimum, Truthful, FrontierLeq;
    FrontierLeqReflexive(L, {minimum});
  }

  lemma NothingCounted<D(!new), T(!new), R(!new)>(L: Lattice<T>, frontier: set<T>)
    ensures CountsAccounted<D, T, R>(L, [], [], map[], frontier)
  {
    forall t
      ensures At(Elements<Update<D, T, R>>([]), t) == {}
    {
    }
  }

  lemma RecordedUpdates<D(!new), T(!new), R(!new)>(
    L: Lattice<T>, minimum: T, seen: seq<Update<D, T, R>>, written: seq<Message<D, T, R>>,
    chain: seq<Progress<T>>, frontier: set<T>, updates: seq<Update<D, T, R>>)
    requires IsLattice(L) && Recorded(L, minimum, seen, written, chain, frontier)
    requires Distinct(updates) && forall u :: u in updates ==> Beyond(L, frontier, u.1)
    ensures Recorded(L, minimum, seen + updates, written + [Updates(updates)], chain, frontier)
  {
    var m: Message<D, T, R> := Updates(updates);
    var seen', written' := seen + updates, written + [m];
    ReceivedAppend(written, m);
    assert Elements(seen') == Elements(seen) + Elements(updates);
    forall k | k in written
      ensures Truthful(L, FactsOf(seen'), k)
    {
      assert Truthful(L, FactsOf(seen), k);
      if k.Statement? {
        var p := k.progress;
        assert p in chain;
        FrontierLeqMeaning(L, Elements(p.upper), frontier);
        forall t | Covers(L, p, t)
          ensures At(Elements(seen'), t) == At(Elements(seen), t)
        {
        }
      }
    }
    assert Truthful(L, FactsOf(seen'), m);
    forall p
      ensures Statement(p) in written' <==> Statement(p) in written
    {
    }
  }

  lemma RecordedStatement<D(!new), T(!new), R(!new)>(
    L: Lattice<T>, minimum: T, seen: seq<Update<D, T, R>>, written: seq<Message<D, T, R>>,
    chain: seq<Progress<T>>, frontier: set<T>, p: Progress<T>)
    requires IsLattice(L) && Recorded(L, minimum, seen, written, chain, frontier)
    requires TruthfulProgress(L, FactsOf(seen), p)
    requires Elements(p.lower) == frontier && FrontierLeq(L, frontier, Elements(p.upper))
    ensures Recorded(L, minimum, seen, written + [Statement(p)], chain + [p], Elements(p.upper))
  {
    hide JoinIsLub, MeetIsGlb;
    var m: Message<D, T, R> := Statement(p);
    ReceivedAppend(written, m);
    assert Received(written + [m]) == Received(written);
    assert Truthful(L, FactsOf(seen), m);
    assert (chain + [p])[..|chain|] == chain;
    FrontierLeqReflexive(L, Elements(p.upper));
    hide FrontierLeq, TruthfulProgress, Received, Elements;
    forall q | q in chain + [p]
      ensures FrontierLeq(L, Elements(q.upper), Elements(p.upper))
    {
      if q in chain {
        FrontierLeqTransitive(L, Elements(q.upper), frontier, Elements(p.upper));
      }
    }
  }

  // ----- the round trip -----

  /** A reader of a recording, however duplicated and re-ordered, settles on the sink's own frontier. */
  lemma RecordingSettles<D(!new), T(!new), R(!new)>(
    L: Lattice<T>, minimum: T, seen: seq<Update<D, T, R>>, written: seq<Message<D, T, R>>, chain: seq<Progress<T>>,
    frontier: set<T>, messages: seq<Message<D, T, R>>, accepted: set<T>, reported: set<T>)
    requires IsLattice(L) && IsMinimum(L, minimum) && IsAntichain(L, frontier)
    requires Recorded(L, minimum, seen, written, chain, frontier)
    requires SameMessages(messages, written)
    requires Settled(L, minimum, FactsOf(seen), messages, accepted, reported)
    ensures reported == frontier
  {
    forall g | FrontierLeq(L, {minimum}, g) && Closed(L, written, g)
      ensures FrontierLeq(L, frontier, g)
    {
      ChainAccepted(L, minimum, written, chain, frontier, g);
    }
    forall y | y in frontier
      ensures Beyond(L, {minimum}, y)
    {
      assert minimum in {minimum} && L.leq(minimum, y);
    }
    AcceptedIsUnique(L, minimum, messages, written, accepted, frontier);
    SameMessagesSameReceived(messages, written);
    assert forall t :: !Outstanding(L, FactsOf(seen), Received(messages), accepted, t);
    FrontierUnique(L, reported, frontier);
  }

  /**
    The round trip: reading any duplicated and re-ordered copy of what a sink wrote yields
    exactly the sink's input up to the sink's frontier, each update once.
   */
  method RoundTrip<D(==, !new), T(==, !new), R(==, !new)>(sink: Sink<D, T, R>, messages: seq<Message<D, T, R>>)
    returns (emitted: seq<Update<D, T, R>>, frontier: set<T>)
    requires sink.Valid() && SameMessages(messages, sink.written)
    ensures frontier == sink.frontier
    ensures Distinct(emitted)
    ensures forall u :: u in emitted <==> u in sink.seen && !Beyond(sink.L, frontier, u.1)
  {
    emitted, frontier := Replay(sink.L, sink.minimum, messages, FactsOf(sink.seen));
    ghost var accepted :| Settled(sink.L, sink.minimum, FactsOf(sink.seen), messages, accepted, frontier);
    RecordingSettles(sink.L, sink.minimum, sink.seen, sink.written, sink.chain, sink.frontier, messages, accepted,
                     frontier);
  }
}
