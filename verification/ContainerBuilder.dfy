/**
  A container builder that consolidates what is pushed into it and hands out containers of a
  preferred size, in no particular order but without losing or inventing any difference.
 */
module ContainerBuilder {
  import opened Wrappers
  import opened Differences
  import opened Consolidation

  function Flatten<X>(containers: seq<seq<X>>): seq<X> {
    if containers == [] then [] else containers[0] + Flatten(containers[1..])
  }

  lemma {:induction false} FlattenConcat<X>(a: seq<seq<X>>, b: seq<seq<X>>)
    ensures Flatten(a + b) == Flatten(a) + Flatten(b)
  {
    if a == [] {
      assert a + b == b;
    } else {
      FlattenConcat(a[1..], b);
      assert (a + b)[1..] == a[1..] + b && (a + b)[0] == a[0];
      assert a[0] + (Flatten(a[1..]) + Flatten(b)) == a[0] + Flatten(a[1..]) + Flatten(b);
    }
  }

  lemma FlattenOne<X>(c: seq<X>)
    ensures Flatten([c]) == c
  {
    assert [c][1..] == [];
  }

  ghost predicate WithinSize<X>(containers: seq<seq<X>>, size: nat) {
    forall i :: 0 <= i < |containers| ==> 1 <= |containers[i]| <= size
  }

  ghost predicate ExactSize<X>(containers: seq<seq<X>>, size: nat) {
    forall i :: 0 <= i < |containers| ==> |containers[i]| == size
  }

  /** Each container is consolidated: strictly sorted by key, and without zeros. */
  ghost predicate AllClean<K, R>(leq: (K, K) -> bool, G: Semigroup<R>, containers: seq<seq<(K, R)>>) {
    forall i :: 0 <= i < |containers| ==> StrictlySorted(leq, containers[i]) && NonZero(G, containers[i])
  }

  lemma CleanSlice<K, R>(leq: (K, K) -> bool, G: Semigroup<R>, s: seq<(K, R)>, a: nat, b: nat)
    requires a <= b <= |s| && StrictlySorted(leq, s) && NonZero(G, s)
    ensures StrictlySorted(leq, s[a..b]) && NonZero(G, s[a..b])
  {
    assert forall i :: 0 <= i < b - a ==> s[a..b][i] == s[a + i];
  }

  /** Containers that make up a consolidated slice are consolidated. */
  lemma {:induction false} PartsAreClean<K, R>(leq: (K, K) -> bool, G: Semigroup<R>, containers: seq<seq<(K, R)>>)
    requires StrictlySorted(leq, Flatten(containers)) && NonZero(G, Flatten(containers))
    ensures AllClean(leq, G, containers)
  {
    if containers != [] {
      var all, first := Flatten(containers), containers[0];
      assert all[0..|first|] == first && all[|first|..|all|] == Flatten(containers[1..]);
      CleanSlice(leq, G, all, 0, |first|);
      CleanSlice(leq, G, all, |first|, |all|);
      PartsAreClean(leq, G, containers[1..]);
      assert forall i :: 1 <= i < |containers| ==> containers[i] == containers[1..][i - 1];
    }
  }

  lemma CleanConcat<K, R>(leq: (K, K) -> bool, G: Semigroup<R>, a: seq<seq<(K, R)>>, b: seq<seq<(K, R)>>)
    ensures AllClean(leq, G, a + b) <==> AllClean(leq, G, a) && AllClean(leq, G, b)
  {
    hide StrictlySorted, NonZero;
    assert forall i :: 0 <= i < |a| ==> (a + b)[i] == a[i];
    assert forall i :: 0 <= i < |b| ==> (a + b)[|a| + i] == b[i];
  }

  class ConsolidatingContainerBuilder<K(==, !new), R(==, !new)> {
    const leq: (K, K) -> bool
    const G: Semigroup<R>
    const preferred: nat              // the default capacity of a container

    var current: seq<(K, R)>
    var capacity: nat                 // allocated capacity of `current`
    var empty: seq<seq<(K, R)>>       // spent containers kept for reuse
    var outbound: seq<seq<(K, R)>>

    ghost var pushed: seq<(K, R)>         // everything pushed so far
    ghost var shipped: seq<seq<(K, R)>>   // every container handed out so far

    /** Everything pushed is in `current`, outbound or shipped, as far as sums can tell. */
    ghost predicate Conserved()
      reads this
    {
      SameSums(G, pushed, Flatten(shipped) + Flatten(outbound) + current)
    }

    ghost predicate Valid()
      reads this
    {
      && IsTotalOrder(leq) && IsDifference(G) && 1 <= preferred
      && (current == [] || |current| < capacity)
      && (capacity == 0 || 2 * preferred <= capacity)
      && WithinSize(outbound, preferred) && WithinSize(shipped, preferred)
      && AllClean(leq, G, outbound) && AllClean(leq, G, shipped)
      && Conserved()
    }

    constructor (leq: (K, K) -> bool, G: Semigroup<R>, preferred: nat)
      requires IsTotalOrder(leq) && IsDifference(G) && 1 <= preferred
      ensures Valid() && this.leq == leq && this.G == G && this.preferred == preferred
      ensures pushed == [] && shipped == [] && outbound == [] && current == []
    {
      this.leq, this.G, this.preferred := leq, G, preferred;
      current, capacity, empty, outbound := [], 0, [], [];
      pushed, shipped := [], [];
    }

    /** Push an item; when the buffer is full, consolidate it and flush the complete containers. */
    method PushInto(item: (K, R))
      requires Valid()
      modifies this`current, this`capacity, this`empty, this`outbound, this`pushed
      ensures Valid()
      ensures pushed == old(pushed) + [item]
      ensures old(outbound) <= outbound && ExactSize(outbound[|old(outbound)|..], preferred)
      ensures if |old(current)| + 1 < capacity then outbound == old(outbound) && current == old(current) + [item]
              else IsConsolidated(leq, G, old(current) + [item], Flatten(outbound[|old(outbound)|..]) + current)
    {
      hide Flatten, StrictlySorted, NonZero, SameSums, AllClean;
      if capacity < preferred * 2 {
        // The allocator reserves at least what is asked for beyond the current length.
        var reserved :| reserved >= |current| + (preferred * 2 - capacity);
        capacity := reserved;
      }
      ConservedByPush(G, pushed, Flatten(shipped), Flatten(outbound), current, item);
      current, pushed := current + [item], pushed + [item];
      if |current| == capacity {
        ConsolidateAndFlushThrough(preferred);
      }
    }

    /**
      Flush `current` up to the largest multiple of `multiple`.  What is flushed and what stays
      is the consolidated form of what was there.
     */
    method ConsolidateAndFlushThrough(multiple: nat)
      requires IsTotalOrder(leq) && IsDifference(G) && 1 <= preferred && 1 <= multiple
      requires WithinSize(outbound, preferred) && AllClean(leq, G, outbound) && Conserved()
      modifies this`current, this`empty, this`outbound
      ensures WithinSize(outbound, preferred) && AllClean(leq, G, outbound) && Conserved()
      ensures |current| < multiple
      ensures old(outbound) <= outbound
      ensures IsConsolidated(leq, G, old(current), Flatten(outbound[|old(outbound)|..]) + current)
      ensures multiple == preferred ==> ExactSize(outbound[|old(outbound)|..], preferred)
    {
      hide Flatten, IsTotalOrder, IsDifference, SameSums, WithinSize, StrictlySorted, NonZero, AllClean;
      var before := current;
      var consolidated := ConsolidateFrom(leq, G, current, 0);
      assert current[0..] == current && consolidated[0..] == consolidated;
      var count := (|consolidated| / multiple) * multiple;
      WholeMultiple(|consolidated|, multiple);
      var drain := consolidated[..count];
      current := consolidated[count..];
      Ship(drain);
      ConservedByFlush(G, pushed, Flatten(shipped), Flatten(old(outbound)), before, consolidated, count);
      FlushedIsClean(leq, G, old(outbound), outbound, consolidated, count);
    }

    /** Pack the drained entries into containers of the preferred capacity. */
    method Ship(entries: seq<(K, R)>)
      requires 1 <= preferred && WithinSize(outbound, preferred)
      modifies this`empty, this`outbound
      ensures WithinSize(outbound, preferred)
      ensures old(outbound) <= outbound && Flatten(outbound) == Flatten(old(outbound)) + entries
      ensures Flatten(outbound[|old(outbound)|..]) == entries
      ensures |entries| % preferred == 0 ==> ExactSize(outbound[|old(outbound)|..], preferred)
    {
      hide Flatten;
      var drain := entries;
      while drain != []
        invariant old(outbound) <= outbound && WithinSize(outbound, preferred)
        invariant Flatten(outbound) + drain == Flatten(old(outbound)) + entries
        invariant |entries| % preferred == 0 ==>
                    |drain| % preferred == 0 && ExactSize(outbound[|old(outbound)|..], preferred)
        decreases |drain|
      {
        if empty != [] {
          empty := empty[..|empty| - 1];
        }
        var take := if |drain| < preferred then |drain| else preferred;
        var container := drain[..take];
        FlattenConcat(outbound, [container]);
        FlattenOne(container);
        LessMultiple(|drain|, preferred);
        assert drain == container + drain[take..];
        outbound := outbound + [container];
        drain := drain[take..];
      }
      NewlyFlattened(old(outbound), outbound, entries);
    }

    /** Hand out the first outbound container, keeping it for reuse. */
    method Extract() returns (container: Option<seq<(K, R)>>)
      requires Valid()
      modifies this`empty, this`outbound, this`shipped
      ensures Valid()
      ensures container.None? <==> old(outbound) == []
      ensures container.None? ==> outbound == [] && shipped == old(shipped)
      ensures container.Some? ==>
                && shipped == old(shipped) + [container.value]
                && old(outbound) == [container.value] + outbound
    {
      hide SameSums, IsDifference, IsTotalOrder, StrictlySorted, NonZero;
      if outbound == [] {
        container := None;
      } else {
        var first := outbound[0];
        FlattenConcat(shipped, [first]);
        FlattenOne(first);
        assert Flatten(shipped) + Flatten(outbound) + current
            == Flatten(shipped + [first]) + Flatten(outbound[1..]) + current;
        empty := empty + [first];
        outbound := outbound[1..];
        shipped := shipped + [first];
        container := Some(first);
      }
    }

    /**
      Flush everything and hand out a container.  What is flushed is the consolidated form of what
      was left; `None` means that everything pushed has been shipped.
     */
    method Finish() returns (container: Option<seq<(K, R)>>)
      requires Valid()
      modifies this`current, this`empty, this`outbound, this`shipped
      ensures Valid() && current == []
      ensures var before, after := old(shipped) + old(outbound), shipped + outbound;
              before <= after && IsConsolidated(leq, G, old(current), Flatten(after[|before|..]))
      ensures container.None? ==> outbound == [] && shipped == old(shipped) && SameSums(G, pushed, Flatten(shipped))
      ensures container.Some? ==> shipped == old(shipped) + [container.value]
      ensures container.Some? && old(current) == [] ==> |outbound| < |old(outbound)|
    {
      hide StrictlySorted, NonZero, AllClean, SameSums, Flatten;
      NothingIsConsolidated<K, R>(leq, G);
      if current != [] {
        ConsolidateAndFlushThrough(1);
        empty := if |empty| > 2 then empty[..2] else empty;
      }
      ghost var flushed := outbound;
      container := Extract();
      assert container.Some? ==> shipped + outbound == old(shipped) + ([container.value] + outbound);
      assert shipped + outbound == old(shipped) + flushed;
      assert (old(shipped) + flushed)[|old(shipped) + old(outbound)|..] == flushed[|old(outbound)|..];
      assert Flatten(flushed[|old(outbound)|..]) + [] == Flatten(flushed[|old(outbound)|..]);
      assert Flatten(shipped) + [] + [] == Flatten(shipped) && Flatten<(K, R)>([]) == [] by {
        FlattenNone<(K, R)>();
      }
    }
  }

  lemma FlattenNone<X>()
    ensures Flatten<X>([]) == []
  {
  }

  lemma NothingIsConsolidated<K(!new), R(!new)>(leq: (K, K) -> bool, G: Semigroup<R>)
    ensures IsConsolidated<K, R>(leq, G, [], [])
  {
  }

  lemma {:induction false} NewlyFlattened<X>(before: seq<seq<X>>, after: seq<seq<X>>, added: seq<X>)
    requires before <= after && Flatten(after) == Flatten(before) + added
    ensures Flatten(after[|before|..]) == added
  {
    hide Flatten;
    var new_ := after[|before|..];
    assert after == before + new_;
    FlattenConcat(before, new_);
    assert Flatten(new_) == Flatten(after)[|Flatten(before)|..] == added;
  }

  lemma {:induction false} FlushedIsClean<K(!new), R(!new)>(
    leq: (K, K) -> bool, G: Semigroup<R>, before: seq<seq<(K, R)>>, after: seq<seq<(K, R)>>,
    consolidated: seq<(K, R)>, count: nat)
    requires before <= after && AllClean(leq, G, before) && count <= |consolidated|
    requires StrictlySorted(leq, consolidated) && NonZero(G, consolidated)
    requires Flatten(after[|before|..]) == consolidated[..count]
    ensures AllClean(leq, G, after)
    ensures Flatten(after[|before|..]) + consolidated[count..] == consolidated
  {
    hide Flatten, StrictlySorted, NonZero, AllClean;
    var new_ := after[|before|..];
    assert consolidated[..count] == consolidated[0..count];
    CleanSlice(leq, G, consolidated, 0, count);
    PartsAreClean(leq, G, new_);
    CleanConcat(leq, G, before, new_);
    assert after == before + new_;
  }

  lemma WholeMultiple(n: nat, m: nat)
    requires 1 <= m
    ensures 0 <= (n / m) * m <= n && n - (n / m) * m < m && ((n / m) * m) % m == 0
  {
    assert n == (n / m) * m + n % m;
    MultipleMod(n / m, m);
  }

  lemma MultipleMod(k: nat, m: nat)
    requires 1 <= m
    ensures (k * m) % m == 0
    decreases k
  {
    if k > 0 {
      MultipleMod(k - 1, m);
      assert k * m == (k - 1) * m + m;
      LessMultiple(k * m, m);
    }
  }

  /** A positive multiple of `m` is at least `m`, and stays a multiple when `m` is taken away. */
  lemma LessMultiple(n: nat, m: nat)
    requires 1 <= m
    ensures n % m == 0 && n > 0 ==> n >= m
    ensures n >= m ==> (n - m) % m == n % m
  {
    if n >= m {
      var q, r := n / m, n % m;
      assert n == q * m + r;
      assert n - m == (q - 1) * m + r;
      assert (n - m) / m == q - 1 by {
        DivideUnique(n - m, m, q - 1, r);
      }
    }
  }

  lemma DivideUnique(n: int, m: int, q: int, r: int)
    requires 1 <= m && n == q * m + r && 0 <= r < m
    ensures n / m == q && n % m == r
  {
    var q', r' := n / m, n % m;
    assert n == q' * m + r';
    assert (q - q') * m == r' - r;
    AtLeastOnce(q - q', m);
  }

  lemma AtLeastOnce(k: int, m: int)
    requires 1 <= m
    ensures k >= 1 ==> k * m >= m
    ensures k <= -1 ==> k * m <= -m
  {
  }

  lemma ConservedByPush<K(!new), R(!new)>(
    G: Semigroup<R>, pushed: seq<(K, R)>, shipped: seq<(K, R)>, outbound: seq<(K, R)>, current: seq<(K, R)>,
    item: (K, R))
    requires IsDifference(G) && SameSums(G, pushed, shipped + outbound + current)
    ensures SameSums(G, pushed + [item], shipped + outbound + (current + [item]))
  {
    SameSumsConcat(G, pushed, shipped + outbound + current, [item], [item]);
    assert shipped + outbound + current + [item] == shipped + outbound + (current + [item]);
  }

  /** Consolidating the buffer and moving a prefix of it to the outbound containers conserves the sums. */
  lemma ConservedByFlush<K(!new), R(!new)>(
    G: Semigroup<R>, pushed: seq<(K, R)>, shipped: seq<(K, R)>, outbound: seq<(K, R)>, before: seq<(K, R)>,
    after: seq<(K, R)>,
    count: nat)
    requires IsDifference(G) && SameSums(G, pushed, shipped + outbound + before) && SameSums(G, after, before)
    requires count <= |after|
    ensures SameSums(G, pushed, shipped + (outbound + after[..count]) + after[count..])
  {
    SameSumsConcat(G, shipped + outbound, shipped + outbound, after, before);
    assert after == after[..count] + after[count..];
    assert shipped + outbound + after == shipped + (outbound + after[..count]) + after[count..];
  }

  /**
    Push every item and drain the builder: the containers hold the same sums as the items, none
    is empty or oversized, and none repeats a key or holds a zero.
   */
  method BuildAll<K(==, !new), R(==, !new)>(leq: (K, K) -> bool, G: Semigroup<R>, preferred: nat, items: seq<(K, R)>)
    returns (containers: seq<seq<(K, R)>>)
    requires IsTotalOrder(leq) && IsDifference(G) && 1 <= preferred
    ensures SameSums(G, items, Flatten(containers)) && WithinSize(containers, preferred)
    ensures AllClean(leq, G, containers)
  {
    var builder := new ConsolidatingContainerBuilder(leq, G, preferred);
    for i := 0 to |items|
      invariant builder.Valid() && fresh(builder) && builder.leq == leq && builder.G == G
                && builder.preferred == preferred
      invariant builder.pushed == items[..i] && builder.shipped == []
    {
      builder.PushInto(items[i]);
    }
    assert items[..|items|] == items;
    containers := [];
    while true
      invariant builder.Valid() && fresh(builder) && builder.leq == leq && builder.G == G
                && builder.preferred == preferred
      invariant builder.pushed == items && builder.shipped == containers
      decreases builder.current != [], |builder.outbound|
    {
      var container := builder.Finish();
      match container {
        case None => break;
        case Some(c) => containers := containers + [c];
      }
    }
  }
}
