/**
  Consolidation: sort a slice by key, then accumulate runs of equal keys in place, leaving a
  prefix with one non-zero entry for each key whose differences do not cancel.
 */
module Consolidation {
  import opened Wrappers
  import opened Sequences
  import opened Differences

  ghost predicate IsTotalOrder<K(!new)>(leq: (K, K) -> bool) {
    && (forall a :: leq(a, a))
    && (forall a, b :: leq(a, b) || leq(b, a))
    && (forall a, b :: leq(a, b) && leq(b, a) ==> a == b)
    && (forall a, b, c :: leq(a, b) && leq(b, c) ==> leq(a, c))
  }

  ghost predicate SortedByKey<K, R>(leq: (K, K) -> bool, s: seq<(K, R)>) {
    forall i, j :: 0 <= i <= j < |s| ==> leq(s[i].0, s[j].0)
  }

  ghost predicate StrictlySorted<K, R>(leq: (K, K) -> bool, s: seq<(K, R)>) {
    forall i, j :: 0 <= i < j < |s| ==> leq(s[i].0, s[j].0) && s[i].0 != s[j].0
  }

  ghost predicate NonZero<K, R>(G: Semigroup<R>, s: seq<(K, R)>) {
    forall i :: 0 <= i < |s| ==> !G.isZero(s[i].1)
  }

  /** A consolidated slice: strictly sorted, without zeros, and with the sums of `s`. */
  ghost predicate IsConsolidated<K(!new), R>(leq: (K, K) -> bool, G: Semigroup<R>, s: seq<(K, R)>, out: seq<(K, R)>) {
    StrictlySorted(leq, out) && NonZero(G, out) && SameSums(G, out, s)
  }

  // ----- the scan over a sorted slice -----

  function Emit<K, R>(G: Semigroup<R>, out: seq<(K, R)>, key: K, accum: R): seq<(K, R)> {
    if G.isZero(accum) then out else out + [(key, accum)]
  }

  /** The entries emitted and the accumulation of the open run, after `n` entries. */
  function Scan<K(==), R>(G: Semigroup<R>, s: seq<(K, R)>, n: nat): (seq<(K, R)>, R)
    requires 1 <= n <= |s|
  {
    if n == 1 then ([], s[0].1)
    else
      var (out, accum) := Scan(G, s, n - 1);
      if s[n - 1].0 == s[n - 2].0 then (out, G.plus(accum, s[n - 1].1))
      else (Emit(G, out, s[n - 2].0, accum), s[n - 1].1)
  }

  /** What the scan leaves of a sorted slice. */
  function Compact<K(==), R>(G: Semigroup<R>, s: seq<(K, R)>): seq<(K, R)> {
    if s == [] then []
    else
      var (out, accum) := Scan(G, s, |s|);
      Emit(G, out, s[|s| - 1].0, accum)
  }

  lemma {:induction false} ScanShape<K(!new), R(!new)>(leq: (K, K) -> bool, G: Semigroup<R>, s: seq<(K, R)>, n: nat)
    requires IsTotalOrder(leq) && SortedByKey(leq, s) && 1 <= n <= |s|
    ensures var (out, accum) := Scan(G, s, n);
            && StrictlySorted(leq, out) && NonZero(G, out)
            && |out| < n
            && forall i :: 0 <= i < |out| ==> leq(out[i].0, s[n - 1].0) && out[i].0 != s[n - 1].0
  {
    if n > 1 {
      ScanShape(leq, G, s, n - 1);
      assert leq(s[n - 2].0, s[n - 1].0);
    }
  }

  lemma {:induction false} ScanSums<K(!new), R(!new)>(G: Semigroup<R>, s: seq<(K, R)>, n: nat, select: K -> bool)
    requires IsDifference(G) && 1 <= n <= |s|
    ensures var (out, accum) := Scan(G, s, n);
            Net(G, Sum(G, s[..n], select)) ==
            Net(G, Combine(G, Sum(G, out, select), Sum(G, [(s[n - 1].0, accum)], select)))
  {
    if n == 1 {
      assert s[..1] == [s[0]];
    } else {
      ScanSums(G, s, n - 1, select);
      var (out, accum) := Scan(G, s, n - 1);
      var last, key := s[n - 1], s[n - 2].0;
      assert s[..n] == s[..n - 1] + [last];
      SumConcat(G, s[..n - 1], [last], select);
      SumOne(G, last, select);
      SumOne(G, (key, accum), select);
      var a, b, c := Sum(G, out, select), Sum(G, [(key, accum)], select), Sum(G, [last], select);
      var total := Sum(G, s[..n - 1], select);
      NetOfCombine(G, total, c);
      NetOfCombine(G, Combine(G, a, b), c);
      assert Net(G, Combine(G, total, c)) == Net(G, Combine(G, Combine(G, a, b), c));
      if last.0 == key {
        SumOne(G, (key, G.plus(accum, last.1)), select);
        CombineLaws(G, a, b, c);
      } else {
        EmitSums(G, out, key, accum, select);
        NetOfCombine(G, Sum(G, Emit(G, out, key, accum), select), c);
      }
    }
  }

  lemma {:induction false} EmitSums<K(!new), R(!new)>(G: Semigroup<R>, out: seq<(K, R)>, key: K, accum: R,
                                                      select: K -> bool)
    requires IsDifference(G)
    ensures Net(G, Sum(G, Emit(G, out, key, accum), select))
         == Net(G, Combine(G, Sum(G, out, select), Sum(G, [(key, accum)], select)))
  {
    SumOne(G, (key, accum), select);
    if G.isZero(accum) {
      NetOfCombine(G, Sum(G, out, select), Sum(G, [(key, accum)], select));
    } else {
      SumConcat(G, out, [(key, accum)], select);
    }
  }

  /** Compacting a sorted slice consolidates it. */
  lemma CompactConsolidates<K(!new), R(!new)>(leq: (K, K) -> bool, G: Semigroup<R>, s: seq<(K, R)>)
    requires IsTotalOrder(leq) && IsDifference(G) && SortedByKey(leq, s)
    ensures IsConsolidated(leq, G, s, Compact(G, s))
    ensures |Compact(G, s)| <= |s|
  {
    if s != [] {
      ScanShape(leq, G, s, |s|);
      var (out, accum) := Scan(G, s, |s|);
      forall select: K -> bool
        ensures Net(G, Sum(G, Compact(G, s), select)) == Net(G, Sum(G, s, select))
      {
        ScanSums(G, s, |s|, select);
        assert s[..|s|] == s;
        EmitSums(G, out, s[|s| - 1].0, accum, select);
      }
    }
  }

  // ----- the consolidated form is canonical -----

  /** In a consolidated slice the net sum of a key is the difference of its entry, if it has one. */
  lemma {:induction false} KeySum<K(!new), R(!new)>(leq: (K, K) -> bool, G: Semigroup<R>, out: seq<(K, R)>, key: K)
    requires IsTotalOrder(leq) && IsDifference(G) && StrictlySorted(leq, out) && NonZero(G, out)
    ensures forall r :: (key, r) in out <==> Net(G, Sum(G, out, k => k == key)) == Some(r)
  {
    if out != [] {
      var head, rest := out[0], out[1..];
      forall i | 0 <= i < |rest|
        ensures rest[i] == out[i + 1] && rest[i].0 != head.0 && !G.isZero(rest[i].1)
      {
      }
      KeySum(leq, G, rest, key);
      assert out == [head] + rest;
      if head.0 == key {
        SumNone(G, rest, key);
      }
      forall r
        ensures (key, r) in out <==> (key, r) == head || (key, r) in rest
      {
      }
    }
  }

  lemma SumNone<K(!new), R(!new)>(G: Semigroup<R>, s: seq<(K, R)>, key: K)
    requires forall i :: 0 <= i < |s| ==> s[i].0 != key
    ensures Sum(G, s, k => k == key) == None
  {
    if s != [] {
      assert s[0].0 != key;
      forall i | 0 <= i < |s[1..]|
        ensures s[1..][i].0 != key
      {
        assert s[1..][i] == s[i + 1];
      }
      SumNone(G, s[1..], key);
    }
  }

  /** An entry is present exactly when its difference is the non-zero sum of its key's input differences. */
  lemma {:induction false} EntryIsSum<K(!new), R(!new)>(
    leq: (K, K) -> bool, G: Semigroup<R>, s: seq<(K, R)>, out: seq<(K, R)>, key: K, r: R)
    requires IsTotalOrder(leq) && IsDifference(G) && IsConsolidated(leq, G, s, out)
    ensures (key, r) in out <==> Net(G, Sum(G, s, k => k == key)) == Some(r)
  {
    KeySum(leq, G, out, key);
    var isKey: K -> bool := k => k == key;
    assert Net(G, Sum(G, out, isKey)) == Net(G, Sum(G, s, isKey));
    SumAgree(G, out, isKey, k => k == key);
    SumAgree(G, s, isKey, k => k == key);
  }

  lemma {:induction false} SumAgree<K(!new), R(!new)>(G: Semigroup<R>, s: seq<(K, R)>, select: K -> bool,
                                                      select': K -> bool)
    requires forall k :: select(k) == select'(k)
    ensures Sum(G, s, select) == Sum(G, s, select')
  {
    if s != [] {
      SumAgree(G, s[1..], select, select');
    }
  }

  /** Strictly sorted slices with the same entries are equal. */
  lemma StrictlySortedUnique<K(!new), R(!new)>(leq: (K, K) -> bool, s: seq<(K, R)>, t: seq<(K, R)>)
    requires IsTotalOrder(leq) && StrictlySorted(leq, s) && StrictlySorted(leq, t)
    requires forall e :: e in s <==> e in t
    ensures s == t
  {
    if s == [] {
      WithinEmpty(s, t);
    } else {
      assert s[0] in t && t != [];
      assert t[0] in s;
      var i :| 0 <= i < |t| && t[i] == s[0];
      var j :| 0 <= j < |s| && s[j] == t[0];
      assert s[0] == t[0];
      forall e
        ensures e in s[1..] <==> e in t[1..]
      {
        TailMembers(leq, s, e);
        TailMembers(leq, t, e);
      }
      StrictlySortedUnique(leq, s[1..], t[1..]);
      assert s == [s[0]] + s[1..] && t == [t[0]] + t[1..];
    }
  }

  lemma TailMembers<K(!new), R(!new)>(leq: (K, K) -> bool, s: seq<(K, R)>, e: (K, R))
    requires StrictlySorted(leq, s) && s != []
    ensures e in s[1..] <==> e in s && e != s[0]
  {
    if e in s && e != s[0] {
      var i :| 0 <= i < |s| && s[i] == e;
      assert s[1..][i - 1] == e;
    }
  }

  /** There is one consolidated form: inputs with the same sums consolidate to the same slice. */
  lemma ConsolidatedUnique<K(!new), R(!new)>(
    leq: (K, K) -> bool, G: Semigroup<R>, s: seq<(K, R)>, t: seq<(K, R)>, out: seq<(K, R)>, out': seq<(K, R)>)
    requires IsTotalOrder(leq) && IsDifference(G) && SameSums(G, s, t)
    requires IsConsolidated(leq, G, s, out) && IsConsolidated(leq, G, t, out')
    ensures out == out'
  {
    forall e
      ensures e in out <==> e in out'
    {
      EntryIsSum(leq, G, s, out, e.0, e.1);
      EntryIsSum(leq, G, t, out', e.0, e.1);
      var isKey: K -> bool := k => k == e.0;
      assert Net(G, Sum(G, s, isKey)) == Net(G, Sum(G, t, isKey));
      SumAgree(G, s, isKey, k => k == e.0);
      SumAgree(G, t, isKey, k => k == e.0);
    }
    StrictlySortedUnique(leq, out, out');
  }

  // ----- sorting (the library's sort, by insertion) -----

  function InsertSorted<K, R>(leq: (K, K) -> bool, e: (K, R), s: seq<(K, R)>): (r: seq<(K, R)>)
    ensures multiset(r) == multiset{e} + multiset(s)
    ensures |r| == |s| + 1
  {
    if s == [] || leq(e.0, s[0].0) then
      assert [e] + s == [e] + s;
      [e] + s
    else
      assert s == [s[0]] + s[1..];
      [s[0]] + InsertSorted(leq, e, s[1..])
  }

  lemma {:induction false} InsertSortedIsSorted<K(!new), R(!new)>(leq: (K, K) -> bool, e: (K, R), s: seq<(K, R)>)
    requires IsTotalOrder(leq) && SortedByKey(leq, s)
    ensures SortedByKey(leq, InsertSorted(leq, e, s))
  {
    if s != [] && !leq(e.0, s[0].0) {
      InsertSortedIsSorted(leq, e, s[1..]);
      var r := InsertSorted(leq, e, s[1..]);
      forall j | 0 <= j < |r|
        ensures leq(s[0].0, r[j].0)
      {
        assert r[j] in multiset(r);
        assert r[j] == e || r[j] in s[1..];
      }
    }
  }

  function Sort<K, R>(leq: (K, K) -> bool, s: seq<(K, R)>): (r: seq<(K, R)>)
    ensures multiset(r) == multiset(s)
    ensures |r| == |s|
  {
    if s == [] then [] else
      assert s == [s[0]] + s[1..];
      InsertSorted(leq, s[0], Sort(leq, s[1..]))
  }

  lemma {:induction false} SortIsSorted<K(!new), R(!new)>(leq: (K, K) -> bool, s: seq<(K, R)>)
    requires IsTotalOrder(leq)
    ensures SortedByKey(leq, Sort(leq, s))
  {
    if s != [] {
      SortIsSorted(leq, s[1..]);
      InsertSortedIsSorted(leq, s[0], Sort(leq, s[1..]));
    }
  }

  method SortSlice<K(!new), R(!new)>(leq: (K, K) -> bool, slice: array<(K, R)>)
    requires IsTotalOrder(leq)
    modifies slice
    ensures SortedByKey(leq, slice[..]) && multiset(slice[..]) == multiset(old(slice[..]))
  {
    var sorted := Sort(leq, slice[..]);
    SortIsSorted(leq, slice[..]);
    for i := 0 to slice.Length
      invariant slice[..i] == sorted[..i]
    {
      slice[i] := sorted[i];
    }
    assert slice[..] == sorted;
  }

  // ----- the in-place algorithm -----

  /** `consolidate_slice_slow`: sort, then accumulate in place. */
  method ConsolidateSliceSlow<K(==, !new), R(==, !new)>(leq: (K, K) -> bool, G: Semigroup<R>, slice: array<(K, R)>)
    returns (offset: nat)
    requires IsTotalOrder(leq) && IsDifference(G) && slice.Length > 1
    modifies slice
    ensures offset <= slice.Length
    ensures IsConsolidated(leq, G, old(slice[..]), slice[..offset])
  {
    SortSlice(leq, slice);
    ghost var s := slice[..];
    offset := CompactInPlace(G, slice);
    CompactConsolidates(leq, G, s);
    PermutationSameSums(G, s, old(slice[..]));
  }

  /**
    The scan of `consolidate_slice_slow`.  The write position never overtakes the entry last
    read, so swapping into it leaves the region still to be scanned as it was.
   */
  method CompactInPlace<K(==), R(==)>(G: Semigroup<R>, slice: array<(K, R)>) returns (offset: nat)
    requires slice.Length > 0
    modifies slice
    ensures offset <= slice.Length
    ensures slice[..offset] == Compact(G, old(slice[..]))
  {
    ghost var s := slice[..];
    offset := 0;
    var accum := slice[0].1;
    for index := 1 to slice.Length
      invariant offset < index
      invariant slice[..offset] == Scan(G, s, index).0 && accum == Scan(G, s, index).1
      invariant forall j :: index - 1 <= j < slice.Length ==> slice[j] == s[j]
    {
      if slice[index].0 == slice[index - 1].0 {
        accum := G.plus(accum, slice[index].1);
      } else {
        if !G.isZero(accum) {
          SwapIn(slice, offset, index - 1, accum);
          offset := offset + 1;
        }
        accum := slice[index].1;
      }
    }
    if !G.isZero(accum) {
      SwapIn(slice, offset, slice.Length - 1, accum);
      offset := offset + 1;
    }
  }

  /** Swap an entry into the write position and give it the accumulated difference. */
  method SwapIn<K, R>(slice: array<(K, R)>, offset: nat, from: nat, accum: R)
    requires offset <= from < slice.Length
    modifies slice
    ensures slice[..offset + 1] == old(slice[..offset]) + [(old(slice[from].0), accum)]
    ensures forall j :: from < j < slice.Length ==> slice[j] == old(slice[j])
  {
    slice[offset], slice[from] := slice[from], slice[offset];
    slice[offset] := (slice[offset].0, accum);
  }

  /** `consolidate_slice`: shorter slices need only the zero test. */
  method ConsolidateSlice<K(==, !new), R(==, !new)>(leq: (K, K) -> bool, G: Semigroup<R>, slice: array<(K, R)>)
    returns (length: nat)
    requires IsTotalOrder(leq) && IsDifference(G)
    modifies slice
    ensures length <= slice.Length
    ensures IsConsolidated(leq, G, old(slice[..]), slice[..length])
  {
    if slice.Length > 1 {
      length := ConsolidateSliceSlow(leq, G, slice);
    } else {
      length := if slice.Length == 1 && !G.isZero(slice[0].1) then 1 else 0;
      CompactConsolidates(leq, G, slice[..]);
      assert slice[..length] == Compact(G, slice[..]);
    }
  }

  /** `consolidate_from`: consolidates the entries from `offset` on and truncates; earlier entries stay. */
  method ConsolidateFrom<K(==, !new), R(==, !new)>(leq: (K, K) -> bool, G: Semigroup<R>, vec: seq<(K, R)>, offset: nat)
    returns (out: seq<(K, R)>)
    requires IsTotalOrder(leq) && IsDifference(G) && offset <= |vec|
    ensures offset <= |out| <= |vec| && out[..offset] == vec[..offset]
    ensures IsConsolidated(leq, G, vec[offset..], out[offset..])
  {
    var slice := new (K, R)[|vec| - offset](i requires 0 <= i < |vec| - offset => vec[offset + i]);
    assert slice[..] == vec[offset..];
    var length := ConsolidateSlice(leq, G, slice);
    out := vec[..offset] + slice[..length];
    assert out[offset..] == slice[..length];
  }

  // ----- consolidating into a container -----

  /** The default `consolidate_into`: push each run's accumulation onto the target. */
  method ConsolidateInto<K(==, !new), R(==, !new)>(leq: (K, K) -> bool, G: Semigroup<R>, source: seq<(K, R)>,
                                                   target: seq<(K, R)>)
    returns (target': seq<(K, R)>)
    requires IsTotalOrder(leq) && IsDifference(G)
    ensures target <= target' && IsConsolidated(leq, G, source, target'[|target|..])
  {
    var permutation := Sort(leq, source);
    SortIsSorted(leq, source);
    target' := target;
    if permutation != [] {
      var (prevKey, prevDiff) := permutation[0];
      for i := 1 to |permutation|
        invariant prevKey == permutation[i - 1].0
        invariant target' == target + Scan(G, permutation, i).0 && prevDiff == Scan(G, permutation, i).1
      {
        var (nextKey, nextDiff) := permutation[i];
        if nextKey == prevKey {
          prevDiff := G.plus(prevDiff, nextDiff);
        } else {
          if !G.isZero(prevDiff) {
            target' := target' + [(prevKey, prevDiff)];
          }
          prevKey, prevDiff := nextKey, nextDiff;
        }
      }
      if !G.isZero(prevDiff) {
        target' := target' + [(prevKey, prevDiff)];
      }
    }
    assert target'[|target|..] == Compact(G, permutation);
    CompactConsolidates(leq, G, permutation);
    PermutationSameSums(G, permutation, source);
  }

  /** The override for vectors: consolidate in place, then swap with the target. */
  method ConsolidateIntoVec<K(==, !new), R(==, !new)>(leq: (K, K) -> bool, G: Semigroup<R>, source: seq<(K, R)>,
                                                      target: seq<(K, R)>)
    returns (source': seq<(K, R)>, target': seq<(K, R)>)
    requires IsTotalOrder(leq) && IsDifference(G)
    ensures source' == target && IsConsolidated(leq, G, source, target')
  {
    var consolidated := ConsolidateFrom(leq, G, source, 0);
    assert source[0..] == source && consolidated[0..] == consolidated;
    source', target' := target, consolidated;
  }

  /** The two forms of `consolidate_into` leave the same target exactly when the target starts empty. */
  lemma IntoFormsAgreeIffEmpty<K(!new), R(!new)>(
    leq: (K, K) -> bool, G: Semigroup<R>, source: seq<(K, R)>, target: seq<(K, R)>, byDefault: seq<(K, R)>,
    byVec: seq<(K, R)>)
    requires IsTotalOrder(leq) && IsDifference(G)
    requires target <= byDefault && IsConsolidated(leq, G, source, byDefault[|target|..])
    requires IsConsolidated(leq, G, source, byVec)
    ensures byDefault == byVec <==> target == []
  {
    ConsolidatedUnique(leq, G, source, source, byDefault[|target|..], byVec);
  }
}
