/** Filtering and mapping of sequences, as used for `retain`, `filter` and `map`. */
module Sequences {

  function Filter<X>(s: seq<X>, keep: X -> bool): (r: seq<X>)
    ensures |r| <= |s|
  {
    if s == [] then []
    else (if keep(s[0]) then [s[0]] else []) + Filter(s[1..], keep)
  }

  /** The filtered sequence holds exactly the elements that are kept. */
  lemma {:induction false} FilterMembers<X>(s: seq<X>, keep: X -> bool)
    ensures forall x :: x in Filter(s, keep) ==> x in s && keep(x)
    ensures forall x :: x in s && keep(x) ==> x in Filter(s, keep)
  {
    if s != [] {
      FilterMembers(s[1..], keep);
      assert s == [s[0]] + s[1..];
    }
  }

  lemma {:induction false} FilterConcat<X>(s: seq<X>, t: seq<X>, keep: X -> bool)
    ensures Filter(s + t, keep) == Filter(s, keep) + Filter(t, keep)
  {
    if s == [] {
      assert s + t == t;
    } else {
      var head := if keep(s[0]) then [s[0]] else [];
      calc {
        Filter(s + t, keep);
        { assert (s + t)[0] == s[0] && (s + t)[1..] == s[1..] + t; }
        head + Filter(s[1..] + t, keep);
        { FilterConcat(s[1..], t, keep); }
        head + (Filter(s[1..], keep) + Filter(t, keep));
        head + Filter(s[1..], keep) + Filter(t, keep);
        Filter(s, keep) + Filter(t, keep);
      }
    }
  }

  lemma {:induction false} FilterNone<X>(s: seq<X>, keep: X -> bool)
    requires forall x :: x in s ==> !keep(x)
    ensures Filter(s, keep) == []
  {
    if s != [] {
      FilterNone(s[1..], keep);
    }
  }

  /** Filters that agree on the elements give the same result. */
  lemma {:induction false} FilterAgree<X>(s: seq<X>, keep: X -> bool, keep': X -> bool)
    requires forall x :: x in s ==> keep(x) == keep'(x)
    ensures Filter(s, keep) == Filter(s, keep')
  {
    if s != [] {
      FilterAgree(s[1..], keep, keep');
    }
  }

  /** What lies within an empty sequence is empty. */
  lemma WithinEmpty<X>(s: seq<X>, t: seq<X>)
    requires forall x :: x in t ==> x in s
    ensures s == [] ==> t == []
  {
    if t != [] {
      assert t[0] in s;
    }
  }

  /** Only the middle part matters when nothing else is kept. */
  lemma {:induction false} FilterMiddle<X>(a: seq<X>, b: seq<X>, c: seq<X>, keep: X -> bool, keep': X -> bool)
    requires forall x :: x in a || x in c ==> !keep(x)
    requires forall x :: x in b ==> keep(x) == keep'(x)
    ensures Filter(a + b + c, keep) == Filter(b, keep')
  {
    FilterConcat(a + b, c, keep);
    FilterConcat(a, b, keep);
    FilterNone(a, keep);
    FilterNone(c, keep);
    FilterAgree(b, keep, keep');
  }

  /** Filtering keeps each element as often as it occurs, or not at all. */
  lemma {:induction false} FilterCounts<X>(s: seq<X>, keep: X -> bool, x: X)
    ensures multiset(Filter(s, keep))[x] == if keep(x) then multiset(s)[x] else 0
  {
    if s != [] {
      FilterCounts(s[1..], keep, x);
      assert s == [s[0]] + s[1..];
    }
  }

  ghost predicate Distinct<X>(s: seq<X>) {
    forall i, j :: 0 <= i < j < |s| ==> s[i] != s[j]
  }

  lemma {:induction false} FilterDistinct<X>(s: seq<X>, keep: X -> bool)
    requires Distinct(s)
    ensures Distinct(Filter(s, keep))
  {
    if s != [] {
      FilterDistinct(s[1..], keep);
      FilterMembers(s[1..], keep);
      assert s[0] !in s[1..];
    }
  }
}
