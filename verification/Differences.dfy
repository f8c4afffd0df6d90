/**
  Differences: commutative semigroups with a test for zero, and sums of weighted entries over
  any selection of keys.  A semigroup need not hold a zero, so an empty sum is `None`.
 */
module Differences {
  import opened Wrappers

  datatype Semigroup<!R> = Semigroup(plus: (R, R) -> R, isZero: R -> bool)

  /** Commutative and associative, and what `is_zero` accepts acts as the identity. */
  ghost predicate IsDifference<R(!new)>(G: Semigroup<R>) {
    && (forall a, b :: Commutes(G, a, b))
    && (forall a, b, c :: Associates(G, a, b, c))
    && (forall a, b :: ZeroVanishes(G, a, b))
  }

  ghost predicate Commutes<R>(G: Semigroup<R>, a: R, b: R) {
    G.plus(a, b) == G.plus(b, a)
  }

  ghost predicate Associates<R>(G: Semigroup<R>, a: R, b: R, c: R) {
    G.plus(a, G.plus(b, c)) == G.plus(G.plus(a, b), c)
  }

  ghost predicate ZeroVanishes<R>(G: Semigroup<R>, a: R, b: R) {
    G.isZero(a) ==> G.plus(a, b) == b
  }

  function Combine<R>(G: Semigroup<R>, a: Option<R>, b: Option<R>): Option<R> {
    if a.None? then b else if b.None? then a else Some(G.plus(a.value, b.value))
  }

  /** A sum that is zero is as good as no sum. */
  function Net<R>(G: Semigroup<R>, a: Option<R>): Option<R> {
    if a.Some? && G.isZero(a.value) then None else a
  }

  /** The sum of the differences of the entries whose key is selected. */
  function Sum<K, R>(G: Semigroup<R>, s: seq<(K, R)>, select: K -> bool): Option<R> {
    if s == [] then None
    else Combine(G, if select(s[0].0) then Some(s[0].1) else None, Sum(G, s[1..], select))
  }

  /** The sums agree, up to zero, on every selection of keys. */
  ghost predicate SameSums<K(!new), R>(G: Semigroup<R>, s: seq<(K, R)>, t: seq<(K, R)>) {
    forall select: K -> bool :: Net(G, Sum(G, s, select)) == Net(G, Sum(G, t, select))
  }

  // ----- Combine -----

  lemma CombineLaws<R(!new)>(G: Semigroup<R>, a: Option<R>, b: Option<R>, c: Option<R>)
    requires IsDifference(G)
    ensures Combine(G, a, b) == Combine(G, b, a)
    ensures Combine(G, a, Combine(G, b, c)) == Combine(G, Combine(G, a, b), c)
  {
    if a.Some? && b.Some? {
      assert Commutes(G, a.value, b.value);
      if c.Some? {
        assert Associates(G, a.value, b.value, c.value);
      }
    }
  }

  lemma NetOfCombine<R(!new)>(G: Semigroup<R>, a: Option<R>, b: Option<R>)
    requires IsDifference(G)
    ensures Net(G, Combine(G, a, b)) == Net(G, Combine(G, Net(G, a), b))
    ensures Net(G, Combine(G, a, b)) == Net(G, Combine(G, a, Net(G, b)))
  {
    if a.Some? && b.Some? {
      assert Commutes(G, a.value, b.value);
      assert ZeroVanishes(G, a.value, b.value) && ZeroVanishes(G, b.value, a.value);
    }
  }

  // ----- Sum -----

  lemma {:induction false} SumConcat<K, R(!new)>(G: Semigroup<R>, s: seq<(K, R)>, t: seq<(K, R)>, select: K -> bool)
    requires IsDifference(G)
    ensures Sum(G, s + t, select) == Combine(G, Sum(G, s, select), Sum(G, t, select))
  {
    if s == [] {
      assert s + t == t;
    } else {
      SumConcat(G, s[1..], t, select);
      assert (s + t)[1..] == s[1..] + t;
      CombineLaws(G, if select(s[0].0) then Some(s[0].1) else None, Sum(G, s[1..], select), Sum(G, t, select));
    }
  }

  lemma {:induction false} SumOne<K, R(!new)>(G: Semigroup<R>, e: (K, R), select: K -> bool)
    ensures Sum(G, [e], select) == if select(e.0) then Some(e.1) else None
  {
    assert [e][1..] == [];
  }

  /** Moving the element at `i` to the front does not change the sum. */
  lemma {:induction false} SumToFront<K, R(!new)>(G: Semigroup<R>, s: seq<(K, R)>, i: nat, select: K -> bool)
    requires IsDifference(G) && i < |s|
    ensures Sum(G, s, select) == Sum(G, [s[i]] + (s[..i] + s[i + 1..]), select)
  {
    var a, b := s[..i], s[i + 1..];
    assert s == a + ([s[i]] + b);
    SumConcat(G, a, [s[i]] + b, select);
    SumConcat(G, [s[i]], b, select);
    SumConcat(G, [s[i]], a + b, select);
    SumConcat(G, a, b, select);
    var x, y, z := Sum(G, [s[i]], select), Sum(G, a, select), Sum(G, b, select);
    CombineLaws(G, y, x, z);
    CombineLaws(G, x, y, z);
  }

  lemma WithoutFirst<X>(s: seq<X>, t: seq<X>) returns (i: nat)
    requires s != [] && multiset(s) == multiset(t)
    ensures i < |t| && t[i] == s[0]
    ensures multiset(s[1..]) == multiset(t[..i] + t[i + 1..])
  {
    assert s[0] in multiset(s) && s[0] in multiset(t);
    i :| 0 <= i < |t| && t[i] == s[0];
    WithoutOne(s, 0);
    WithoutOne(t, i);
    assert s[..0] + s[1..] == s[1..];
  }

  lemma WithoutOne<X>(s: seq<X>, i: nat)
    requires i < |s|
    ensures multiset(s[..i] + s[i + 1..]) == multiset(s) - multiset{s[i]}
  {
    assert s == s[..i] + [s[i]] + s[i + 1..];
  }

  /** Sums do not depend on the order of the entries. */
  lemma {:induction false} SumPermutation<K, R(!new)>(G: Semigroup<R>, s: seq<(K, R)>, t: seq<(K, R)>,
                                                      select: K -> bool)
    requires IsDifference(G) && multiset(s) == multiset(t)
    ensures Sum(G, s, select) == Sum(G, t, select)
    decreases |s|
  {
    if s == [] {
      assert |multiset(t)| == 0;
    } else {
      var i := WithoutFirst(s, t);
      var rest := t[..i] + t[i + 1..];
      SumPermutation(G, s[1..], rest, select);
      SumToFront(G, t, i, select);
      assert ([t[i]] + rest)[1..] == rest;
    }
  }

  lemma PermutationSameSums<K(!new), R(!new)>(G: Semigroup<R>, s: seq<(K, R)>, t: seq<(K, R)>)
    requires IsDifference(G) && multiset(s) == multiset(t)
    ensures SameSums(G, s, t)
  {
    forall select: K -> bool
      ensures Sum(G, s, select) == Sum(G, t, select)
    {
      SumPermutation(G, s, t, select);
    }
  }

  /** Replacing a part by one with the same sums keeps the sums of the whole. */
  lemma SameSumsConcat<K(!new), R(!new)>(
    G: Semigroup<R>, s: seq<(K, R)>, s': seq<(K, R)>, t: seq<(K, R)>, t': seq<(K, R)>)
    requires IsDifference(G) && SameSums(G, s, s') && SameSums(G, t, t')
    ensures SameSums(G, s + t, s' + t')
  {
    forall select: K -> bool
      ensures Net(G, Sum(G, s + t, select)) == Net(G, Sum(G, s' + t', select))
    {
      SumConcat(G, s, t, select);
      SumConcat(G, s', t', select);
      var a, a', b, b' := Sum(G, s, select), Sum(G, s', select), Sum(G, t, select), Sum(G, t', select);
      assert Net(G, a) == Net(G, a') && Net(G, b) == Net(G, b');
      NetOfCombine(G, a, b);
      NetOfCombine(G, a', b);
      NetOfCombine(G, a', b');
    }
  }
}
