/**
  Frontiers: antichains of times, ordered by the sets of times beyond them, and the
  operations on them.  An `Antichain` compares equal up to the order of its elements, so it
  is modelled as a set; a borrowed slice of times is a sequence.
 */
module Frontiers {
  import opened Lattices

  /** `less_equal` of a frontier and a time: some element is at or below `t`. */
  predicate Beyond<T(==)>(L: Lattice<T>, f: set<T>, t: T) {
    exists x :: x in f && L.leq(x, t)
  }

  function Elements<T(==)>(s: seq<T>): set<T> {
    set x | x in s
  }

  /** `less_equal` of two frontiers: every element of `g` is beyond `f`. */
  predicate FrontierLeq<T(==)>(L: Lattice<T>, f: set<T>, g: set<T>) {
    forall y :: y in g ==> Beyond(L, f, y)
  }

  /** `less_than` of two frontiers. */
  predicate FrontierLess<T(==)>(L: Lattice<T>, f: set<T>, g: set<T>) {
    FrontierLeq(L, f, g) && f != g
  }

  ghost predicate IsAntichain<T>(L: Lattice<T>, f: set<T>) {
    forall x, y :: x in f && y in f && L.leq(x, y) ==> x == y
  }

  /** `f` is the antichain whose future is described by `beyond`. */
  ghost predicate IsFrontierOf<T(!new)>(L: Lattice<T>, f: set<T>, beyond: T -> bool) {
    IsAntichain(L, f) && forall t :: Beyond(L, f, t) <==> beyond(t)
  }

  // ----- the frontier order -----

  lemma BeyondUpward<T(!new)>(L: Lattice<T>, f: set<T>, s: T, t: T)
    requires IsPartialOrder(L) && Beyond(L, f, s) && L.leq(s, t)
    ensures Beyond(L, f, t)
  {
    var x :| x in f && L.leq(x, s);
    assert L.leq(x, t);
  }

  /** The frontier order is reverse inclusion of the times beyond. */
  lemma FrontierLeqMeaning<T(!new)>(L: Lattice<T>, f: set<T>, g: set<T>)
    requires IsPartialOrder(L)
    ensures FrontierLeq(L, f, g) <==> forall t :: Beyond(L, g, t) ==> Beyond(L, f, t)
  {
    if FrontierLeq(L, f, g) {
      forall t | Beyond(L, g, t)
        ensures Beyond(L, f, t)
      {
        var y :| y in g && L.leq(y, t);
        BeyondUpward(L, f, y, t);
      }
    } else {
      var y :| y in g && !Beyond(L, f, y);
      assert L.leq(y, y);
    }
  }

  lemma FrontierLeqTransitive<T(!new)>(L: Lattice<T>, f: set<T>, g: set<T>, h: set<T>)
    requires IsPartialOrder(L) && FrontierLeq(L, f, g) && FrontierLeq(L, g, h)
    ensures FrontierLeq(L, f, h)
  {
    FrontierLeqMeaning(L, f, g);
  }

  lemma FrontierLeqReflexive<T(!new)>(L: Lattice<T>, f: set<T>)
    requires IsPartialOrder(L)
    ensures FrontierLeq(L, f, f)
  {
    FrontierLeqMeaning(L, f, f);
  }

  /** Each element of an antichain is recovered from the times beyond it. */
  lemma ElementFromFuture<T(!new)>(L: Lattice<T>, f: set<T>, g: set<T>, x: T)
    requires IsPartialOrder(L) && IsAntichain(L, f) && IsAntichain(L, g)
    requires FrontierLeq(L, f, g) && FrontierLeq(L, g, f)
    requires x in f
    ensures x in g
  {
    var y :| y in g && L.leq(y, x);
    var z :| z in f && L.leq(z, y);
    assert L.leq(z, x);
  }

  lemma FrontierLeqAntisymmetric<T(!new)>(L: Lattice<T>, f: set<T>, g: set<T>)
    requires IsPartialOrder(L) && IsAntichain(L, f) && IsAntichain(L, g)
    requires FrontierLeq(L, f, g) && FrontierLeq(L, g, f)
    ensures f == g
  {
    forall x
      ensures x in f <==> x in g
    {
      if x in f { ElementFromFuture(L, f, g, x); }
      if x in g { ElementFromFuture(L, g, f, x); }
    }
  }

  /** An antichain is determined by the set of times beyond it. */
  lemma FrontierUnique<T(!new)>(L: Lattice<T>, f: set<T>, g: set<T>)
    requires IsPartialOrder(L) && IsAntichain(L, f) && IsAntichain(L, g)
    requires forall t :: Beyond(L, f, t) <==> Beyond(L, g, t)
    ensures f == g
  {
    FrontierLeqMeaning(L, f, g);
    FrontierLeqMeaning(L, g, f);
    FrontierLeqAntisymmetric(L, f, g);
  }

  // ----- insertion -----

  /** `Antichain::insert`: drop the element if it is beyond `f`, else evict what it covers. */
  function Insert<T(==)>(L: Lattice<T>, f: set<T>, e: T): set<T> {
    if Beyond(L, f, e) then f else (set x | x in f && !L.leq(e, x)) + {e}
  }

  lemma InsertMeaning<T(!new)>(L: Lattice<T>, f: set<T>, e: T)
    requires IsPartialOrder(L) && IsAntichain(L, f)
    ensures IsAntichain(L, Insert(L, f, e))
    ensures forall t :: Beyond(L, Insert(L, f, e), t) <==> Beyond(L, f, t) || L.leq(e, t)
  {
    var g := Insert(L, f, e);
    forall t
      ensures Beyond(L, g, t) <==> Beyond(L, f, t) || L.leq(e, t)
    {
      if Beyond(L, f, e) {
        if L.leq(e, t) { BeyondUpward(L, f, e, t); }
      } else {
        if L.leq(e, t) { assert e in g; }
        if Beyond(L, f, t) {
          var x :| x in f && L.leq(x, t);
          assert x in g || (e in g && L.leq(e, t));
        }
      }
    }
    forall x, y | x in g && y in g && L.leq(x, y)
      ensures x == y
    {
      assert !Beyond(L, f, e) && x in f ==> !L.leq(x, e);
    }
  }

  // ----- joins and meets of frontiers -----

  /**
    `Lattice for Antichain`, and `antichain_join_into` over slices that need not be
    antichains themselves: the times beyond the result are those beyond both inputs.
   */
  method AntichainJoin<T(==, !new)>(L: Lattice<T>, one: seq<T>, other: seq<T>) returns (upper: set<T>)
    requires IsLattice(L)
    ensures IsFrontierOf(L, upper, t => Beyond(L, Elements(one), t) && Beyond(L, Elements(other), t))
  {
    upper := {};
    for i := 0 to |one|
      invariant IsAntichain(L, upper)
      invariant forall t :: Beyond(L, upper, t) <==>
                  Beyond(L, Elements(one[..i]), t) && Beyond(L, Elements(other), t)
    {
      ghost var before := upper;
      for j := 0 to |other|
        invariant IsAntichain(L, upper)
        invariant forall t :: Beyond(L, upper, t) <==>
                    Beyond(L, before, t) || (L.leq(one[i], t) && Beyond(L, Elements(other[..j]), t))
      {
        var e := L.join(one[i], other[j]);
        InsertMeaning(L, upper, e);
        upper := Insert(L, upper, e);
        forall t
          ensures L.leq(e, t) <==> L.leq(one[i], t) && L.leq(other[j], t)
        {
          JoinBelow(L, one[i], other[j], t);
        }
        BeyondAppend(L, other, j);
      }
      assert other[..|other|] == other;
      BeyondAppend(L, one, i);
    }
    assert one[..|one|] == one;
  }

  lemma JoinBelow<T(!new)>(L: Lattice<T>, x: T, y: T, t: T)
    requires IsLattice(L)
    ensures L.leq(L.join(x, y), t) <==> L.leq(x, t) && L.leq(y, t)
  {
    assert L.leq(x, L.join(x, y)) && L.leq(y, L.join(x, y));
  }

  lemma BeyondAppend<T(!new)>(L: Lattice<T>, s: seq<T>, i: nat)
    requires i < |s|
    ensures forall t :: Beyond(L, Elements(s[..i + 1]), t) <==> Beyond(L, Elements(s[..i]), t) || L.leq(s[i], t)
  {
    assert Elements(s[..i + 1]) == Elements(s[..i]) + {s[i]};
    forall t
      ensures Beyond(L, Elements(s[..i + 1]), t) <==> Beyond(L, Elements(s[..i]), t) || L.leq(s[i], t)
    {
      if Beyond(L, Elements(s[..i]), t) {
        var x :| x in Elements(s[..i]) && L.leq(x, t);
        assert x in Elements(s[..i + 1]);
      }
      if L.leq(s[i], t) {
        assert s[i] in Elements(s[..i + 1]);
      }
    }
  }

  /** `antichain_meet`: the times beyond the result are those beyond either input. */
  method AntichainMeet<T(==, !new)>(L: Lattice<T>, one: seq<T>, other: seq<T>) returns (lower: set<T>)
    requires IsLattice(L)
    ensures IsFrontierOf(L, lower, t => Beyond(L, Elements(one), t) || Beyond(L, Elements(other), t))
  {
    lower := Extend(L, {}, one);
    lower := Extend(L, lower, other);
  }

  /** `Antichain::extend`: insert each time in turn. */
  method Extend<T(==, !new)>(L: Lattice<T>, f: set<T>, times: seq<T>) returns (g: set<T>)
    requires IsPartialOrder(L) && IsAntichain(L, f)
    ensures IsFrontierOf(L, g, t => Beyond(L, f, t) || Beyond(L, Elements(times), t))
  {
    g := f;
    for i := 0 to |times|
      invariant IsAntichain(L, g)
      invariant forall t :: Beyond(L, g, t) <==> Beyond(L, f, t) || Beyond(L, Elements(times[..i]), t)
    {
      InsertMeaning(L, g, times[i]);
      g := Insert(L, g, times[i]);
      BeyondAppend(L, times, i);
    }
    assert times[..|times|] == times;
  }

  /** The join of frontiers, described by the times beyond it, is their least upper bound. */
  lemma JoinFrontierIsLub<T(!new)>(L: Lattice<T>, f: set<T>, g: set<T>, upper: set<T>, h: set<T>)
    requires IsLattice(L)
    requires IsFrontierOf(L, upper, t => Beyond(L, f, t) && Beyond(L, g, t))
    ensures FrontierLeq(L, f, upper) && FrontierLeq(L, g, upper)
    ensures FrontierLeq(L, f, h) && FrontierLeq(L, g, h) ==> FrontierLeq(L, upper, h)
  {
    FrontierLeqMeaning(L, f, upper);
    FrontierLeqMeaning(L, g, upper);
    FrontierLeqMeaning(L, f, h);
    FrontierLeqMeaning(L, g, h);
    FrontierLeqMeaning(L, upper, h);
  }

  /** The meet of frontiers, described by the times beyond it, is their greatest lower bound. */
  lemma MeetFrontierIsGlb<T(!new)>(L: Lattice<T>, f: set<T>, g: set<T>, lower: set<T>, h: set<T>)
    requires IsLattice(L)
    requires IsFrontierOf(L, lower, t => Beyond(L, f, t) || Beyond(L, g, t))
    ensures FrontierLeq(L, lower, f) && FrontierLeq(L, lower, g)
    ensures FrontierLeq(L, h, f) && FrontierLeq(L, h, g) ==> FrontierLeq(L, h, lower)
  {
    FrontierLeqMeaning(L, lower, f);
    FrontierLeqMeaning(L, lower, g);
    FrontierLeqMeaning(L, h, f);
    FrontierLeqMeaning(L, h, g);
    FrontierLeqMeaning(L, h, lower);
  }

  // ----- advance_by -----

  /** `s` and `t` compare alike to every time beyond the frontier. */
  ghost predicate Indistinguishable<T(!new)>(L: Lattice<T>, f: seq<T>, s: T, t: T) {
    forall u :: Beyond(L, Elements(f), u) ==> (L.leq(s, u) <==> L.leq(t, u))
  }

  /** The value `advance_by` leaves in its receiver: the meet of the joins with the frontier's elements. */
  function Advance<T>(L: Lattice<T>, f: seq<T>, t: T): T {
    if f == [] then t
    else if |f| == 1 then L.join(t, f[0])
    else L.meet(Advance(L, f[..|f| - 1], t), L.join(t, f[|f| - 1]))
  }

  method AdvanceBy<T(==)>(L: Lattice<T>, f: seq<T>, t: T) returns (result: T)
    ensures result == Advance(L, f, t)
  {
    result := t;
    if f != [] {
      result := L.join(t, f[0]);
      for i := 1 to |f|
        invariant result == Advance(L, f[..i], t)
      {
        result := L.meet(result, L.join(t, f[i]));
        assert f[..i + 1][..i] == f[..i];
      }
      assert f[..|f|] == f;
    }
  }

  /** The advanced time is the greatest lower bound of the joins. */
  lemma {:induction false} AdvanceIsGlb<T(!new)>(L: Lattice<T>, f: seq<T>, t: T)
    requires IsLattice(L) && f != []
    ensures forall x :: x in f ==> L.leq(Advance(L, f, t), L.join(t, x))
    ensures forall z :: (forall x :: x in f ==> L.leq(z, L.join(t, x))) ==> L.leq(z, Advance(L, f, t))
  {
    if |f| == 1 {
      assert L.leq(L.join(t, f[0]), L.join(t, f[0]));
    } else {
      var init, last := f[..|f| - 1], f[|f| - 1];
      AdvanceIsGlb(L, init, t);
      assert f == init + [last];
      var a, b := Advance(L, init, t), L.join(t, last);
      assert L.leq(L.meet(a, b), a) && L.leq(L.meet(a, b), b);
      forall z | forall x :: x in f ==> L.leq(z, L.join(t, x))
        ensures L.leq(z, L.meet(a, b))
      {
        assert last in f;
        assert forall x :: x in init ==> L.leq(z, L.join(t, x));
      }
    }
  }

  /** The advanced time is indistinguishable from the original, and is the greatest such time. */
  lemma {:induction false} AdvanceIsGreatest<T(!new)>(L: Lattice<T>, f: seq<T>, t: T)
    requires IsLattice(L) && f != []
    ensures Indistinguishable(L, f, t, Advance(L, f, t))
    ensures forall s :: Indistinguishable(L, f, t, s) ==> L.leq(s, Advance(L, f, t))
    ensures L.leq(t, Advance(L, f, t))
  {
    AdvanceIsGlb(L, f, t);
    var a := Advance(L, f, t);
    assert forall x :: x in f ==> L.leq(t, L.join(t, x));
    forall u | Beyond(L, Elements(f), u)
      ensures L.leq(t, u) <==> L.leq(a, u)
    {
      var x :| x in Elements(f) && L.leq(x, u);
      JoinBelow(L, t, x, u);
      assert L.leq(a, L.join(t, x));
    }
    forall s | Indistinguishable(L, f, t, s)
      ensures L.leq(s, a)
    {
      forall x | x in f
        ensures L.leq(s, L.join(t, x))
      {
        assert x in Elements(f) && L.leq(x, L.join(t, x));
        assert Beyond(L, Elements(f), L.join(t, x));
      }
    }
  }

  /** Times are indistinguishable beyond the frontier exactly when they advance to the same time. */
  lemma {:induction false} AdvanceIsCanonical<T(!new)>(L: Lattice<T>, f: seq<T>, s: T, t: T)
    requires IsLattice(L) && f != []
    ensures Indistinguishable(L, f, s, t) <==> Advance(L, f, s) == Advance(L, f, t)
  {
    AdvanceIsGreatest(L, f, s);
    AdvanceIsGreatest(L, f, t);
    if Indistinguishable(L, f, s, t) {
      assert Indistinguishable(L, f, s, Advance(L, f, t));
      assert Indistinguishable(L, f, t, Advance(L, f, s));
    }
  }

  lemma {:induction false} AdvanceIdempotent<T(!new)>(L: Lattice<T>, f: seq<T>, t: T)
    requires IsLattice(L)
    ensures Advance(L, f, Advance(L, f, t)) == Advance(L, f, t)
  {
    if f != [] {
      AdvanceIsGreatest(L, f, t);
      AdvanceIsCanonical(L, f, t, Advance(L, f, t));
    }
  }
}
