/**
  Partially ordered times with joins and meets, as values: a lattice is a record of its
  order, join and meet, and `IsLattice` states the laws.  Products, lexicographic pairs and
  totally ordered times are built as records of this kind and proved to obey the laws.
 */
module Lattices {

  datatype Lattice<!T> = Lattice(leq: (T, T) -> bool, join: (T, T) -> T, meet: (T, T) -> T)

  /** `less_than`: below and different. */
  predicate Less<T(==)>(L: Lattice<T>, x: T, y: T) {
    L.leq(x, y) && x != y
  }

  ghost predicate IsPartialOrder<T(!new)>(L: Lattice<T>) {
    && (forall x :: L.leq(x, x))
    && (forall x, y :: L.leq(x, y) && L.leq(y, x) ==> x == y)
    && (forall x, y, z :: L.leq(x, y) && L.leq(y, z) ==> L.leq(x, z))
  }

  /** `join` is the least upper bound of its arguments. */
  ghost predicate JoinIsLub<T(!new)>(L: Lattice<T>) {
    && (forall x, y {:trigger L.join(x, y)} :: L.leq(x, L.join(x, y)) && L.leq(y, L.join(x, y)))
    && (forall x, y, z {:trigger L.leq(L.join(x, y), z)} ::
          L.leq(x, z) && L.leq(y, z) ==> L.leq(L.join(x, y), z))
  }

  /** `meet` is the greatest lower bound of its arguments. */
  ghost predicate MeetIsGlb<T(!new)>(L: Lattice<T>) {
    && (forall x, y {:trigger L.meet(x, y)} :: L.leq(L.meet(x, y), x) && L.leq(L.meet(x, y), y))
    && (forall x, y, z {:trigger L.leq(z, L.meet(x, y))} ::
          L.leq(z, x) && L.leq(z, y) ==> L.leq(z, L.meet(x, y)))
  }

  ghost predicate IsLattice<T(!new)>(L: Lattice<T>) {
    IsPartialOrder(L) && JoinIsLub(L) && MeetIsGlb(L)
  }

  ghost predicate IsMinimum<T(!new)>(L: Lattice<T>, bottom: T) {
    forall x :: L.leq(bottom, x)
  }

  ghost predicate IsMaximum<T(!new)>(L: Lattice<T>, top: T) {
    forall x :: L.leq(x, top)
  }

  // ----- totally ordered times -----

  /** Integer times ordered as usual, with maximum and minimum as join and meet. */
  function TotalOrder(): Lattice<int> {
    Lattice((x: int, y: int) => x <= y,
            (x: int, y: int) => if x <= y then y else x,
            (x: int, y: int) => if x <= y then x else y)
  }

  lemma TotalOrderIsLattice()
    ensures IsLattice(TotalOrder())
  {
  }

  // ----- products -----

  /** `Product`: ordered, joined and met componentwise. */
  function ProductOf<A, B>(L: Lattice<A>, M: Lattice<B>): Lattice<(A, B)> {
    Lattice((x: (A, B), y: (A, B)) => L.leq(x.0, y.0) && M.leq(x.1, y.1),
            (x: (A, B), y: (A, B)) => (L.join(x.0, y.0), M.join(x.1, y.1)),
            (x: (A, B), y: (A, B)) => (L.meet(x.0, y.0), M.meet(x.1, y.1)))
  }

  lemma ProductAt<A, B>(L: Lattice<A>, M: Lattice<B>, x: (A, B), y: (A, B))
    ensures ProductOf(L, M).leq(x, y) == (L.leq(x.0, y.0) && M.leq(x.1, y.1))
    ensures ProductOf(L, M).join(x, y) == (L.join(x.0, y.0), M.join(x.1, y.1))
    ensures ProductOf(L, M).meet(x, y) == (L.meet(x.0, y.0), M.meet(x.1, y.1))
  {
  }

  lemma ProductLaws<A(!new), B(!new)>(L: Lattice<A>, M: Lattice<B>, x: (A, B), y: (A, B), z: (A, B))
    requires IsLattice(L) && IsLattice(M)
    ensures var P := ProductOf(L, M);
            && P.leq(x, x)
            && (P.leq(x, y) && P.leq(y, x) ==> x == y)
            && (P.leq(x, y) && P.leq(y, z) ==> P.leq(x, z))
            && P.leq(x, P.join(x, y)) && P.leq(y, P.join(x, y))
            && (P.leq(x, z) && P.leq(y, z) ==> P.leq(P.join(x, y), z))
            && P.leq(P.meet(x, y), x) && P.leq(P.meet(x, y), y)
            && (P.leq(z, x) && P.leq(z, y) ==> P.leq(z, P.meet(x, y)))
  {
    var P := ProductOf(L, M);
    ProductAt(L, M, x, y);
    ProductAt(L, M, x, P.join(x, y));
    ProductAt(L, M, P.join(x, y), z);
    ProductAt(L, M, z, P.meet(x, y));
  }

  lemma ProductIsLattice<A(!new), B(!new)>(L: Lattice<A>, M: Lattice<B>)
    requires IsLattice(L) && IsLattice(M)
    ensures IsLattice(ProductOf(L, M))
  {
    var P := ProductOf(L, M);
    forall x, y, z
      ensures P.leq(x, x)
      ensures P.leq(x, y) && P.leq(y, x) ==> x == y
      ensures P.leq(x, y) && P.leq(y, z) ==> P.leq(x, z)
    {
      ProductLaws(L, M, x, y, z);
    }
    forall x, y
      ensures P.leq(x, P.join(x, y)) && P.leq(y, P.join(x, y))
      ensures P.leq(P.meet(x, y), x) && P.leq(P.meet(x, y), y)
    {
      ProductLaws(L, M, x, y, x);
    }
    forall x, y, z | P.leq(x, z) && P.leq(y, z)
      ensures P.leq(P.join(x, y), z)
    {
      ProductLaws(L, M, x, y, z);
    }
    forall x, y, z | P.leq(z, x) && P.leq(z, y)
      ensures P.leq(z, P.meet(x, y))
    {
      ProductLaws(L, M, x, y, z);
    }
  }

  // ----- lexicographic pairs -----

  predicate LexLeq<A(==), B>(L: Lattice<A>, M: Lattice<B>, x: (A, B), y: (A, B)) {
    Less(L, x.0, y.0) || (x.0 == y.0 && M.leq(x.1, y.1))
  }

  function LexJoin<A(==), B>(L: Lattice<A>, M: Lattice<B>, minimum: B, x: (A, B), y: (A, B)): (A, B) {
    if x.0 == y.0 then (x.0, M.join(x.1, y.1))
    else if Less(L, x.0, y.0) then y
    else if Less(L, y.0, x.0) then x
    else (L.join(x.0, y.0), minimum)
  }

  function LexMeet<A(==), B>(L: Lattice<A>, M: Lattice<B>, maximum: B, x: (A, B), y: (A, B)): (A, B) {
    if x.0 == y.0 then (x.0, M.meet(x.1, y.1))
    else if Less(L, x.0, y.0) then x
    else if Less(L, y.0, x.0) then y
    else (L.meet(x.0, y.0), maximum)
  }

  /**
    Pairs ordered lexicographically.  When the first components are incomparable, the join
    takes the minimum of the second type and the meet takes its maximum.
   */
  function LexicographicOf<A(==), B>(L: Lattice<A>, M: Lattice<B>, minimum: B, maximum: B): Lattice<(A, B)> {
    Lattice((x: (A, B), y: (A, B)) => LexLeq(L, M, x, y),
            (x: (A, B), y: (A, B)) => LexJoin(L, M, minimum, x, y),
            (x: (A, B), y: (A, B)) => LexMeet(L, M, maximum, x, y))
  }

  lemma LexicographicAt<A, B>(L: Lattice<A>, M: Lattice<B>, minimum: B, maximum: B, x: (A, B), y: (A, B))
    ensures LexicographicOf(L, M, minimum, maximum).leq(x, y) == LexLeq(L, M, x, y)
    ensures LexicographicOf(L, M, minimum, maximum).join(x, y) == LexJoin(L, M, minimum, x, y)
    ensures LexicographicOf(L, M, minimum, maximum).meet(x, y) == LexMeet(L, M, maximum, x, y)
  {
  }

  lemma LexJoinIsLub<A(!new), B(!new)>(L: Lattice<A>, M: Lattice<B>, minimum: B, x: (A, B), y: (A, B), z: (A, B))
    requires IsLattice(L) && IsLattice(M) && IsMinimum(M, minimum)
    ensures LexLeq(L, M, x, LexJoin(L, M, minimum, x, y)) && LexLeq(L, M, y, LexJoin(L, M, minimum, x, y))
    ensures LexLeq(L, M, x, z) && LexLeq(L, M, y, z) ==> LexLeq(L, M, LexJoin(L, M, minimum, x, y), z)
  {
    assert L.leq(x.0, L.join(x.0, y.0)) && L.leq(y.0, L.join(x.0, y.0));
    assert L.leq(x.0, z.0) && L.leq(y.0, z.0) ==> L.leq(L.join(x.0, y.0), z.0);
  }

  lemma LexMeetIsGlb<A(!new), B(!new)>(L: Lattice<A>, M: Lattice<B>, maximum: B, x: (A, B), y: (A, B), z: (A, B))
    requires IsLattice(L) && IsLattice(M) && IsMaximum(M, maximum)
    ensures LexLeq(L, M, LexMeet(L, M, maximum, x, y), x) && LexLeq(L, M, LexMeet(L, M, maximum, x, y), y)
    ensures LexLeq(L, M, z, x) && LexLeq(L, M, z, y) ==> LexLeq(L, M, z, LexMeet(L, M, maximum, x, y))
  {
    assert L.leq(L.meet(x.0, y.0), x.0) && L.leq(L.meet(x.0, y.0), y.0);
    assert L.leq(z.0, x.0) && L.leq(z.0, y.0) ==> L.leq(z.0, L.meet(x.0, y.0));
  }

  lemma LexicographicIsLattice<A(!new), B(!new)>(L: Lattice<A>, M: Lattice<B>, minimum: B, maximum: B)
    requires IsLattice(L) && IsLattice(M)
    requires IsMinimum(M, minimum) && IsMaximum(M, maximum)
    ensures IsLattice(LexicographicOf(L, M, minimum, maximum))
  {
    var P := LexicographicOf(L, M, minimum, maximum);
    forall x: (A, B), y: (A, B)
      ensures P.leq(x, y) == LexLeq(L, M, x, y)
      ensures P.join(x, y) == LexJoin(L, M, minimum, x, y)
      ensures P.meet(x, y) == LexMeet(L, M, maximum, x, y)
    {
      LexicographicAt(L, M, minimum, maximum, x, y);
    }
    assert IsPartialOrder(P);
    forall x, y
      ensures P.leq(x, P.join(x, y)) && P.leq(y, P.join(x, y))
      ensures P.leq(P.meet(x, y), x) && P.leq(P.meet(x, y), y)
    {
      LexJoinIsLub(L, M, minimum, x, y, x);
      LexMeetIsGlb(L, M, maximum, x, y, x);
    }
    forall x, y, z | P.leq(x, z) && P.leq(y, z)
      ensures P.leq(P.join(x, y), z)
    {
      LexJoinIsLub(L, M, minimum, x, y, z);
    }
    forall x, y, z | P.leq(z, x) && P.leq(z, y)
      ensures P.leq(z, P.meet(x, y))
    {
      LexMeetIsGlb(L, M, maximum, x, y, z);
    }
  }
}
