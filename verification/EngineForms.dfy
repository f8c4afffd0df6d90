/**
  `IN` and `BETWEEN` in the engine, which looks for nulls there, unlike in other comparisons:
  where that makes them follow three-valued logic, negated or not.  Both are abbreviations for
  predicates in the sense of this project, so that what holds of all predicates holds of them.
 */
module EngineForms {
  import opened UserValues
  import opened Predicates
  import opened EngineEval

  function Values(scalars: seq<Scalar>, row: Row, ctx: Context): (values: seq<SqlValue>)
    ensures |values| == |scalars|
  {
    seq(|scalars|, i requires 0 <= i < |scalars| => ScalarValue(scalars[i], row, ctx))
  }

  lemma {:induction false} NotNull(holds: Comparison, s: Scalar, row: Row, ctx: Context)
    ensures Engine(holds, Not(IsNull(s)), row, ctx) == !ScalarValue(s, row, ctx).SqlNull?
  {
    assert Engine(holds, IsNull(s), row, ctx) == ScalarValue(s, row, ctx).SqlNull?;
  }

  // ----- IN -----

  predicate Hits(holds: Comparison, value: SqlValue, candidates: seq<SqlValue>) {
    exists i :: 0 <= i < |candidates| && EngineEq(holds, value, candidates[i])
  }

  predicate HasNull(candidates: seq<SqlValue>) {
    exists i :: 0 <= i < |candidates| && candidates[i].SqlNull?
  }

  /** What the engine makes of `value [NOT] IN (candidates)`. */
  predicate EngineIn(holds: Comparison, value: SqlValue, candidates: seq<SqlValue>, negated: bool) {
    && !value.SqlNull?
    && if negated then !Hits(holds, value, candidates) && !HasNull(candidates) else Hits(holds, value, candidates)
  }

  /** The loop over the candidates, which ends at the first hit. */
  method InList(holds: Comparison, value: SqlValue, candidates: seq<SqlValue>, negated: bool) returns (admitted: bool)
    ensures admitted == EngineIn(holds, value, candidates, negated)
  {
    if value.SqlNull? {
      return false;
    }
    var sawNull, hit := false, false;
    for i := 0 to |candidates|
      invariant !hit && forall k :: 0 <= k < i ==> !EngineEq(holds, value, candidates[k])
      invariant sawNull <==> exists k :: 0 <= k < i && candidates[k].SqlNull?
    {
      if candidates[i].SqlNull? {
        sawNull := true;
      } else if EngineEq(holds, value, candidates[i]) {
        hit := true;
        break;
      }
    }
    admitted := if negated then !hit && !sawNull else hit;
  }

  /** No candidate and no value is a list. */
  predicate NoLists(value: SqlValue, candidates: seq<SqlValue>) {
    !value.SqlList? && forall i :: 0 <= i < |candidates| ==> !candidates[i].SqlList?
  }

  lemma {:induction false} InTri(holds: Comparison, value: SqlValue, candidates: seq<SqlValue>)
    requires NoLists(value, candidates)
    ensures AnyTri(holds, "=", value, candidates) == True <==> Hits(holds, value, candidates)
    ensures AnyTri(holds, "=", value, candidates) == False <==>
              !Hits(holds, value, candidates) && (candidates != [] ==> !value.SqlNull? && !HasNull(candidates))
  {
    if candidates != [] {
      var rest := candidates[1..];
      assert forall i :: 0 <= i < |rest| ==> rest[i] == candidates[i + 1];
      InTri(holds, value, rest);
      TailHits(holds, value, candidates);
    }
  }

  lemma TailHits(holds: Comparison, value: SqlValue, candidates: seq<SqlValue>)
    requires candidates != []
    ensures Hits(holds, value, candidates)
       <==> EngineEq(holds, value, candidates[0]) || Hits(holds, value, candidates[1..])
    ensures HasNull(candidates) <==> candidates[0].SqlNull? || HasNull(candidates[1..])
  {
    var rest := candidates[1..];
    if Hits(holds, value, rest) {
      var i :| 0 <= i < |rest| && EngineEq(holds, value, rest[i]);
      assert candidates[i + 1] == rest[i];
    }
    if HasNull(rest) {
      var i :| 0 <= i < |rest| && rest[i].SqlNull?;
      assert candidates[i + 1] == rest[i];
    }
    assert forall i :: 1 <= i < |candidates| ==> rest[i - 1] == candidates[i];
  }

  /** Negated or not, a row is admitted exactly where SQL has the test TRUE. */
  lemma {:induction false} InFollowsSql(holds: Comparison, value: SqlValue, candidates: seq<SqlValue>, negated: bool)
    requires NoLists(value, candidates) && candidates != []
    ensures var tri := AnyTri(holds, "=", value, candidates);
            EngineIn(holds, value, candidates, negated) <==> (if negated then NotTri(tri) else tri) == True
  {
    InTri(holds, value, candidates);
  }

  /** `x IN (items)` and `x NOT IN (items)` as predicates. */
  function InAs(x: Scalar, items: seq<Scalar>): Predicate {
    if items == [] then Truth(false) else Or(Compare("=", x, items[0]), InAs(x, items[1..]))
  }

  function NotInAs(x: Scalar, items: seq<Scalar>): Predicate {
    if items == [] then Not(IsNull(x))
    else And(And(Not(IsNull(items[0])), Not(Compare("=", x, items[0]))), NotInAs(x, items[1..]))
  }

  /** The engine makes of the predicates what it makes of the tests. */
  lemma {:induction false} InAbbreviates(holds: Comparison, x: Scalar, items: seq<Scalar>, row: Row, ctx: Context)
    ensures var value, candidates := ScalarValue(x, row, ctx), Values(items, row, ctx);
            && Engine(holds, InAs(x, items), row, ctx) == EngineIn(holds, value, candidates, false)
            && Engine(holds, NotInAs(x, items), row, ctx) == EngineIn(holds, value, candidates, true)
  {
    var value, candidates := ScalarValue(x, row, ctx), Values(items, row, ctx);
    if items != [] {
      InAbbreviates(holds, x, items[1..], row, ctx);
      assert candidates[1..] == Values(items[1..], row, ctx);
      TailHits(holds, value, candidates);
      var present, unequal := Not(IsNull(items[0])), Not(Compare("=", x, items[0]));
      NotNull(holds, items[0], row, ctx);
      assert Engine(holds, unequal, row, ctx) == !Engine(holds, Compare("=", x, items[0]), row, ctx);
      assert Engine(holds, And(present, unequal), row, ctx)
          == (Engine(holds, present, row, ctx) && Engine(holds, unequal, row, ctx));
    }
  }

  // ----- BETWEEN -----

  predicate Within(holds: Comparison, value: SqlValue, low: SqlValue, high: SqlValue) {
    Comparable(low, value) && holds("<=", low, value) && Comparable(value, high) && holds("<=", value, high)
  }

  /** What the engine makes of `value [NOT] BETWEEN low AND high`. */
  predicate EngineBetween(holds: Comparison, value: SqlValue, low: SqlValue, high: SqlValue, negated: bool) {
    !value.SqlNull? && !low.SqlNull? && !high.SqlNull? && Within(holds, value, low, high) != negated
  }

  function BetweenTri(holds: Comparison, value: SqlValue, low: SqlValue, high: SqlValue): Tri {
    AndTri(CompareTri(holds, "<=", low, value), CompareTri(holds, "<=", value, high))
  }

  /** One bound is null and the other excludes the value. */
  predicate ExcludedByOne(holds: Comparison, value: SqlValue, low: SqlValue, high: SqlValue) {
    || (low.SqlNull? && Comparable(value, high) && !holds("<=", value, high))
    || (high.SqlNull? && Comparable(low, value) && !holds("<=", low, value))
  }

  /**
    Without negation a row is admitted exactly where SQL has the test TRUE.  With it, unless one
    bound is null and the other excludes the value, and only then: there SQL has it TRUE, and the
    engine hides the row.
   */
  lemma BetweenFollowsSqlIff(holds: Comparison, value: SqlValue, low: SqlValue, high: SqlValue)
    requires NoLists(value, [low, high])
    ensures EngineBetween(holds, value, low, high, false) <==> BetweenTri(holds, value, low, high) == True
    ensures (EngineBetween(holds, value, low, high, true) <==> NotTri(BetweenTri(holds, value, low, high)) == True)
       <==> !ExcludedByOne(holds, value, low, high)
  {
    assert !low.SqlList? && !high.SqlList? by {
      assert [low, high][0] == low && [low, high][1] == high;
    }
  }

  /** A value above the higher bound is not between, but is hidden when the lower one is null. */
  lemma NullBoundHides(holds: Comparison, value: SqlValue, high: SqlValue)
    requires Comparable(value, high) && !holds("<=", value, high)
    ensures NotTri(BetweenTri(holds, value, SqlNull, high)) == True
    ensures !EngineBetween(holds, value, SqlNull, high, true)
  {
  }

  function BetweenAs(x: Scalar, low: Scalar, high: Scalar): Predicate {
    And(Compare("<=", low, x), Compare("<=", x, high))
  }

  function NotBetweenAs(x: Scalar, low: Scalar, high: Scalar): Predicate {
    And(And(Not(IsNull(x)), And(Not(IsNull(low)), Not(IsNull(high)))), Not(BetweenAs(x, low, high)))
  }

  lemma {:induction false} BetweenAbbreviates(
    holds: Comparison, x: Scalar, low: Scalar, high: Scalar, row: Row, ctx: Context)
    ensures var value, a, b := ScalarValue(x, row, ctx), ScalarValue(low, row, ctx), ScalarValue(high, row, ctx);
            && Engine(holds, BetweenAs(x, low, high), row, ctx) == EngineBetween(holds, value, a, b, false)
            && Engine(holds, NotBetweenAs(x, low, high), row, ctx) == EngineBetween(holds, value, a, b, true)
  {
    assert Engine(holds, Compare("<=", low, x), row, ctx)
        == EngineCompare(holds, "<=", ScalarValue(low, row, ctx), ScalarValue(x, row, ctx));
    assert Engine(holds, Compare("<=", x, high), row, ctx)
        == EngineCompare(holds, "<=", ScalarValue(x, row, ctx), ScalarValue(high, row, ctx));
    assert Engine(holds, BetweenAs(x, low, high), row, ctx)
        == (Engine(holds, Compare("<=", low, x), row, ctx) && Engine(holds, Compare("<=", x, high), row, ctx));
    assert Engine(holds, Not(BetweenAs(x, low, high)), row, ctx) == !Engine(holds, BetweenAs(x, low, high), row, ctx);
    NotNull(holds, x, row, ctx);
    NotNull(holds, low, row, ctx);
    NotNull(holds, high, row, ctx);
    var bounds := And(Not(IsNull(low)), Not(IsNull(high)));
    assert Engine(holds, bounds, row, ctx)
        == (Engine(holds, Not(IsNull(low)), row, ctx) && Engine(holds, Not(IsNull(high)), row, ctx));
    assert Engine(holds, And(Not(IsNull(x)), bounds), row, ctx)
        == (Engine(holds, Not(IsNull(x)), row, ctx) && Engine(holds, bounds, row, ctx));
  }
}
