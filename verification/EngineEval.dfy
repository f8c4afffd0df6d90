/**
  How the dataflow engine evaluates a predicate: to a plain boolean, where a comparison with null
  is false, and so its negation true.  Where that agrees with three-valued logic, and that both
  obey the laws on which rewriting and sharing rest.
 */
module EngineEval {
  import opened UserValues
  import opened Predicates
  import opened Visibility

  /** Both values can be compared. */
  predicate Comparable(a: SqlValue, b: SqlValue) {
    !a.SqlNull? && !b.SqlNull? && !a.SqlList? && !b.SqlList?
  }

  /** `datum_eq`: null equals nothing. */
  predicate EngineEq(holds: Comparison, a: SqlValue, b: SqlValue) {
    Comparable(a, b) && holds("=", a, b)
  }

  /** A comparison in an expression: `<>` is whatever is not equal. */
  predicate EngineCompare(holds: Comparison, op: string, a: SqlValue, b: SqlValue) {
    if op == "<>" then !EngineEq(holds, a, b) else Comparable(a, b) && holds(op, a, b)
  }

  /** A comparison under ANY: null never matches, not even `<>`. */
  predicate EngineMatches(holds: Comparison, op: string, a: SqlValue, b: SqlValue) {
    Comparable(a, b) && if op == "<>" then !holds("=", a, b) else holds(op, a, b)
  }

  predicate EngineAny(holds: Comparison, op: string, a: SqlValue, items: seq<SqlValue>) {
    exists i :: 0 <= i < |items| && EngineMatches(holds, op, a, items[i])
  }

  predicate Engine(holds: Comparison, p: Predicate, row: Row, ctx: Context) {
    match p
    case Truth(value) => value
    case Compare(op, l, r) => EngineCompare(holds, op, ScalarValue(l, row, ctx), ScalarValue(r, row, ctx))
    case IsNull(s) => ScalarValue(s, row, ctx).SqlNull?
    case CompareAny(op, s, list) =>
      var items := ScalarValue(list, row, ctx);
      items.SqlList? && EngineAny(holds, op, ScalarValue(s, row, ctx), items.items)
    case Not(q) => !Engine(holds, q, row, ctx)
    case And(q, r) => Engine(holds, q, row, ctx) && Engine(holds, r, row, ctx)
    case Or(q, r) => Engine(holds, q, row, ctx) || Engine(holds, r, row, ctx)
  }

  // ----- both obey the laws -----

  /** Binding keeps what the engine makes of a predicate. */
  lemma {:induction false} EngineBinding(holds: Comparison, p: Predicate, row: Row, ctx: Context, any: Context)
    requires Materialize(p, ctx).Ok?
    ensures Engine(holds, Materialize(p, ctx).value, row, any) == Engine(holds, p, row, ctx)
  {
    match p {
      case Not(q) => EngineBinding(holds, q, row, ctx, any);
      case And(q, r) =>
        EngineBinding(holds, q, row, ctx, any);
        EngineBinding(holds, r, row, ctx, any);
      case Or(q, r) =>
        EngineBinding(holds, q, row, ctx, any);
        EngineBinding(holds, r, row, ctx, any);
      case _ =>
    }
  }

  function EngineVerdict(holds: Comparison): (Predicate, Row, Context) -> bool {
    (p: Predicate, row: Row, ctx: Context) => Engine(holds, p, row, ctx)
  }

  function SqlVerdict(holds: Comparison): (Predicate, Row, Context) -> bool {
    (p: Predicate, row: Row, ctx: Context) => Eval(holds, p, row, ctx) == True
  }

  lemma EngineIsLawful(holds: Comparison)
    ensures Lawful(EngineVerdict(holds))
  {
    var admits := EngineVerdict(holds);
    forall p, row, ctx, any
      ensures BindingKeeps(admits, p, row, ctx, any)
    {
      if Materialize(p, ctx).Ok? {
        EngineBinding(holds, p, row, ctx, any);
      }
    }
  }

  lemma ThreeValuedIsLawful(holds: Comparison)
    ensures Lawful(SqlVerdict(holds))
  {
    var admits := SqlVerdict(holds);
    forall p, row, ctx, any
      ensures BindingKeeps(admits, p, row, ctx, any)
    {
      MaterializeKeepsMeaning(holds, p, ctx, row, any);
    }
  }

  // ----- where the engine and three-valued logic agree -----

  /** `<>` is the negation of `=`. */
  ghost predicate NegatesEquality(holds: Comparison) {
    forall a, b :: holds("<>", a, b) == !holds("=", a, b)
  }

  predicate Agree(holds: Comparison, p: Predicate, row: Row, ctx: Context) {
    Engine(holds, p, row, ctx) <==> Eval(holds, p, row, ctx) == True
  }

  /** `l <> r` is admitted alike exactly when both sides can be compared: the engine admits it for null. */
  lemma UnequalAgreesIff(holds: Comparison, l: Scalar, r: Scalar, row: Row, ctx: Context)
    requires NegatesEquality(holds)
    ensures Agree(holds, Compare("<>", l, r), row, ctx)
       <==> Comparable(ScalarValue(l, row, ctx), ScalarValue(r, row, ctx))
  {
  }

  /** A negated comparison is admitted alike exactly when both sides can be compared. */
  lemma NegationAgreesIff(holds: Comparison, op: string, l: Scalar, r: Scalar, row: Row, ctx: Context)
    requires op != "<>"
    ensures Agree(holds, Not(Compare(op, l, r)), row, ctx)
       <==> Comparable(ScalarValue(l, row, ctx), ScalarValue(r, row, ctx))
  {
    var p := Compare(op, l, r);
    assert Eval(holds, p, row, ctx) == CompareTri(holds, op, ScalarValue(l, row, ctx), ScalarValue(r, row, ctx));
    assert Eval(holds, Not(p), row, ctx) == NotTri(Eval(holds, p, row, ctx));
    assert Engine(holds, Not(p), row, ctx) == !Engine(holds, p, row, ctx);
  }

  lemma {:induction false} AnyAgrees(holds: Comparison, op: string, a: SqlValue, items: seq<SqlValue>)
    requires NegatesEquality(holds)
    ensures EngineAny(holds, op, a, items) <==> AnyTri(holds, op, a, items) == True
  {
    if items != [] {
      var rest := items[1..];
      AnyAgrees(holds, op, a, rest);
      assert EngineMatches(holds, op, a, items[0]) <==> CompareTri(holds, op, a, items[0]) == True;
      if EngineAny(holds, op, a, rest) {
        var i :| 0 <= i < |rest| && EngineMatches(holds, op, a, rest[i]);
        assert items[i + 1] == rest[i];
      }
      if EngineAny(holds, op, a, items) {
        var i :| 0 <= i < |items| && EngineMatches(holds, op, a, items[i]);
        assert i > 0 ==> rest[i - 1] == items[i];
      }
    }
  }

  /** ANY is decided by three-valued logic as well when every element can be compared. */
  lemma {:induction false} AnyDecided(holds: Comparison, op: string, a: SqlValue, items: seq<SqlValue>)
    requires forall i :: 0 <= i < |items| ==> Comparable(a, items[i])
    ensures AnyTri(holds, op, a, items) != Unknown
  {
    if items != [] {
      AnyDecided(holds, op, a, items[1..]);
      assert Comparable(a, items[0]);
    }
  }

  /**
    Of every predicate: where three-valued logic decides, the engine decides alike, so it never
    hides a row on which a rule is TRUE.  The two differ exactly where three-valued logic does
    not decide and the engine admits.
   */
  lemma {:induction false} EngineFollowsSql(holds: Comparison, p: Predicate, row: Row, ctx: Context)
    requires NegatesEquality(holds)
    ensures Eval(holds, p, row, ctx) == True ==> Engine(holds, p, row, ctx)
    ensures Eval(holds, p, row, ctx) == False ==> !Engine(holds, p, row, ctx)
    ensures !Agree(holds, p, row, ctx) <==> Eval(holds, p, row, ctx) == Unknown && Engine(holds, p, row, ctx)
  {
    match p {
      case CompareAny(op, s, list) =>
        var items := ScalarValue(list, row, ctx);
        if items.SqlList? {
          AnyAgrees(holds, op, ScalarValue(s, row, ctx), items.items);
        }
      case Not(q) => EngineFollowsSql(holds, q, row, ctx);
      case And(q, r) =>
        EngineFollowsSql(holds, q, row, ctx);
        EngineFollowsSql(holds, r, row, ctx);
      case Or(q, r) =>
        EngineFollowsSql(holds, q, row, ctx);
        EngineFollowsSql(holds, r, row, ctx);
      case _ =>
    }
  }

  /** Both sides of a comparison can be compared; for ANY, with every element of a list. */
  predicate SidesComparable(p: Predicate, row: Row, ctx: Context)
    requires p.Compare? || p.CompareAny?
  {
    match p
    case Compare(_, l, r) => Comparable(ScalarValue(l, row, ctx), ScalarValue(r, row, ctx))
    case CompareAny(_, s, list) =>
      var items := ScalarValue(list, row, ctx);
      items.SqlList? && forall i :: 0 <= i < |items.items| ==> Comparable(ScalarValue(s, row, ctx), items.items[i])
  }

  /**
    Wherever the engine takes what cannot be compared to be true, there is nothing of the kind:
    an inequality outside of negations, and any other comparison inside of an odd number of them.
   */
  predicate SafelyCompared(p: Predicate, row: Row, ctx: Context, negated: bool) {
    match p
    case Compare(op, _, _) => (op == "<>") == negated || SidesComparable(p, row, ctx)
    case CompareAny(_, _, _) => !negated || SidesComparable(p, row, ctx)
    case Not(q) => SafelyCompared(q, row, ctx, !negated)
    case And(q, r) => SafelyCompared(q, row, ctx, negated) && SafelyCompared(r, row, ctx, negated)
    case Or(q, r) => SafelyCompared(q, row, ctx, negated) && SafelyCompared(r, row, ctx, negated)
    case _ => true
  }

  /** Safe comparisons leave no room between the engine and three-valued logic. */
  lemma {:induction false} SafeIsDecided(holds: Comparison, p: Predicate, row: Row, ctx: Context, negated: bool)
    requires NegatesEquality(holds) && SafelyCompared(p, row, ctx, negated)
    ensures !negated && Engine(holds, p, row, ctx) ==> Eval(holds, p, row, ctx) == True
    ensures negated && !Engine(holds, p, row, ctx) ==> Eval(holds, p, row, ctx) == False
  {
    match p {
      case CompareAny(op, s, list) =>
        var items := ScalarValue(list, row, ctx);
        if items.SqlList? {
          AnyAgrees(holds, op, ScalarValue(s, row, ctx), items.items);
          if negated {
            AnyDecided(holds, op, ScalarValue(s, row, ctx), items.items);
          }
        }
      case Not(q) => SafeIsDecided(holds, q, row, ctx, !negated);
      case And(q, r) =>
        SafeIsDecided(holds, q, row, ctx, negated);
        SafeIsDecided(holds, r, row, ctx, negated);
      case Or(q, r) =>
        SafeIsDecided(holds, q, row, ctx, negated);
        SafeIsDecided(holds, r, row, ctx, negated);
      case _ =>
    }
  }

  /** Of every predicate whose comparisons are safe: the engine admits exactly the rows on which it is TRUE. */
  lemma {:induction false} SafeAgrees(holds: Comparison, p: Predicate, row: Row, ctx: Context)
    requires NegatesEquality(holds) && SafelyCompared(p, row, ctx, false)
    ensures Agree(holds, p, row, ctx)
  {
    EngineFollowsSql(holds, p, row, ctx);
    SafeIsDecided(holds, p, row, ctx, false);
  }

  /** Every comparison has two sides that can be compared, as on a row without nulls. */
  predicate AllComparable(p: Predicate, row: Row, ctx: Context) {
    match p
    case Compare(_, _, _) => SidesComparable(p, row, ctx)
    case CompareAny(_, _, _) => SidesComparable(p, row, ctx)
    case Not(q) => AllComparable(q, row, ctx)
    case And(q, r) => AllComparable(q, row, ctx) && AllComparable(r, row, ctx)
    case Or(q, r) => AllComparable(q, row, ctx) && AllComparable(r, row, ctx)
    case _ => true
  }

  /** Then three-valued logic decides, and the engine agrees with it. */
  lemma {:induction false} ComparableAgrees(holds: Comparison, p: Predicate, row: Row, ctx: Context)
    requires NegatesEquality(holds) && AllComparable(p, row, ctx)
    ensures Eval(holds, p, row, ctx) != Unknown && Agree(holds, p, row, ctx)
  {
    ComparableIsSafe(p, row, ctx, false);
    ComparableIsSafe(p, row, ctx, true);
    SafeIsDecided(holds, p, row, ctx, false);
    SafeIsDecided(holds, p, row, ctx, true);
    EngineFollowsSql(holds, p, row, ctx);
  }

  lemma {:induction false} ComparableIsSafe(p: Predicate, row: Row, ctx: Context, negated: bool)
    requires AllComparable(p, row, ctx)
    ensures SafelyCompared(p, row, ctx, negated)
  {
    match p {
      case Not(q) => ComparableIsSafe(q, row, ctx, !negated);
      case And(q, r) =>
        ComparableIsSafe(q, row, ctx, negated);
        ComparableIsSafe(r, row, ctx, negated);
      case Or(q, r) =>
        ComparableIsSafe(q, row, ctx, negated);
        ComparableIsSafe(r, row, ctx, negated);
      case _ =>
    }
  }

  /** No negation, neither of a predicate nor of an equality. */
  predicate Positive(p: Predicate) {
    match p
    case Compare(op, _, _) => op != "<>"
    case Not(_) => false
    case And(q, r) => Positive(q) && Positive(r)
    case Or(q, r) => Positive(q) && Positive(r)
    case _ => true
  }

  lemma {:induction false} PositiveIsSafe(p: Predicate, row: Row, ctx: Context)
    requires Positive(p)
    ensures SafelyCompared(p, row, ctx, false)
  {
    match p {
      case And(q, r) =>
        PositiveIsSafe(q, row, ctx);
        PositiveIsSafe(r, row, ctx);
      case Or(q, r) =>
        PositiveIsSafe(q, row, ctx);
        PositiveIsSafe(r, row, ctx);
      case _ =>
    }
  }

  /** Without negation the engine admits exactly the rows on which the predicate is TRUE. */
  lemma {:induction false} PositiveAgrees(holds: Comparison, p: Predicate, row: Row, ctx: Context)
    requires NegatesEquality(holds) && Positive(p)
    ensures Agree(holds, p, row, ctx)
  {
    PositiveIsSafe(p, row, ctx);
    SafeAgrees(holds, p, row, ctx);
  }

  /**
    Of a table's rules: the engine shows every row that three-valued logic shows, and no other
    where all of their comparisons are safe on it.
   */
  lemma {:induction false} EngineHidesNothing(
    holds: Comparison, sql: Semantics, engine: Semantics, ctx: Context, rules: seq<Rule>, row: Row)
    requires NegatesEquality(holds) && sql.admits == SqlVerdict(holds) && engine.admits == EngineVerdict(holds)
    ensures Admits(sql, ctx, rules, row) ==> Admits(engine, ctx, rules, row)
    ensures (forall i :: 0 <= i < |rules| ==> SafelyCompared(rules[i].predicate_, row, ctx, false)) ==>
              (Admits(engine, ctx, rules, row) <==> Admits(sql, ctx, rules, row))
  {
    forall i | 0 <= i < |rules|
      ensures sql.admits(rules[i].predicate_, row, ctx) ==> engine.admits(rules[i].predicate_, row, ctx)
      ensures SafelyCompared(rules[i].predicate_, row, ctx, false) ==>
                sql.admits(rules[i].predicate_, row, ctx) == engine.admits(rules[i].predicate_, row, ctx)
    {
      EngineFollowsSql(holds, rules[i].predicate_, row, ctx);
      if SafelyCompared(rules[i].predicate_, row, ctx, false) {
        SafeAgrees(holds, rules[i].predicate_, row, ctx);
      }
    }
  }

  // ----- bindings that mean the same -----

  /** Alike values are equal, unless they are lists, which have alike elements. */
  lemma AlikeMeans(a: SqlValue, b: SqlValue)
    requires Alike(a, b)
    ensures a.SqlList? <==> b.SqlList?
    ensures !a.SqlList? ==> a == b
  {
    if a != b {
      var v, w :| SameValue(v, w) && a == Literal(v) && b == Literal(w);
      SameScalarSameLiteral(v, w);
    }
  }

  lemma {:induction false} MatchesAlike(holds: Comparison, op: string, a: SqlValue, v: UserValue, w: UserValue)
    requires SameValue(v, w) && EngineMatches(holds, op, a, Literal(v))
    ensures EngineMatches(holds, op, a, Literal(w))
  {
    SameScalarSameLiteral(v, w);
  }

  lemma EngineAnyAlike(holds: Comparison, op: string, c: SqlValue, a: SqlValue, b: SqlValue)
    requires Alike(a, b) && a.SqlList? && b.SqlList?
    ensures EngineAny(holds, op, c, a.items) == EngineAny(holds, op, c, b.items)
  {
    if a != b {
      var v, w :| SameValue(v, w) && a == Literal(v) && b == Literal(w);
      if EngineAny(holds, op, c, a.items) {
        AnyWithin(holds, op, c, v.items, w.items);
      }
      if EngineAny(holds, op, c, b.items) {
        AnyCovered(holds, op, c, v.items, w.items);
      }
    }
  }

  lemma {:induction false} AnyWithin(holds: Comparison, op: string, c: SqlValue, s: seq<UserValue>, t: seq<UserValue>)
    requires AllHaveSame(s, t) && EngineAny(holds, op, c, Literals(s))
    ensures EngineAny(holds, op, c, Literals(t))
  {
    var i :| 0 <= i < |s| && EngineMatches(holds, op, c, Literals(s)[i]);
    LiteralsAt(s, i);
    assert HasSame(s[i], t);
    var j :| 0 <= j < |t| && SameValue(s[i], t[j]);
    MatchesAlike(holds, op, c, s[i], t[j]);
    LiteralsAt(t, j);
  }

  lemma {:induction false} AnyCovered(holds: Comparison, op: string, c: SqlValue, s: seq<UserValue>, t: seq<UserValue>)
    requires AllAreSameAsOne(s, t) && EngineAny(holds, op, c, Literals(t))
    ensures EngineAny(holds, op, c, Literals(s))
  {
    var j :| 0 <= j < |t| && EngineMatches(holds, op, c, Literals(t)[j]);
    LiteralsAt(t, j);
    assert IsSameAsOne(s, t[j]);
    var i :| 0 <= i < |s| && SameValue(s[i], t[j]);
    SameScalarSameLiteral(s[i], t[j]);
    LiteralsAt(s, i);
  }

  /** The engine decides a predicate alike under contexts whose bindings mean the same. */
  lemma {:induction false} EngineSameVerdict(holds: Comparison, p: Predicate, row: Row, ctx: Context, ctx': Context)
    requires SameBindings(Fields(p), ctx, ctx')
    ensures Engine(holds, p, row, ctx) == Engine(holds, p, row, ctx')
  {
    match p {
      case Truth(_) =>
      case Compare(op, l, r) =>
        ScalarsAlike(l, row, ctx, ctx');
        ScalarsAlike(r, row, ctx, ctx');
        AlikeMeans(ScalarValue(l, row, ctx), ScalarValue(l, row, ctx'));
        AlikeMeans(ScalarValue(r, row, ctx), ScalarValue(r, row, ctx'));
      case IsNull(s) =>
        ScalarsAlike(s, row, ctx, ctx');
        AlikeMeans(ScalarValue(s, row, ctx), ScalarValue(s, row, ctx'));
      case CompareAny(op, s, list) =>
        EngineAnySame(holds, op, s, list, row, ctx, ctx');
      case Not(q) => EngineSameVerdict(holds, q, row, ctx, ctx');
      case And(q, r) =>
        EngineSameVerdict(holds, q, row, ctx, ctx');
        EngineSameVerdict(holds, r, row, ctx, ctx');
      case Or(q, r) =>
        EngineSameVerdict(holds, q, row, ctx, ctx');
        EngineSameVerdict(holds, r, row, ctx, ctx');
    }
  }

  lemma {:induction false} EngineAnySame(
    holds: Comparison, op: string, s: Scalar, list: Scalar, row: Row, ctx: Context, ctx': Context)
    requires SameBindings(ScalarFields(s) + ScalarFields(list), ctx, ctx')
    ensures Engine(holds, CompareAny(op, s, list), row, ctx) == Engine(holds, CompareAny(op, s, list), row, ctx')
  {
    ScalarsAlike(s, row, ctx, ctx');
    ScalarsAlike(list, row, ctx, ctx');
    var a, a' := ScalarValue(s, row, ctx), ScalarValue(s, row, ctx');
    var items, items' := ScalarValue(list, row, ctx), ScalarValue(list, row, ctx');
    AlikeMeans(a, a');
    AlikeMeans(items, items');
    if items.SqlList? {
      EngineAnyAlike(holds, op, a, items, items');
      // A list on the left is never compared.
      assert forall c :: EngineMatches(holds, op, a, c) == EngineMatches(holds, op, a', c);
    }
  }
}
