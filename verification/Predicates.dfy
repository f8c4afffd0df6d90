/**
  Compiled rule predicates: their meaning in three-valued logic, binding to a user context,
  and the canonical keys that let users with the same bindings share a dataflow.
 */
module Predicates {
  import opened Wrappers
  import opened Framing
  import opened Uuids
  import opened UserValues

  datatype SqlValue =
    | SqlNull | SqlBool(b: bool) | SqlInt(i: int) | SqlFloat(printed: string) | SqlText(text: string)
    | SqlList(items: seq<SqlValue>)

  datatype Scalar = Column(name: string) | UserField(field: string) | Const(value: SqlValue)

  datatype Predicate =
    | Truth(value: bool)
    | Compare(op: string, left: Scalar, right: Scalar)
    | IsNull(operand: Scalar)
    | CompareAny(op: string, operand: Scalar, list: Scalar)
    | Not(inner: Predicate)
    | And(p: Predicate, q: Predicate)
    | Or(p: Predicate, q: Predicate)

  datatype Tri = False | Unknown | True

  type Row = map<string, SqlValue>
  type Context = map<string, UserValue>

  /** What the comparison operators mean on non-null scalars. */
  type Comparison = (string, SqlValue, SqlValue) -> bool

  // ----- meaning -----

  function Literals(items: seq<UserValue>): (r: seq<SqlValue>)
    ensures |r| == |items|
  {
    if items == [] then [] else [Literal(items[0])] + Literals(items[1..])
  }

  /** The SQL value that a bound user value stands for. */
  function Literal(v: UserValue): SqlValue {
    match v
    case Bool(b) => SqlBool(b)
    case Int(i) => SqlInt(i)
    case Float(printed) => SqlFloat(printed)
    case Text(text) => SqlText(text)
    case Timestamp(text) => SqlText(text)
    case Uuid(text) => SqlText(NormalizeOrRaw(text))
    case Jsonb(printed) => SqlText(printed)
    case Enum(text) => SqlText(text)
    case List(items) => SqlList(Literals(items))
    case Null => SqlNull
  }

  lemma {:induction false} LiteralsAt(items: seq<UserValue>, i: nat)
    requires i < |items|
    ensures Literals(items)[i] == Literal(items[i])
  {
    if i > 0 {
      LiteralsAt(items[1..], i - 1);
    }
  }

  function ScalarValue(s: Scalar, row: Row, ctx: Context): SqlValue {
    match s
    case Column(name) => if name in row then row[name] else SqlNull
    case UserField(field) => if field in ctx then Literal(ctx[field]) else SqlNull
    case Const(value) => value
  }

  function NotTri(a: Tri): Tri {
    match a case True => False case False => True case Unknown => Unknown
  }

  function AndTri(a: Tri, b: Tri): Tri {
    if a == False || b == False then False else if a == True && b == True then True else Unknown
  }

  function OrTri(a: Tri, b: Tri): Tri {
    if a == True || b == True then True else if a == False && b == False then False else Unknown
  }

  function CompareTri(holds: Comparison, op: string, a: SqlValue, b: SqlValue): Tri {
    if a.SqlNull? || b.SqlNull? || a.SqlList? || b.SqlList? then Unknown
    else if holds(op, a, b) then True else False
  }

  /** `operand op ANY(list)`: the disjunction over the elements. */
  function AnyTri(holds: Comparison, op: string, a: SqlValue, items: seq<SqlValue>): Tri {
    if items == [] then False else OrTri(CompareTri(holds, op, a, items[0]), AnyTri(holds, op, a, items[1..]))
  }

  function Eval(holds: Comparison, p: Predicate, row: Row, ctx: Context): Tri {
    match p
    case Truth(value) => if value then True else False
    case Compare(op, l, r) => CompareTri(holds, op, ScalarValue(l, row, ctx), ScalarValue(r, row, ctx))
    case IsNull(s) => if ScalarValue(s, row, ctx).SqlNull? then True else False
    case CompareAny(op, s, list) =>
      var items := ScalarValue(list, row, ctx);
      if items.SqlList? then AnyTri(holds, op, ScalarValue(s, row, ctx), items.items) else Unknown
    case Not(q) => NotTri(Eval(holds, q, row, ctx))
    case And(q, r) => AndTri(Eval(holds, q, row, ctx), Eval(holds, r, row, ctx))
    case Or(q, r) => OrTri(Eval(holds, q, row, ctx), Eval(holds, r, row, ctx))
  }

  predicate IsTautology(p: Predicate) {
    p == Truth(true)
  }

  // ----- binding to a context -----

  datatype Bound<+X> = Ok(value: X) | MissingUserValue(field: string)

  function BindScalar(s: Scalar, ctx: Context): Bound<Scalar> {
    match s
    case UserField(field) => if field in ctx then Ok(Const(Literal(ctx[field]))) else MissingUserValue(field)
    case _ => Ok(s)
  }

  /** `materialize`: every user reference is replaced by its value; the first missing one is reported. */
  function Materialize(p: Predicate, ctx: Context): Bound<Predicate> {
    match p
    case Truth(_) => Ok(p)
    case Compare(op, l, r) =>
      var l', r' := BindScalar(l, ctx), BindScalar(r, ctx);
      if l'.MissingUserValue? then MissingUserValue(l'.field)
      else if r'.MissingUserValue? then MissingUserValue(r'.field)
      else Ok(Compare(op, l'.value, r'.value))
    case IsNull(s) =>
      var s' := BindScalar(s, ctx);
      if s'.MissingUserValue? then MissingUserValue(s'.field) else Ok(IsNull(s'.value))
    case CompareAny(op, s, list) =>
      var s', list' := BindScalar(s, ctx), BindScalar(list, ctx);
      if s'.MissingUserValue? then MissingUserValue(s'.field)
      else if list'.MissingUserValue? then MissingUserValue(list'.field)
      else Ok(CompareAny(op, s'.value, list'.value))
    case Not(q) =>
      var q' := Materialize(q, ctx);
      if q'.MissingUserValue? then q' else Ok(Not(q'.value))
    case And(q, r) =>
      var q', r' := Materialize(q, ctx), Materialize(r, ctx);
      if q'.MissingUserValue? then q' else if r'.MissingUserValue? then r' else Ok(And(q'.value, r'.value))
    case Or(q, r) =>
      var q', r' := Materialize(q, ctx), Materialize(r, ctx);
      if q'.MissingUserValue? then q' else if r'.MissingUserValue? then r' else Ok(Or(q'.value, r'.value))
  }

  function ScalarFields(s: Scalar): set<string> {
    if s.UserField? then {s.field} else {}
  }

  /** The user fields a predicate reads. */
  function Fields(p: Predicate): set<string> {
    match p
    case Truth(_) => {}
    case Compare(_, l, r) => ScalarFields(l) + ScalarFields(r)
    case IsNull(s) => ScalarFields(s)
    case CompareAny(_, s, list) => ScalarFields(s) + ScalarFields(list)
    case Not(q) => Fields(q)
    case And(q, r) => Fields(q) + Fields(r)
    case Or(q, r) => Fields(q) + Fields(r)
  }

  /** Binding succeeds exactly when every field read is bound, and then keeps the meaning under any context. */
  lemma {:induction false} MaterializeKeepsMeaning(holds: Comparison, p: Predicate, ctx: Context, row: Row,
                                                   any: Context)
    ensures Materialize(p, ctx).Ok? <==> Fields(p) <= ctx.Keys
    ensures Materialize(p, ctx).Ok? ==> Eval(holds, Materialize(p, ctx).value, row, any) == Eval(holds, p, row, ctx)
  {
    hide CompareTri, AnyTri, Literal, NotTri, AndTri, OrTri;
    match p {
      case Not(q) => MaterializeKeepsMeaning(holds, q, ctx, row, any);
      case And(q, r) =>
        MaterializeKeepsMeaning(holds, q, ctx, row, any);
        MaterializeKeepsMeaning(holds, r, ctx, row, any);
      case Or(q, r) =>
        MaterializeKeepsMeaning(holds, q, ctx, row, any);
        MaterializeKeepsMeaning(holds, r, ctx, row, any);
      case _ =>
    }
  }

  // ----- values that mean the same evaluate the same -----

  lemma {:induction false} SameScalarSameLiteral(v: UserValue, w: UserValue)
    requires SameValue(v, w)
    ensures v.List? <==> w.List?
    ensures !v.List? ==> Literal(v) == Literal(w)
  {
    if v.Uuid? {
      NormalizeOrRawExact(v.text, w.text);
    }
  }

  lemma {:induction false} SameScalarCompares(holds: Comparison, op: string, a: SqlValue, v: UserValue, w: UserValue)
    requires SameValue(v, w)
    ensures CompareTri(holds, op, a, Literal(v)) == CompareTri(holds, op, a, Literal(w))
    ensures CompareTri(holds, op, Literal(v), a) == CompareTri(holds, op, Literal(w), a)
    ensures Literal(v).SqlNull? <==> Literal(w).SqlNull?
    ensures Literal(v).SqlList? <==> Literal(w).SqlList?
  {
    SameScalarSameLiteral(v, w);
  }

  /** What decides `ANY`: some element compares true, else some compares unknown. */
  lemma {:induction false} AnyTriMeaning(holds: Comparison, op: string, a: SqlValue, items: seq<UserValue>)
    ensures AnyTri(holds, op, a, Literals(items)) == True <==>
              exists i :: 0 <= i < |items| && CompareTri(holds, op, a, Literal(items[i])) == True
    ensures AnyTri(holds, op, a, Literals(items)) == False <==>
              forall i :: 0 <= i < |items| ==> CompareTri(holds, op, a, Literal(items[i])) == False
  {
    if items != [] {
      AnyTriMeaning(holds, op, a, items[1..]);
      assert Literals(items)[1..] == Literals(items[1..]);
      if AnyTri(holds, op, a, Literals(items[1..])) == True {
        var i :| 0 <= i < |items[1..]| && CompareTri(holds, op, a, Literal(items[1..][i])) == True;
        assert items[i + 1] == items[1..][i];
      }
      forall i | 0 <= i < |items[1..]|
        ensures items[1..][i] == items[i + 1]
      {
      }
      if i :| 0 <= i < |items| && CompareTri(holds, op, a, Literal(items[i])) == True {
        assert i > 0 ==> items[1..][i - 1] == items[i];
      }
      if AnyTri(holds, op, a, Literals(items[1..])) == False {
        forall i | 1 <= i < |items|
          ensures CompareTri(holds, op, a, Literal(items[i])) == False
        {
          assert items[i] == items[1..][i - 1];
        }
      }
    }
  }

  lemma {:induction false} AnyTriIncludes(holds: Comparison, op: string, a: SqlValue, s: seq<UserValue>,
                                          t: seq<UserValue>)
    requires forall i :: 0 <= i < |s| ==> HasSame(s[i], t)
    ensures AnyTri(holds, op, a, Literals(s)) == True ==> AnyTri(holds, op, a, Literals(t)) == True
    ensures AnyTri(holds, op, a, Literals(t)) == False ==> AnyTri(holds, op, a, Literals(s)) == False
  {
    AnyTriMeaning(holds, op, a, s);
    AnyTriMeaning(holds, op, a, t);
    forall i | 0 <= i < |s|
      ensures exists j ::
                0 <= j < |t| && CompareTri(holds, op, a, Literal(s[i])) == CompareTri(holds, op, a, Literal(t[j]))
    {
      assert HasSame(s[i], t);
      var j :| 0 <= j < |t| && SameValue(s[i], t[j]);
      SameScalarCompares(holds, op, a, s[i], t[j]);
    }
  }

  lemma {:induction false} AnyTriIncludedIn(holds: Comparison, op: string, a: SqlValue, s: seq<UserValue>,
                                            t: seq<UserValue>)
    requires forall j :: 0 <= j < |t| ==> IsSameAsOne(s, t[j])
    ensures AnyTri(holds, op, a, Literals(t)) == True ==> AnyTri(holds, op, a, Literals(s)) == True
    ensures AnyTri(holds, op, a, Literals(s)) == False ==> AnyTri(holds, op, a, Literals(t)) == False
  {
    AnyTriMeaning(holds, op, a, s);
    AnyTriMeaning(holds, op, a, t);
    forall j | 0 <= j < |t|
      ensures exists i ::
                0 <= i < |s| && CompareTri(holds, op, a, Literal(s[i])) == CompareTri(holds, op, a, Literal(t[j]))
    {
      assert IsSameAsOne(s, t[j]);
      var i :| 0 <= i < |s| && SameValue(s[i], t[j]);
      SameScalarCompares(holds, op, a, s[i], t[j]);
    }
  }

  lemma {:induction false} SameListAny(holds: Comparison, op: string, a: SqlValue, v: UserValue, w: UserValue)
    requires SameValue(v, w) && v.List?
    ensures AnyTri(holds, op, a, Literals(v.items)) == AnyTri(holds, op, a, Literals(w.items))
  {
    AnyTriIncludes(holds, op, a, v.items, w.items);
    AnyTriIncludedIn(holds, op, a, v.items, w.items);
  }

  lemma {:induction false} AnyTriNull(holds: Comparison, op: string, a: SqlValue, b: SqlValue, items: seq<SqlValue>)
    requires forall c :: CompareTri(holds, op, a, c) == CompareTri(holds, op, b, c)
    ensures AnyTri(holds, op, a, items) == AnyTri(holds, op, b, items)
  {
    if items != [] {
      AnyTriNull(holds, op, a, b, items[1..]);
    }
  }

  /** The contexts bind every one of the fields to values that mean the same. */
  ghost predicate SameBindings(fields: set<string>, ctx: Context, ctx': Context) {
    forall f :: f in fields ==> f in ctx && f in ctx' && SameValue(ctx[f], ctx'[f])
  }

  /** Scalars evaluated under such contexts are equal or alike. */
  ghost predicate Alike(a: SqlValue, b: SqlValue) {
    a == b || exists v, w :: SameValue(v, w) && a == Literal(v) && b == Literal(w)
  }

  lemma ScalarsAlike(s: Scalar, row: Row, ctx: Context, ctx': Context)
    requires SameBindings(ScalarFields(s), ctx, ctx')
    ensures Alike(ScalarValue(s, row, ctx), ScalarValue(s, row, ctx'))
  {
    if s.UserField? {
      assert s.field in ScalarFields(s);
      assert SameValue(ctx[s.field], ctx'[s.field]);
    }
  }

  lemma {:induction false} AlikeCompares(holds: Comparison, op: string, a: SqlValue, b: SqlValue, c: SqlValue)
    requires Alike(a, b)
    ensures CompareTri(holds, op, a, c) == CompareTri(holds, op, b, c)
    ensures CompareTri(holds, op, c, a) == CompareTri(holds, op, c, b)
    ensures a.SqlNull? <==> b.SqlNull?
    ensures a.SqlList? <==> b.SqlList?
    ensures a.SqlList? ==> AnyTri(holds, op, c, a.items) == AnyTri(holds, op, c, b.items)
  {
    if a != b {
      var v, w :| SameValue(v, w) && a == Literal(v) && b == Literal(w);
      SameScalarCompares(holds, op, c, v, w);
      if v.List? {
        SameListAny(holds, op, c, v, w);
      }
    }
  }

  /** A predicate evaluates alike under contexts whose bindings mean the same. */
  lemma {:induction false} SameBindingsSameVerdict(holds: Comparison, p: Predicate, row: Row, ctx: Context,
                                                   ctx': Context)
    requires SameBindings(Fields(p), ctx, ctx')
    ensures Eval(holds, p, row, ctx) == Eval(holds, p, row, ctx')
  {
    match p {
      case Truth(_) =>
      case Compare(op, l, r) =>
        ScalarsAlike(l, row, ctx, ctx');
        ScalarsAlike(r, row, ctx, ctx');
        AlikeCompares(holds, op, ScalarValue(l, row, ctx), ScalarValue(l, row, ctx'), ScalarValue(r, row, ctx));
        AlikeCompares(holds, op, ScalarValue(r, row, ctx), ScalarValue(r, row, ctx'), ScalarValue(l, row, ctx'));
      case IsNull(s) =>
        ScalarsAlike(s, row, ctx, ctx');
        AlikeCompares(holds, "=", ScalarValue(s, row, ctx), ScalarValue(s, row, ctx'), SqlNull);
      case CompareAny(op, s, list) =>
        ScalarsAlike(s, row, ctx, ctx');
        ScalarsAlike(list, row, ctx, ctx');
        var a, b := ScalarValue(s, row, ctx), ScalarValue(s, row, ctx');
        AlikeCompares(holds, op, ScalarValue(list, row, ctx), ScalarValue(list, row, ctx'), a);
        forall c
          ensures CompareTri(holds, op, a, c) == CompareTri(holds, op, b, c)
        {
          AlikeCompares(holds, op, a, b, c);
        }
        if ScalarValue(list, row, ctx').SqlList? {
          AnyTriNull(holds, op, a, b, ScalarValue(list, row, ctx').items);
        }
      case Not(q) => SameBindingsSameVerdict(holds, q, row, ctx, ctx');
      case And(q, r) =>
        SameBindingsSameVerdict(holds, q, row, ctx, ctx');
        SameBindingsSameVerdict(holds, r, row, ctx, ctx');
      case Or(q, r) =>
        SameBindingsSameVerdict(holds, q, row, ctx, ctx');
        SameBindingsSameVerdict(holds, r, row, ctx, ctx');
    }
  }

  // ----- canonical keys -----

  /** `|field=len:repr` for each field in turn; the first unbound field is reported. */
  function Bindings(fields: seq<string>, ctx: Context): Bound<string> {
    if fields == [] then Ok("")
    else if fields[0] !in ctx then MissingUserValue(fields[0])
    else
      var rest := Bindings(fields[1..], ctx);
      if rest.MissingUserValue? then rest
      else Ok("|" + fields[0] + "=" + Frame(CanonicalRepr(ctx[fields[0]])) + rest.value)
  }

  /** `canonical_with_context`. */
  function CanonicalKey(canonical: string, fields: seq<string>, ctx: Context): Bound<string> {
    var bindings := Bindings(fields, ctx);
    if bindings.MissingUserValue? then bindings else Ok(canonical + bindings.value)
  }

  /** The loop of `canonical_with_context`. */
  method CanonicalWithContext(canonical: string, fields: seq<string>, ctx: Context) returns (key: Bound<string>)
    ensures key == CanonicalKey(canonical, fields, ctx)
  {
    var bindings := "";
    assert fields[0..] == fields;
    PrependedNothing(Bindings(fields, ctx));
    for i := 0 to |fields|
      invariant Bindings(fields, ctx) == Prepended(bindings, Bindings(fields[i..], ctx))
    {
      var field := fields[i];
      assert fields[i..][0] == field && fields[i..][1..] == fields[i + 1..];
      if field !in ctx {
        return MissingUserValue(field);
      }
      var binding := "|" + field + "=" + Frame(CanonicalRepr(ctx[field]));
      PrependedTwice(bindings, binding, Bindings(fields[i + 1..], ctx));
      bindings := bindings + binding;
    }
    assert fields[|fields|..] == [] && bindings + "" == bindings;
    key := Ok(canonical + bindings);
  }

  function Prepended(s: string, rest: Bound<string>): Bound<string> {
    if rest.MissingUserValue? then rest else Ok(s + rest.value)
  }

  lemma PrependedNothing(rest: Bound<string>)
    ensures Prepended("", rest) == rest
  {
    if rest.Ok? {
      assert "" + rest.value == rest.value;
    }
  }

  lemma PrependedTwice(s: string, t: string, rest: Bound<string>)
    ensures Prepended(s + t, rest) == Prepended(s, Prepended(t, rest))
  {
    if rest.Ok? {
      assert s + t + rest.value == s + (t + rest.value);
    }
  }

  lemma {:induction false} BindingsBound(fields: seq<string>, ctx: Context)
    ensures Bindings(fields, ctx).Ok? <==> forall f :: f in fields ==> f in ctx
  {
    if fields != [] {
      BindingsBound(fields[1..], ctx);
      assert forall f :: f in fields <==> f == fields[0] || f in fields[1..];
    }
  }

  lemma {:induction false} BindingsExact(fields: seq<string>, ctx: Context, ctx': Context)
    requires Bindings(fields, ctx).Ok? && Bindings(fields, ctx').Ok?
    ensures (forall f :: f in fields ==> f in ctx && f in ctx')
    ensures Bindings(fields, ctx) == Bindings(fields, ctx') <==>
              forall f :: f in fields ==> CanonicalRepr(ctx[f]) == CanonicalRepr(ctx'[f])
  {
    BindingsBound(fields, ctx);
    BindingsBound(fields, ctx');
    if fields != [] {
      var f, rest := fields[0], fields[1..];
      BindingsExact(rest, ctx, ctx');
      assert forall g :: g in fields <==> g == f || g in rest;
      BindingDecodes(f, CanonicalRepr(ctx[f]), CanonicalRepr(ctx'[f]), Bindings(rest, ctx).value,
                     Bindings(rest, ctx').value);
    }
  }

  /** One binding and what follows it can be told apart. */
  lemma BindingDecodes(field: string, a: string, b: string, x: string, y: string)
    ensures "|" + field + "=" + Frame(a) + x == "|" + field + "=" + Frame(b) + y <==> a == b && x == y
  {
    var head := "|" + field + "=";
    assert head + Frame(a) + x == head + (Frame(a) + x) && head + Frame(b) + y == head + (Frame(b) + y);
    assert Frame(a) + x == (head + (Frame(a) + x))[|head|..] && Frame(b) + y == (head + (Frame(b) + y))[|head|..];
    if Frame(a) + x == Frame(b) + y {
      FrameDecodes(a, b, x, y);
    }
  }

  /**
    Keys are exact: for one compiled predicate, two contexts that bind its fields get the same
    key if and only if every field is bound to values with the same representation, that is,
    to values that mean the same.
   */
  lemma KeyIsExact(canonical: string, fields: seq<string>, ctx: Context, ctx': Context)
    requires CanonicalKey(canonical, fields, ctx).Ok? && CanonicalKey(canonical, fields, ctx').Ok?
    ensures CanonicalKey(canonical, fields, ctx) == CanonicalKey(canonical, fields, ctx')
       <==> SameBindings((set f | f in fields), ctx, ctx')
  {
    BindingsExact(fields, ctx, ctx');
    var a, b := Bindings(fields, ctx).value, Bindings(fields, ctx').value;
    assert a == (canonical + a)[|canonical|..] && b == (canonical + b)[|canonical|..];
    forall f | f in fields
      ensures CanonicalRepr(ctx[f]) == CanonicalRepr(ctx'[f]) <==> SameValue(ctx[f], ctx'[f])
    {
      ReprIsExact(ctx[f], ctx'[f]);
    }
  }

  /** A key is produced exactly when every field is bound. */
  lemma KeyNeedsBindings(canonical: string, fields: seq<string>, ctx: Context)
    ensures CanonicalKey(canonical, fields, ctx).Ok? <==> forall f :: f in fields ==> f in ctx
  {
    BindingsBound(fields, ctx);
  }

  /** `predicate_key`: a rule that selects current rows adds the rendering of its selection. */
  function PredicateKey(canonical: string, fields: seq<string>, latest: Option<string>, ctx: Context): Bound<string> {
    var key := CanonicalKey(canonical, fields, ctx);
    if key.Ok? && latest.Some? then Ok(key.value + ("|latest:" + latest.value)) else key
  }

  lemma SameSuffix(a: string, b: string, suffix: string)
    ensures a + suffix == b + suffix <==> a == b
  {
    if a + suffix == b + suffix {
      assert |a| == |b| && (a + suffix)[..|a|] == a && (b + suffix)[..|b|] == b;
    }
  }

  /** The keys of one rule are exact too. */
  lemma RuleKeyIsExact(canonical: string, fields: seq<string>, latest: Option<string>, ctx: Context, ctx': Context)
    requires CanonicalKey(canonical, fields, ctx).Ok? && CanonicalKey(canonical, fields, ctx').Ok?
    ensures PredicateKey(canonical, fields, latest, ctx) == PredicateKey(canonical, fields, latest, ctx')
       <==> SameBindings((set f | f in fields), ctx, ctx')
  {
    KeyIsExact(canonical, fields, ctx, ctx');
    if latest.Some? {
      SameSuffix(CanonicalKey(canonical, fields, ctx).value, CanonicalKey(canonical, fields, ctx').value,
                 "|latest:" + latest.value);
    }
  }
}
