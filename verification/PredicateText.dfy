/**
  A predicate written out: the scan over its text binds the same values in the same places as
  binding the predicate does, so the text it yields is that of a predicate with the same meaning.
 */
module PredicateText {
  import opened UserValues
  import opened Framing
  import opened Predicates
  import opened Placeholders

  // ----- writing constants -----

  function ShowAll(items: seq<SqlValue>): seq<string>
    decreases items
  {
    if items == [] then [] else [Show(items[0])] + ShowAll(items[1..])
  }

  function Show(v: SqlValue): string
    decreases v
  {
    match v
    case SqlNull => "NULL"
    case SqlBool(b) => if b then "true" else "false"
    case SqlInt(i) => DecimalInt(i)
    case SqlFloat(printed) => printed
    case SqlText(text) => Quote(text)
    case SqlList(items) => "ARRAY[" + JoinLiterals(ShowAll(items)) + "]"
  }

  /** The literal spliced in for a user value is the value it stands for, written out. */
  lemma {:induction false} LiteralIsShown(v: UserValue)
    ensures SqlLiteral(v) == Show(Literal(v))
    decreases v, 0
  {
    if v.List? {
      LiteralsAreShown(v.items);
    }
  }

  lemma {:induction false} LiteralsAreShown(items: seq<UserValue>)
    ensures SqlLiterals(items) == ShowAll(Literals(items))
    decreases items, 1
  {
    if items != [] {
      LiteralIsShown(items[0]);
      LiteralsAreShown(items[1..]);
      assert Literals(items)[1..] == Literals(items[1..]);
    }
  }

  // ----- writing predicates -----

  function Lead(text: string, t: Template): Template {
    match t
    case End(more) => End(text + more)
    case Then(more, field, rest) => Then(text + more, field, rest)
  }

  function Join(t: Template, u: Template): Template {
    match t
    case End(text) => Lead(text, u)
    case Then(text, field, rest) => Then(text, field, Join(rest, u))
  }

  function Wrap(open: string, t: Template, close: string): Template {
    Lead(open, Join(t, End(close)))
  }

  function Around(open: string, t: Template, middle: string, u: Template, close: string): Template {
    Lead(open, Join(t, Wrap(middle, u, close)))
  }

  function WriteScalar(s: Scalar): Template {
    match s
    case Column(name) => End(name)
    case UserField(field) => Then("", field, End(""))
    case Const(value) => End(Show(value))
  }

  /** The predicate's SQL text, with its user fields apart. */
  function Write(p: Predicate): Template {
    match p
    case Truth(value) => End(if value then "true" else "false")
    case Compare(op, l, r) => Around("", WriteScalar(l), " " + op + " ", WriteScalar(r), "")
    case IsNull(s) => Wrap("", WriteScalar(s), " IS NULL")
    case CompareAny(op, s, list) => Around("", WriteScalar(s), " " + op + " ANY(", WriteScalar(list), ")")
    case Not(q) => Wrap("NOT (", Write(q), ")")
    case And(q, r) => Around("(", Write(q), ") AND (", Write(r), ")")
    case Or(q, r) => Around("(", Write(q), ") OR (", Write(r), ")")
  }

  // ----- substituting piece by piece -----

  /** One outcome after another; the first failure stays. */
  function After(a: Materialized, b: Materialized): Materialized {
    if a.Done? then Prefixed(a.text, b) else a
  }

  lemma {:induction false} LeadTexts(text: string, t: Template, ctx: Context)
    ensures Substitute(Lead(text, t), ctx) == Prefixed(text, Substitute(t, ctx))
    ensures Render(Lead(text, t)) == text + Render(t)
  {
    match t {
      case End(_) =>
      case Then(more, field, rest) =>
        if field in ctx {
          var literal := SqlLiteral(ctx[field]);
          assert text + more + literal == text + (more + literal);
          PrefixedTwice(text, more + literal, Substitute(rest, ctx));
        }
    }
  }

  lemma {:induction false} JoinTexts(t: Template, u: Template, ctx: Context)
    ensures Substitute(Join(t, u), ctx) == After(Substitute(t, ctx), Substitute(u, ctx))
    ensures Render(Join(t, u)) == Render(t) + Render(u)
  {
    match t {
      case End(text) => LeadTexts(text, u, ctx);
      case Then(text, field, rest) =>
        JoinTexts(rest, u, ctx);
        if field in ctx && Substitute(rest, ctx).Done? {
          PrefixedTwice(text + SqlLiteral(ctx[field]), Substitute(rest, ctx).text, Substitute(u, ctx));
        }
    }
  }

  lemma {:induction false} WrapTexts(open: string, t: Template, close: string, ctx: Context)
    ensures Substitute(Wrap(open, t, close), ctx) == Prefixed(open, After(Substitute(t, ctx), Done(close)))
    ensures Render(Wrap(open, t, close)) == open + (Render(t) + close)
  {
    LeadTexts(open, Join(t, End(close)), ctx);
    JoinTexts(t, End(close), ctx);
  }

  lemma {:induction false} AroundTexts(open: string, t: Template, middle: string, u: Template, close: string,
                                       ctx: Context)
    ensures Substitute(Around(open, t, middle, u, close), ctx)
         == Prefixed(open, After(Substitute(t, ctx), Prefixed(middle, After(Substitute(u, ctx), Done(close)))))
    ensures Render(Around(open, t, middle, u, close))
         == open + (Render(t) + (middle + (Render(u) + close)))
  {
    LeadTexts(open, Join(t, Wrap(middle, u, close)), ctx);
    JoinTexts(t, Wrap(middle, u, close), ctx);
    WrapTexts(middle, u, close, ctx);
  }

  // ----- binding text is binding the predicate -----

  /** The substitution gave what binding gave. */
  ghost predicate BoundAlike(done: Materialized, bound: Bound<Template>) {
    match bound
    case Ok(t) => done == Done(Render(t))
    case MissingUserValue(field) => done == Missing(field)
  }

  function Written(bound: Bound<Predicate>): Bound<Template> {
    match bound
    case Ok(p) => Ok(Write(p))
    case MissingUserValue(field) => MissingUserValue(field)
  }

  function WrittenScalar(bound: Bound<Scalar>): Bound<Template> {
    match bound
    case Ok(s) => Ok(WriteScalar(s))
    case MissingUserValue(field) => MissingUserValue(field)
  }

  lemma {:induction false} ScalarBinds(s: Scalar, ctx: Context)
    ensures BoundAlike(Substitute(WriteScalar(s), ctx), WrittenScalar(BindScalar(s, ctx)))
  {
    if s.UserField? && s.field in ctx {
      LiteralIsShown(ctx[s.field]);
      assert "" + SqlLiteral(ctx[s.field]) + "" == SqlLiteral(ctx[s.field]);
    }
  }

  function WrapBound(open: string, t: Bound<Template>, close: string): Bound<Template> {
    if t.MissingUserValue? then t else Ok(Wrap(open, t.value, close))
  }

  function AroundBound(
    open: string, t: Bound<Template>, middle: string, u: Bound<Template>, close: string): Bound<Template>
  {
    if t.MissingUserValue? then t else if u.MissingUserValue? then u
    else Ok(Around(open, t.value, middle, u.value, close))
  }

  lemma {:induction false} WrapBinds(open: string, t: Template, close: string, ctx: Context, t': Bound<Template>)
    requires BoundAlike(Substitute(t, ctx), t')
    ensures BoundAlike(Substitute(Wrap(open, t, close), ctx), WrapBound(open, t', close))
  {
    WrapTexts(open, t, close, ctx);
    if t'.Ok? {
      WrapTexts(open, t'.value, close, ctx);
    }
    hide Wrap, Render, Substitute;
  }

  lemma {:induction false} AroundBinds(
    open: string, t: Template, middle: string, u: Template, close: string, ctx: Context,
    t': Bound<Template>, u': Bound<Template>)
    requires BoundAlike(Substitute(t, ctx), t') && BoundAlike(Substitute(u, ctx), u')
    ensures BoundAlike(Substitute(Around(open, t, middle, u, close), ctx), AroundBound(open, t', middle, u', close))
  {
    AroundTexts(open, t, middle, u, close, ctx);
    if t'.Ok? && u'.Ok? {
      AroundTexts(open, t'.value, middle, u'.value, close, ctx);
    }
    hide Around, Render, Substitute;
  }

  lemma {:induction false} WriteBinds(p: Predicate, ctx: Context)
    ensures BoundAlike(Substitute(Write(p), ctx), Written(Predicates.Materialize(p, ctx)))
  {
    hide BoundAlike, Substitute, Around, Wrap, WriteScalar;
    match p {
      case Truth(_) => TruthBinds(p, ctx);
      case Compare(op, l, r) =>
        ScalarBinds(l, ctx);
        ScalarBinds(r, ctx);
        AroundBinds("", WriteScalar(l), " " + op + " ", WriteScalar(r), "", ctx,
                    WrittenScalar(BindScalar(l, ctx)), WrittenScalar(BindScalar(r, ctx)));
      case IsNull(s) =>
        ScalarBinds(s, ctx);
        WrapBinds("", WriteScalar(s), " IS NULL", ctx, WrittenScalar(BindScalar(s, ctx)));
      case CompareAny(op, s, list) =>
        ScalarBinds(s, ctx);
        ScalarBinds(list, ctx);
        AroundBinds("", WriteScalar(s), " " + op + " ANY(", WriteScalar(list), ")", ctx,
                    WrittenScalar(BindScalar(s, ctx)), WrittenScalar(BindScalar(list, ctx)));
      case Not(q) =>
        WriteBinds(q, ctx);
        WrapBinds("NOT (", Write(q), ")", ctx, Written(Predicates.Materialize(q, ctx)));
      case And(q, r) =>
        WriteBinds(q, ctx);
        WriteBinds(r, ctx);
        AroundBinds("(", Write(q), ") AND (", Write(r), ")", ctx,
                    Written(Predicates.Materialize(q, ctx)), Written(Predicates.Materialize(r, ctx)));
      case Or(q, r) =>
        WriteBinds(q, ctx);
        WriteBinds(r, ctx);
        AroundBinds("(", Write(q), ") OR (", Write(r), ")", ctx,
                    Written(Predicates.Materialize(q, ctx)), Written(Predicates.Materialize(r, ctx)));
    }
  }

  lemma {:induction false} TruthBinds(p: Predicate, ctx: Context)
    requires p.Truth?
    ensures BoundAlike(Substitute(Write(p), ctx), Written(Predicates.Materialize(p, ctx)))
  {
  }

  /**
    `materialize` on the text of a predicate: it reports a missing field exactly when binding
    does, and the same one; otherwise its text is that of a predicate that evaluates, on every
    row and without any context, as the original does in the user's.
   */
  lemma {:induction false} MaterializedTextMeans(p: Predicate, ctx: Context)
    requires WellFormed(Write(p))
    ensures var text := MaterializeText(Render(Write(p)), ctx);
            match Predicates.Materialize(p, ctx)
            case MissingUserValue(field) => text == Missing(field)
            case Ok(q) =>
              && text == Done(Render(Write(q)))
              && forall holds, row :: Eval(holds, q, row, map[]) == Eval(holds, p, row, ctx)
  {
    MaterializeSubstitutes(Write(p), ctx);
    WriteBinds(p, ctx);
    if Predicates.Materialize(p, ctx).Ok? {
      var q := Predicates.Materialize(p, ctx).value;
      forall holds, row
        ensures Eval(holds, q, row, map[]) == Eval(holds, p, row, ctx)
      {
        MaterializeKeepsMeaning(holds, p, ctx, row, map[]);
      }
    }
  }
}
