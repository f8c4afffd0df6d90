/**
  Binding a compiled predicate's text: the scan that replaces each sentinel for a user field by
  the SQL literal of the bound value, and the quoting of text literals.
 */
module Placeholders {
  import opened Wrappers
  import opened Framing
  import opened Uuids
  import opened UserValues

  const PREFIX: string := "__palimpsest_user_"
  const SUFFIX: string := "__"

  // ----- searching -----

  predicate OccursAt(s: string, pattern: string, i: nat) {
    i + |pattern| <= |s| && s[i..i + |pattern|] == pattern
  }

  /** The first occurrence at or after `i`. */
  function FindFrom(s: string, pattern: string, i: nat): (r: Option<nat>)
    requires i <= |s|
    ensures r.Some? ==> i <= r.value && OccursAt(s, pattern, r.value)
    ensures forall k :: i <= k && (r.Some? ==> k < r.value) ==> !OccursAt(s, pattern, k)
    decreases |s| - i
  {
    if i + |pattern| > |s| then None
    else if OccursAt(s, pattern, i) then Some(i)
    else if i == |s| then None
    else FindFrom(s, pattern, i + 1)
  }

  function Find(s: string, pattern: string): Option<nat> {
    FindFrom(s, pattern, 0)
  }

  /** What follows a prefix does not change what occurs within it. */
  lemma OccursWithin(s: string, t: string, pattern: string, k: nat)
    requires k + |pattern| <= |s|
    ensures OccursAt(s + t, pattern, k) <==> OccursAt(s, pattern, k)
  {
    assert (s + t)[k..k + |pattern|] == s[k..k + |pattern|];
  }

  // ----- quoting -----

  function EscapedChar(c: char): string {
    if c == '\'' then "''" else [c]
  }

  function Escape(s: string): string {
    if s == [] then [] else EscapedChar(s[0]) + Escape(s[1..])
  }

  function Quote(s: string): string {
    "'" + Escape(s) + "'"
  }

  function Lengthened(head: string, r: Option<(string, string)>): Option<(string, string)> {
    if r.None? then None else Some((head + r.value.0, r.value.1))
  }

  /** A reader of SQL text literals, past the opening quote: the text, and what follows the literal. */
  function ReadBody(s: string): (r: Option<(string, string)>)
    ensures r.Some? ==> |r.value.1| < |s|
    decreases |s|
  {
    if s == [] then None
    else if s[0] != '\'' then Lengthened([s[0]], ReadBody(s[1..]))
    else if |s| > 1 && s[1] == '\'' then Lengthened("'", ReadBody(s[2..]))
    else Some(("", s[1..]))
  }

  lemma {:induction false} EscapedReads(s: string, rest: string)
    ensures ReadBody(Escape(s) + rest) == Lengthened(s, ReadBody(rest))
  {
    if s == [] {
      assert Escape(s) + rest == rest;
      var r := ReadBody(rest);
      assert r.Some? ==> s + r.value.0 == r.value.0;
    } else {
      assert Escape(s) + rest == EscapedChar(s[0]) + (Escape(s[1..]) + rest);
      CharReads(s[0], Escape(s[1..]) + rest);
      EscapedReads(s[1..], rest);
      LengthenedTwice([s[0]], s[1..], ReadBody(rest));
      assert [s[0]] + s[1..] == s;
    }
  }

  lemma {:induction false} CharReads(c: char, rest: string)
    ensures ReadBody(EscapedChar(c) + rest) == Lengthened([c], ReadBody(rest))
  {
    var s := EscapedChar(c) + rest;
    assert s[|EscapedChar(c)|..] == rest;
  }

  lemma LengthenedTwice(a: string, b: string, r: Option<(string, string)>)
    ensures Lengthened(a + b, r) == Lengthened(a, Lengthened(b, r))
  {
    if r.Some? {
      assert a + b + r.value.0 == a + (b + r.value.0);
    }
  }

  predicate StartsWithQuote(s: string) {
    s != [] && s[0] == '\''
  }

  /** A quoted text reads back as itself, with the rest left over, unless a quote follows it. */
  lemma QuotedReadsBackIff(s: string, rest: string)
    ensures ReadBody((Quote(s) + rest)[1..]) == Some((s, rest)) <==> !StartsWithQuote(rest)
  {
    assert (Quote(s) + rest)[1..] == Escape(s) + ("'" + rest);
    EscapedReads(s, "'" + rest);
    assert ("'" + rest)[1..] == rest;
    if !StartsWithQuote(rest) {
      assert ReadBody("'" + rest) == Some(("", rest));
      assert s + "" == s;
    } else {
      var more := ReadBody(("'" + rest)[2..]);
      assert ReadBody("'" + rest) == Lengthened("'", more);
      assert more.Some? ==> |s + ("'" + more.value.0)| > |s|;
    }
  }

  function JoinLiterals(literals: seq<string>): string {
    if literals == [] then ""
    else if |literals| == 1 then literals[0]
    else literals[0] + ", " + JoinLiterals(literals[1..])
  }

  function SqlLiterals(items: seq<UserValue>): seq<string>
    decreases items
  {
    if items == [] then [] else [SqlLiteral(items[0])] + SqlLiterals(items[1..])
  }

  /** `to_sql_literal`. */
  function SqlLiteral(v: UserValue): string
    decreases v
  {
    match v
    case Bool(b) => if b then "true" else "false"
    case Int(i) => DecimalInt(i)
    case Float(printed) => printed
    case Text(text) => Quote(text)
    case Timestamp(text) => Quote(text)
    case Uuid(text) => Quote(NormalizeOrRaw(text))
    case Jsonb(printed) => Quote(printed)
    case Enum(text) => Quote(text)
    case List(items) => "ARRAY[" + JoinLiterals(SqlLiterals(items)) + "]"
    case Null => "NULL"
  }

  // ----- materializing -----

  datatype Materialized = Done(text: string) | Missing(field: string) | Malformed(fragment: string)

  function Prefixed(head: string, m: Materialized): Materialized {
    if m.Done? then Done(head + m.text) else m
  }

  /** The scan, one sentinel at a time. */
  function MaterializeText(canonical: string, ctx: map<string, UserValue>): Materialized
    decreases |canonical|
  {
    var start := Find(canonical, PREFIX);
    if start.None? then Done(canonical)
    else
      var after := canonical[start.value + |PREFIX|..];
      var end := Find(after, SUFFIX);
      if end.None? then Malformed(PREFIX + after)
      else
        var field := after[..end.value];
        if field !in ctx then Missing(field)
        else
          Prefixed(canonical[..start.value] + SqlLiteral(ctx[field]),
                   MaterializeText(after[end.value + |SUFFIX|..], ctx))
  }

  lemma PrefixedTwice(a: string, b: string, m: Materialized)
    ensures Prefixed(a + b, m) == Prefixed(a, Prefixed(b, m))
  {
    if m.Done? {
      assert a + b + m.text == a + (b + m.text);
    }
  }

  lemma PrefixedNothing(m: Materialized)
    ensures Prefixed("", m) == m
  {
    assert m.Done? ==> "" + m.text == m.text;
  }

  lemma {:induction false} OneSentinel(output: string, remaining: string, start: nat, end: nat,
                                       ctx: map<string, UserValue>)
    requires Find(remaining, PREFIX) == Some(start)
    requires Find(remaining[start + |PREFIX|..], SUFFIX) == Some(end)
    requires remaining[start + |PREFIX|..][..end] in ctx
    ensures var after := remaining[start + |PREFIX|..];
            Prefixed(output, MaterializeText(remaining, ctx))
            == Prefixed(output + (remaining[..start] + SqlLiteral(ctx[after[..end]])),
                        MaterializeText(after[end + |SUFFIX|..], ctx))
  {
    var after := remaining[start + |PREFIX|..];
    PrefixedTwice(output, remaining[..start] + SqlLiteral(ctx[after[..end]]),
                  MaterializeText(after[end + |SUFFIX|..], ctx));
  }

  /** The loop of `materialize`. */
  method Materialize(canonical: string, ctx: map<string, UserValue>) returns (result: Materialized)
    ensures result == MaterializeText(canonical, ctx)
  {
    hide SqlLiteral, FindFrom;
    var output, remaining := "", canonical;
    PrefixedNothing(MaterializeText(canonical, ctx));
    var start := Find(remaining, PREFIX);
    while start.Some?
      invariant start == Find(remaining, PREFIX)
      invariant MaterializeText(canonical, ctx) == Prefixed(output, MaterializeText(remaining, ctx))
      decreases |remaining|
    {
      var afterPrefix := remaining[start.value + |PREFIX|..];
      var end := Find(afterPrefix, SUFFIX);
      if end.None? {
        return Malformed(PREFIX + afterPrefix);
      }
      var field := afterPrefix[..end.value];
      if field !in ctx {
        return Missing(field);
      }
      OneSentinel(output, remaining, start.value, end.value, ctx);
      output := output + (remaining[..start.value] + SqlLiteral(ctx[field]));
      remaining := afterPrefix[end.value + |SUFFIX|..];
      start := Find(remaining, PREFIX);
    }
    result := Done(output + remaining);
  }

  // ----- what materializing means -----

  /** A predicate as written: stretches of SQL text with user fields in between. */
  datatype Template = End(text: string) | Then(text: string, field: string, rest: Template)

  /** The compiled text, with a sentinel for each field. */
  function Render(t: Template): string {
    match t
    case End(text) => text
    case Then(text, field, rest) => text + PREFIX + field + SUFFIX + Render(rest)
  }

  /** The text with each field's literal in its place; bound values are not looked into. */
  function Substitute(t: Template, ctx: map<string, UserValue>): Materialized {
    match t
    case End(text) => Done(text)
    case Then(text, field, rest) =>
      if field !in ctx then Missing(field) else Prefixed(text + SqlLiteral(ctx[field]), Substitute(rest, ctx))
  }

  /** The suffix cannot be found before the end of the field. */
  predicate PlainField(field: string) {
    && (forall k :: 0 <= k < |field| - 1 ==> field[k] != '_' || field[k + 1] != '_')
    && (field != [] ==> field[|field| - 1] != '_')
  }

  /** No prefix begins within the text, even when one follows it. */
  predicate PlainText(text: string) {
    forall k :: 0 <= k < |text| ==> !OccursAt(text + PREFIX, PREFIX, k)
  }

  predicate WellFormed(t: Template) {
    match t
    case End(text) => Find(text, PREFIX) == None
    case Then(text, field, rest) => PlainText(text) && PlainField(field) && WellFormed(rest)
  }

  lemma UnderscoresAt(s: string, k: nat)
    requires k + 2 <= |s|
    ensures OccursAt(s, SUFFIX, k) <==> s[k] == '_' && s[k + 1] == '_'
  {
    assert s[k..k + 2] == [s[k], s[k + 1]];
    assert SUFFIX == ['_', '_'];
  }

  lemma FieldEndsIff(field: string, rest: string)
    ensures Find(field + SUFFIX + rest, SUFFIX) == Some(|field|) <==> PlainField(field)
  {
    var s := field + SUFFIX + rest;
    UnderscoresAt(s, |field|);
    if PlainField(field) {
      forall k | 0 <= k < |field|
        ensures !OccursAt(s, SUFFIX, k)
      {
        UnderscoresAt(s, k);
        assert s[k] == field[k] && (k + 1 < |field| ==> s[k + 1] == field[k + 1]);
      }
    } else if field[|field| - 1] == '_' {
      UnderscoresAt(s, |field| - 1);
      assert s[|field| - 1] == '_' && s[|field|] == '_';
    } else {
      var k :| 0 <= k < |field| - 1 && field[k] == '_' && field[k + 1] == '_';
      UnderscoresAt(s, k);
      assert s[k] == '_' && s[k + 1] == '_';
    }
  }

  lemma TextEnds(text: string, rest: string)
    requires PlainText(text)
    ensures Find(text + PREFIX + rest, PREFIX) == Some(|text|)
  {
    var s := text + PREFIX;
    assert s[|text|..|text| + |PREFIX|] == PREFIX;
    forall k | 0 <= k <= |text|
      ensures OccursAt(s + rest, PREFIX, k) <==> OccursAt(s, PREFIX, k)
    {
      OccursWithin(s, rest, PREFIX, k);
    }
    assert OccursAt(s, PREFIX, |text|) && OccursAt(s + rest, PREFIX, |text|);
    assert forall k :: 0 <= k < |text| ==> !OccursAt(s + rest, PREFIX, k);
  }

  /**
    Materializing fills in exactly the sentinels of the predicate: every stretch of SQL text is
    kept, every field becomes its value's literal, and no bound value is ever scanned, whatever
    text it holds.
   */
  lemma {:induction false} MaterializeSubstitutes(t: Template, ctx: map<string, UserValue>)
    requires WellFormed(t)
    ensures MaterializeText(Render(t), ctx) == Substitute(t, ctx)
  {
    match t {
      case End(_) =>
      case Then(text, field, rest) =>
        var s := Render(t);
        var tail := field + SUFFIX + Render(rest);
        assert s == text + PREFIX + tail;
        TextEnds(text, tail);
        assert s[..|text|] == text && s[|text| + |PREFIX|..] == tail;
        FieldEndsIff(field, Render(rest));
        assert tail[..|field|] == field && tail[|field| + |SUFFIX|..] == Render(rest);
        MaterializeSubstitutes(rest, ctx);
    }
  }

  function TemplateFields(t: Template): set<string> {
    match t
    case End(_) => {}
    case Then(_, field, rest) => {field} + TemplateFields(rest)
  }

  /** A well-formed predicate is materialized exactly when all of its fields are bound. */
  lemma {:induction false} MaterializesIffBound(t: Template, ctx: map<string, UserValue>)
    requires WellFormed(t)
    ensures MaterializeText(Render(t), ctx).Done? <==> TemplateFields(t) <= ctx.Keys
  {
    MaterializeSubstitutes(t, ctx);
    if t.Then? {
      MaterializesIffBound(t.rest, ctx);
      MaterializeSubstitutes(t.rest, ctx);
    }
  }

  /** A sentinel is replaced by its own field's value exactly when the field name is plain. */
  lemma {:induction false} SentinelReadsFieldIff(field: string, v: UserValue)
    ensures MaterializeText(PREFIX + field + SUFFIX, map[field := v]) == Done(SqlLiteral(v)) <==> PlainField(field)
  {
    var s := PREFIX + field + SUFFIX;
    var after := field + SUFFIX;
    assert s[0..|PREFIX|] == PREFIX;
    assert OccursAt(s, PREFIX, 0);
    assert s[|PREFIX|..] == after;
    assert after + "" == after;
    FieldEndsIff(field, "");
    UnderscoresAt(after, |field|);
    var end := Find(after, SUFFIX);
    assert end.Some? && end.value <= |field|;
    if end.value == |field| {
      assert after[..|field|] == field && after[|field| + 2..] == "";
      assert "" + SqlLiteral(v) + "" == SqlLiteral(v);
    } else {
      assert |after[..end.value]| < |field|;
    }
  }

  /** A field name with an underscore at its end is cut short. */
  lemma {:induction false} TrailingUnderscoreIsLost(field: string, v: UserValue)
    requires PlainField(field)
    ensures MaterializeText(PREFIX + (field + "_") + SUFFIX, map[field + "_" := v]) == Missing(field)
  {
    var s := PREFIX + (field + "_") + SUFFIX;
    var after := field + SUFFIX + "_";
    assert s[0..|PREFIX|] == PREFIX;
    assert OccursAt(s, PREFIX, 0);
    assert s[|PREFIX|..] == after;
    FieldEndsIff(field, "_");
    assert after[..|field|] == field && |field| < |field + "_"|;
  }
}
