/**
  Reading a predicate's SQL text: the text that binding a predicate leaves reads back as the
  bound predicate, so that reading it and evaluating it is evaluating the predicate for the user.
 */
module PredicateReader {
  import opened Wrappers
  import opened Framing
  import opened UserValues
  import opened Predicates
  import opened Placeholders
  import opened PredicateText
  import opened SqlConstants
  import opened EngineEval

  // ----- a reader -----

  predicate IsLetter(c: char) {
    'a' <= c <= 'z' || 'A' <= c <= 'Z' || c == '_'
  }

  predicate IsWordChar(c: char) {
    IsLetter(c) || IsDigit(c) || c == '.'
  }

  /** How many characters of a word the text starts with. */
  function WordLength(s: string): (n: nat)
    ensures n <= |s|
    ensures s != [] && IsLetter(s[0]) ==> n > 0
  {
    if s == [] || !IsWordChar(s[0]) then 0 else 1 + WordLength(s[1..])
  }

  const KEYWORDS: set<string> := {"NULL", "true", "false", "ARRAY", "NOT"}

  /** Reads the column or the constant that the text starts with, and what follows. */
  function ReadScalar(s: string): (r: Option<(Scalar, string)>)
    ensures r.Some? ==> |r.value.1| < |s|
  {
    var n := WordLength(s);
    if s != [] && IsLetter(s[0]) && s[..n] !in KEYWORDS then Some((Column(s[..n]), s[n..]))
    else
      var c := ReadConst(s);
      if c.None? then None else Some((Const(c.value.0), c.value.1))
  }

  /** How many characters come before the first space. */
  function UntilSpace(s: string): (n: nat)
    ensures n <= |s|
  {
    if s == [] || s[0] == ' ' then 0 else 1 + UntilSpace(s[1..])
  }

  /** Reads a comparison, past its left side and a space. */
  function ReadComparison(left: Scalar, s: string): (r: Option<(Predicate, string)>)
    ensures r.Some? ==> |r.value.1| < |s|
  {
    var n := UntilSpace(s);
    var op, after := s[..n], s[n..];
    if StartsWith(after, " ANY(") then
      var list := ReadScalar(after[5..]);
      if list.None? || !StartsWith(list.value.1, ")") then None
      else Some((CompareAny(op, left, list.value.0), list.value.1[1..]))
    else if StartsWith(after, " ") then
      var right := ReadScalar(after[1..]);
      if right.None? then None else Some((Compare(op, left, right.value.0), right.value.1))
    else None
  }

  /** Reads a predicate that starts with a scalar. */
  function ReadSimple(s: string): (r: Option<(Predicate, string)>)
    ensures r.Some? ==> |r.value.1| < |s|
  {
    var left := ReadScalar(s);
    if left.None? then None
    else
      var (x, after) := left.value;
      if StartsWith(after, " IS NULL") then Some((IsNull(x), after[8..]))
      else if StartsWith(after, " ") then ReadComparison(x, after[1..])
      else if x.Const? && x.value.SqlBool? then Some((Truth(x.value.b), after))
      else None
  }

  /** Reads the predicate that the text starts with, and what follows. */
  function ReadPredicate(s: string): (r: Option<(Predicate, string)>)
    ensures r.Some? ==> |r.value.1| < |s|
    decreases |s|, 0
  {
    if StartsWith(s, "NOT (") then
      var inner := ReadPredicate(s[5..]);
      if inner.None? || !StartsWith(inner.value.1, ")") then None
      else Some((Not(inner.value.0), inner.value.1[1..]))
    else if StartsWith(s, "(") then
      var first := ReadPredicate(s[1..]);
      if first.None? then None else ReadJoined(first.value.0, first.value.1)
    else ReadSimple(s)
  }

  /** Reads what is joined to a predicate in parentheses, from its closing parenthesis on. */
  function ReadJoined(p: Predicate, s: string): (r: Option<(Predicate, string)>)
    ensures r.Some? ==> |r.value.1| < |s|
    decreases |s|, 1
  {
    var conjunction := StartsWith(s, ") AND (");
    if !conjunction && !StartsWith(s, ") OR (") then None
    else
      var second := ReadPredicate(if conjunction then s[7..] else s[6..]);
      if second.None? || !StartsWith(second.value.1, ")") then None
      else
        var q := second.value.0;
        Some((if conjunction then And(p, q) else Or(p, q), second.value.1[1..]))
  }

  // ----- what can be read -----

  predicate PlainColumn(name: string) {
    name != [] && IsLetter(name[0]) && name !in KEYWORDS && forall i :: 0 <= i < |name| ==> IsWordChar(name[i])
  }

  predicate PlainOp(op: string) {
    op != "IS" && ' ' !in op
  }

  /** Columns have plain names, and floats a fractional part. */
  ghost predicate ReadableScalar(s: Scalar) {
    match s
    case Column(name) => PlainColumn(name)
    case UserField(_) => true
    case Const(value) => PointedConst(value)
  }

  ghost predicate Readable(p: Predicate) {
    match p
    case Truth(_) => true
    case Compare(op, l, r) => PlainOp(op) && ReadableScalar(l) && ReadableScalar(r)
    case IsNull(s) => ReadableScalar(s)
    case CompareAny(op, s, list) => PlainOp(op) && ReadableScalar(s) && ReadableScalar(list)
    case Not(q) => Readable(q)
    case And(q, r) => Readable(q) && Readable(r)
    case Or(q, r) => Readable(q) && Readable(r)
  }

  /** The text ends, or goes on with a space or a closing parenthesis. */
  predicate Stops(rest: string) {
    rest == [] || rest[0] == ' ' || rest[0] == ')'
  }

  /** The text ends, or goes on with a closing parenthesis. */
  predicate Closes(rest: string) {
    rest == [] || rest[0] == ')'
  }

  // ----- scalars -----

  /** A user value that stands for the constant. */
  function AsUser(c: SqlValue): UserValue {
    match c
    case SqlNull => Null
    case SqlBool(b) => Bool(b)
    case SqlInt(i) => Int(i)
    case SqlFloat(printed) => Float(printed)
    case SqlText(text) => Text(text)
    case SqlList(items) => List(AllAsUser(items))
  }

  function AllAsUser(items: seq<SqlValue>): seq<UserValue> {
    if items == [] then [] else [AsUser(items[0])] + AllAsUser(items[1..])
  }

  lemma {:induction false} AsUserIs(c: SqlValue)
    ensures Literal(AsUser(c)) == c
    decreases c, 0
  {
    if c.SqlList? {
      AllAsUserAre(c.items);
    }
  }

  lemma {:induction false} AllAsUserAre(items: seq<SqlValue>)
    ensures Literals(AllAsUser(items)) == items
    decreases items, 1
  {
    hide AsUser, Literal;
    if items != [] {
      AsUserIs(items[0]);
      AllAsUserAre(items[1..]);
      assert AllAsUser(items)[1..] == AllAsUser(items[1..]);
      assert items == [items[0]] + items[1..];
    }
  }

  /** A constant written out reads back. */
  lemma {:induction false} ConstReads(c: SqlValue, rest: string)
    requires PointedConst(c) && Delimits(rest)
    ensures ReadConst(Show(c) + rest) == Some((c, rest))
  {
    hide ReadConst, Show, Literal, PointedConst, Pointed;
    AsUserIs(c);
    LiteralIsShown(AsUser(c));
    PointedMeans(AsUser(c));
    LiteralReads(AsUser(c), rest);
  }

  lemma {:induction false} WordEnds(word: string, rest: string)
    requires forall i :: 0 <= i < |word| ==> IsWordChar(word[i])
    requires rest != [] ==> !IsWordChar(rest[0])
    ensures WordLength(word + rest) == |word|
  {
    if word == [] {
      assert word + rest == rest;
    } else {
      assert (word + rest)[1..] == word[1..] + rest;
      WordEnds(word[1..], rest);
    }
  }

  /** A constant does not start with a letter, unless it is a keyword. */
  lemma {:induction false} ConstStarts(c: SqlValue, rest: string)
    requires PointedConst(c) && Stops(rest)
    ensures var s := Show(c) + rest;
            s != [] && s[0] != '(' && (IsLetter(s[0]) ==> s[..WordLength(s)] in KEYWORDS && s[..WordLength(s)] != "NOT")
  {
    var s := Show(c) + rest;
    match c {
      case SqlNull =>
        WordEnds("NULL", rest);
        assert s[..4] == "NULL";
      case SqlBool(b) =>
        var word := if b then "true" else "false";
        WordEnds(word, rest);
        assert s[..|word|] == word;
      case SqlList(items) =>
        var more := "[" + JoinLiterals(ShowAll(items)) + "]" + rest;
        assert s == "ARRAY" + more;
        WordEnds("ARRAY", more);
        assert s[..5] == "ARRAY";
      case SqlText(text) =>
        QuoteStarts(text, rest);
      case SqlInt(_) => NumberStarts(c, rest);
      case SqlFloat(_) => NumberStarts(c, rest);
    }
  }

  lemma {:induction false} NumberStarts(c: SqlValue, rest: string)
    requires PointedConst(c) && (c.SqlInt? || c.SqlFloat?)
    ensures var s := Show(c) + rest;
            s != [] && (IsDigit(s[0]) || s[0] == '-')
  {
    hide Decimal;
    LiteralStarts(if c.SqlInt? then Int(c.i) else Float(c.printed));
  }

  lemma {:induction false} ScalarReads(x: Scalar, rest: string)
    requires ReadableScalar(x) && !x.UserField? && Stops(rest)
    ensures ReadScalar(Render(WriteScalar(x)) + rest) == Some((x, rest))
  {
    hide ReadConst, Show, PointedConst;
    match x {
      case Column(name) =>
        WordEnds(name, rest);
        assert (name + rest)[..|name|] == name && (name + rest)[|name|..] == rest;
      case Const(c) =>
        ConstStarts(c, rest);
        ConstReads(c, rest);
    }
  }

  /** A scalar written out is not mistaken for a negation or a parenthesis. */
  lemma {:induction false} ScalarStarts(x: Scalar, rest: string)
    requires ReadableScalar(x) && !x.UserField? && Stops(rest)
    ensures var s := Render(WriteScalar(x)) + rest; !StartsWith(s, "NOT (") && !StartsWith(s, "(")
  {
    hide Show, PointedConst;
    var s := Render(WriteScalar(x)) + rest;
    if x.Column? {
      WordEnds(x.name, rest);
      assert s[..|x.name|] == x.name && s[0] == x.name[0];
    } else {
      ConstStarts(x.value, rest);
    }
    if StartsWith(s, "NOT (") {
      NotIsNoWord(s);
    }
  }

  lemma {:induction false} NotIsNoWord(s: string)
    requires StartsWith(s, "NOT (")
    ensures WordLength(s) == 3 && s[..3] == "NOT" && IsLetter(s[0])
  {
    assert s == "NOT" + s[3..] && s[3] == s[..5][3] && s[0] == s[..5][0];
    WordEnds("NOT", s[3..]);
  }

  // ----- predicates -----

  lemma {:induction false} OpEnds(op: string, rest: string)
    requires ' ' !in op
    ensures UntilSpace(op + (" " + rest)) == |op|
  {
    if op == [] {
      assert op + (" " + rest) == " " + rest;
    } else {
      assert (op + (" " + rest))[1..] == op[1..] + (" " + rest);
      OpEnds(op[1..], rest);
    }
  }

  lemma {:induction false} TestMeans(op: string, rest: string)
    requires ' ' !in op
    ensures StartsWith(" " + op + (" " + rest), " IS NULL") ==> op == "IS"
  {
    var s := " " + op + (" " + rest);
    if StartsWith(s, " IS NULL") {
      assert op + (" " + rest) == s[1..];
      assert s[..8][1] == 'I' && s[..8][2] == 'S' && s[..8][3] == ' ';
      assert s[1..] == "IS" + (" " + s[4..]);
      OpEnds(op, rest);
      OpEnds("IS", s[4..]);
      assert op == s[1..][..2];
    }
  }

  lemma {:induction false} ComparisonReads(op: string, l: Scalar, r: Scalar, rest: string)
    requires ' ' !in op && ReadableScalar(r) && !r.UserField? && Stops(rest)
    ensures ReadComparison(l, op + (" " + (Render(WriteScalar(r)) + rest))) == Some((Compare(op, l, r), rest))
  {
    hide ReadScalar, WriteScalar, ReadableScalar;
    var right := Render(WriteScalar(r)) + rest;
    var s := op + (" " + right);
    OpEnds(op, right);
    ScalarReads(r, rest);
    assert s[..|op|] == op && s[|op|..] == " " + right && (" " + right)[1..] == right && (" " + right)[..1] == " ";
    NoAny(r, rest);
  }

  /** A scalar written out is not mistaken for a list in `ANY`. */
  lemma {:induction false} NoAny(r: Scalar, rest: string)
    requires ReadableScalar(r) && !r.UserField? && Stops(rest)
    ensures !StartsWith(" " + (Render(WriteScalar(r)) + rest), " ANY(")
  {
    hide Show, PointedConst;
    var t := Render(WriteScalar(r)) + rest;
    if r.Column? {
      WordEnds(r.name, rest);
      assert t[..|r.name|] == r.name && t[|r.name|..] == rest;
    } else {
      ConstStarts(r.value, rest);
    }
    if StartsWith(" " + t, " ANY(") {
      AnyIsWord(t);
    }
  }

  lemma {:induction false} AnyIsWord(t: string)
    requires StartsWith(" " + t, " ANY(")
    ensures WordLength(t) == 3 && t[..3] == "ANY" && t[3] == '(' && IsLetter(t[0])
  {
    var s := " " + t;
    assert t[0] == s[..5][1] && t[1] == s[..5][2] && t[2] == s[..5][3] && t[3] == s[..5][4];
    assert t == "ANY" + t[3..];
    WordEnds("ANY", t[3..]);
  }

  lemma {:induction false} AnyReads(op: string, l: Scalar, list: Scalar, rest: string)
    requires ' ' !in op && ReadableScalar(list) && !list.UserField?
    ensures ReadComparison(l, op + (" " + ("ANY(" + (Render(WriteScalar(list)) + (")" + rest)))))
         == Some((CompareAny(op, l, list), rest))
  {
    hide ReadScalar, WriteScalar, ReadableScalar;
    var inner := Render(WriteScalar(list)) + (")" + rest);
    var s := op + (" " + ("ANY(" + inner));
    OpEnds(op, "ANY(" + inner);
    ScalarReads(list, ")" + rest);
    assert s[..|op|] == op && s[|op|..] == " ANY(" + inner;
    assert (" ANY(" + inner)[..5] == " ANY(" && (" ANY(" + inner)[5..] == inner;
    assert (")" + rest)[..1] == ")" && (")" + rest)[1..] == rest;
  }

  /** A predicate that starts with a scalar is read as one. */
  lemma {:induction false} SimpleReads(x: Scalar, more: string)
    requires ReadableScalar(x) && !x.UserField? && Stops(more)
    ensures ReadPredicate(Render(WriteScalar(x)) + more)
         == if StartsWith(more, " IS NULL") then Some((IsNull(x), more[8..]))
            else if StartsWith(more, " ") then ReadComparison(x, more[1..])
            else if x.Const? && x.value.SqlBool? then Some((Truth(x.value.b), more))
            else None
  {
    hide ReadScalar, WriteScalar, ReadableScalar, ReadComparison;
    ScalarStarts(x, more);
    ScalarReads(x, more);
  }

  /** The predicate's text. */
  function Sql(p: Predicate): string {
    Render(Write(p))
  }

  lemma {:induction false} SqlOf(p: Predicate)
    ensures Sql(p)
         == match p
            case Truth(b) => Show(SqlBool(b))
            case Compare(op, l, r) => Render(WriteScalar(l)) + (" " + op + " " + Render(WriteScalar(r)))
            case IsNull(s) => Render(WriteScalar(s)) + " IS NULL"
            case CompareAny(op, s, list) =>
              Render(WriteScalar(s)) + (" " + op + " ANY(" + (Render(WriteScalar(list)) + ")"))
            case Not(q) => "NOT (" + (Sql(q) + ")")
            case And(q, r) => "(" + (Sql(q) + (") AND (" + (Sql(r) + ")")))
            case Or(q, r) => "(" + (Sql(q) + (") OR (" + (Sql(r) + ")")))
  {
    match p {
      case Truth(_) =>
      case Compare(op, l, r) => AroundTexts("", WriteScalar(l), " " + op + " ", WriteScalar(r), "", map[]);
      case IsNull(s) => WrapTexts("", WriteScalar(s), " IS NULL", map[]);
      case CompareAny(op, s, list) =>
        AroundTexts("", WriteScalar(s), " " + op + " ANY(", WriteScalar(list), ")", map[]);
      case Not(q) => WrapTexts("NOT (", Write(q), ")", map[]);
      case And(q, r) => AroundTexts("(", Write(q), ") AND (", Write(r), ")", map[]);
      case Or(q, r) => AroundTexts("(", Write(q), ") OR (", Write(r), ")", map[]);
    }
  }

  lemma {:induction false} ConstText(c: SqlValue)
    ensures Render(WriteScalar(Const(c))) == Show(c)
  {
    hide Show;
  }

  lemma {:induction false} TruthReads(b: bool, rest: string)
    requires Closes(rest)
    ensures ReadPredicate(Sql(Truth(b)) + rest) == Some((Truth(b), rest))
  {
    assert ReadableScalar(Const(SqlBool(b))) && Stops(rest);
    assert !StartsWith(rest, " IS NULL") && !StartsWith(rest, " ");
    hide *;
    SqlOf(Truth(b));
    ConstText(SqlBool(b));
    SimpleReads(Const(SqlBool(b)), rest);
  }

  lemma {:induction false} IsNullReads(x: Scalar, rest: string)
    requires ReadableScalar(x) && !x.UserField?
    ensures ReadPredicate(Sql(IsNull(x)) + rest) == Some((IsNull(x), rest))
  {
    hide ReadPredicate, ReadableScalar, WriteScalar, Sql, Render;
    var more := " IS NULL" + rest;
    SqlOf(IsNull(x));
    SimpleReads(x, more);
    assert more[..8] == " IS NULL" && more[8..] == rest;
    assert Sql(IsNull(x)) + rest == Render(WriteScalar(x)) + more;
  }

  /** What follows the left side of a comparison goes on with a space, and is no test for null. */
  lemma {:induction false} AfterLeft(op: string, tail: string)
    requires PlainOp(op)
    ensures var more := " " + op + (" " + tail);
            && Stops(more) && !StartsWith(more, " IS NULL") && StartsWith(more, " ")
            && more[1..] == op + (" " + tail)
  {
    TestMeans(op, tail);
  }

  lemma CompareText(left: string, op: string, right: string, rest: string)
    ensures left + (" " + op + " " + right) + rest == left + (" " + op + (" " + (right + rest)))
  {
    assert " " + op + " " + right + rest == " " + op + (" " + (right + rest));
  }

  lemma AnyText(left: string, op: string, list: string, rest: string)
    ensures left + (" " + op + " ANY(" + (list + ")")) + rest
         == left + (" " + op + (" " + ("ANY(" + (list + (")" + rest)))))
  {
    assert " " + op + " ANY(" + (list + ")") + rest == " " + op + (" " + ("ANY(" + (list + (")" + rest))));
  }

  lemma {:induction false} CompareReads(op: string, l: Scalar, r: Scalar, rest: string)
    requires PlainOp(op) && ReadableScalar(l) && ReadableScalar(r) && !l.UserField? && !r.UserField? && Closes(rest)
    ensures ReadPredicate(Sql(Compare(op, l, r)) + rest) == Some((Compare(op, l, r), rest))
  {
    assert ' ' !in op && Stops(rest);
    hide *;
    var left, right := Render(WriteScalar(l)), Render(WriteScalar(r));
    SqlOf(Compare(op, l, r));
    CompareText(left, op, right, rest);
    AfterLeft(op, right + rest);
    SimpleReads(l, " " + op + (" " + (right + rest)));
    ComparisonReads(op, l, r, rest);
  }

  lemma {:induction false} CompareAnyReads(op: string, l: Scalar, list: Scalar, rest: string)
    requires PlainOp(op) && ReadableScalar(l) && ReadableScalar(list) && !l.UserField? && !list.UserField?
    ensures ReadPredicate(Sql(CompareAny(op, l, list)) + rest) == Some((CompareAny(op, l, list), rest))
  {
    assert ' ' !in op;
    hide *;
    var left, inner := Render(WriteScalar(l)), Render(WriteScalar(list));
    SqlOf(CompareAny(op, l, list));
    AnyText(left, op, inner, rest);
    AfterLeft(op, "ANY(" + (inner + (")" + rest)));
    SimpleReads(l, " " + op + (" " + ("ANY(" + (inner + (")" + rest)))));
    AnyReads(op, l, list, rest);
  }

  lemma {:induction false} ReadNot(t: string, q: Predicate, rest: string)
    requires ReadPredicate(t) == Some((q, ")" + rest))
    ensures ReadPredicate("NOT (" + t) == Some((Not(q), rest))
  {
    var s := "NOT (" + t;
    assert s[..5] == "NOT (" && s[5..] == t;
    assert (")" + rest)[..1] == ")" && (")" + rest)[1..] == rest;
  }

  lemma {:induction false} InParentheses(s: string)
    requires StartsWith(s, "(") && !StartsWith(s, "NOT (")
    ensures var first := ReadPredicate(s[1..]);
            ReadPredicate(s) == if first.None? then None else ReadJoined(first.value.0, first.value.1)
  {
    hide ReadJoined, ReadSimple, StartsWith;
  }

  lemma {:induction false} ReadParenthesis(t: string)
    requires ReadPredicate(t).Some?
    ensures ReadPredicate("(" + t) == ReadJoined(ReadPredicate(t).value.0, ReadPredicate(t).value.1)
  {
    hide ReadPredicate, ReadJoined;
    var s := "(" + t;
    assert s[..1] == "(" && s[1..] == t && s[0] == '(';
    InParentheses(s);
  }

  lemma {:induction false} JoinedReads(q: Predicate, u: string, r: Predicate, rest: string)
    requires ReadPredicate(u) == Some((r, ")" + rest))
    ensures ReadJoined(q, ") AND (" + u) == Some((And(q, r), rest))
    ensures ReadJoined(q, ") OR (" + u) == Some((Or(q, r), rest))
  {
    hide ReadPredicate;
    var s, t := ") AND (" + u, ") OR (" + u;
    assert s[..7] == ") AND (" && s[7..] == u;
    assert t[..6] == ") OR (" && t[6..] == u && t[2] == 'O';
    assert (")" + rest)[..1] == ")" && (")" + rest)[1..] == rest;
  }

  lemma {:induction false} NotReads(q: Predicate, rest: string)
    requires ReadPredicate(Sql(q) + (")" + rest)) == Some((q, ")" + rest))
    ensures ReadPredicate(Sql(Not(q)) + rest) == Some((Not(q), rest))
  {
    hide *;
    SqlOf(Not(q));
    assert Sql(Not(q)) + rest == "NOT (" + (Sql(q) + (")" + rest));
    ReadNot(Sql(q) + (")" + rest), q, rest);
  }

  lemma {:induction false} AndReads(q: Predicate, r: Predicate, u: string, rest: string)
    requires u == Sql(r) + (")" + rest) && ReadPredicate(u) == Some((r, ")" + rest))
    requires ReadPredicate(Sql(q) + (") AND (" + u)) == Some((q, ") AND (" + u))
    ensures ReadPredicate(Sql(And(q, r)) + rest) == Some((And(q, r), rest))
  {
    hide *;
    SqlOf(And(q, r));
    assert Sql(And(q, r)) + rest == "(" + (Sql(q) + (") AND (" + u));
    ReadParenthesis(Sql(q) + (") AND (" + u));
    JoinedReads(q, u, r, rest);
  }

  lemma {:induction false} OrReads(q: Predicate, r: Predicate, u: string, rest: string)
    requires u == Sql(r) + (")" + rest) && ReadPredicate(u) == Some((r, ")" + rest))
    requires ReadPredicate(Sql(q) + (") OR (" + u)) == Some((q, ") OR (" + u))
    ensures ReadPredicate(Sql(Or(q, r)) + rest) == Some((Or(q, r), rest))
  {
    hide *;
    SqlOf(Or(q, r));
    assert Sql(Or(q, r)) + rest == "(" + (Sql(q) + (") OR (" + u));
    ReadParenthesis(Sql(q) + (") OR (" + u));
    JoinedReads(q, u, r, rest);
  }

  /** What follows does not matter: the text of a bound predicate reads back as the predicate. */
  lemma {:induction false} PredicateReads(p: Predicate, rest: string)
    requires Readable(p) && Fields(p) == {} && Closes(rest)
    ensures ReadPredicate(Sql(p) + rest) == Some((p, rest))
    decreases p
  {
    hide ReadPredicate, ReadableScalar, PlainOp, Sql;
    match p {
      case Truth(b) => TruthReads(b, rest);
      case IsNull(x) => IsNullReads(x, rest);
      case Compare(op, l, r) => CompareReads(op, l, r, rest);
      case CompareAny(op, l, list) => CompareAnyReads(op, l, list, rest);
      case Not(q) =>
        PredicateReads(q, ")" + rest);
        NotReads(q, rest);
      case And(q, r) =>
        var u := Sql(r) + (")" + rest);
        PredicateReads(r, ")" + rest);
        PredicateReads(q, ") AND (" + u);
        AndReads(q, r, u, rest);
      case Or(q, r) =>
        var u := Sql(r) + (")" + rest);
        PredicateReads(r, ")" + rest);
        PredicateReads(q, ") OR (" + u);
        OrReads(q, r, u, rest);
    }
  }

  // ----- binding text is binding the predicate, as read -----

  /** The values bound to the fields have no float without a fractional part. */
  ghost predicate PointedBindings(fields: set<string>, ctx: Context) {
    forall f :: f in fields ==> f in ctx && Pointed(ctx[f])
  }

  lemma {:induction false} BoundScalarIsReadable(s: Scalar, ctx: Context)
    requires ReadableScalar(s) && PointedBindings(ScalarFields(s), ctx)
    ensures BindScalar(s, ctx).Ok? && ReadableScalar(BindScalar(s, ctx).value) && !BindScalar(s, ctx).value.UserField?
  {
    hide Pointed, PointedConst, Literal;
    if s.UserField? {
      PointedMeans(ctx[s.field]);
    }
  }

  lemma {:induction false} BoundIsReadable(p: Predicate, ctx: Context)
    requires Readable(p) && PointedBindings(Fields(p), ctx)
    ensures var q := Predicates.Materialize(p, ctx);
            q.Ok? && Readable(q.value) && Fields(q.value) == {}
  {
    hide ReadableScalar, BindScalar, Pointed;
    match p {
      case Truth(_) =>
      case Compare(_, l, r) =>
        BoundScalarIsReadable(l, ctx);
        BoundScalarIsReadable(r, ctx);
      case IsNull(s) => BoundScalarIsReadable(s, ctx);
      case CompareAny(_, s, list) =>
        BoundScalarIsReadable(s, ctx);
        BoundScalarIsReadable(list, ctx);
      case Not(q) => BoundIsReadable(q, ctx);
      case And(q, r) =>
        BoundIsReadable(q, ctx);
        BoundIsReadable(r, ctx);
      case Or(q, r) =>
        BoundIsReadable(q, ctx);
        BoundIsReadable(r, ctx);
    }
  }

  /**
    `materialize` end to end: the text that the scan leaves of a predicate's text reads back, to
    the end, as a predicate that reads no user field and evaluates, on every row, as the original
    does in the user's context, by three-valued logic and by the engine.
   */
  lemma {:induction false} MaterializedReadsBack(p: Predicate, ctx: Context)
    requires WellFormed(Write(p)) && Readable(p) && PointedBindings(Fields(p), ctx)
    ensures var text := MaterializeText(Sql(p), ctx);
            && text.Done?
            && var q := ReadPredicate(text.text);
               && q.Some? && q.value.1 == "" && Fields(q.value.0) == {}
               && forall holds, row ::
                    && Eval(holds, q.value.0, row, map[]) == Eval(holds, p, row, ctx)
                    && Engine(holds, q.value.0, row, map[]) == Engine(holds, p, row, ctx)
  {
    hide ReadPredicate, Readable, WellFormed, MaterializeText, Pointed, Eval, Engine;
    BoundIsReadable(p, ctx);
    MaterializedTextMeans(p, ctx);
    var q := Predicates.Materialize(p, ctx).value;
    PredicateReads(q, "");
    assert Sql(q) + "" == Sql(q);
    forall holds, row
      ensures Engine(holds, q, row, map[]) == Engine(holds, p, row, ctx)
    {
      EngineBinding(holds, p, row, ctx, map[]);
    }
  }

  lemma {:induction false} RuleText(op: string, column: string, field: string)
    ensures Sql(Compare(op, Column(column), UserField(field)))
         == column + (" " + op + " " + (PREFIX + field + SUFFIX))
  {
    SqlOf(Compare(op, Column(column), UserField(field)));
    hide Sql;
    assert "" + PREFIX + field + SUFFIX + "" == PREFIX + field + SUFFIX;
  }

  lemma {:induction false} ColumnCompares(
    holds: Comparison, op: string, column: string, field: string, ctx: Context, row: Row)
    requires field in ctx && column in row && !row[column].SqlList? && !Literal(ctx[field]).SqlList?
    ensures Eval(holds, Compare(op, Column(column), UserField(field)), row, ctx) == True <==>
              !row[column].SqlNull? && !ctx[field].Null? && holds(op, row[column], Literal(ctx[field]))
  {
  }

  /**
    A rule that compares a column with a user field, from its text to a row: the text that the
    scan leaves, read back, admits exactly the rows whose own column compares so with the value
    bound to the field, neither being null.
   */
  lemma {:induction false} RuleComparesColumn(
    holds: Comparison, op: string, column: string, field: string, ctx: Context, row: Row)
    requires PlainColumn(column) && PlainOp(op) && field in ctx && Pointed(ctx[field]) && column in row
    requires WellFormed(Write(Compare(op, Column(column), UserField(field))))
    requires !row[column].SqlList? && !Literal(ctx[field]).SqlList?
    ensures var text := MaterializeText(column + (" " + op + " " + (PREFIX + field + SUFFIX)), ctx);
            && text.Done? && ReadPredicate(text.text).Some?
            && var q := ReadPredicate(text.text).value.0;
               Eval(holds, q, row, map[]) == True <==>
                 !row[column].SqlNull? && !ctx[field].Null? && holds(op, row[column], Literal(ctx[field]))
  {
    var p := Compare(op, Column(column), UserField(field));
    assert Readable(p) && PointedBindings(Fields(p), ctx);
    hide *;
    RuleText(op, column, field);
    ColumnCompares(holds, op, column, field, ctx, row);
    MaterializedReadsBack(p, ctx);
  }
}
