/**
  Reading SQL constants: the literal written for a user value reads back as the value it stands
  for, whatever follows it.
 */
module SqlConstants {
  import opened Wrappers
  import opened Framing
  import opened UserValues
  import opened Predicates
  import opened Placeholders

  // ----- a reader -----

  predicate StartsWith(s: string, word: string) {
    |word| <= |s| && s[..|word|] == word
  }

  predicate IsDigit(c: char) {
    '0' <= c <= '9'
  }

  /** How many digits the text starts with. */
  function DigitCount(s: string): (n: nat)
    ensures n <= |s| && forall i :: 0 <= i < n ==> IsDigit(s[i])
    ensures n < |s| ==> !IsDigit(s[n])
  {
    if s == [] || !IsDigit(s[0]) then 0 else 1 + DigitCount(s[1..])
  }

  function SignLength(s: string): (n: nat)
    ensures n <= |s|
  {
    if s != [] && s[0] == '-' then 1 else 0
  }

  /** Where the digits after a point end, or `at` if there are none. */
  function FractionEnd(s: string, at: nat): (end: nat)
    requires at <= |s|
    ensures at <= end <= |s|
  {
    if at < |s| && s[at] == '.' && DigitCount(s[at + 1..]) > 0 then at + 1 + DigitCount(s[at + 1..]) else at
  }

  /** How long the number is that the text starts with: a sign, digits, and a point with more digits. */
  function NumberEnd(s: string): (end: nat)
    ensures end <= |s|
  {
    var sign := SignLength(s);
    var digits := DigitCount(s[sign..]);
    if digits == 0 then 0 else FractionEnd(s, sign + digits)
  }

  function ReadNumber(s: string): (r: Option<(SqlValue, string)>)
    ensures r.Some? ==> |r.value.1| < |s|
  {
    var end := NumberEnd(s);
    if end == 0 then None
    else Some((if '.' in s[..end] then SqlFloat(s[..end]) else SqlInt(ReadInt(s[..end])), s[end..]))
  }

  /** Reads the constant that the text starts with: its value, and what follows. */
  function ReadConst(s: string): (r: Option<(SqlValue, string)>)
    ensures r.Some? ==> |r.value.1| < |s|
    decreases |s|, 0
  {
    if StartsWith(s, "NULL") then Some((SqlNull, s[4..]))
    else if StartsWith(s, "true") then Some((SqlBool(true), s[4..]))
    else if StartsWith(s, "false") then Some((SqlBool(false), s[5..]))
    else if StartsWith(s, "'") then
      var body := ReadBody(s[1..]);
      if body.None? then None else Some((SqlText(body.value.0), body.value.1))
    else if StartsWith(s, "ARRAY[") then ReadList(s[6..])
    else ReadNumber(s)
  }

  /** Reads an array, past the opening bracket. */
  function ReadList(s: string): (r: Option<(SqlValue, string)>)
    ensures r.Some? ==> |r.value.1| < |s|
    decreases |s|, 2
  {
    if StartsWith(s, "]") then Some((SqlList([]), s[1..]))
    else
      var items := ReadItems(s);
      if items.None? then None else Some((SqlList(items.value.0), items.value.1))
  }

  /** Reads constants with commas between them, up to the closing bracket. */
  function ReadItems(s: string): (r: Option<(seq<SqlValue>, string)>)
    ensures r.Some? ==> |r.value.1| < |s|
    decreases |s|, 1
  {
    var first := ReadConst(s);
    if first.None? then None
    else
      var after := first.value.1;
      if StartsWith(after, "]") then Some(([first.value.0], after[1..]))
      else if StartsWith(after, ", ") then
        var more := ReadItems(after[2..]);
        if more.None? then None else Some(([first.value.0] + more.value.0, more.value.1))
      else None
  }

  // ----- numbers -----

  /** The text does not go on with a number or a quoted text. */
  predicate Delimits(rest: string) {
    rest != [] ==> !IsDigit(rest[0]) && rest[0] != '.' && rest[0] != '\''
  }

  ghost predicate PointedParts(s: string, sign: string, whole: string, part: string) {
    && (sign == "" || sign == "-") && whole != [] && part != [] && AllDigits(whole) && AllDigits(part)
    && s == sign + whole + "." + part
  }

  /** A number with a fractional part. */
  ghost predicate IsPointed(s: string) {
    exists sign, whole, part :: PointedParts(s, sign, whole, part)
  }

  lemma {:induction false} DigitCountOf(digits: string, rest: string)
    requires AllDigits(digits) && (rest != [] ==> !IsDigit(rest[0]))
    ensures DigitCount(digits + rest) == |digits|
  {
    if digits == [] {
      assert digits + rest == rest;
    } else {
      assert (digits + rest)[1..] == digits[1..] + rest;
      DigitCountOf(digits[1..], rest);
    }
  }

  lemma WholePart(sign: string, whole: string, more: string)
    requires (sign == "" || sign == "-") && whole != [] && AllDigits(whole) && (more != [] ==> !IsDigit(more[0]))
    ensures var s := sign + whole + more;
            SignLength(s) == |sign| && DigitCount(s[|sign|..]) == |whole|
  {
    hide DigitCount;
    var s := sign + whole + more;
    DigitCountOf(whole, more);
    assert s[|sign|..] == whole + more;
    assert s[0] == if sign == "-" then '-' else whole[0];
  }

  /** A printed integer ends where its digits end. */
  lemma IntegerEnds(i: int, rest: string)
    requires Delimits(rest)
    ensures NumberEnd(DecimalInt(i) + rest) == |DecimalInt(i)| && '.' !in DecimalInt(i)
  {
    hide Decimal, DigitCount, SignLength;
    var sign, digits := if i < 0 then "-" else "", if i < 0 then Decimal(-i) else Decimal(i);
    assert DecimalInt(i) == sign + digits;
    WholePart(sign, digits, rest);
  }

  lemma FractionOf(head: string, part: string, rest: string)
    requires AllDigits(part) && part != [] && Delimits(rest)
    ensures FractionEnd(head + "." + part + rest, |head|) == |head + "." + part|
  {
    hide DigitCount;
    var t := head + "." + part + rest;
    DigitCountOf(part, rest);
    assert t[|head| + 1..] == part + rest;
  }

  lemma PointedEnds(s: string, rest: string)
    requires IsPointed(s) && Delimits(rest)
    ensures NumberEnd(s + rest) == |s| && '.' in s
  {
    hide DigitCount, SignLength, FractionEnd;
    var sign, whole, part :| PointedParts(s, sign, whole, part);
    FractionOf(sign + whole, part, rest);
    assert s + rest == sign + whole + ("." + part + rest);
    WholePart(sign, whole, "." + part + rest);
    assert s[|sign| + |whole|] == '.';
  }

  lemma DigitsWithin(s: string, from: nat)
    requires from <= |s|
    ensures AllDigits(s[from..from + DigitCount(s[from..])])
  {
    hide DigitCount;
    var n := DigitCount(s[from..]);
    assert s[from..from + n] == s[from..][..n];
  }

  /** A number read with a point in it has a fractional part. */
  lemma ReadIsPointed(s: string)
    requires '.' in s[..NumberEnd(s)]
    ensures IsPointed(s[..NumberEnd(s)])
  {
    hide DigitCount;
    var sign, end := SignLength(s), NumberEnd(s);
    var whole := sign + DigitCount(s[sign..]);
    DigitsWithin(s, sign);
    PointAfter(s, sign, whole, end);
    DigitsWithin(s, whole + 1);
    assert s[..end] == s[..sign] + s[sign..whole] + "." + s[whole + 1..end];
    assert PointedParts(s[..end], s[..sign], s[sign..whole], s[whole + 1..end]);
  }

  lemma PointAfter(s: string, sign: nat, whole: nat, end: nat)
    requires sign <= whole <= end <= |s| && '.' in s[..end] && AllDigits(s[sign..whole])
    requires sign == 0 || (sign == 1 && s[0] == '-')
    ensures whole < end
  {
    assert forall k :: sign <= k < whole ==> s[k] == s[sign..whole][k - sign];
    var i :| 0 <= i < end && s[..end][i] == '.';
  }

  // ----- reading back -----

  /** Every float is printed with a fractional part. */
  ghost predicate Pointed(v: UserValue) {
    match v
    case Float(printed) => IsPointed(printed)
    case List(items) => forall i :: 0 <= i < |items| ==> Pointed(items[i])
    case _ => true
  }

  /** Which characters a literal may start with. */
  lemma {:induction false} LiteralStarts(v: UserValue)
    requires Pointed(v)
    ensures SqlLiteral(v) != [] && SqlLiteral(v)[0] != ']'
    ensures v.Int? || v.Float? ==> IsDigit(SqlLiteral(v)[0]) || SqlLiteral(v)[0] == '-'
  {
    hide Decimal;
    match v {
      case Float(printed) =>
        var sign, whole, part :| PointedParts(printed, sign, whole, part);
        assert printed[0] == if sign == "-" then '-' else whole[0];
      case Int(i) =>
      case _ =>
    }
  }

  lemma {:induction false} ReadsAsNumber(s: string)
    requires s != [] && (IsDigit(s[0]) || s[0] == '-')
    ensures ReadConst(s) == ReadNumber(s)
  {
    hide ReadNumber;
  }

  lemma {:induction false} NumberReads(v: UserValue, rest: string)
    requires (v.Int? || v.Float?) && Pointed(v) && Delimits(rest)
    ensures ReadConst(SqlLiteral(v) + rest) == Some((Literal(v), rest))
  {
    LiteralStarts(v);
    hide NumberEnd, ReadInt, DecimalInt, IsPointed, ReadConst;
    var text := SqlLiteral(v);
    if v.Int? {
      IntegerEnds(v.i, rest);
      DecimalIntReadsBack(v.i);
    } else {
      PointedEnds(v.printed, rest);
    }
    assert (text + rest)[..|text|] == text && (text + rest)[|text|..] == rest;
    ReadsAsNumber(text + rest);
  }

  lemma {:induction false} QuotedReads(text: string, rest: string)
    requires Delimits(rest)
    ensures ReadConst(Quote(text) + rest) == Some((SqlText(text), rest))
  {
    hide Quote, ReadBody;
    var s := Quote(text) + rest;
    QuotedReadsBackIff(text, rest);
    assert s[0] == '\'' && s[..1] == "'" by {
      QuoteStarts(text, rest);
    }
  }

  lemma QuoteStarts(text: string, rest: string)
    ensures Quote(text) + rest != [] && (Quote(text) + rest)[0] == '\''
  {
  }

  lemma {:induction false} WordReads(v: UserValue, rest: string)
    requires v.Null? || v.Bool?
    ensures ReadConst(SqlLiteral(v) + rest) == Some((Literal(v), rest))
  {
    var word := SqlLiteral(v);
    var s := word + rest;
    assert s[..|word|] == word && s[|word|..] == rest && s[0] == word[0];
    assert StartsWith(s, word);
  }

  /** What follows a literal does not matter: it reads back as the value it stands for. */
  lemma {:induction false} LiteralReads(v: UserValue, rest: string)
    requires Pointed(v) && Delimits(rest)
    ensures ReadConst(SqlLiteral(v) + rest) == Some((Literal(v), rest))
    decreases v, 0
  {
    match v {
      case Int(_) => NumberReads(v, rest);
      case Float(_) => NumberReads(v, rest);
      case Bool(_) => WordReads(v, rest);
      case Null => WordReads(v, rest);
      case List(items) =>
        if items != [] {
          LiteralStarts(items[0]);
          ItemsRead(items, rest);
        }
        ListReads(items, rest);
      case _ => QuotedReads(Literal(v).text, rest);
    }
  }

  lemma {:induction false} ReadsAsList(t: string)
    ensures ReadConst("ARRAY[" + t) == ReadList(t)
  {
    hide ReadList;
    var s := "ARRAY[" + t;
    assert s[..6] == "ARRAY[" && s[6..] == t && s[0] == 'A';
    assert StartsWith(s, "ARRAY[");
  }

  lemma {:induction false} ListReads(items: seq<UserValue>, rest: string)
    requires items != [] ==> SqlLiteral(items[0]) != [] && SqlLiteral(items[0])[0] != ']'
    requires items != [] ==>
               ReadItems(JoinLiterals(SqlLiterals(items)) + "]" + rest) == Some((Literals(items), rest))
    ensures ReadConst(SqlLiteral(List(items)) + rest) == Some((SqlList(Literals(items)), rest))
  {
    var t := JoinLiterals(SqlLiterals(items)) + "]" + rest;
    ListText(items, rest);
    ReadsAsList(t);
    hide SqlLiteral, SqlLiterals, JoinLiterals, ReadItems, ReadConst;
  }

  lemma {:induction false} ListText(items: seq<UserValue>, rest: string)
    ensures var t := JoinLiterals(SqlLiterals(items)) + "]" + rest;
            && SqlLiteral(List(items)) + rest == "ARRAY[" + t
            && (items == [] ==> t[..1] == "]" && t[1..] == rest)
            && (items != [] && SqlLiteral(items[0]) != [] ==> t[0] == SqlLiteral(items[0])[0])
  {
    if items != [] {
      LiteralsJoined(items);
    }
  }

  lemma {:induction false} ReadLastItem(s: string, c: SqlValue, rest: string)
    requires ReadConst(s) == Some((c, "]" + rest))
    ensures ReadItems(s) == Some(([c], rest))
  {
    hide ReadConst;
    assert ("]" + rest)[..1] == "]" && ("]" + rest)[1..] == rest;
  }

  lemma {:induction false} ReadMoreItems(s: string, c: SqlValue, t: string, more: seq<SqlValue>, rest: string)
    requires ReadConst(s) == Some((c, ", " + t)) && ReadItems(t) == Some((more, rest))
    ensures ReadItems(s) == Some(([c] + more, rest))
  {
    hide ReadConst;
    assert (", " + t)[0] == ',' && (", " + t)[..2] == ", " && (", " + t)[2..] == t;
  }

  lemma {:induction false} OneItemReads(item: UserValue, rest: string)
    requires ReadConst(SqlLiteral(item) + ("]" + rest)) == Some((Literal(item), "]" + rest))
    ensures ReadItems(JoinLiterals(SqlLiterals([item])) + "]" + rest) == Some((Literals([item]), rest))
  {
    hide ReadConst, ReadItems, SqlLiteral, Literal;
    assert [item][1..] == [];
    assert SqlLiterals([item]) == [SqlLiteral(item)] + SqlLiterals([]) == [SqlLiteral(item)];
    assert Literals([item]) == [Literal(item)] + Literals([]) == [Literal(item)];
    assert JoinLiterals([SqlLiteral(item)]) == SqlLiteral(item);
    assert SqlLiteral(item) + "]" + rest == SqlLiteral(item) + ("]" + rest);
    ReadLastItem(SqlLiteral(item) + ("]" + rest), Literal(item), rest);
  }

  lemma {:induction false} FirstItemReads(items: seq<UserValue>, t: string, rest: string)
    requires |items| > 1 && t == JoinLiterals(SqlLiterals(items[1..])) + "]" + rest
    requires ReadConst(SqlLiteral(items[0]) + (", " + t)) == Some((Literal(items[0]), ", " + t))
    requires ReadItems(t) == Some((Literals(items[1..]), rest))
    ensures ReadItems(JoinLiterals(SqlLiterals(items)) + "]" + rest) == Some((Literals(items), rest))
  {
    LiteralsJoined(items);
    assert Literals(items) == [Literal(items[0])] + Literals(items[1..]);
    hide *;
    var first, joined := SqlLiteral(items[0]), JoinLiterals(SqlLiterals(items[1..]));
    Regrouped(first, joined, rest);
    ReadMoreItems(first + (", " + t), Literal(items[0]), t, Literals(items[1..]), rest);
  }

  lemma Regrouped(first: string, joined: string, rest: string)
    ensures first + ", " + joined + "]" + rest == first + (", " + (joined + "]" + rest))
  {
  }

  lemma {:induction false} ItemsRead(items: seq<UserValue>, rest: string)
    requires items != [] && forall i :: 0 <= i < |items| ==> Pointed(items[i])
    ensures ReadItems(JoinLiterals(SqlLiterals(items)) + "]" + rest) == Some((Literals(items), rest))
    decreases items, 1
  {
    hide ReadConst, ReadItems, SqlLiteral, SqlLiterals, Literal, Literals, Pointed, JoinLiterals;
    if |items| == 1 {
      LiteralReads(items[0], "]" + rest);
      OneItemReads(items[0], rest);
      assert items == [items[0]];
    } else {
      var t := JoinLiterals(SqlLiterals(items[1..])) + "]" + rest;
      LiteralReads(items[0], ", " + t);
      ItemsRead(items[1..], rest);
      FirstItemReads(items, t, rest);
    }
  }

  lemma {:induction false} LiteralsJoined(items: seq<UserValue>)
    requires items != []
    ensures JoinLiterals(SqlLiterals(items))
         == if |items| == 1 then SqlLiteral(items[0])
            else SqlLiteral(items[0]) + ", " + JoinLiterals(SqlLiterals(items[1..]))
  {
    hide SqlLiteral;
    assert SqlLiterals(items)[1..] == SqlLiterals(items[1..]);
  }

  // ----- exactly when -----

  /** A constant read has no float but with a fractional part. */
  ghost predicate PointedConst(c: SqlValue) {
    match c
    case SqlFloat(printed) => IsPointed(printed)
    case SqlList(items) => forall i :: 0 <= i < |items| ==> PointedConst(items[i])
    case _ => true
  }

  lemma {:induction false} ReadConstIsPointed(s: string)
    requires ReadConst(s).Some?
    ensures PointedConst(ReadConst(s).value.0)
    decreases |s|, 0
  {
    hide NumberEnd, ReadItems, ReadBody, ReadInt;
    if StartsWith(s, "ARRAY[") {
      if ReadList(s[6..]).Some? && !StartsWith(s[6..], "]") {
        ReadItemsArePointed(s[6..]);
      }
    } else if ReadNumber(s).Some? && '.' in s[..NumberEnd(s)] {
      ReadIsPointed(s);
    }
  }

  lemma {:induction false} ReadItemsArePointed(s: string)
    requires ReadItems(s).Some?
    ensures forall i :: 0 <= i < |ReadItems(s).value.0| ==> PointedConst(ReadItems(s).value.0[i])
    decreases |s|, 1
  {
    hide ReadConst, PointedConst;
    ReadConstIsPointed(s);
    var after := ReadConst(s).value.1;
    if !StartsWith(after, "]") {
      ReadItemsArePointed(after[2..]);
    }
  }

  lemma {:induction false} PointedMeans(v: UserValue)
    ensures Pointed(v) <==> PointedConst(Literal(v))
  {
    if v.List? {
      forall i | 0 <= i < |v.items|
        ensures Pointed(v.items[i]) <==> PointedConst(Literals(v.items)[i])
      {
        PointedMeans(v.items[i]);
        LiteralsAt(v.items, i);
      }
    }
  }

  /**
    The literal of a user value reads back as the value it stands for, with the rest left over,
    if and only if none of its floats is printed like an integer.
   */
  lemma {:induction false} LiteralReadsBackIff(v: UserValue, rest: string)
    requires Delimits(rest)
    ensures ReadConst(SqlLiteral(v) + rest) == Some((Literal(v), rest)) <==> Pointed(v)
  {
    hide ReadConst, Pointed, PointedConst;
    PointedMeans(v);
    if Pointed(v) {
      LiteralReads(v, rest);
    }
    if ReadConst(SqlLiteral(v) + rest).Some? {
      ReadConstIsPointed(SqlLiteral(v) + rest);
    }
  }

  /** A float without a fractional part reads back as an integer. */
  lemma WholeFloatReadsAsInteger(i: int)
    ensures ReadConst(SqlLiteral(Float(DecimalInt(i)))) == Some((SqlInt(i), ""))
  {
    LiteralReads(Int(i), "");
    assert DecimalInt(i) + "" == DecimalInt(i);
  }

  /** In a materialized text every spliced literal reads back as the value bound to its field. */
  lemma {:induction false} SplicedReadsBackIff(text: string, field: string, rest: Template, ctx: Context)
    requires WellFormed(Then(text, field, rest)) && TemplateFields(Then(text, field, rest)) <= ctx.Keys
    requires var after := MaterializeText(Render(rest), ctx);
             after.Done? ==> Delimits(after.text)
    ensures var all, after :=
              MaterializeText(Render(Then(text, field, rest)), ctx), MaterializeText(Render(rest), ctx);
            && all.Done? && after.Done? && StartsWith(all.text, text)
            && (ReadConst(all.text[|text|..]) == Some((Literal(ctx[field]), after.text)) <==> Pointed(ctx[field]))
  {
    var t := Then(text, field, rest);
    assert WellFormed(rest) && TemplateFields(rest) <= ctx.Keys;
    hide Delimits, Pointed, MaterializeText, ReadConst, SqlLiteral, WellFormed, StartsWith;
    MaterializesIffBound(t, ctx);
    MaterializeSubstitutes(t, ctx);
    MaterializesIffBound(rest, ctx);
    MaterializeSubstitutes(rest, ctx);
    var literal, after := SqlLiteral(ctx[field]), MaterializeText(Render(rest), ctx).text;
    LiteralReadsBackIff(ctx[field], after);
    Spliced(text, literal, after);
  }

  lemma Spliced(text: string, literal: string, after: string)
    ensures var all := text + literal + after;
            StartsWith(all, text) && all[|text|..] == literal + after
  {
  }
}
