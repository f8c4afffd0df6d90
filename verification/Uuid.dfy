/**
  UUIDs as text: which texts are accepted as one, which number an accepted text stands for, and
  that normalizing keeps exactly that.
 */
module Uuids {
  import opened Wrappers
  import opened Sequences

  // ----- normalizing -----

  /** The characters with the property White_Space. */
  predicate IsSpace(c: char) {
    || '\U{9}' <= c <= '\U{D}' || c == ' ' || c == '\U{85}' || c == '\U{A0}' || c == '\U{1680}'
    || '\U{2000}' <= c <= '\U{200A}' || c == '\U{2028}' || c == '\U{2029}' || c == '\U{202F}'
    || c == '\U{205F}' || c == '\U{3000}'
  }

  predicate IsHex(c: char) {
    IsLowerHex(c) || 'A' <= c <= 'F'
  }

  predicate IsLowerHex(c: char) {
    '0' <= c <= '9' || 'a' <= c <= 'f'
  }

  function TrimStart(s: string): string {
    if s != [] && IsSpace(s[0]) then TrimStart(s[1..]) else s
  }

  function TrimEnd(s: string): string {
    if s != [] && IsSpace(s[|s| - 1]) then TrimEnd(s[..|s| - 1]) else s
  }

  function StripBraces(s: string): string {
    if |s| >= 2 && s[0] == '{' && s[|s| - 1] == '}' then s[1..|s| - 1] else s
  }

  function Lower(c: char): char {
    if c == 'A' then 'a' else if c == 'B' then 'b' else if c == 'C' then 'c'
    else if c == 'D' then 'd' else if c == 'E' then 'e' else if c == 'F' then 'f' else c
  }

  function ToLower(s: string): (r: string)
    ensures |r| == |s|
  {
    seq(|s|, i requires 0 <= i < |s| => Lower(s[i]))
  }

  predicate HyphensInPlace(s: string)
    requires |s| == 36
  {
    s[8] == '-' && s[13] == '-' && s[18] == '-' && s[23] == '-'
  }

  function Hyphenated(hex: string): string
    requires |hex| == 32
  {
    hex[0..8] + "-" + hex[8..12] + "-" + hex[12..16] + "-" + hex[16..20] + "-" + hex[20..32]
  }

  /** The hex digits of a UUID in either accepted form. */
  function HexDigits(s: string): Option<string> {
    if |s| == 36 then
      if HyphensInPlace(s) then Some(Filter(s, (c: char) => c != '-')) else None
    else if |s| == 32 then Some(s)
    else None
  }

  /** `normalized_uuid`. */
  function NormalizedUuid(raw: string): Option<string> {
    var hex := HexDigits(StripBraces(TrimEnd(TrimStart(raw))));
    if hex.None? || |hex.value| != 32 || !(forall i :: 0 <= i < 32 ==> IsHex(hex.value[i])) then None
    else Some(Hyphenated(ToLower(hex.value)))
  }

  function NormalizeOrRaw(raw: string): string {
    var r := NormalizedUuid(raw);
    if r.Some? then r.value else raw
  }

  // ----- what a UUID is -----

  /** The value of a hexadecimal digit, by its character code. */
  function HexValue(c: char): Option<nat> {
    var code := c as int;
    if 48 <= code <= 57 then Some(code - 48)
    else if 65 <= code <= 70 then Some(code - 55)
    else if 97 <= code <= 102 then Some(code - 87)
    else None
  }

  predicate HyphenPlace(i: int) {
    i == 8 || i == 13 || i == 18 || i == 23
  }

  /** Thirty-two hexadecimal digits. */
  predicate PlainForm(s: string) {
    |s| == 32 && forall i :: 0 <= i < 32 ==> HexValue(s[i]).Some?
  }

  /** The same in groups of 8, 4, 4, 4 and 12. */
  predicate HyphenForm(s: string) {
    |s| == 36 && forall i :: 0 <= i < 36 ==> if HyphenPlace(i) then s[i] == '-' else HexValue(s[i]).Some?
  }

  predicate IsForm(s: string) {
    PlainForm(s) || HyphenForm(s)
  }

  /** Where a digit stands in groups. */
  function PlaceOf(i: nat): nat {
    if i < 8 then i else if i < 12 then i + 1 else if i < 16 then i + 2 else if i < 20 then i + 3 else i + 4
  }

  /** Which digit stands at a place. */
  function IndexOf(k: nat): (i: nat)
    requires k < 36 && !HyphenPlace(k)
    ensures i < 32 && PlaceOf(i) == k
  {
    if k < 8 then k else if k < 13 then k - 1 else if k < 18 then k - 2 else if k < 23 then k - 3 else k - 4
  }

  /** The number that a text in either form stands for, digit by digit. */
  function DigitsOf(s: string): (digits: seq<nat>)
    requires IsForm(s)
    ensures |digits| == 32
  {
    seq(32, i requires 0 <= i < 32 => HexValue(if |s| == 32 then s[i] else s[PlaceOf(i)]).value)
  }

  /** The codes of the characters that count as blanks. */
  const WHITE_SPACE: set<int> :=
    {9, 10, 11, 12, 13, 32, 133, 160, 5760, 8192, 8193, 8194, 8195, 8196, 8197, 8198, 8199, 8200, 8201, 8202,
     8232, 8233, 8239, 8287, 12288}

  lemma SpaceIs(c: char)
    ensures IsSpace(c) <==> c as int in WHITE_SPACE
  {
  }

  predicate AllSpace(s: string) {
    forall i :: 0 <= i < |s| ==> s[i] as int in WHITE_SPACE
  }

  /** The text is `s`, possibly in braces, possibly among blanks. */
  predicate Encloses(raw: string, before: string, s: string, after: string) {
    AllSpace(before) && AllSpace(after) && (raw == before + s + after || raw == before + ("{" + s + "}") + after)
  }

  ghost predicate StandsFor(raw: string, s: string) {
    IsForm(s) && exists before, after :: Encloses(raw, before, s, after)
  }

  // ----- trimming -----

  lemma {:induction false} TrimStartSplits(s: string) returns (before: string)
    ensures AllSpace(before) && s == before + TrimStart(s)
    ensures TrimStart(s) != [] ==> !IsSpace(TrimStart(s)[0])
  {
    hide IsSpace;
    if s != [] && IsSpace(s[0]) {
      SpaceIs(s[0]);
      var more := TrimStartSplits(s[1..]);
      before := [s[0]] + more;
    } else {
      before := [];
    }
  }

  lemma {:induction false} TrimEndSplits(s: string) returns (after: string)
    ensures AllSpace(after) && s == TrimEnd(s) + after
  {
    hide IsSpace;
    if s != [] && IsSpace(s[|s| - 1]) {
      SpaceIs(s[|s| - 1]);
      var more := TrimEndSplits(s[..|s| - 1]);
      after := more + [s[|s| - 1]];
    } else {
      after := [];
    }
  }

  lemma {:induction false} TrimStartDrops(before: string, s: string)
    requires AllSpace(before) && s != [] && !IsSpace(s[0])
    ensures TrimStart(before + s) == s
  {
    hide IsSpace;
    if before == [] {
      assert before + s == s;
    } else {
      SpaceIs(before[0]);
      assert (before + s)[1..] == before[1..] + s;
      assert forall i :: 0 <= i < |before[1..]| ==> before[1..][i] == before[i + 1];
      TrimStartDrops(before[1..], s);
    }
  }

  lemma {:induction false} TrimEndDrops(s: string, after: string)
    requires AllSpace(after) && s != [] && !IsSpace(s[|s| - 1])
    ensures TrimEnd(s + after) == s
    decreases |after|
  {
    hide IsSpace;
    if after == [] {
      assert s + after == s;
    } else {
      var n := |after| - 1;
      SpaceIs(after[n]);
      assert (s + after)[..|s + after| - 1] == s + after[..n];
      TrimEndDrops(s, after[..n]);
    }
  }

  lemma FormEnds(s: string)
    requires IsForm(s)
    ensures s != [] && !IsSpace(s[0]) && !IsSpace(s[|s| - 1]) && s[0] != '{'
  {
    assert HexValue(s[0]).Some? && HexValue(s[|s| - 1]).Some?;
  }

  /** Blanks around it and braces do not hide a form. */
  lemma {:induction false} Uncovered(raw: string, before: string, s: string, after: string)
    requires IsForm(s) && Encloses(raw, before, s, after)
    ensures StripBraces(TrimEnd(TrimStart(raw))) == s
  {
    FormEnds(s);
    hide IsForm, TrimStart, TrimEnd, AllSpace;
    var t := if raw == before + s + after then s else "{" + s + "}";
    assert raw == before + (t + after);
    TrimStartDrops(before, t + after);
    TrimEndDrops(t, after);
    assert ("{" + s + "}")[1..|s| + 1] == s;
  }

  /** What is left after trimming and unbracing was there. */
  lemma {:induction false} Covered(raw: string)
    ensures exists before, after :: Encloses(raw, before, StripBraces(TrimEnd(TrimStart(raw))), after)
  {
    hide TrimStart, TrimEnd, AllSpace;
    var before := TrimStartSplits(raw);
    var after := TrimEndSplits(TrimStart(raw));
    var t := TrimEnd(TrimStart(raw));
    var s := StripBraces(t);
    assert raw == before + t + after;
    assert s != t ==> t == "{" + s + "}";
    assert Encloses(raw, before, s, after);
  }

  // ----- digits -----

  lemma HyphenatedShape(hex: string)
    requires |hex| == 32
    ensures |Hyphenated(hex)| == 36 && HyphensInPlace(Hyphenated(hex))
  {
  }

  lemma Recombined(hex: string)
    requires |hex| == 32
    ensures hex[0..8] + hex[8..12] + hex[12..16] + hex[16..20] + hex[20..32] == hex
  {
    assert hex[0..8] + hex[8..12] == hex[0..12];
    assert hex[0..12] + hex[12..16] == hex[0..16];
    assert hex[0..16] + hex[16..20] == hex[0..20];
    assert hex[0..20] + hex[20..32] == hex;
  }

  lemma {:induction false} FiveParts(a: string, b: string, c: string, d: string, e: string)
    ensures var keep := (x: char) => x != '-';
            Filter(a + "-" + b + "-" + c + "-" + d + "-" + e, keep)
            == Filter(a, keep) + Filter(b, keep) + Filter(c, keep) + Filter(d, keep) + Filter(e, keep)
  {
    DropHyphen(a, b);
    DropHyphen(a + "-" + b, c);
    DropHyphen(a + "-" + b + "-" + c, d);
    DropHyphen(a + "-" + b + "-" + c + "-" + d, e);
  }

  lemma {:induction false} DropHyphen(s: string, t: string)
    ensures Filter(s + "-" + t, (c: char) => c != '-')
              == Filter(s, (c: char) => c != '-') + Filter(t, (c: char) => c != '-')
  {
    var keep := (c: char) => c != '-';
    FilterConcat(s + "-", t, keep);
    FilterConcat(s, "-", keep);
    FilterNone("-", keep);
  }

  lemma HexIsHex(c: char)
    ensures IsHex(c) <==> HexValue(c).Some?
  {
  }

  lemma {:induction false} FilterShrinks<X>(s: seq<X>, keep: X -> bool)
    ensures |Filter(s, keep)| <= |s|
    ensures |Filter(s, keep)| == |s| ==> Filter(s, keep) == s
  {
    if s != [] {
      FilterShrinks(s[1..], keep);
      assert s == [s[0]] + s[1..];
    }
  }

  lemma InGroups(s: string)
    requires |s| == 36 && HyphensInPlace(s)
    ensures s == s[0..8] + "-" + s[9..13] + "-" + s[14..18] + "-" + s[19..23] + "-" + s[24..36]
  {
    assert s == s[0..8] + [s[8]] + s[9..13] + [s[13]] + s[14..18] + [s[18]] + s[19..23] + [s[23]] + s[24..36];
  }

  /** The groups one after the other. */
  function Ungrouped(s: string): (hex: string)
    requires |s| == 36
    ensures |hex| == 32
  {
    s[0..8] + s[9..13] + s[14..18] + s[19..23] + s[24..36]
  }

  lemma UngroupedAt(s: string, i: nat)
    requires |s| == 36 && i < 32
    ensures Ungrouped(s)[i] == s[PlaceOf(i)] && !HyphenPlace(PlaceOf(i)) && PlaceOf(i) < 36
  {
  }

  /** Dropping the hyphens leaves thirty-two characters exactly when there are no further ones. */
  lemma {:induction false} DroppingLeaves(s: string)
    requires |s| == 36 && HyphensInPlace(s)
    ensures var hex := Filter(s, (c: char) => c != '-');
            |hex| == 32 ==> hex == Ungrouped(s)
    ensures '-' !in Ungrouped(s) ==> Filter(s, (c: char) => c != '-') == Ungrouped(s)
  {
    var keep := (c: char) => c != '-';
    var a, b, c, d, e := s[0..8], s[9..13], s[14..18], s[19..23], s[24..36];
    InGroups(s);
    FiveParts(a, b, c, d, e);
    FilterShrinks(a, keep);
    FilterShrinks(b, keep);
    FilterShrinks(c, keep);
    FilterShrinks(d, keep);
    FilterShrinks(e, keep);
    if '-' !in Ungrouped(s) {
      NoneDropped(a);
      NoneDropped(b);
      NoneDropped(c);
      NoneDropped(d);
      NoneDropped(e);
    }
  }

  lemma {:induction false} NoneDropped(s: string)
    requires '-' !in s
    ensures Filter(s, (c: char) => c != '-') == s
  {
    if s != [] {
      NoneDropped(s[1..]);
      assert s == [s[0]] + s[1..];
    }
  }

  /** The thirty-two characters that `normalized_uuid` looks at, if all are digits. */
  function HexOf(s: string): Option<string> {
    var hex := HexDigits(s);
    if hex.Some? && |hex.value| == 32 && forall i :: 0 <= i < 32 ==> IsHex(hex.value[i]) then hex else None
  }

  lemma {:induction false} FormsHaveHex(s: string)
    ensures HexOf(s).Some? <==> IsForm(s)
    ensures IsForm(s) ==> forall i :: 0 <= i < 32 ==> HexValue(HexOf(s).value[i]) == Some(DigitsOf(s)[i])
  {
    forall c
      ensures IsHex(c) <==> HexValue(c).Some?
    {
      HexIsHex(c);
    }
    if |s| == 36 && HyphensInPlace(s) {
      forall i | 0 <= i < 32
        ensures Ungrouped(s)[i] == s[PlaceOf(i)] && !HyphenPlace(PlaceOf(i)) && PlaceOf(i) < 36
      {
        UngroupedAt(s, i);
      }
      DroppingLeaves(s);
      GroupedForm(s);
    }
  }

  lemma GroupedForm(s: string)
    requires |s| == 36 && HyphensInPlace(s)
    ensures HyphenForm(s) <==> forall i :: 0 <= i < 32 ==> HexValue(Ungrouped(s)[i]).Some?
    ensures HyphenForm(s) ==> '-' !in Ungrouped(s)
  {
    forall i | 0 <= i < 32
      ensures Ungrouped(s)[i] == s[PlaceOf(i)] && !HyphenPlace(PlaceOf(i)) && PlaceOf(i) < 36
    {
      UngroupedAt(s, i);
    }
    forall k | 0 <= k < 36 && !HyphenPlace(k)
      ensures exists i :: 0 <= i < 32 && PlaceOf(i) == k
    {
      var i := IndexOf(k);
    }
  }

  // ----- what normalizing keeps -----

  /** A text is accepted if and only if it is one of the two forms, possibly in braces and among blanks. */
  lemma {:induction false} AcceptedIff(raw: string)
    ensures NormalizedUuid(raw).Some? <==> exists s :: StandsFor(raw, s)
  {
    var core := StripBraces(TrimEnd(TrimStart(raw)));
    FormsHaveHex(core);
    Covered(raw);
    assert IsForm(core) ==> StandsFor(raw, core);
    if s :| StandsFor(raw, s) {
      var before, after :| Encloses(raw, before, s, after);
      Uncovered(raw, before, s, after);
    }
  }

  lemma LowerKeepsValue(c: char)
    requires HexValue(c).Some?
    ensures IsLowerHex(Lower(c)) && HexValue(Lower(c)) == HexValue(c)
  {
  }

  lemma LowerDetermined(c: char, d: char)
    requires IsLowerHex(c) && IsLowerHex(d) && HexValue(c) == HexValue(d)
    ensures c == d
  {
  }

  /** An accepted text is normalized to lower case in groups, with the same digits. */
  lemma {:induction false} NormalizedKeeps(raw: string, s: string)
    requires StandsFor(raw, s)
    ensures NormalizedUuid(raw).Some?
    ensures var n := NormalizedUuid(raw).value;
            && HyphenForm(n) && DigitsOf(n) == DigitsOf(s)
            && forall i :: 0 <= i < 36 && !HyphenPlace(i) ==> IsLowerHex(n[i])
  {
    var before, after :| Encloses(raw, before, s, after);
    Uncovered(raw, before, s, after);
    FormsHaveHex(s);
    var hex := ToLower(HexOf(s).value);
    forall i | 0 <= i < 32
      ensures IsLowerHex(hex[i]) && HexValue(hex[i]) == Some(DigitsOf(s)[i])
    {
      LowerKeepsValue(HexOf(s).value[i]);
    }
    HyphenatedDigits(hex, DigitsOf(s));
  }

  lemma HyphenatedDigits(hex: string, digits: seq<nat>)
    requires |hex| == |digits| == 32
    requires forall i :: 0 <= i < 32 ==> IsLowerHex(hex[i]) && HexValue(hex[i]) == Some(digits[i])
    ensures HyphenForm(Hyphenated(hex)) && DigitsOf(Hyphenated(hex)) == digits
    ensures forall i :: 0 <= i < 36 && !HyphenPlace(i) ==> IsLowerHex(Hyphenated(hex)[i])
  {
    var n := Hyphenated(hex);
    HyphenatedShape(hex);
    assert Ungrouped(n) == hex by {
      Recombined(hex);
    }
    GroupedForm(n);
    forall i | 0 <= i < 32
      ensures n[PlaceOf(i)] == hex[i]
    {
      UngroupedAt(n, i);
    }
    forall k | 0 <= k < 36 && !HyphenPlace(k)
      ensures IsLowerHex(n[k])
    {
      var i := IndexOf(k);
      assert n[PlaceOf(i)] == hex[i];
    }
  }

  /** Two accepted texts normalize alike if and only if they stand for the same number. */
  lemma {:induction false} NormalizeAlikeIff(raw: string, s: string, raw': string, s': string)
    requires StandsFor(raw, s) && StandsFor(raw', s')
    ensures NormalizedUuid(raw) == NormalizedUuid(raw') <==> DigitsOf(s) == DigitsOf(s')
  {
    NormalizedKeeps(raw, s);
    NormalizedKeeps(raw', s');
    if DigitsOf(s) == DigitsOf(s') {
      CanonicalDetermined(NormalizedUuid(raw).value, NormalizedUuid(raw').value);
    }
  }

  lemma CanonicalDetermined(n: string, n': string)
    requires HyphenForm(n) && HyphenForm(n') && DigitsOf(n) == DigitsOf(n')
    requires forall i :: 0 <= i < 36 && !HyphenPlace(i) ==> IsLowerHex(n[i]) && IsLowerHex(n'[i])
    ensures n == n'
  {
    forall k | 0 <= k < 36
      ensures n[k] == n'[k]
    {
      if !HyphenPlace(k) {
        var i := IndexOf(k);
        assert DigitsOf(n)[i] == DigitsOf(n')[i];
        LowerDetermined(n[k], n'[k]);
      }
    }
  }

  /** Normalizing is idempotent: the result is in canonical form. */
  lemma {:induction false} NormalizedIsStable(raw: string)
    requires NormalizedUuid(raw).Some?
    ensures NormalizedUuid(NormalizedUuid(raw).value) == NormalizedUuid(raw)
  {
    AcceptedIff(raw);
    var s :| StandsFor(raw, s);
    NormalizedKeeps(raw, s);
    var n := NormalizedUuid(raw).value;
    StandsForItself(n);
    NormalizeAlikeIff(n, n, raw, s);
  }

  lemma StandsForItself(s: string)
    requires IsForm(s)
    ensures StandsFor(s, s)
  {
    assert Encloses(s, "", s, "");
  }

  // ----- as values -----

  /** The number that a text stands for, if it is accepted. */
  ghost function UuidNumber(raw: string): Option<seq<nat>> {
    if exists s :: StandsFor(raw, s) then
      var s :| StandsFor(raw, s);
      Some(DigitsOf(s))
    else None
  }

  /** The same number, or the same text where it is none. */
  ghost predicate SameUuid(raw: string, raw': string) {
    UuidNumber(raw) == UuidNumber(raw') && (UuidNumber(raw).None? ==> raw == raw')
  }

  /** What stands for a UUID in keys and literals is the same exactly for the same UUID. */
  lemma {:induction false} NormalizeOrRawExact(raw: string, raw': string)
    ensures NormalizeOrRaw(raw) == NormalizeOrRaw(raw') <==> SameUuid(raw, raw')
  {
    AcceptedIff(raw);
    AcceptedIff(raw');
    if UuidNumber(raw).Some? && UuidNumber(raw').Some? {
      var s :| StandsFor(raw, s) && UuidNumber(raw) == Some(DigitsOf(s));
      var s' :| StandsFor(raw', s') && UuidNumber(raw') == Some(DigitsOf(s'));
      NormalizeAlikeIff(raw, s, raw', s');
    } else if UuidNumber(raw).Some? {
      NormalizedIsNumber(raw);
    } else if UuidNumber(raw').Some? {
      NormalizedIsNumber(raw');
    }
  }

  lemma {:induction false} NormalizedIsNumber(raw: string)
    requires UuidNumber(raw).Some?
    ensures NormalizedUuid(raw).Some? && UuidNumber(NormalizedUuid(raw).value).Some?
  {
    var s :| StandsFor(raw, s);
    NormalizedKeeps(raw, s);
    var n := NormalizedUuid(raw).value;
    StandsForItself(n);
  }
}
