/**
  Text framing used by canonical keys: decimal lengths, length-prefixed frames, and the sorted
  list of distinct frames of a set.  Lengths count the bytes of the UTF-8 encoding.
 */
module Framing {
  import opened Sequences

  // ----- decimal numbers -----

  function Digit(d: nat): char
    requires d < 10
  {
    "0123456789"[d]
  }

  predicate AllDigits(s: string) {
    forall i :: 0 <= i < |s| ==> '0' <= s[i] <= '9'
  }

  function Decimal(n: nat): (s: string)
    ensures s != [] && AllDigits(s)
  {
    if n < 10 then [Digit(n)] else Decimal(n / 10) + [Digit(n % 10)]
  }

  /** A reader of decimal numbers: each character counts by its code and its place. */
  function ReadNat(s: string): int {
    if s == [] then 0 else 10 * ReadNat(s[..|s| - 1]) + (s[|s| - 1] as int - '0' as int)
  }

  /** A number is printed as itself. */
  lemma {:induction false} DecimalReadsBack(n: nat)
    ensures ReadNat(Decimal(n)) == n
  {
    var s, d := Decimal(n), n % 10;
    assert s[|s| - 1] as int - '0' as int == d;
    if n < 10 {
      assert s[..0] == [];
    } else {
      DecimalReadsBack(n / 10);
      assert s[..|s| - 1] == Decimal(n / 10);
    }
  }

  lemma {:induction false} DecimalInjective(a: nat, b: nat)
    requires Decimal(a) == Decimal(b)
    ensures a == b
  {
    DecimalReadsBack(a);
    DecimalReadsBack(b);
  }

  /** Signed decimal. */
  function DecimalInt(i: int): string {
    if i < 0 then "-" + Decimal(-i) else Decimal(i)
  }

  function ReadInt(s: string): int {
    if s != [] && s[0] == '-' then -ReadNat(s[1..]) else ReadNat(s)
  }

  lemma DecimalIntReadsBack(i: int)
    ensures ReadInt(DecimalInt(i)) == i
  {
    hide ReadNat, Decimal;
    if i < 0 {
      DecimalReadsBack(-i);
      assert DecimalInt(i)[1..] == Decimal(-i);
    } else {
      DecimalReadsBack(i);
      assert '0' <= Decimal(i)[0];
    }
  }

  lemma DecimalIntInjective(a: int, b: int)
    requires DecimalInt(a) == DecimalInt(b)
    ensures a == b
  {
    DecimalIntReadsBack(a);
    DecimalIntReadsBack(b);
  }

  // ----- frames -----

  function CharBytes(c: char): nat {
    if c < '\U{80}' then 1 else if c < '\U{800}' then 2 else if c < '\U{10000}' then 3 else 4
  }

  /** The length in bytes. */
  function ByteLen(s: string): nat {
    if s == [] then 0 else CharBytes(s[0]) + ByteLen(s[1..])
  }

  /** The bytes of a character in UTF-8. */
  function CharUtf8(c: char): seq<nat> {
    var code := c as int;
    if code < 0x80 then [code]
    else if code < 0x800 then [0xC0 + code / 0x40, 0x80 + code % 0x40]
    else if code < 0x1_0000 then [0xE0 + code / 0x1000, 0x80 + code / 0x40 % 0x40, 0x80 + code % 0x40]
    else [0xF0 + code / 0x4_0000, 0x80 + code / 0x1000 % 0x40, 0x80 + code / 0x40 % 0x40, 0x80 + code % 0x40]
  }

  function Utf8(s: string): seq<nat> {
    if s == [] then [] else CharUtf8(s[0]) + Utf8(s[1..])
  }

  /** The length is that of the encoding. */
  lemma {:induction false} ByteLenCounts(s: string)
    ensures ByteLen(s) == |Utf8(s)|
  {
    if s != [] {
      ByteLenCounts(s[1..]);
    }
  }

  lemma {:induction false} ByteLenConcat(s: string, t: string)
    ensures ByteLen(s + t) == ByteLen(s) + ByteLen(t)
  {
    if s == [] {
      assert s + t == t;
    } else {
      ByteLenConcat(s[1..], t);
      assert (s + t)[1..] == s[1..] + t;
    }
  }

  /** `len:repr`. */
  function Frame(s: string): string {
    Decimal(ByteLen(s)) + ":" + s
  }

  /** Beginnings of one text with the same number of bytes are the same. */
  lemma {:induction false} SameBytesSamePrefix(a: string, b: string, x: string, y: string)
    requires a + x == b + y && ByteLen(a) == ByteLen(b) && |a| <= |b|
    ensures a == b && x == y
  {
    var more := b[|a|..];
    assert a == (a + x)[..|a|] == (b + y)[..|a|] == b[..|a|];
    assert b == a + more;
    ByteLenConcat(a, more);
    assert more == [];
    assert x == (a + x)[|a|..] && y == (b + y)[|b|..];
  }

  lemma FirstSeparator(c: char, a: string, x: string)
    requires c !in a
    ensures (a + [c] + x)[|a|] == c && forall k :: 0 <= k < |a| ==> (a + [c] + x)[k] != c
  {
    assert forall k :: 0 <= k < |a| ==> (a + [c] + x)[k] == a[k];
  }

  /** The prefix before the first separator is the same in equal strings. */
  lemma SplitAtFirst(c: char, a: string, b: string, x: string, y: string)
    requires a + [c] + x == b + [c] + y && c !in a && c !in b
    ensures a == b && x == y
  {
    var s := a + [c] + x;
    var t := b + [c] + y;
    FirstSeparator(c, a, x);
    FirstSeparator(c, b, y);
    assert |a| == |b|;
    assert a == s[..|a|] && b == t[..|b|];
    assert x == s[|a| + 1..] && y == t[|b| + 1..];
  }

  /** Frames are uniquely decodable: what is framed and what follows can be told apart. */
  lemma FrameDecodes(a: string, b: string, x: string, y: string)
    requires Frame(a) + x == Frame(b) + y
    ensures a == b && x == y
  {
    var m, n := Decimal(ByteLen(a)), Decimal(ByteLen(b));
    assert m + ":" + (a + x) == Frame(a) + x;
    assert n + ":" + (b + y) == Frame(b) + y;
    SplitAtFirst(':', m, n, a + x, b + y);
    DecimalInjective(ByteLen(a), ByteLen(b));
    if |a| <= |b| {
      SameBytesSamePrefix(a, b, x, y);
    } else {
      SameBytesSamePrefix(b, a, y, x);
    }
  }

  /** The frames of a list, joined by commas. */
  function JoinFrames(items: seq<string>): string {
    if items == [] then ""
    else if |items| == 1 then Frame(items[0])
    else Frame(items[0]) + "," + JoinFrames(items[1..])
  }

  /** The tail of a joined list: nothing, or a comma and the rest. */
  function JoinTail(items: seq<string>): string {
    if items == [] then "" else "," + JoinFrames(items)
  }

  lemma {:induction false} JoinFramesHead(items: seq<string>)
    requires items != []
    ensures JoinFrames(items) == Frame(items[0]) + JoinTail(items[1..])
  {
  }

  /** Two lists with the same joined frames are the same list. */
  lemma {:induction false} JoinFramesInjective(s: seq<string>, t: seq<string>)
    requires JoinFrames(s) == JoinFrames(t)
    ensures s == t
    decreases |s|
  {
    JoinFramesEmpty(s);
    JoinFramesEmpty(t);
    if s != [] {
      JoinFramesHead(s);
      JoinFramesHead(t);
      FrameDecodes(s[0], t[0], JoinTail(s[1..]), JoinTail(t[1..]));
      JoinTailSame(s[1..], t[1..]);
      JoinFramesInjective(s[1..], t[1..]);
      assert s == [s[0]] + s[1..] && t == [t[0]] + t[1..];
    }
  }

  lemma {:induction false} JoinFramesEmpty(items: seq<string>)
    ensures JoinFrames(items) == "" <==> items == []
  {
    if items != [] {
      JoinFramesHead(items);
      assert |Frame(items[0])| > 0;
    }
  }

  lemma {:induction false} JoinTailSame(s: seq<string>, t: seq<string>)
    requires JoinTail(s) == JoinTail(t)
    ensures JoinFrames(s) == JoinFrames(t)
  {
    assert s != [] ==> JoinFrames(s) == JoinTail(s)[1..];
    assert t != [] ==> JoinFrames(t) == JoinTail(t)[1..];
  }

  // ----- order on strings -----

  /** Byte-wise lexicographic order. */
  predicate StringLeq(a: string, b: string) {
    a == [] || (b != [] && (a[0] < b[0] || (a[0] == b[0] && StringLeq(a[1..], b[1..]))))
  }

  /** The first difference is at `k`, where `a` has the smaller character. */
  predicate LessAt(a: string, b: string, k: nat) {
    k < |a| && k < |b| && a[..k] == b[..k] && a[k] as int < b[k] as int
  }

  lemma LessAtFirst(a: string, b: string, k: nat)
    requires LessAt(a, b, k)
    ensures k == 0 || a[0] == b[0]
  {
    if k > 0 {
      assert a[..k][0] == b[..k][0];
    }
  }

  /** The order is that of a dictionary: the first difference decides, and a beginning comes first. */
  lemma {:induction false} StringLeqMeans(a: string, b: string)
    ensures StringLeq(a, b) <==> a <= b || exists k: nat :: LessAt(a, b, k)
  {
    if a != [] && b != [] {
      var x, y := a[1..], b[1..];
      StringLeqMeans(x, y);
      if a[0] == b[0] {
        if k: nat :| LessAt(x, y, k) {
          assert a[..k + 1] == [a[0]] + x[..k] && b[..k + 1] == [b[0]] + y[..k];
          assert LessAt(a, b, k + 1);
        }
        if k: nat :| LessAt(a, b, k) {
          assert x[..k - 1] == a[..k][1..] && y[..k - 1] == b[..k][1..];
          assert LessAt(x, y, k - 1);
        }
        assert a == [a[0]] + x && b == [b[0]] + y;
      } else {
        assert a[0] < b[0] ==> LessAt(a, b, 0);
        if k: nat :| LessAt(a, b, k) {
          LessAtFirst(a, b, k);
        }
      }
    }
  }

  lemma {:induction false} StringLeqTotal(a: string, b: string)
    ensures StringLeq(a, b) || StringLeq(b, a)
    ensures StringLeq(a, b) && StringLeq(b, a) ==> a == b
  {
    if a != [] && b != [] {
      StringLeqTotal(a[1..], b[1..]);
      assert a == [a[0]] + a[1..] && b == [b[0]] + b[1..];
    }
  }

  lemma {:induction false} StringLeqTransitive(a: string, b: string, c: string)
    requires StringLeq(a, b) && StringLeq(b, c)
    ensures StringLeq(a, c)
  {
    if a != [] && a[0] == b[0] && b[0] == c[0] {
      StringLeqTransitive(a[1..], b[1..], c[1..]);
    }
  }

  // ----- sort and dedup -----

  ghost predicate StrictlyAscending(s: seq<string>) {
    forall i, j :: 0 <= i < j < |s| ==> StringLeq(s[i], s[j]) && s[i] != s[j]
  }

  /** Insert into a strictly ascending list, unless present. */
  function InsertDistinct(x: string, s: seq<string>): seq<string> {
    if s == [] then [x]
    else if x == s[0] then s
    else if StringLeq(x, s[0]) then [x] + s
    else [s[0]] + InsertDistinct(x, s[1..])
  }

  lemma {:induction false} InsertDistinctMembers(x: string, s: seq<string>, y: string)
    ensures y in InsertDistinct(x, s) <==> y == x || y in s
  {
    if s != [] && x != s[0] && !StringLeq(x, s[0]) {
      InsertDistinctMembers(x, s[1..], y);
      assert y in s <==> y == s[0] || y in s[1..];
    }
  }

  lemma {:induction false} InsertDistinctAscends(x: string, s: seq<string>)
    requires StrictlyAscending(s)
    ensures StrictlyAscending(InsertDistinct(x, s))
  {
    if s != [] && x != s[0] {
      StringLeqTotal(x, s[0]);
      if StringLeq(x, s[0]) {
        forall j | 0 <= j < |s|
          ensures StringLeq(x, s[j]) && x != s[j]
        {
          if j > 0 {
            StringLeqTransitive(x, s[0], s[j]);
            StringLeqTotal(x, s[0]);
          }
        }
      } else {
        InsertDistinctAscends(x, s[1..]);
        var r := InsertDistinct(x, s[1..]);
        forall j | 0 <= j < |r|
          ensures StringLeq(s[0], r[j]) && s[0] != r[j]
        {
          InsertDistinctMembers(x, s[1..], r[j]);
        }
      }
    }
  }

  /** `sort` followed by `dedup`. */
  function SortDedup(s: seq<string>): seq<string> {
    if s == [] then [] else InsertDistinct(s[0], SortDedup(s[1..]))
  }

  lemma {:induction false} SortDedupShape(s: seq<string>)
    ensures StrictlyAscending(SortDedup(s))
    ensures forall x :: x in SortDedup(s) <==> x in s
  {
    if s != [] {
      SortDedupShape(s[1..]);
      InsertDistinctAscends(s[0], SortDedup(s[1..]));
      forall x
        ensures x in SortDedup(s) <==> x in s
      {
        InsertDistinctMembers(s[0], SortDedup(s[1..]), x);
        assert x in s <==> x == s[0] || x in s[1..];
      }
    }
  }

  /** A strictly ascending list is determined by its members. */
  lemma AscendingUnique(s: seq<string>, t: seq<string>)
    requires StrictlyAscending(s) && StrictlyAscending(t) && forall x :: x in s <==> x in t
    ensures s == t
  {
    if s != [] && t != [] {
      assert s[0] in t && t[0] in s;
      var i :| 0 <= i < |t| && t[i] == s[0];
      var j :| 0 <= j < |s| && s[j] == t[0];
      assert StringLeq(t[0], s[0]) && StringLeq(s[0], t[0]) by {
        StringLeqTotal(s[0], s[0]);
      }
      StringLeqTotal(s[0], t[0]);
      forall x
        ensures x in s[1..] <==> x in t[1..]
      {
        TailOf(s, x);
        TailOf(t, x);
      }
      AscendingUnique(s[1..], t[1..]);
      assert s == [s[0]] + s[1..] && t == [t[0]] + t[1..];
    } else {
      WithinEmpty(s, t);
      WithinEmpty(t, s);
    }
  }

  lemma TailOf(s: seq<string>, x: string)
    requires s != [] && StrictlyAscending(s)
    ensures x in s[1..] <==> x in s && x != s[0]
  {
    if x in s && x != s[0] {
      var i :| 0 <= i < |s| && s[i] == x;
      assert s[1..][i - 1] == x;
    }
  }

  /** Sorting and deduplicating gives the same list exactly for the same set of strings. */
  lemma {:induction false} SortDedupExact(s: seq<string>, t: seq<string>)
    ensures SortDedup(s) == SortDedup(t) <==> forall x :: x in s <==> x in t
  {
    SortDedupShape(s);
    SortDedupShape(t);
    if forall x :: x in s <==> x in t {
      AscendingUnique(SortDedup(s), SortDedup(t));
    }
  }
}
