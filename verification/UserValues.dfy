/**
  Values bound to `$user.*` fields, and the canonical representation that decides which users
  may share a dataflow.
 */
module UserValues {
  import opened Wrappers
  import opened Sequences
  import opened Framing
  import opened Uuids

  /** Floats and JSON documents are identified with their printed form, which is injective. */
  datatype UserValue =
    | Bool(b: bool)
    | Int(i: int)
    | Float(printed: string)
    | Text(text: string)
    | Timestamp(text: string)
    | Uuid(text: string)
    | Jsonb(printed: string)
    | Enum(text: string)
    | List(items: seq<UserValue>)
    | Null

  // ----- canonical representation -----

  function Reprs(items: seq<UserValue>): (r: seq<string>)
    ensures |r| == |items|
    decreases items
  {
    if items == [] then [] else [CanonicalRepr(items[0])] + Reprs(items[1..])
  }

  /** A type tag, a colon, and the value printed. */
  function CanonicalRepr(v: UserValue): string
    decreases v, 1
  {
    if v.Null? then Tag(v) else Tag(v) + ":" + Payload(v)
  }

  function Tag(v: UserValue): string {
    match v
    case Bool(_) => "bool"
    case Int(_) => "int"
    case Float(_) => "float"
    case Text(_) => "text"
    case Timestamp(_) => "ts"
    case Uuid(_) => "uuid"
    case Jsonb(_) => "jsonb"
    case Enum(_) => "enum"
    case List(_) => "list"
    case Null => "null"
  }

  function Payload(v: UserValue): string
    decreases v, 0
  {
    match v
    case Bool(b) => if b then "true" else "false"
    case Int(i) => DecimalInt(i)
    case Float(printed) => printed
    case Text(text) => text
    case Timestamp(text) => text
    case Uuid(text) => NormalizeOrRaw(text)
    case Jsonb(printed) => printed
    case Enum(text) => text
    case List(items) => "[" + JoinFrames(SortDedup(Reprs(items))) + "]"
    case Null => ""
  }

  lemma TagHasNoColon(v: UserValue)
    ensures ':' !in Tag(v)
  {
  }

  lemma {:induction false} ReprSplits(v: UserValue)
    ensures ':' !in Tag(v)
    ensures CanonicalRepr(v) == if v.Null? then Tag(v) else Tag(v) + ":" + Payload(v)
    ensures v.Null? <==> ':' !in CanonicalRepr(v)
  {
    TagHasNoColon(v);
    assert !v.Null? ==> (Tag(v) + ":" + Payload(v))[|Tag(v)|] == ':';
  }

  /** A tag never collides: the representation determines the variant and its payload. */
  lemma {:induction false} ReprDetermines(v: UserValue, w: UserValue)
    requires CanonicalRepr(v) == CanonicalRepr(w)
    ensures Tag(v) == Tag(w) && Payload(v) == Payload(w)
  {
    ReprSplits(v);
    ReprSplits(w);
    if !v.Null? && !w.Null? {
      SplitAtFirst(':', Tag(v), Tag(w), Payload(v), Payload(w));
    }
  }

  ghost predicate IsWithin(s: seq<string>, t: seq<string>) {
    forall r :: r in s ==> r in t
  }

  ghost predicate SameReprs(s: seq<UserValue>, t: seq<UserValue>) {
    forall r :: r in Reprs(s) <==> r in Reprs(t)
  }

  /** Two lists share a representation exactly when they have the same set of element representations. */
  lemma ListReprExact(s: seq<UserValue>, t: seq<UserValue>)
    ensures CanonicalRepr(List(s)) == CanonicalRepr(List(t)) <==> SameReprs(s, t)
  {
    SortDedupExact(Reprs(s), Reprs(t));
    if CanonicalRepr(List(s)) == CanonicalRepr(List(t)) {
      ReprDetermines(List(s), List(t));
      var a, b := JoinFrames(SortDedup(Reprs(s))), JoinFrames(SortDedup(Reprs(t)));
      assert a == ("[" + a + "]")[1..|a| + 1] && b == ("[" + b + "]")[1..|b| + 1];
      JoinFramesInjective(SortDedup(Reprs(s)), SortDedup(Reprs(t)));
    }
  }

  /** Values that mean the same: equal, up to how a UUID is spelled and the order and repetition of list elements. */
  ghost predicate SameValue(v: UserValue, w: UserValue)
    decreases v, 0
  {
    match v
    case Uuid(text) => w.Uuid? && SameUuid(text, w.text)
    case List(items) =>
      w.List? && AllHaveSame(items, w.items) && AllAreSameAsOne(items, w.items)
    case _ => v == w
  }

  ghost predicate AllHaveSame(items: seq<UserValue>, others: seq<UserValue>)
    decreases items
  {
    forall i :: 0 <= i < |items| ==> HasSame(items[i], others)
  }

  ghost predicate AllAreSameAsOne(items: seq<UserValue>, others: seq<UserValue>)
    decreases items, 1
  {
    forall j :: 0 <= j < |others| ==> IsSameAsOne(items, others[j])
  }

  ghost predicate HasSame(v: UserValue, items: seq<UserValue>)
    decreases v, 1
  {
    exists j :: 0 <= j < |items| && SameValue(v, items[j])
  }

  ghost predicate IsSameAsOne(items: seq<UserValue>, w: UserValue)
    decreases items, 0
  {
    exists i :: 0 <= i < |items| && SameValue(items[i], w)
  }

  lemma {:induction false} ReprsMember(items: seq<UserValue>, r: string)
    ensures r in Reprs(items) <==> exists i :: 0 <= i < |items| && CanonicalRepr(items[i]) == r
  {
    if items != [] {
      ReprsMember(items[1..], r);
      if r in Reprs(items[1..]) {
        var i :| 0 <= i < |items[1..]| && CanonicalRepr(items[1..][i]) == r;
        assert items[i + 1] == items[1..][i];
      }
      if i :| 0 <= i < |items| && CanonicalRepr(items[i]) == r {
        if i > 0 {
          assert items[1..][i - 1] == items[i];
        }
      }
    }
  }

  /** Canonical representations are exact: equal for values that mean the same, and only for those. */
  lemma {:induction false} ReprIsExact(v: UserValue, w: UserValue)
    ensures CanonicalRepr(v) == CanonicalRepr(w) <==> SameValue(v, w)
    decreases v
  {
    hide DecimalInt, NormalizeOrRaw, SameUuid, JoinFrames, SortDedup, Reprs;
    if v.List? && w.List? {
      ListReprExact(v.items, w.items);
      ListsExact(v.items, w.items);
    } else {
      if v.Uuid? && w.Uuid? {
        NormalizeOrRawExact(v.text, w.text);
      }
      if CanonicalRepr(v) == CanonicalRepr(w) {
        ReprDetermines(v, w);
        if v.Int? {
          DecimalIntInjective(v.i, w.i);
        }
      }
    }
  }

  lemma {:induction false} ListsExact(s: seq<UserValue>, t: seq<UserValue>)
    ensures SameReprs(s, t) <==> AllHaveSame(s, t) && AllAreSameAsOne(s, t)
    decreases s, 1
  {
    LeftItemsExact(s, t);
    RightItemsExact(s, t);
    SameReprsPointwise(s, t);
  }

  ghost predicate ExactFor(v: UserValue, w: UserValue) {
    CanonicalRepr(v) == CanonicalRepr(w) <==> SameValue(v, w)
  }

  lemma {:induction false} LeftItemsExact(s: seq<UserValue>, t: seq<UserValue>)
    ensures ReprsWithin(s, t) <==> AllHaveSame(s, t)
    decreases s, 0
  {
    forall i | 0 <= i < |s|
      ensures CanonicalRepr(s[i]) in Reprs(t) <==> HasSame(s[i], t)
    {
      forall j | 0 <= j < |t|
        ensures ExactFor(s[i], t[j])
      {
        ReprIsExact(s[i], t[j]);
      }
      ElementIn(s[i], t);
    }
  }

  lemma {:induction false} RightItemsExact(s: seq<UserValue>, t: seq<UserValue>)
    ensures ReprsWithin(t, s) <==> AllAreSameAsOne(s, t)
    decreases s, 0
  {
    forall j | 0 <= j < |t|
      ensures CanonicalRepr(t[j]) in Reprs(s) <==> IsSameAsOne(s, t[j])
    {
      forall i | 0 <= i < |s|
        ensures ExactFor(s[i], t[j])
      {
        ReprIsExact(s[i], t[j]);
      }
      ElementOf(s, t[j]);
    }
  }

  lemma {:induction false} ElementIn(v: UserValue, items: seq<UserValue>)
    requires forall j :: 0 <= j < |items| ==> ExactFor(v, items[j])
    ensures CanonicalRepr(v) in Reprs(items) <==> HasSame(v, items)
  {
    ReprsMember(items, CanonicalRepr(v));
    if HasSame(v, items) {
      var j :| 0 <= j < |items| && SameValue(v, items[j]);
      assert CanonicalRepr(items[j]) == CanonicalRepr(v);
    }
  }

  lemma {:induction false} ElementOf(items: seq<UserValue>, w: UserValue)
    requires forall i :: 0 <= i < |items| ==> ExactFor(items[i], w)
    ensures CanonicalRepr(w) in Reprs(items) <==> IsSameAsOne(items, w)
  {
    ReprsMember(items, CanonicalRepr(w));
    if IsSameAsOne(items, w) {
      var i :| 0 <= i < |items| && SameValue(items[i], w);
      assert CanonicalRepr(items[i]) == CanonicalRepr(w);
    }
  }

  lemma SameReprsPointwise(s: seq<UserValue>, t: seq<UserValue>)
    ensures SameReprs(s, t) <==> ReprsWithin(s, t) && ReprsWithin(t, s)
  {
    ReprsWithinMeaning(s, t);
    ReprsWithinMeaning(t, s);
  }

  ghost predicate ReprsWithin(s: seq<UserValue>, t: seq<UserValue>) {
    forall i :: 0 <= i < |s| ==> CanonicalRepr(s[i]) in Reprs(t)
  }

  lemma {:induction false} ReprsWithinMeaning(s: seq<UserValue>, t: seq<UserValue>)
    ensures ReprsWithin(s, t) <==> IsWithin(Reprs(s), Reprs(t))
  {
    if IsWithin(Reprs(s), Reprs(t)) {
      forall i | 0 <= i < |s|
        ensures CanonicalRepr(s[i]) in Reprs(t)
      {
        ReprsMember(s, CanonicalRepr(s[i]));
      }
    }
    if ReprsWithin(s, t) {
      forall r | r in Reprs(s)
        ensures r in Reprs(t)
      {
        ReprsMember(s, r);
        var i :| 0 <= i < |s| && CanonicalRepr(s[i]) == r;
        assert CanonicalRepr(s[i]) in Reprs(t);
      }
    }
  }
}
