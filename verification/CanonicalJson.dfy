/**
 Canonical JSON: `canonical_json` of the entity package, which rebuilds a tree with sorted keys and prints it,
 and `to_canonical_json` of the session service, which prints directly with sorted keys.
 */
module CanonicalJson {
  import opened Prelude
  import opened Json
  import opened JsonText
  import opened KeyOrder

  // ---------- the sorted tree ----------

  function Keys(ms: seq<Member>): seq<string> {
    seq(|ms|, i requires 0 <= i < |ms| => ms[i].key)
  }

  ghost predicate Sorted(ms: seq<Member>) {
    Ascending(Keys(ms))
  }

  /** `BTreeMap::insert`, on the entries in key order. */
  function TreeInsert(entries: seq<Member>, m: Member): seq<Member> {
    if |entries| == 0 then [m]
    else if Less(m.key, entries[0].key) then [m] + entries
    else if m.key == entries[0].key then [m] + entries[1..]
    else [entries[0]] + TreeInsert(entries[1..], m)
  }

  /** The entries of a `BTreeMap` filled from left to right. */
  function Tree(ms: seq<Member>): seq<Member> {
    if |ms| == 0 then [] else TreeInsert(Tree(ms[..|ms| - 1]), ms[|ms| - 1])
  }

  /** The value with every object's members in key order. */
  function Canonical(v: Json): Json {
    match v
    case Arr(items) => Arr(seq(|items|, i requires 0 <= i < |items| => Canonical(items[i])))
    case Obj(ms) => Obj(Tree(seq(|ms|, i requires 0 <= i < |ms| => Member(ms[i].key, Canonical(ms[i].value)))))
    case _ => v
  }

  lemma {:induction false} TreeInsertSorts(entries: seq<Member>, m: Member)
    requires Sorted(entries)
    ensures Sorted(TreeInsert(entries, m))
    ensures forall x :: x in TreeInsert(entries, m) <==> x == m || (x in entries && x.key != m.key)
  {
    hide Less;
    if |entries| > 0 {
      var tail := entries[1..];
      assert Keys(entries)[0] == entries[0].key;
      assert forall i :: 0 <= i < |tail| ==> Keys(tail)[i] == Keys(entries)[i + 1];
      assert entries == [entries[0]] + tail;
      forall x | x in tail
        ensures Less(entries[0].key, x.key) && entries[0].key != x.key
      {
        var i :| 0 <= i < |tail| && tail[i] == x;
        assert x.key == Keys(entries)[i + 1];
        Irreflexive(x.key);
      }
      if Less(m.key, entries[0].key) {
        Irreflexive(m.key);
        forall x | x in tail
          ensures Less(m.key, x.key) && m.key != x.key
        {
          Transitive(m.key, entries[0].key, x.key);
        }
        ConsSorts(m, entries);
      } else if m.key == entries[0].key {
        ConsSorts(m, tail);
      } else {
        Total(m.key, entries[0].key);
        TreeInsertSorts(tail, m);
        ConsSorts(entries[0], TreeInsert(tail, m));
      }
    }
  }

  lemma ConsSorts(m: Member, tail: seq<Member>)
    requires Sorted(tail) && forall x :: x in tail ==> Less(m.key, x.key)
    ensures Sorted([m] + tail)
  {
    hide Less;
    var all := [m] + tail;
    forall i, j | 0 <= i < j < |all|
      ensures Less(Keys(all)[i], Keys(all)[j])
    {
      assert all[j] == tail[j - 1];
      if i > 0 {
        assert Keys(tail)[i - 1] == Keys(all)[i] && Keys(tail)[j - 1] == Keys(all)[j];
      }
    }
  }

  lemma {:induction false} TreeSorts(ms: seq<Member>)
    ensures Sorted(Tree(ms))
    ensures DistinctKeys(ms) ==> forall x :: x in Tree(ms) <==> x in ms
  {
    if |ms| > 0 {
      var front, last := ms[..|ms| - 1], ms[|ms| - 1];
      TreeSorts(front);
      TreeInsertSorts(Tree(front), last);
      assert ms == front + [last];
    }
  }

  lemma SortedKeysDiffer(ms: seq<Member>)
    requires Sorted(ms)
    ensures DistinctKeys(ms)
  {
    forall i, j | 0 <= i < j < |ms|
      ensures ms[i].key != ms[j].key
    {
      assert Less(Keys(ms)[i], Keys(ms)[j]);
      Irreflexive(ms[i].key);
    }
  }

  /** Two sorted objects with the same members are the same object. */
  lemma SortedUnique(a: seq<Member>, b: seq<Member>)
    requires Sorted(a) && Sorted(b)
    requires forall x :: x in a <==> x in b
    ensures a == b
  {
    forall k
      ensures k in Keys(a) ==> k in Keys(b)
      ensures k in Keys(b) ==> k in Keys(a)
    {
      KeysInclude(a, b, k);
      KeysInclude(b, a, k);
    }
    AscendingUnique(Keys(a), Keys(b));
    SortedKeysDiffer(b);
    forall i | 0 <= i < |a|
      ensures a[i] == b[i]
    {
      assert a[i] in b;
      var j :| 0 <= j < |b| && b[j] == a[i];
      assert Keys(a)[i] == Keys(b)[i];
    }
  }

  lemma KeysInclude(a: seq<Member>, b: seq<Member>, k: string)
    requires forall x :: x in a ==> x in b
    ensures k in Keys(a) ==> k in Keys(b)
  {
    if k in Keys(a) {
      var i :| 0 <= i < |a| && Keys(a)[i] == k;
      assert a[i] in b;
      var j :| 0 <= j < |b| && b[j] == a[i];
      assert Keys(b)[j] == k;
    }
  }

  // ---------- canonical values ----------

  lemma CanonicalObject(ms: seq<Member>)
    requires DistinctKeys(ms)
    ensures Canonical(Obj(ms)).Obj? && Sorted(Canonical(Obj(ms)).members)
    ensures forall i :: 0 <= i < |ms| ==> Member(ms[i].key, Canonical(ms[i].value)) in Canonical(Obj(ms)).members
    ensures forall x :: x in Canonical(Obj(ms)).members ==>
              exists i :: 0 <= i < |ms| && x == Member(ms[i].key, Canonical(ms[i].value))
  {
    hide Tree;
    var inner := seq(|ms|, i requires 0 <= i < |ms| => Member(ms[i].key, Canonical(ms[i].value)));
    TreeSorts(inner);
    forall i | 0 <= i < |ms|
      ensures Member(ms[i].key, Canonical(ms[i].value)) in Tree(inner)
    {
      assert inner[i] in inner;
    }
  }

  /** Canonicalising forgets exactly the order of members: it separates values that differ otherwise. */
  lemma {:induction false} CanonicalDecides(a: Json, b: Json)
    requires WellFormed(a) && WellFormed(b)
    ensures Canonical(a) == Canonical(b) <==> Equivalent(a, b)
    decreases a
  {
    match (a, b)
    case (Arr(xs), Arr(ys)) =>
      forall i | 0 <= i < |xs| && i < |ys|
        ensures Canonical(xs[i]) == Canonical(ys[i]) <==> Equivalent(xs[i], ys[i])
      {
        CanonicalDecides(xs[i], ys[i]);
      }
      if Canonical(a) == Canonical(b) {
        forall i | 0 <= i < |xs|
          ensures Equivalent(xs[i], ys[i])
        {
          assert Canonical(a).items[i] == Canonical(b).items[i];
        }
      }
    case (Obj(ms), Obj(ns)) =>
      forall i, j | 0 <= i < |ms| && 0 <= j < |ns|
        ensures Canonical(ms[i].value) == Canonical(ns[j].value) <==> Equivalent(ms[i].value, ns[j].value)
      {
        CanonicalDecides(ms[i].value, ns[j].value);
      }
      if Equivalent(a, b) {
        EquivalentObjects(ms, ns);
      }
      if Canonical(a) == Canonical(b) {
        SameCanonicalObjects(ms, ns);
      }
    case (_, _) =>
  }

  lemma EquivalentObjects(ms: seq<Member>, ns: seq<Member>)
    requires DistinctKeys(ms) && DistinctKeys(ns) && KeySet(ms) == KeySet(ns)
    requires forall i, j :: 0 <= i < |ms| && 0 <= j < |ns| && ms[i].key == ns[j].key ==>
               Canonical(ms[i].value) == Canonical(ns[j].value)
    ensures Canonical(Obj(ms)) == Canonical(Obj(ns))
  {
    hide Canonical;
    CanonicalObject(ms);
    CanonicalObject(ns);
    var s, t := Canonical(Obj(ms)).members, Canonical(Obj(ns)).members;
    forall x
      ensures x in s ==> x in t
      ensures x in t ==> x in s
    {
      if x in s {
        var i :| 0 <= i < |ms| && x == Member(ms[i].key, Canonical(ms[i].value));
        assert ms[i].key in KeySet(ns);
        var j :| 0 <= j < |ns| && ns[j].key == ms[i].key;
      }
      if x in t {
        var j :| 0 <= j < |ns| && x == Member(ns[j].key, Canonical(ns[j].value));
        assert ns[j].key in KeySet(ms);
        var i :| 0 <= i < |ms| && ms[i].key == ns[j].key;
      }
    }
    SortedUnique(s, t);
  }

  lemma SameCanonicalObjects(ms: seq<Member>, ns: seq<Member>)
    requires DistinctKeys(ms) && DistinctKeys(ns) && Canonical(Obj(ms)) == Canonical(Obj(ns))
    ensures KeySet(ms) == KeySet(ns)
    ensures forall i, j :: 0 <= i < |ms| && 0 <= j < |ns| && ms[i].key == ns[j].key ==>
              Canonical(ms[i].value) == Canonical(ns[j].value)
  {
    hide Canonical;
    CanonicalObject(ms);
    CanonicalObject(ns);
    forall i | 0 <= i < |ms|
      ensures ms[i].key in KeySet(ns)
      ensures forall j :: 0 <= j < |ns| && ms[i].key == ns[j].key ==> Canonical(ms[i].value) == Canonical(ns[j].value)
    {
      var x := Member(ms[i].key, Canonical(ms[i].value));
      assert x in Canonical(Obj(ns)).members;
    }
    forall j | 0 <= j < |ns|
      ensures ns[j].key in KeySet(ms)
    {
      var x := Member(ns[j].key, Canonical(ns[j].value));
      assert x in Canonical(Obj(ms)).members;
    }
  }

  /** The canonical value is well formed, equivalent to the original and as deep. */
  lemma {:induction false} CanonicalShape(v: Json, levels: int)
    requires WellFormed(v)
    ensures WellFormed(Canonical(v))
    ensures Fits(Canonical(v), levels) <==> Fits(v, levels)
    decreases v
  {
    match v
    case Arr(items) =>
      forall i | 0 <= i < |items|
        ensures WellFormed(Canonical(items[i]))
        ensures Fits(Canonical(items[i]), levels - 1) <==> Fits(items[i], levels - 1)
      {
        CanonicalShape(items[i], levels - 1);
      }
      var inner := Canonical(v).items;
      assert forall i :: 0 <= i < |items| ==> inner[i] == Canonical(items[i]);
      assert forall i :: 0 <= i < |items| ==> (Fits(inner[i], levels - 1) <==> Fits(items[i], levels - 1));
    case Obj(ms) =>
      forall i | 0 <= i < |ms|
        ensures WellFormed(Canonical(ms[i].value))
        ensures Fits(Canonical(ms[i].value), levels - 1) <==> Fits(ms[i].value, levels - 1)
      {
        CanonicalShape(ms[i].value, levels - 1);
      }
      CanonicalObjectShape(ms, levels);
    case _ =>
  }

  lemma CanonicalObjectShape(ms: seq<Member>, levels: int)
    requires DistinctKeys(ms)
    requires forall i :: 0 <= i < |ms| ==> WellFormed(Canonical(ms[i].value))
    requires forall i :: 0 <= i < |ms| ==> (Fits(Canonical(ms[i].value), levels - 1) <==> Fits(ms[i].value, levels - 1))
    ensures WellFormed(Canonical(Obj(ms)))
    ensures Fits(Canonical(Obj(ms)), levels) <==> Fits(Obj(ms), levels)
  {
    hide Canonical;
    CanonicalObject(ms);
    var s := Canonical(Obj(ms)).members;
    SortedKeysDiffer(s);
    forall k | 0 <= k < |s|
      ensures WellFormed(s[k].value)
      ensures Fits(Obj(ms), levels) ==> Fits(s[k].value, levels - 1)
    {
      assert s[k] in s;
    }
    forall i | 0 <= i < |ms| && Fits(Canonical(Obj(ms)), levels)
      ensures Fits(ms[i].value, levels - 1)
    {
      var x := Member(ms[i].key, Canonical(ms[i].value));
      var k :| 0 <= k < |s| && s[k] == x;
    }
  }

  lemma {:induction false} EquivalentReflexive(v: Json)
    requires WellFormed(v)
    ensures Equivalent(v, v)
  {
    match v
    case Arr(items) =>
      forall i | 0 <= i < |items|
        ensures Equivalent(items[i], items[i])
      {
        EquivalentReflexive(items[i]);
      }
    case Obj(ms) =>
      forall i | 0 <= i < |ms|
        ensures Equivalent(ms[i].value, ms[i].value)
      {
        EquivalentReflexive(ms[i].value);
      }
    case _ =>
  }

  /** Equality up to member order is an equivalence. */
  lemma EquivalenceLaws(a: Json, b: Json, c: Json)
    requires WellFormed(a) && WellFormed(b) && WellFormed(c)
    ensures Equivalent(a, a)
    ensures Equivalent(a, b) ==> Equivalent(b, a)
    ensures Equivalent(a, b) && Equivalent(b, c) ==> Equivalent(a, c)
  {
    hide Canonical, Equivalent, WellFormed;
    CanonicalDecides(a, a);
    CanonicalDecides(a, b);
    CanonicalDecides(b, a);
    CanonicalDecides(b, c);
    CanonicalDecides(a, c);
  }

  /** Canonicalising twice is canonicalising once. */
  lemma {:induction false} CanonicalIdempotent(v: Json)
    requires WellFormed(v)
    ensures Canonical(Canonical(v)) == Canonical(v)
    decreases v
  {
    match v
    case Arr(items) =>
      forall i | 0 <= i < |items|
        ensures Canonical(Canonical(items[i])) == Canonical(items[i])
      {
        CanonicalIdempotent(items[i]);
      }
    case Obj(ms) =>
      forall i | 0 <= i < |ms|
        ensures Canonical(Canonical(ms[i].value)) == Canonical(ms[i].value)
      {
        CanonicalIdempotent(ms[i].value);
      }
      CanonicalObjectIdempotent(ms);
    case _ =>
  }

  lemma CanonicalObjectIdempotent(ms: seq<Member>)
    requires DistinctKeys(ms)
    requires forall i :: 0 <= i < |ms| ==> Canonical(Canonical(ms[i].value)) == Canonical(ms[i].value)
    ensures Canonical(Canonical(Obj(ms))) == Canonical(Obj(ms))
  {
    hide Canonical;
    CanonicalObject(ms);
    var s := Canonical(Obj(ms)).members;
    SortedKeysDiffer(s);
    CanonicalObject(s);
    var t := Canonical(Obj(s)).members;
    forall x | x in s
      ensures Member(x.key, Canonical(x.value)) == x && x in t
    {
      var i :| 0 <= i < |ms| && x == Member(ms[i].key, Canonical(ms[i].value));
      var k :| 0 <= k < |s| && s[k] == x;
    }
    forall x | x in t
      ensures x in s
    {
      var k :| 0 <= k < |s| && x == Member(s[k].key, Canonical(s[k].value));
      assert s[k] in s;
    }
    SortedUnique(s, t);
  }

  // ---------- canonical_json ----------

  /** `canonicalize_value`: rebuild every object through a `BTreeMap`. */
  method CanonicalizeValue(value: Json) returns (r: Json)
    ensures r == Canonical(value)
    decreases value
  {
    hide TreeInsert, Put, Sorted, DistinctKeys;
    match value {
      case Obj(ms) =>
        ghost var inner := seq(|ms|, i requires 0 <= i < |ms| => Member(ms[i].key, Canonical(ms[i].value)));
        var tree: seq<Member> := [];
        for i := 0 to |ms|
          invariant tree == Tree(inner[..i])
        {
          var v := CanonicalizeValue(ms[i].value);
          tree := TreeInsert(tree, Member(ms[i].key, v));
          assert inner[..i + 1][..i] == inner[..i];
        }
        assert inner[..|ms|] == inner;
        var out: seq<Member> := [];
        TreeSorts(inner);
        SortedKeysDiffer(tree);
        for i := 0 to |tree|
          invariant out == tree[..i]
        {
          KeyIsNew(tree, i);
          out := Put(out, tree[i].key, tree[i].value);
        }
        r := Obj(out);
      case Arr(items) =>
        var out: seq<Json> := [];
        for i := 0 to |items|
          invariant |out| == i && forall j :: 0 <= j < i ==> out[j] == Canonical(items[j])
        {
          var v := CanonicalizeValue(items[i]);
          out := out + [v];
        }
        r := Arr(out);
      case _ => r := value;
    }
  }

  lemma KeyIsNew(ms: seq<Member>, i: nat)
    requires i < |ms| && DistinctKeys(ms)
    ensures ms[i].key !in KeySet(ms[..i]) && ms[..i + 1] == ms[..i] + [Member(ms[i].key, ms[i].value)]
  {
  }

  /** `canonical_json`. */
  function CanonicalText(v: Json): string {
    Text(Canonical(v))
  }

  /** `canonical_json` as it runs: rebuild, then print. */
  method ToCanonicalText(v: Json) returns (text: string)
    ensures text == CanonicalText(v)
  {
    var canonical := CanonicalizeValue(v);
    text := Text(canonical);
  }

  /** Canonical text is injective: two values have the same text exactly when they differ at most in member order. */
  lemma CanonicalTextDecides(a: Json, b: Json)
    requires WellFormed(a) && WellFormed(b)
    ensures CanonicalText(a) == CanonicalText(b) <==> Equivalent(a, b)
  {
    CanonicalDecides(a, b);
    if CanonicalText(a) == CanonicalText(b) {
      var levels := Levels(a) + Levels(b);
      LevelsSuffice(a, levels);
      LevelsSuffice(b, levels);
      CanonicalShape(a, levels);
      CanonicalShape(b, levels);
      RoundTrip(Canonical(a), levels);
      RoundTrip(Canonical(b), levels);
    }
  }

  /** Enough nesting levels for a value. */
  ghost function Levels(v: Json): nat {
    match v
    case Arr(items) => 1 + MaxLevels(items)
    case Obj(ms) => 1 + MaxMemberLevels(ms)
    case _ => 0
  }

  ghost function MaxLevels(items: seq<Json>): nat {
    if items == [] then 0 else Levels(items[0]) + MaxLevels(items[1..])
  }

  ghost function MaxMemberLevels(ms: seq<Member>): nat {
    if ms == [] then 0 else Levels(ms[0].value) + MaxMemberLevels(ms[1..])
  }

  lemma {:induction false} LevelsSuffice(v: Json, levels: nat)
    requires Levels(v) <= levels
    ensures Fits(v, levels)
    decreases v, 0
  {
    match v
    case Arr(items) => ItemLevelsSuffice(items, levels - 1);
    case Obj(ms) => MemberLevelsSuffice(ms, levels - 1);
    case _ =>
  }

  lemma {:induction false} ItemLevelsSuffice(items: seq<Json>, levels: nat)
    requires MaxLevels(items) <= levels
    ensures forall i :: 0 <= i < |items| ==> Fits(items[i], levels)
    decreases items, 1
  {
    if items != [] {
      LevelsSuffice(items[0], levels);
      ItemLevelsSuffice(items[1..], levels);
      assert forall i :: 0 < i < |items| ==> items[i] == items[1..][i - 1];
    }
  }

  lemma {:induction false} MemberLevelsSuffice(ms: seq<Member>, levels: nat)
    requires MaxMemberLevels(ms) <= levels
    ensures forall i :: 0 <= i < |ms| ==> Fits(ms[i].value, levels)
    decreases ms, 1
  {
    if ms != [] {
      LevelsSuffice(ms[0].value, levels);
      MemberLevelsSuffice(ms[1..], levels);
      assert forall i :: 0 < i < |ms| ==> ms[i] == ms[1..][i - 1];
    }
  }

  // ---------- is_canonical_json ----------

  datatype CanonicalError = SerializationError

  /** `is_canonical_json`, for a parser that admits `levels` levels of nesting. */
  function IsCanonicalText(text: string, levels: nat): Result<bool, CanonicalError> {
    match FromText(text, levels)
    case None => Failure(SerializationError)
    case Some(v) => Success(CanonicalText(v) == text)
  }

  /** The check accepts exactly the canonical texts of the values its parser can hold. */
  lemma IsCanonicalTextExact(text: string, levels: nat)
    ensures IsCanonicalText(text, levels) == Success(true) <==>
            exists v :: WellFormed(v) && Fits(v, levels) && CanonicalText(v) == text
  {
    forall v | WellFormed(v) && Fits(v, levels) && CanonicalText(v) == text
      ensures IsCanonicalText(text, levels) == Success(true)
    {
      CanonicalShape(v, levels);
      RoundTrip(Canonical(v), levels);
      CanonicalIdempotent(v);
    }
  }

  // ---------- canonical_json_for_signing ----------

  predicate IsUnsigned(key: string) {
    key == "signatures" || key == "unsigned"
  }

  /** The event without the fields a signature does not cover. */
  function Signable(event: Json): Json {
    match event
    case Obj(ms) => Obj(Remove(Remove(ms, "signatures"), "unsigned"))
    case _ => event
  }

  function SigningText(event: Json): string {
    CanonicalText(Signable(event))
  }

  /** Both objects lack the key, or hold equivalent values under it. */
  ghost predicate EquivalentAt(ms: seq<Member>, ns: seq<Member>, key: string) {
    match (Lookup(ms, key), Lookup(ns, key))
    case (None, None) => true
    case (Some(x), Some(y)) => Equivalent(x, y)
    case _ => false
  }

  /** Two events agree, up to member order, on everything a signature covers. */
  ghost predicate SameSignedContent(a: Json, b: Json) {
    if a.Obj? && b.Obj? then forall key :: !IsUnsigned(key) ==> EquivalentAt(a.members, b.members, key)
    else Equivalent(a, b)
  }

  lemma SignableWellFormed(v: Json)
    requires WellFormed(v)
    ensures WellFormed(Signable(v))
  {
  }

  lemma ObjectsByLookup(ms: seq<Member>, ns: seq<Member>)
    requires DistinctKeys(ms) && DistinctKeys(ns)
    ensures Equivalent(Obj(ms), Obj(ns)) <==> forall key :: EquivalentAt(ms, ns, key)
  {
    hide Lookup;
    forall i | 0 <= i < |ms|
      ensures Lookup(ms, ms[i].key) == Some(ms[i].value)
    {
      LookupFinds(ms, i);
    }
    forall j | 0 <= j < |ns|
      ensures Lookup(ns, ns[j].key) == Some(ns[j].value)
    {
      LookupFinds(ns, j);
    }
    assert forall key :: key in KeySet(ms) <==> Lookup(ms, key).Some?;
    assert forall key :: key in KeySet(ns) <==> Lookup(ns, key).Some?;
    if Equivalent(Obj(ms), Obj(ns)) {
      forall key
        ensures EquivalentAt(ms, ns, key)
      {
        assert key in KeySet(ms) <==> key in KeySet(ns);
      }
    }
    if forall key :: EquivalentAt(ms, ns, key) {
      forall key
        ensures key in KeySet(ms) <==> key in KeySet(ns)
      {
        assert EquivalentAt(ms, ns, key);
      }
      forall i, j | 0 <= i < |ms| && 0 <= j < |ns| && ms[i].key == ns[j].key
        ensures Equivalent(ms[i].value, ns[j].value)
      {
        assert EquivalentAt(ms, ns, ms[i].key);
      }
    }
  }

  /** The bytes to sign are the same exactly when the events agree outside `signatures` and `unsigned`. */
  lemma SigningTextDecides(a: Json, b: Json)
    requires WellFormed(a) && WellFormed(b)
    ensures SigningText(a) == SigningText(b) <==> SameSignedContent(a, b)
  {
    hide CanonicalText, Lookup, Remove, Equivalent, WellFormed;
    SignableWellFormed(a);
    SignableWellFormed(b);
    CanonicalTextDecides(Signable(a), Signable(b));
    if a.Obj? && b.Obj? {
      SignableObjects(a.members, b.members);
    } else {
      DifferentKinds(Signable(a), Signable(b));
      DifferentKinds(a, b);
    }
  }

  /** Holds exactly the members that a signature covers. */
  ghost predicate HoldsSigned(ms: seq<Member>, rest: seq<Member>) {
    forall key :: Lookup(rest, key) == if key == "signatures" || key == "unsigned" then None else Lookup(ms, key)
  }

  /** The bytes to sign are the canonical text of any object that holds exactly the other members. */
  lemma SigningTextIs(ms: seq<Member>, rest: seq<Member>)
    requires WellFormed(Obj(ms)) && WellFormed(Obj(rest)) && HoldsSigned(ms, rest)
    ensures SigningText(Obj(ms)) == CanonicalText(Obj(rest))
  {
    hide CanonicalText, Lookup, Remove, Equivalent, WellFormed;
    SignableWellFormed(Obj(ms));
    var kept := Signable(Obj(ms)).members;
    CanonicalTextDecides(Obj(kept), Obj(rest));
    WellFormedKeys(kept);
    WellFormedKeys(rest);
    ObjectsByLookup(kept, rest);
    forall key
      ensures EquivalentAt(kept, rest, key)
    {
      assert Lookup(kept, key) == Lookup(rest, key);
      if Lookup(rest, key).Some? {
        MemberIsWellFormed(rest, key);
        EquivalentReflexive(Lookup(rest, key).value);
      }
    }
  }

  lemma WellFormedKeys(ms: seq<Member>)
    requires WellFormed(Obj(ms))
    ensures DistinctKeys(ms)
  {
  }

  lemma MemberIsWellFormed(ms: seq<Member>, key: string)
    requires WellFormed(Obj(ms)) && Lookup(ms, key).Some?
    ensures WellFormed(Lookup(ms, key).value)
  {
    hide Lookup;
    var m := Member(key, Lookup(ms, key).value);
    var i :| 0 <= i < |ms| && ms[i] == m;
  }

  lemma DifferentKinds(a: Json, b: Json)
    ensures a.Obj? != b.Obj? ==> !Equivalent(a, b)
  {
  }

  lemma SignableObjects(ms: seq<Member>, ns: seq<Member>)
    requires WellFormed(Obj(ms)) && WellFormed(Obj(ns))
    ensures Equivalent(Signable(Obj(ms)), Signable(Obj(ns))) <==> SameSignedContent(Obj(ms), Obj(ns))
  {
    hide Lookup, Remove, Equivalent;
    var s, t := Signable(Obj(ms)).members, Signable(Obj(ns)).members;
    ObjectsByLookup(s, t);
    assert forall key :: IsUnsigned(key) ==> EquivalentAt(s, t, key);
    assert forall key :: !IsUnsigned(key) ==> (EquivalentAt(s, t, key) <==> EquivalentAt(ms, ns, key));
  }

  /** Writing members in order, as signers and servers add `signatures` and `unsigned`. */
  function PutAll(ms: seq<Member>, writes: seq<Member>): seq<Member>
    decreases |writes|
  {
    if writes == [] then ms else PutAll(Put(ms, writes[0].key, writes[0].value), writes[1..])
  }

  /** Adding signatures and unsigned data, any number of times and in any order, never changes the bytes to sign. */
  lemma {:induction false} SigningLeavesTextAlone(ms: seq<Member>, writes: seq<Member>)
    requires WellFormed(Obj(ms))
    requires forall i :: 0 <= i < |writes| ==> IsUnsigned(writes[i].key) && WellFormed(writes[i].value)
    ensures WellFormed(Obj(PutAll(ms, writes)))
    ensures SigningText(Obj(PutAll(ms, writes))) == SigningText(Obj(ms))
    decreases |writes|
  {
    hide SigningText, Put, Lookup;
    if writes != [] {
      var w := writes[0];
      var next := Put(ms, w.key, w.value);
      forall i | 0 <= i < |next|
        ensures WellFormed(next[i].value)
      {
        assert next[i] in next;
        assert next[i] in ms || next[i] == w;
      }
      forall key | !IsUnsigned(key)
        ensures EquivalentAt(ms, next, key)
      {
        if Lookup(ms, key).Some? {
          var m := Member(key, Lookup(ms, key).value);
          var i :| 0 <= i < |ms| && ms[i] == m;
          EquivalentReflexive(m.value);
        }
      }
      assert SameSignedContent(Obj(ms), Obj(next));
      SigningTextDecides(Obj(ms), Obj(next));
      SigningLeavesTextAlone(next, writes[1..]);
    }
  }

  // ---------- the session service's direct printer ----------

  /** `to_canonical_json` of the session service. */
  function DirectText(v: Json): string {
    match v
    case Null => "null"
    case Bool(b) => if b then "true" else "false"
    case Num(n) => IntText(n)
    case Str(s) => Quote(s)
    case Arr(items) =>
      "[" + JoinComma(seq(|items|, i requires 0 <= i < |items| => DirectText(items[i]))) + "]"
    case Obj(ms) =>
      var keys := Sort(Keys(ms));
      SortKeepsKeys(Keys(ms));
      "{" + JoinComma(seq(|keys|, i requires 0 <= i < |keys| =>
                            Quote(keys[i]) + ":" +
                            (assert keys[i] in Keys(ms); KeyIsFound(ms, keys[i]);
                             DirectText(Lookup(ms, keys[i]).value)))) + "}"
  }

  lemma {:induction false} SortKeepsKeys(keys: seq<string>)
    ensures forall k :: k in Sort(keys) ==> k in keys
  {
    if |keys| > 0 {
      SortKeepsKeys(keys[..|keys| - 1]);
      InsertKeepsKeys(Sort(keys[..|keys| - 1]), keys[|keys| - 1]);
    }
  }

  lemma {:induction false} InsertKeepsKeys(keys: seq<string>, key: string)
    ensures forall k :: k in InsertKey(keys, key) ==> k == key || k in keys
  {
    if |keys| > 0 && !Less(key, keys[0]) {
      InsertKeepsKeys(keys[1..], key);
    }
  }

  lemma KeyIsFound(ms: seq<Member>, key: string)
    requires key in Keys(ms)
    ensures Lookup(ms, key).Some?
  {
  }

  /** Printing directly with sorted keys gives the text of the sorted tree. */
  lemma {:induction false} DirectTextAgrees(v: Json)
    requires WellFormed(v)
    ensures DirectText(v) == CanonicalText(v)
    decreases v
  {
    match v
    case Arr(items) =>
      forall i | 0 <= i < |items|
        ensures DirectText(items[i]) == Text(Canonical(items[i]))
      {
        DirectTextAgrees(items[i]);
      }
      DirectArrayAgrees(items);
    case Obj(ms) =>
      forall i | 0 <= i < |ms|
        ensures DirectText(ms[i].value) == Text(Canonical(ms[i].value))
      {
        DirectTextAgrees(ms[i].value);
      }
      DirectObjectAgrees(ms);
    case _ =>
  }

  lemma DirectArrayAgrees(items: seq<Json>)
    requires forall i :: 0 <= i < |items| ==> DirectText(items[i]) == Text(Canonical(items[i]))
    ensures DirectText(Arr(items)) == Text(Canonical(Arr(items)))
  {
    hide JoinComma;
    var inner := Canonical(Arr(items)).items;
    var direct := seq(|items|, i requires 0 <= i < |items| => DirectText(items[i]));
    var parts := seq(|inner|, i requires 0 <= i < |inner| => Text(inner[i]));
    assert direct == parts;
    ArrText(Canonical(Arr(items)), parts);
  }

  lemma DirectObjectAgrees(ms: seq<Member>)
    requires DistinctKeys(ms)
    requires forall i :: 0 <= i < |ms| ==> DirectText(ms[i].value) == Text(Canonical(ms[i].value))
    ensures DirectText(Obj(ms)) == Text(Canonical(Obj(ms)))
  {
    hide JoinComma, Canonical, Text, Quote, Sort;
    CanonicalObject(ms);
    var s := Canonical(Obj(ms)).members;
    var keys := Sort(Keys(ms));
    SortedKeysAgree(ms);
    var parts := seq(|s|, i requires 0 <= i < |s| => Quote(s[i].key) + ":" + Text(s[i].value));
    ObjText(Canonical(Obj(ms)), parts);
    SortKeepsKeys(Keys(ms));
    forall i | 0 <= i < |keys|
      ensures Lookup(ms, keys[i]).Some? && DirectText(Lookup(ms, keys[i]).value) == Text(s[i].value)
    {
      assert Keys(s)[i] == s[i].key && s[i] in s;
      var j :| 0 <= j < |ms| && s[i] == Member(ms[j].key, Canonical(ms[j].value));
      LookupFinds(ms, j);
    }
    assert |keys| == |Keys(s)| == |s|;
    var direct :=
      seq(|keys|, i requires 0 <= i < |keys| => Quote(keys[i]) + ":" + DirectText(Lookup(ms, keys[i]).value));
    assert forall i :: 0 <= i < |keys| ==> keys[i] == Keys(s)[i] == s[i].key;
    assert direct == parts;
  }

  /** Sorting the keys gives the keys of the sorted tree. */
  lemma SortedKeysAgree(ms: seq<Member>)
    requires DistinctKeys(ms)
    ensures Sort(Keys(ms)) == Keys(Canonical(Obj(ms)).members)
  {
    hide Canonical, Sort;
    CanonicalObject(ms);
    var s := Canonical(Obj(ms)).members;
    SortAscends(Keys(ms));
    forall k
      ensures k in Keys(ms) ==> k in Keys(s)
      ensures k in Keys(s) ==> k in Keys(ms)
    {
      if k in Keys(ms) {
        var i :| 0 <= i < |ms| && Keys(ms)[i] == k;
        var x := Member(ms[i].key, Canonical(ms[i].value));
        var j :| 0 <= j < |s| && s[j] == x;
        assert Keys(s)[j] == k;
      }
      if k in Keys(s) {
        var j :| 0 <= j < |s| && Keys(s)[j] == k;
        assert s[j] in s;
        var i :| 0 <= i < |ms| && s[j] == Member(ms[i].key, Canonical(ms[i].value));
        assert Keys(ms)[i] == k;
      }
    }
    AscendingUnique(Sort(Keys(ms)), Keys(s));
  }
}
