/**
 JSON values as `serde_json::Value` holds them: an object is a list of members in iteration order with
 distinct keys. Numbers are the integers serde_json keeps exactly.
 */
module Json {
  import opened Prelude

  datatype Json =
    | Null
    | Bool(b: bool)
    | Num(n: int)
    | Str(s: string)
    | Arr(items: seq<Json>)
    | Obj(members: seq<Member>)

  datatype Member = Member(key: string, value: Json)

  const MIN_INT := -0x8000_0000_0000_0000
  const MAX_INT := 0xFFFF_FFFF_FFFF_FFFF

  ghost predicate DistinctKeys(ms: seq<Member>) {
    forall i, j :: 0 <= i < j < |ms| ==> ms[i].key != ms[j].key
  }

  ghost predicate WellFormed(v: Json) {
    match v
    case Num(n) => MIN_INT <= n <= MAX_INT
    case Arr(items) => forall i :: 0 <= i < |items| ==> WellFormed(items[i])
    case Obj(ms) => DistinctKeys(ms) && forall i :: 0 <= i < |ms| ==> WellFormed(ms[i].value)
    case _ => true
  }

  /** Levels of arrays and objects around the deepest scalar fit in `levels`. */
  ghost predicate Fits(v: Json, levels: int) {
    match v
    case Arr(items) => levels > 0 && forall i :: 0 <= i < |items| ==> Fits(items[i], levels - 1)
    case Obj(ms) => levels > 0 && forall i :: 0 <= i < |ms| ==> Fits(ms[i].value, levels - 1)
    case _ => true
  }

  /** Equality after forgetting the order of object members at every depth. */
  ghost predicate Equivalent(a: Json, b: Json)
    decreases a
  {
    match a
    case Arr(xs) =>
      b.Arr? && |b.items| == |xs| && forall i :: 0 <= i < |xs| ==> Equivalent(xs[i], b.items[i])
    case Obj(ms) =>
      && b.Obj? && KeySet(ms) == KeySet(b.members)
      && forall i, j :: 0 <= i < |ms| && 0 <= j < |b.members| && ms[i].key == b.members[j].key ==>
           Equivalent(ms[i].value, b.members[j].value)
    case _ => a == b
  }

  /** `map.get(key)`. */
  function Lookup(ms: seq<Member>, key: string): (r: Option<Json>)
    ensures r.Some? <==> exists i :: 0 <= i < |ms| && ms[i].key == key
    ensures r.Some? ==> Member(key, r.value) in ms
  {
    if |ms| == 0 then None
    else if ms[0].key == key then Some(ms[0].value)
    else Lookup(ms[1..], key)
  }

  lemma {:induction false} LookupFinds(ms: seq<Member>, i: nat)
    requires i < |ms| && DistinctKeys(ms)
    ensures Lookup(ms, ms[i].key) == Some(ms[i].value)
  {
  }

  /** `map.insert(key, value)` on an insertion-ordered map: a present key keeps its place. */
  function Put(ms: seq<Member>, key: string, value: Json): (r: seq<Member>)
    ensures DistinctKeys(ms) ==> DistinctKeys(r)
    ensures forall k :: Lookup(r, k) == if k == key then Some(value) else Lookup(ms, k)
    ensures forall m :: m in r ==> m in ms || m == Member(key, value)
    ensures key !in KeySet(ms) ==> r == ms + [Member(key, value)]
  {
    if |ms| == 0 then [Member(key, value)]
    else if ms[0].key == key then
      [Member(key, value)] + ms[1..]
    else
      var rest := Put(ms[1..], key, value);
      assert forall m :: m in rest ==> m.key != ms[0].key || !DistinctKeys(ms);
      [ms[0]] + rest
  }

  function KeySet(ms: seq<Member>): set<string> {
    set i | 0 <= i < |ms| :: ms[i].key
  }

  /** `map.remove(key)`. */
  function Remove(ms: seq<Member>, key: string): (r: seq<Member>)
    ensures forall k :: Lookup(r, k) == if k == key then None else Lookup(ms, k)
    ensures forall m :: m in r <==> m in ms && m.key != key
    ensures DistinctKeys(ms) ==> DistinctKeys(r)
  {
    if |ms| == 0 then []
    else if ms[0].key == key then Remove(ms[1..], key)
    else [ms[0]] + Remove(ms[1..], key)
  }
}
