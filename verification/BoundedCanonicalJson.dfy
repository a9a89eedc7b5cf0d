/**
 `to_canonical_json` of the server's utilities, which signs and verifies federation requests: canonical JSON with
 bounds on depth and size and no empty keys.
 */
module BoundedCanonicalJson {
  import opened Prelude
  import opened Json
  import opened JsonText
  import opened CanonicalJson

  const MAX_DEPTH := 1000
  const MAX_MEMBERS := 10000

  datatype LimitError = RecursiveStructure | MemoryExhausted | InvalidJson

  /** The first bound that a left-to-right, top-down walk finds broken. */
  function FirstViolation(v: Json, depth: nat): Option<LimitError>
    decreases v, 0
  {
    if depth > MAX_DEPTH then Some(RecursiveStructure)
    else
      match v
      case Obj(ms) => if |ms| > MAX_MEMBERS then Some(MemoryExhausted) else MemberViolation(ms, depth)
      case Arr(items) => if |items| > MAX_MEMBERS then Some(MemoryExhausted) else ItemViolation(items, depth)
      case _ => None
  }

  function MemberViolation(ms: seq<Member>, depth: nat): Option<LimitError>
    decreases ms, 1
  {
    if ms == [] then None
    else if ms[0].key == "" then Some(InvalidJson)
    else
      match FirstViolation(ms[0].value, depth + 1)
      case Some(e) => Some(e)
      case None => MemberViolation(ms[1..], depth)
  }

  function ItemViolation(items: seq<Json>, depth: nat): Option<LimitError>
    decreases items, 1
  {
    if items == [] then None
    else
      match FirstViolation(items[0], depth + 1)
      case Some(e) => Some(e)
      case None => ItemViolation(items[1..], depth)
  }

  /** `canonicalize_value_with_cycle_detection`. */
  method CanonicalizeBounded(value: Json, depth: nat) returns (r: Result<Json, LimitError>)
    ensures r == match FirstViolation(value, depth)
                 case None => Success(Canonical(value))
                 case Some(e) => Failure(e)
    decreases value
  {
    if depth > MAX_DEPTH {
      return Failure(RecursiveStructure);
    }
    match value {
      case Obj(ms) =>
        if |ms| > MAX_MEMBERS {
          return Failure(MemoryExhausted);
        }
        r := CanonicalizeMembers(ms, depth);
      case Arr(items) =>
        if |items| > MAX_MEMBERS {
          return Failure(MemoryExhausted);
        }
        var out: seq<Json> := [];
        assert items[0..] == items;
        for i := 0 to |items|
          invariant |out| == i && forall j :: 0 <= j < i ==> out[j] == Canonical(items[j])
          invariant ItemViolation(items, depth) == ItemViolation(items[i..], depth)
        {
          assert items[i..][0] == items[i] && items[i..][1..] == items[i + 1..];
          var item := CanonicalizeBounded(items[i], depth + 1);
          if item.Failure? {
            return Failure(item.error);
          }
          out := out + [item.value];
        }
        assert Canonical(value).items == out;
        r := Success(Arr(out));
      case _ =>
        r := Success(value);
    }
  }

  method CanonicalizeMembers(ms: seq<Member>, depth: nat) returns (r: Result<Json, LimitError>)
    ensures r == match MemberViolation(ms, depth)
                 case None => Success(Canonical(Obj(ms)))
                 case Some(e) => Failure(e)
    decreases ms
  {
    hide TreeInsert;
    ghost var inner := seq(|ms|, i requires 0 <= i < |ms| => Member(ms[i].key, Canonical(ms[i].value)));
    var tree: seq<Member> := [];
    assert ms[0..] == ms;
    for i := 0 to |ms|
      invariant tree == Tree(inner[..i])
      invariant MemberViolation(ms, depth) == MemberViolation(ms[i..], depth)
    {
      assert ms[i..][0] == ms[i] && ms[i..][1..] == ms[i + 1..];
      if ms[i].key == "" {
        return Failure(InvalidJson);
      }
      var v := CanonicalizeBounded(ms[i].value, depth + 1);
      if v.Failure? {
        return Failure(v.error);
      }
      tree := TreeInsert(tree, Member(ms[i].key, v.value));
      assert inner[..i + 1][..i] == inner[..i];
    }
    assert inner[..|ms|] == inner;
    r := Success(Obj(tree));
  }

  /** Every node is within the bounds. */
  ghost predicate WithinLimits(v: Json, depth: nat) {
    && depth <= MAX_DEPTH
    && match v
       case Obj(ms) =>
         |ms| <= MAX_MEMBERS && forall i :: 0 <= i < |ms| ==> ms[i].key != "" && WithinLimits(ms[i].value, depth + 1)
       case Arr(items) =>
         |items| <= MAX_MEMBERS && forall i :: 0 <= i < |items| ==> WithinLimits(items[i], depth + 1)
       case _ => true
  }

  lemma {:induction false} ViolationExact(v: Json, depth: nat)
    ensures FirstViolation(v, depth).None? <==> WithinLimits(v, depth)
    decreases v, 0
  {
    match v
    case Obj(ms) => MemberViolationExact(ms, depth);
    case Arr(items) => ItemViolationExact(items, depth);
    case _ =>
  }

  lemma {:induction false} MemberViolationExact(ms: seq<Member>, depth: nat)
    ensures MemberViolation(ms, depth).None? <==>
            forall i :: 0 <= i < |ms| ==> ms[i].key != "" && WithinLimits(ms[i].value, depth + 1)
    decreases ms, 1
  {
    hide WithinLimits;
    if ms != [] {
      ViolationExact(ms[0].value, depth + 1);
      MemberViolationExact(ms[1..], depth);
      assert ms == [ms[0]] + ms[1..];
      assert forall i :: 0 <= i < |ms[1..]| ==> ms[1..][i] == ms[i + 1];
    }
  }

  lemma {:induction false} ItemViolationExact(items: seq<Json>, depth: nat)
    ensures ItemViolation(items, depth).None? <==> forall i :: 0 <= i < |items| ==> WithinLimits(items[i], depth + 1)
    decreases items, 1
  {
    hide WithinLimits;
    if items != [] {
      ViolationExact(items[0], depth + 1);
      ItemViolationExact(items[1..], depth);
      assert items == [items[0]] + items[1..];
      assert forall i :: 0 <= i < |items[1..]| ==> items[1..][i] == items[i + 1];
    }
  }

  /** The bound is the first one broken, from the top down and from left to right: everything before it is fine. */
  ghost predicate FirstBroken(v: Json, depth: nat, e: LimitError) {
    if depth > 1000 then e == RecursiveStructure
    else
      match v
      case Obj(ms) =>
        if |ms| > 10000 then e == MemoryExhausted
        else
          exists i ::
            && 0 <= i < |ms|
            && (forall j :: 0 <= j < i ==> ms[j].key != "" && WithinLimits(ms[j].value, depth + 1))
            && if ms[i].key == "" then e == InvalidJson else FirstBroken(ms[i].value, depth + 1, e)
      case Arr(items) =>
        if |items| > 10000 then e == MemoryExhausted
        else
          exists i ::
            && 0 <= i < |items| && (forall j :: 0 <= j < i ==> WithinLimits(items[j], depth + 1))
            && FirstBroken(items[i], depth + 1, e)
      case _ => false
  }

  /** The error names the first bound broken. */
  lemma {:induction false} ViolationIsFirst(v: Json, depth: nat, e: LimitError)
    requires FirstViolation(v, depth) == Some(e)
    ensures FirstBroken(v, depth, e)
    decreases v, 0
  {
    hide WithinLimits;
    if depth <= MAX_DEPTH {
      match v
      case Obj(ms) => if |ms| <= MAX_MEMBERS { var i := MemberViolationIsFirst(ms, depth, e); }
      case Arr(items) => if |items| <= MAX_MEMBERS { var i := ItemViolationIsFirst(items, depth, e); }
      case _ =>
    }
  }

  lemma {:induction false} MemberViolationIsFirst(ms: seq<Member>, depth: nat, e: LimitError) returns (i: int)
    requires MemberViolation(ms, depth) == Some(e)
    ensures 0 <= i < |ms|
    ensures forall j :: 0 <= j < i ==> ms[j].key != "" && WithinLimits(ms[j].value, depth + 1)
    ensures if ms[i].key == "" then e == InvalidJson else FirstBroken(ms[i].value, depth + 1, e)
    decreases ms, 1
  {
    hide WithinLimits, FirstBroken;
    i := 0;
    if ms[0].key != "" {
      ViolationExact(ms[0].value, depth + 1);
      if FirstViolation(ms[0].value, depth + 1) == Some(e) {
        ViolationIsFirst(ms[0].value, depth + 1, e);
      } else {
        var k := MemberViolationIsFirst(ms[1..], depth, e);
        assert forall j :: 0 <= j < k ==> ms[1..][j] == ms[j + 1];
        i := k + 1;
      }
    }
  }

  lemma {:induction false} ItemViolationIsFirst(items: seq<Json>, depth: nat, e: LimitError) returns (i: int)
    requires ItemViolation(items, depth) == Some(e)
    ensures 0 <= i < |items| && FirstBroken(items[i], depth + 1, e)
    ensures forall j :: 0 <= j < i ==> WithinLimits(items[j], depth + 1)
    decreases items, 1
  {
    hide WithinLimits, FirstBroken;
    i := 0;
    ViolationExact(items[0], depth + 1);
    if FirstViolation(items[0], depth + 1) == Some(e) {
      ViolationIsFirst(items[0], depth + 1, e);
    } else {
      var k := ItemViolationIsFirst(items[1..], depth, e);
      assert forall j :: 0 <= j < k ==> items[1..][j] == items[j + 1];
      i := k + 1;
    }
  }

  lemma {:induction false} DistinctKeysCount(ms: seq<Member>)
    requires DistinctKeys(ms)
    ensures |KeySet(ms)| == |ms|
  {
    if ms == [] {
      assert KeySet(ms) == {};
    } else {
      var front, last := ms[..|ms| - 1], ms[|ms| - 1];
      DistinctKeysCount(front);
      assert last.key !in KeySet(front);
      assert forall i :: 0 <= i < |front| ==> front[i] == ms[i];
      assert KeySet(ms) == KeySet(front) + {last.key};
    }
  }

  /** Whether a value is within the bounds does not depend on member order. */
  lemma {:induction false} LimitsIgnoreOrder(a: Json, b: Json, depth: nat)
    requires WellFormed(a) && WellFormed(b) && Equivalent(a, b)
    ensures WithinLimits(a, depth) <==> WithinLimits(b, depth)
    decreases a
  {
    match a
    case Arr(xs) =>
      forall i | 0 <= i < |xs|
        ensures WithinLimits(xs[i], depth + 1) <==> WithinLimits(b.items[i], depth + 1)
      {
        LimitsIgnoreOrder(xs[i], b.items[i], depth + 1);
      }
    case Obj(ms) =>
      var ns := b.members;
      DistinctKeysCount(ms);
      DistinctKeysCount(ns);
      forall i, j | 0 <= i < |ms| && 0 <= j < |ns| && ms[i].key == ns[j].key
        ensures WithinLimits(ms[i].value, depth + 1) <==> WithinLimits(ns[j].value, depth + 1)
      {
        LimitsIgnoreOrder(ms[i].value, ns[j].value, depth + 1);
      }
      assert forall i :: 0 <= i < |ms| ==> ms[i].key in KeySet(ns);
      assert forall j :: 0 <= j < |ns| ==> ns[j].key in KeySet(ms);
    case _ =>
  }

  /** `to_canonical_json` of the server's utilities. */
  function BoundedText(v: Json): Result<string, LimitError> {
    match FirstViolation(v, 0)
    case None => Success(CanonicalText(v))
    case Some(e) => Failure(e)
  }

  /** The same as it runs: canonicalize within the bounds, then print. */
  method ToCanonicalJson(v: Json) returns (r: Result<string, LimitError>)
    ensures r == BoundedText(v)
  {
    var canonical := CanonicalizeBounded(v, 0);
    return if canonical.Success? then Success(Text(canonical.value)) else Failure(canonical.error);
  }

  /** It succeeds exactly within the bounds, and then prints what the session service prints. */
  lemma BoundedTextExact(v: Json)
    requires WellFormed(v)
    ensures BoundedText(v).Success? <==> WithinLimits(v, 0)
    ensures BoundedText(v).Success? ==> BoundedText(v).value == DirectText(v)
  {
    ViolationExact(v, 0);
    DirectTextAgrees(v);
  }
}
