/** SRV records: ordering after RFC 2782, and the fall-through over targets that do not resolve. */
module SrvResolution {
  import opened Prelude
  import opened ServerName

  datatype Ip = Ip(text: string)

  datatype SrvRecord = SrvRecord(priority: nat, weight: nat, port: nat, target: string)

  type Addresses = string -> Result<Ip, DnsError>

  /** Lower priority first, then higher weight. */
  predicate Before(a: SrvRecord, b: SrvRecord) {
    a.priority < b.priority || (a.priority == b.priority && a.weight > b.weight)
  }

  function InsertRecord(sorted: seq<SrvRecord>, r: SrvRecord): seq<SrvRecord> {
    if sorted == [] then [r]
    else if Before(r, sorted[0]) then [r] + sorted
    else [sorted[0]] + InsertRecord(sorted[1..], r)
  }

  /** `sort_by`, which keeps equal records in their order. */
  function SortRecords(rs: seq<SrvRecord>): seq<SrvRecord> {
    if rs == [] then [] else InsertRecord(SortRecords(rs[..|rs| - 1]), rs[|rs| - 1])
  }

  /** The first record whose target has an address. */
  function FirstUp(addressOf: Addresses, rs: seq<SrvRecord>): Option<SrvRecord> {
    if rs == [] then None
    else if addressOf(rs[0].target).Success? then Some(rs[0])
    else FirstUp(addressOf, rs[1..])
  }

  function Pick(addressOf: Addresses, rs: seq<SrvRecord>): Option<SrvRecord> {
    FirstUp(addressOf, SortRecords(rs))
  }

  /** The loop of `resolve_via_srv` over the sorted records. */
  method TryTargets(addressOf: Addresses, rs: seq<SrvRecord>) returns (r: Option<(SrvRecord, Ip)>)
    ensures r.Some? <==> Pick(addressOf, rs).Some?
    ensures r.Some? ==> Pick(addressOf, rs) == Some(r.value.0) && addressOf(r.value.0.target) == Success(r.value.1)
  {
    var sorted := SortRecords(rs);
    assert sorted[0..] == sorted;
    for i := 0 to |sorted|
      invariant FirstUp(addressOf, sorted) == FirstUp(addressOf, sorted[i..])
    {
      assert sorted[i..][1..] == sorted[i + 1..];
      var answer := addressOf(sorted[i].target);
      if answer.Success? {
        return Some((sorted[i], answer.value));
      }
    }
    return None;
  }

  ghost predicate Ordered(rs: seq<SrvRecord>) {
    forall i, j :: 0 <= i < j < |rs| ==> !Before(rs[j], rs[i])
  }

  lemma {:induction false} InsertKeepsRecords(sorted: seq<SrvRecord>, r: SrvRecord)
    ensures multiset(InsertRecord(sorted, r)) == multiset(sorted) + multiset{r}
  {
    hide Before;
    if sorted != [] && !Before(r, sorted[0]) {
      InsertKeepsRecords(sorted[1..], r);
      assert sorted == [sorted[0]] + sorted[1..];
    }
  }

  lemma {:induction false} InsertOrdered(sorted: seq<SrvRecord>, r: SrvRecord)
    requires Ordered(sorted)
    ensures Ordered(InsertRecord(sorted, r))
  {
    if sorted == [] {
    } else if Before(r, sorted[0]) {
      assert forall j :: 0 <= j < |sorted| ==> !Before(sorted[j], r);
    } else {
      InsertOrdered(sorted[1..], r);
      InsertedAfter(sorted, r);
    }
  }

  lemma InsertedAfter(sorted: seq<SrvRecord>, r: SrvRecord)
    requires sorted != [] && Ordered(sorted) && !Before(r, sorted[0])
    ensures forall j :: 0 <= j < |InsertRecord(sorted[1..], r)| ==> !Before(InsertRecord(sorted[1..], r)[j], sorted[0])
  {
    hide InsertRecord, Before;
    var rest := InsertRecord(sorted[1..], r);
    InsertKeepsRecords(sorted[1..], r);
    forall j | 0 <= j < |rest|
      ensures !Before(rest[j], sorted[0])
    {
      assert rest[j] in multiset(rest);
      if rest[j] != r {
        assert rest[j] in sorted[1..];
      }
    }
  }

  /** The records tried are the given ones, best first. */
  lemma {:induction false} SortRecordsSorts(rs: seq<SrvRecord>)
    ensures Ordered(SortRecords(rs)) && multiset(SortRecords(rs)) == multiset(rs)
  {
    if rs != [] {
      var front, last := rs[..|rs| - 1], rs[|rs| - 1];
      SortRecordsSorts(front);
      InsertOrdered(SortRecords(front), last);
      InsertKeepsRecords(SortRecords(front), last);
      assert rs == front + [last];
    }
  }

  lemma {:induction false} FirstUpOfInsert(addressOf: Addresses, sorted: seq<SrvRecord>, r: SrvRecord)
    requires Ordered(sorted)
    ensures FirstUp(addressOf, InsertRecord(sorted, r)) ==
            var first := FirstUp(addressOf, sorted);
            if addressOf(r.target).Success? && (first.None? || Before(r, first.value)) then Some(r) else first
  {
    if sorted == [] {
    } else if Before(r, sorted[0]) {
      assert ([r] + sorted)[1..] == sorted;
      FirstUpIsMember(addressOf, sorted);
    } else {
      FirstUpOfInsert(addressOf, sorted[1..], r);
      assert ([sorted[0]] + InsertRecord(sorted[1..], r))[1..] == InsertRecord(sorted[1..], r);
    }
  }

  lemma {:induction false} FirstUpIsMember(addressOf: Addresses, rs: seq<SrvRecord>)
    ensures FirstUp(addressOf, rs).Some? ==> FirstUp(addressOf, rs).value in rs
  {
    if rs != [] {
      FirstUpIsMember(addressOf, rs[1..]);
    }
  }

  /**
   Record `i` resolves; every record that resolves has no lower priority number and, at the same one, no higher weight;
   and no earlier one equals it in both.
   */
  ghost predicate Best(addressOf: Addresses, rs: seq<SrvRecord>, i: nat) {
    && i < |rs| && addressOf(rs[i].target).Success?
    && forall j :: 0 <= j < |rs| && addressOf(rs[j].target).Success? ==>
         && rs[i].priority <= rs[j].priority
         && (rs[i].priority == rs[j].priority ==> rs[i].weight >= rs[j].weight)
         && (j < i ==> rs[i].priority != rs[j].priority || rs[i].weight != rs[j].weight)
  }

  lemma PickSnoc(addressOf: Addresses, front: seq<SrvRecord>, last: SrvRecord)
    ensures Pick(addressOf, front + [last]) ==
            var first := Pick(addressOf, front);
            if addressOf(last.target).Success? && (first.None? || Before(last, first.value)) then Some(last) else first
  {
    hide Before, FirstUp, InsertRecord;
    SortRecordsSorts(front);
    FirstUpOfInsert(addressOf, SortRecords(front), last);
    assert (front + [last])[..|front|] == front;
  }

  lemma {:induction false} PickIsBest(addressOf: Addresses, rs: seq<SrvRecord>) returns (i: nat)
    ensures Pick(addressOf, rs).None? ==> forall j :: 0 <= j < |rs| ==> addressOf(rs[j].target).Failure?
    ensures Pick(addressOf, rs).Some? ==> Best(addressOf, rs, i) && Pick(addressOf, rs) == Some(rs[i])
    decreases |rs|
  {
    i := 0;
    if rs != [] {
      hide Pick;
      var front, last := rs[..|rs| - 1], rs[|rs| - 1];
      i := PickIsBest(addressOf, front);
      PickSnoc(addressOf, front, last);
      assert rs == front + [last];
      var first := Pick(addressOf, front);
      if addressOf(last.target).Success? && (first.None? || Before(last, first.value)) {
        i := |rs| - 1;
      }
    }
  }

  /**
   Resolution falls through to the best record whose target resolves, the earliest of equals, and fails exactly when
   no target resolves.
   */
  lemma PickExact(addressOf: Addresses, rs: seq<SrvRecord>, r: SrvRecord)
    ensures Pick(addressOf, rs) == Some(r) <==> exists i: nat :: Best(addressOf, rs, i) && rs[i] == r
    ensures Pick(addressOf, rs).None? <==> forall j :: 0 <= j < |rs| ==> addressOf(rs[j].target).Failure?
  {
    hide Pick;
    var i := PickIsBest(addressOf, rs);
    forall k: nat | Best(addressOf, rs, k)
      ensures Pick(addressOf, rs) == Some(rs[k])
    {
      assert Pick(addressOf, rs).Some?;
      assert k == i;
    }
  }
}
