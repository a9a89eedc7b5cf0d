/** The order of object keys, and sorting by it. */
module KeyOrder {

  /** `String`'s order: lexicographic by code point, which is also the order of the UTF-8 bytes. */
  predicate Less(a: string, b: string) {
    |b| > 0 && (|a| == 0 || a[0] < b[0] || (a[0] == b[0] && Less(a[1..], b[1..])))
  }

  /** After their longest common prefix the first key ends, or has the smaller character. */
  ghost predicate DiffersAt(a: string, b: string, i: nat) {
    i <= |a| && i < |b| && a[..i] == b[..i] && (i == |a| || a[i] < b[i])
  }

  lemma {:induction false} LessIsLexicographic(a: string, b: string)
    ensures Less(a, b) <==> exists i: nat :: DiffersAt(a, b, i)
  {
    if |a| > 0 && |b| > 0 && a[0] == b[0] {
      LessIsLexicographic(a[1..], b[1..]);
      if i: nat :| DiffersAt(a[1..], b[1..], i) {
        assert a[..i + 1] == [a[0]] + a[1..][..i] && b[..i + 1] == [b[0]] + b[1..][..i];
        assert DiffersAt(a, b, i + 1);
      }
      if i: nat :| DiffersAt(a, b, i) {
        assert i > 0;
        assert a[1..][..i - 1] == a[..i][1..] && b[1..][..i - 1] == b[..i][1..];
        assert DiffersAt(a[1..], b[1..], i - 1);
      }
    } else {
      if Less(a, b) {
        assert DiffersAt(a, b, 0);
      }
      if i: nat :| DiffersAt(a, b, i) {
        assert i > 0 ==> a[..i][0] == b[..i][0];
      }
    }
  }

  lemma {:induction false} Irreflexive(a: string)
    ensures !Less(a, a)
  {
    if |a| > 0 {
      Irreflexive(a[1..]);
    }
  }

  lemma {:induction false} Transitive(a: string, b: string, c: string)
    requires Less(a, b) && Less(b, c)
    ensures Less(a, c)
  {
    if |a| > 0 && a[0] == b[0] == c[0] {
      Transitive(a[1..], b[1..], c[1..]);
    }
  }

  lemma {:induction false} Total(a: string, b: string)
    ensures a == b || Less(a, b) || Less(b, a)
  {
    if |a| > 0 && |b| > 0 && a[0] == b[0] {
      Total(a[1..], b[1..]);
      assert a == [a[0]] + a[1..] && b == [b[0]] + b[1..];
    }
  }

  ghost predicate Ascending(keys: seq<string>) {
    forall i, j :: 0 <= i < j < |keys| ==> Less(keys[i], keys[j])
  }

  /** Two ascending lists with the same keys are the same list. */
  lemma {:induction false} AscendingUnique(a: seq<string>, b: seq<string>)
    requires Ascending(a) && Ascending(b)
    requires forall k :: k in a <==> k in b
    ensures a == b
  {
    if |a| == 0 {
      EmptyOrHasKey(b);
    } else {
      assert a[0] in b && |b| > 0 && b[0] in a;
      var j :| 0 <= j < |b| && b[j] == a[0];
      var i :| 0 <= i < |a| && a[i] == b[0];
      if j > 0 && i > 0 {
        Transitive(a[0], a[i], a[0]);
        Irreflexive(a[0]);
        assert false;
      }
      assert a[0] == b[0];
      forall k
        ensures k in a[1..] <==> k in b[1..]
      {
        TailMembership(a, k);
        TailMembership(b, k);
      }
      AscendingUnique(a[1..], b[1..]);
      assert a == [a[0]] + a[1..] && b == [b[0]] + b[1..];
    }
  }

  lemma EmptyOrHasKey(keys: seq<string>)
    ensures keys == [] || exists k :: k in keys
  {
    if keys != [] {
      assert keys[0] in keys;
    }
  }

  lemma TailMembership(a: seq<string>, k: string)
    requires Ascending(a) && |a| > 0
    ensures k in a[1..] <==> k in a && k != a[0]
  {
    if k in a[1..] {
      Irreflexive(k);
    }
    assert a == [a[0]] + a[1..];
  }

  function InsertKey(keys: seq<string>, key: string): seq<string> {
    if |keys| == 0 then [key]
    else if Less(key, keys[0]) then [key] + keys
    else [keys[0]] + InsertKey(keys[1..], key)
  }

  /** `keys.sort()`. */
  function Sort(keys: seq<string>): seq<string> {
    if |keys| == 0 then [] else InsertKey(Sort(keys[..|keys| - 1]), keys[|keys| - 1])
  }

  lemma {:induction false} InsertKeyAscends(keys: seq<string>, key: string)
    requires Ascending(keys) && key !in keys
    ensures Ascending(InsertKey(keys, key))
    ensures forall k :: k in InsertKey(keys, key) <==> k == key || k in keys
  {
    if |keys| > 0 {
      if Less(key, keys[0]) {
        forall i | 0 < i < |keys|
          ensures Less(key, keys[i])
        {
          Transitive(key, keys[0], keys[i]);
        }
      } else {
        Total(key, keys[0]);
        InsertKeyAscends(keys[1..], key);
        assert keys == [keys[0]] + keys[1..];
        var rest := InsertKey(keys[1..], key);
        assert forall i :: 0 <= i < |rest| ==> rest[i] in rest;
        assert forall k :: k in rest ==> Less(keys[0], k);
      }
    }
  }

  lemma {:induction false} SortAscends(keys: seq<string>)
    requires forall i, j :: 0 <= i < j < |keys| ==> keys[i] != keys[j]
    ensures Ascending(Sort(keys))
    ensures forall k :: k in Sort(keys) <==> k in keys
  {
    if |keys| > 0 {
      var front := keys[..|keys| - 1];
      SortAscends(front);
      InsertKeyAscends(Sort(front), keys[|keys| - 1]);
      assert keys == front + [keys[|keys| - 1]];
    }
  }
}
