/**
 Which bytes the printer chooses: every string, number and value has many texts that read back as it, and the printed
 one is the shortest, with lower-case hex digits where an escape needs any.
 */
module ShortestJson {
  import opened Prelude
  import opened Decimal
  import opened Json
  import opened JsonText
  import opened KeyOrder
  import opened CanonicalJson

  // ---------- strings ----------

  /** A string that needs no escape is printed as it is. */
  lemma {:induction false} PlainIsPrintedAsIs(s: string)
    requires forall i :: 0 <= i < |s| ==> s[i] != '\"' && s[i] != '\\' && s[i] >= ' '
    ensures EscapeAll(s) == s
  {
    if s != [] {
      PlainIsPrintedAsIs(s[1..]);
      assert s == [s[0]] + s[1..];
    }
  }

  /** Strings are printed character by character. */
  lemma {:induction false} EscapeConcat(a: string, b: string)
    ensures EscapeAll(a + b) == EscapeAll(a) + EscapeAll(b)
  {
    hide EscapeChar;
    if a == [] {
      assert a + b == b;
    } else {
      EscapeConcat(a[1..], b);
      assert (a + b)[0] == a[0] && (a + b)[1..] == a[1..] + b;
    }
  }

  lemma EscapeOne(c: char)
    ensures EscapeAll([c]) == EscapeChar(c)
  {
    assert EscapeAll([c][1..]) == "";
  }

  /** Reading one character takes at least the text printed for it. */
  lemma OneCharCosts(s: string)
    requires s != [] && s[0] == '\\' && ReadEscape(s[1..]).Got?
    ensures |EscapeChar(ReadEscape(s[1..]).value)| + |ReadEscape(s[1..]).rest| <= |s|
  {
    hide HexCode, HexChar;
  }

  /** Whatever text reads as a string, up to and including its closing quote, is at least as long as the printed one. */
  lemma {:induction false} EscapedIsShortest(t: string)
    ensures ReadChars(t).Got? ==> |EscapeAll(ReadChars(t).value)| + 1 + |ReadChars(t).rest| <= |t|
    decreases |t|
  {
    hide EscapeChar, ReadEscape, HexCode;
    if t == [] || t[0] < 32 as char || t[0] == '\"' {
    } else if t[0] == '\\' {
      var r := ReadEscape(t[1..]);
      if r.Got? {
        EscapedIsShortest(r.rest);
        OneCharCosts(t);
        if ReadChars(r.rest).Got? {
          PrependCosts(r.value, ReadChars(r.rest));
        }
      }
    } else {
      EscapedIsShortest(t[1..]);
      RawIsShort(t[0]);
      if ReadChars(t[1..]).Got? {
        PrependCosts(t[0], ReadChars(t[1..]));
      }
    }
  }

  lemma RawIsShort(c: char)
    requires c >= ' ' && c != '\"' && c != '\\'
    ensures EscapeChar(c) == [c]
  {
  }

  lemma PrependCosts(c: char, r: Read<string>)
    requires r.Got?
    ensures EscapeAll(Prepend(c, r).value) == EscapeChar(c) + EscapeAll(r.value)
  {
    assert ([c] + r.value)[1..] == r.value;
  }

  predicate UpperHex(c: char) {
    'A' <= c <= 'F'
  }

  lemma LowerHexIsChosen(c: char)
    requires IsHex(c) && !UpperHex(c)
    ensures c == HexChar(HexValue(c))
  {
  }

  lemma HexEscapeIsChosen(x: string, c: char)
    requires |x| == 5 && x[0] == 'u' && ReadEscape(x + "\"") == Got(c, "\"") && |EscapeChar(c)| == 6
    requires forall i :: 1 <= i < 5 ==> !UpperHex(x[i])
    ensures "\\" + x == EscapeChar(c)
  {
    var s := x + "\"";
    var code := s[1..];
    assert code[0] == x[1] && code[1] == x[2] && code[2] == x[3] && code[3] == x[4];
    LowerHexIsChosen(x[1]);
    LowerHexIsChosen(x[2]);
    LowerHexIsChosen(x[3]);
    LowerHexIsChosen(x[4]);
    assert HexCode(code) == Some(c as int) && c < 32 as char;
    assert HexValue(x[1]) == 0 && HexValue(x[2]) == 0;
    assert HexValue(x[3]) == c as int / 16 && HexValue(x[4]) == c as int % 16;
    assert x == "u00" + [HexChar(c as int / 16), HexChar(c as int % 16)];
  }

  lemma EscapeIsChosen(x: string, c: char)
    requires ReadEscape(x + "\"") == Got(c, "\"")
    requires |EscapeChar(c)| == |x| + 1 && forall i :: 1 <= i < |x| ==> !UpperHex(x[i])
    ensures "\\" + x == EscapeChar(c)
  {
    hide HexCode, HexChar;
    var s := x + "\"";
    assert x != [] && s[0] == x[0];
    if |x| == 1 {
      assert x == [x[0]];
    } else {
      HexEscapeIsChosen(x, c);
    }
  }

  lemma ReadsNothing(s: string)
    requires ReadChars(s) == Got("", "")
    ensures s == "\""
  {
    hide ReadEscape;
    assert s == [s[0]] + s[1..];
  }

  lemma ReadsOne(t: string, c: char)
    requires ReadChars(t) == Got([c], "")
    ensures t != []
    ensures t[0] == '\\' ==> ReadEscape(t[1..]) == Got(c, "\"")
    ensures t[0] != '\\' ==> |t| == 2 && t[0] == c && c != '\"' && c >= ' '
  {
    hide ReadEscape, ReadChars, Prepend;
    var first, rest := ReadFirst(t);
    PrependsOne(first, ReadChars(rest), c);
    ReadsNothing(rest);
  }

  lemma ReadFirst(t: string) returns (first: char, rest: string)
    requires ReadChars(t).Got? && ReadChars(t).value != ""
    ensures t != [] && ReadChars(t) == Prepend(first, ReadChars(rest))
    ensures t[0] == '\\' ==> ReadEscape(t[1..]) == Got(first, rest)
    ensures t[0] != '\\' ==> first == t[0] && rest == t[1..] && t[0] != '\"' && t[0] >= ' '
  {
    hide ReadEscape;
    if t[0] == '\\' {
      first, rest := ReadEscape(t[1..]).value, ReadEscape(t[1..]).rest;
    } else {
      first, rest := t[0], t[1..];
    }
  }

  lemma PrependsOne(first: char, r: Read<string>, c: char)
    requires Prepend(first, r) == Got([c], "")
    ensures first == c && r == Got("", "")
  {
    assert ([first] + r.value)[0] == first;
  }

  lemma TailBeforeQuote(e: string)
    requires e != []
    ensures (e + "\"")[1..] == e[1..] + "\""
  {
  }

  lemma EscapedCharIsChosen(c: char, e: string)
    requires e != [] && e[0] == '\\' && ReadEscape(e[1..] + "\"") == Got(c, "\"")
    ensures |EscapeChar(c)| <= |e|
    ensures |e| == |EscapeChar(c)| && (forall i :: 2 <= i < |e| ==> !UpperHex(e[i])) ==> e == EscapeChar(c)
  {
    hide ReadEscape, EscapeChar, UpperHex;
    var t := e + "\"";
    TailBeforeQuote(e);
    OneCharCosts(t);
    if |e| == |EscapeChar(c)| && forall i :: 2 <= i < |e| ==> !UpperHex(e[i]) {
      assert forall i :: 1 <= i < |e[1..]| ==> e[1..][i] == e[i + 1];
      EscapeIsChosen(e[1..], c);
      assert e == "\\" + e[1..];
    }
  }

  lemma ReadsOneBeforeQuote(e: string, c: char)
    requires ReadChars(e + "\"") == Got([c], "")
    ensures e != []
    ensures e[0] == '\\' ==> ReadEscape(e[1..] + "\"") == Got(c, "\"")
    ensures e[0] != '\\' ==> |e| == 1 && e[0] == c && c != '\"' && c >= ' '
  {
    hide ReadEscape, ReadChars;
    ReadsOne(e + "\"", c);
    if e != [] {
      TailBeforeQuote(e);
    }
  }

  lemma RawCharIsChosen(c: char, e: string)
    requires |e| == 1 && e[0] == c && c != '\"' && c != '\\' && c >= ' '
    ensures e == EscapeChar(c)
  {
  }

  /** The text of one character is the only shortest one without upper-case hex digits that reads back as it. */
  lemma EscapeCharIsChosen(c: char, e: string)
    requires ReadChars(e + "\"") == Got([c], "")
    ensures |EscapeChar(c)| <= |e|
    ensures |e| == |EscapeChar(c)| && (forall i :: 2 <= i < |e| ==> !UpperHex(e[i])) ==> e == EscapeChar(c)
  {
    hide ReadEscape, EscapeChar, ReadChars, UpperHex;
    ReadsOneBeforeQuote(e, c);
    if e[0] == '\\' {
      EscapedCharIsChosen(c, e);
    } else {
      RawCharIsChosen(c, e);
    }
  }

  // ---------- numbers ----------

  /** Digits without a leading zero are the text of their number. */
  lemma {:induction false} DigitsAreText(d: string)
    requires d != [] && AllDigits(d) && (d[0] == '0' ==> |d| == 1)
    ensures NatText(DigitsValue(d)) == d
    ensures d[0] != '0' ==> DigitsValue(d) > 0
  {
    var front, last := d[..|d| - 1], d[|d| - 1];
    assert d == front + [last] && DigitChar(DigitValue(last)) == last;
    if front != [] {
      DigitsAreText(front);
      assert DigitsValue(d) / 10 == DigitsValue(front) && DigitsValue(d) % 10 == DigitValue(last);
    } else {
      assert DigitsValue(front) == 0;
    }
  }

  lemma IntIsShortest(s: string)
    ensures ReadInt(s).Got? ==> |IntText(ReadInt(s).value.n)| + |ReadInt(s).rest| <= |s|
  {
    hide NatText, DigitsValue, LeadingDigits;
    if ReadInt(s).Got? {
      var body := if s[0] == '-' then s[1..] else s;
      DigitsAreText(LeadingDigits(body));
    }
  }

  // ---------- values ----------

  function ItemTexts(items: seq<Json>): seq<string> {
    seq(|items|, i requires 0 <= i < |items| => Text(items[i]))
  }

  function MemberText(m: Member): string {
    Quote(m.key) + ":" + Text(m.value)
  }

  function MemberTexts(ms: seq<Member>): seq<string> {
    seq(|ms|, i requires 0 <= i < |ms| => MemberText(ms[i]))
  }

  /** The parts' lengths, each with the comma or bracket after it. */
  function Cost(parts: seq<string>): nat {
    if parts == [] then 0 else |parts[0]| + 1 + Cost(parts[1..])
  }

  lemma {:induction false} JoinCost(parts: seq<string>)
    requires parts != []
    ensures |JoinComma(parts)| + 1 == Cost(parts)
  {
    if |parts| > 1 {
      JoinCost(parts[1..]);
    } else {
      assert parts[1..] == [];
    }
  }

  lemma {:induction false} CostSnoc(parts: seq<string>, p: string)
    ensures Cost(parts + [p]) == Cost(parts) + |p| + 1
  {
    if parts == [] {
      assert ([] + [p])[1..] == [];
    } else {
      CostSnoc(parts[1..], p);
      assert (parts + [p])[1..] == parts[1..] + [p];
    }
  }

  lemma ArrCost(items: seq<Json>)
    requires items != []
    ensures |Text(Arr(items))| == 1 + Cost(ItemTexts(items))
  {
    hide Text, JoinComma, Cost;
    ArrText(Arr(items), ItemTexts(items));
    JoinCost(ItemTexts(items));
  }

  lemma ObjCost(ms: seq<Member>)
    requires ms != []
    ensures |Text(Obj(ms))| == 1 + Cost(MemberTexts(ms))
  {
    hide Text, JoinComma, Cost, Quote;
    var parts := MemberTexts(ms);
    assert parts == seq(|ms|, i requires 0 <= i < |ms| => Quote(ms[i].key) + ":" + Text(ms[i].value));
    ObjText(Obj(ms), parts);
    JoinCost(parts);
  }

  lemma {:induction false} PutCost(ms: seq<Member>, key: string, value: Json)
    ensures Put(ms, key, value) != []
    ensures Cost(MemberTexts(Put(ms, key, value))) <= Cost(MemberTexts(ms)) + |MemberText(Member(key, value))| + 1
  {
    hide MemberText;
    var r := Put(ms, key, value);
    assert MemberTexts(r)[1..] == MemberTexts(r[1..]);
    if ms == [] {
      assert MemberTexts(r[1..]) == [];
    } else {
      assert MemberTexts(ms)[1..] == MemberTexts(ms[1..]);
      if ms[0].key == key {
        assert r[1..] == ms[1..];
      } else {
        PutCost(ms[1..], key, value);
        assert r[1..] == Put(ms[1..], key, value);
      }
    }
  }

  lemma ScalarIsShortest(input: string, levels: nat)
    requires var s := SkipSpace(input); s == [] || (s[0] != '[' && s[0] != '{')
    ensures var r := ReadValue(input, levels); r.Got? ==> |Text(r.value)| + |r.rest| <= |input|
  {
    hide ReadChars, ReadItems, ReadMembers, ReadInt, EscapeAll, IntText;
    var s := SkipSpace(input);
    if s != [] {
      EscapedIsShortest(s[1..]);
      IntIsShortest(s);
    }
  }

  lemma EmptyTexts()
    ensures |Text(Arr([]))| == 2 && |Text(Obj([]))| == 2
  {
  }

  /** Whatever text reads as a value is at least as long as the printed one, read to the same place. */
  lemma {:induction false} ValueIsShortest(input: string, levels: nat)
    ensures var r := ReadValue(input, levels); r.Got? ==> |Text(r.value)| + |r.rest| <= |input|
    decreases |input|, 0
  {
    hide ReadChars, ReadItems, ReadMembers, ReadInt, ReadWord, Text;
    var s := SkipSpace(input);
    if s == [] || (s[0] != '[' && s[0] != '{') {
      ScalarIsShortest(input, levels);
    } else if levels > 0 {
      EmptyTexts();
      if s[0] == '[' {
        ItemsAreShortest(s[1..], levels - 1, []);
        assert Cost(ItemTexts([])) == 0;
      } else {
        MembersAreShortest(s[1..], levels - 1, []);
        assert Cost(MemberTexts([])) == 0;
      }
    }
  }

  lemma {:induction false} ItemsAreShortest(s: string, levels: nat, done: seq<Json>)
    requires WellFormed(Arr(done)) && Fits(Arr(done), levels + 1)
    ensures var r := ReadItems(s, levels, done);
            r.Got? ==> |Text(r.value)| + |r.rest| <= 1 + Cost(ItemTexts(done)) + |s|
    decreases |s|, 1
  {
    hide ReadValue, Text, Cost;
    var item := ReadValue(s, levels);
    if item.Got? {
      ValueIsShortest(s, levels);
      var more := done + [item.value];
      assert ItemTexts(more) == ItemTexts(done) + [Text(item.value)];
      CostSnoc(ItemTexts(done), Text(item.value));
      ArrCost(more);
      var t := SkipSpace(item.rest);
      if t != [] && t[0] == ',' {
        ItemsAreShortest(t[1..], levels, more);
      }
    }
  }

  lemma {:induction false} MembersAreShortest(input: string, levels: nat, done: seq<Member>)
    requires WellFormed(Obj(done)) && Fits(Obj(done), levels + 1)
    ensures var r := ReadMembers(input, levels, done);
            r.Got? ==> |Text(r.value)| + |r.rest| <= 1 + Cost(MemberTexts(done)) + |input|
    decreases |input|, 1
  {
    hide ReadValue, ReadChars, Text, Cost, Put;
    var s := SkipSpace(input);
    if s != [] && s[0] == '\"' && ReadChars(s[1..]).Got? {
      EscapedIsShortest(s[1..]);
      var key, afterKey := ReadChars(s[1..]).value, ReadChars(s[1..]).rest;
      var colon := SkipSpace(afterKey);
      if colon != [] && colon[0] == ':' && ReadValue(colon[1..], levels).Got? {
        ValueIsShortest(colon[1..], levels);
        var v, after := ReadValue(colon[1..], levels).value, ReadValue(colon[1..], levels).rest;
        PutKeepsShape(done, key, v, levels);
        PutCost(done, key, v);
        ObjCost(Put(done, key, v));
        var t := SkipSpace(after);
        if t != [] && t[0] == ',' {
          MembersAreShortest(t[1..], levels, Put(done, key, v));
        }
      }
    }
  }

  /** No text of a value is shorter than the printed one. */
  lemma TextIsShortest(t: string, v: Json, levels: nat)
    requires FromText(t, levels) == Some(v)
    ensures |Text(v)| <= |t|
  {
    ValueIsShortest(t, levels);
  }

  // ---------- canonical text ----------

  lemma {:induction false} SameLengthsSameCost(a: seq<string>, b: seq<string>)
    requires |a| == |b| && forall i :: 0 <= i < |a| ==> |a[i]| == |b[i]|
    ensures Cost(a) == Cost(b)
  {
    if a != [] {
      SameLengthsSameCost(a[1..], b[1..]);
    }
  }

  lemma {:induction false} TreeInsertCost(entries: seq<Member>, m: Member)
    requires forall i :: 0 <= i < |entries| ==> entries[i].key != m.key
    ensures TreeInsert(entries, m) != []
    ensures Cost(MemberTexts(TreeInsert(entries, m))) == Cost(MemberTexts(entries)) + |MemberText(m)| + 1
  {
    hide MemberText, Less;
    var r := TreeInsert(entries, m);
    assert MemberTexts(r)[1..] == MemberTexts(r[1..]);
    if entries == [] || Less(m.key, entries[0].key) {
      assert r[1..] == entries;
    } else {
      TreeInsertCost(entries[1..], m);
      assert MemberTexts(entries)[1..] == MemberTexts(entries[1..]);
      assert r[1..] == TreeInsert(entries[1..], m);
    }
  }

  lemma {:induction false} TreeCost(ms: seq<Member>)
    requires DistinctKeys(ms)
    ensures Cost(MemberTexts(Tree(ms))) == Cost(MemberTexts(ms)) && (ms != [] ==> Tree(ms) != [])
  {
    hide MemberText, TreeInsert, Cost;
    if ms != [] {
      var front, last := ms[..|ms| - 1], ms[|ms| - 1];
      TreeCost(front);
      TreeSorts(front);
      forall i | 0 <= i < |Tree(front)|
        ensures Tree(front)[i].key != last.key
      {
        assert Tree(front)[i] in front;
      }
      TreeInsertCost(Tree(front), last);
      assert MemberTexts(ms) == MemberTexts(front) + [MemberText(last)];
      CostSnoc(MemberTexts(front), MemberText(last));
    }
  }

  /** Sorting members changes the order of the bytes, not their number. */
  lemma {:induction false} CanonicalLength(v: Json)
    requires WellFormed(v)
    ensures |Text(Canonical(v))| == |Text(v)|
  {
    hide Text, Tree, Cost;
    match v
    case Arr(items) =>
      var inner := Canonical(v).items;
      forall i | 0 <= i < |items|
        ensures |ItemTexts(inner)[i]| == |ItemTexts(items)[i]|
      {
        CanonicalLength(items[i]);
      }
      SameLengthsSameCost(ItemTexts(inner), ItemTexts(items));
      if items != [] {
        ArrCost(items);
        ArrCost(inner);
      }
    case Obj(ms) =>
      var inner := seq(|ms|, i requires 0 <= i < |ms| => Member(ms[i].key, Canonical(ms[i].value)));
      forall i | 0 <= i < |ms|
        ensures |MemberTexts(inner)[i]| == |MemberTexts(ms)[i]|
      {
        CanonicalLength(ms[i].value);
      }
      SameLengthsSameCost(MemberTexts(inner), MemberTexts(ms));
      TreeCost(inner);
      if ms != [] {
        ObjCost(ms);
        ObjCost(Tree(inner));
      } else {
        NoMembers(inner);
      }
    case _ =>
  }

  lemma NoMembers(ms: seq<Member>)
    requires ms == []
    ensures Tree(ms) == []
  {
  }

  /** Among all texts of all values equal to it up to member order, none is shorter than a value's canonical text. */
  lemma CanonicalTextIsShortest(t: string, v: Json, levels: nat)
    requires WellFormed(v)
    ensures FromText(t, levels).Some? && Equivalent(FromText(t, levels).value, v) ==> |CanonicalText(v)| <= |t|
  {
    hide FromText, Equivalent, Text, Canonical;
    var read := FromText(t, levels);
    if read.Some? && Equivalent(read.value, v) {
      CanonicalDecides(read.value, v);
      CanonicalLength(read.value);
      TextIsShortest(t, read.value, levels);
    }
  }
}
