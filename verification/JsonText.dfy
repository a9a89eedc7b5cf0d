/**
 The compact text of a JSON value (`serde_json::to_string`) and a reader for it (`serde_json::from_str`),
 with string escaping as in section 7 of RFC 8259. The reader takes the nesting bound of its parser as a
 parameter. The round trip at the end says that the text of a value can be read back in only one way.
 */
module JsonText {
  import opened Prelude
  import opened Decimal
  import opened Json

  // ---------- printing ----------

  function HexChar(d: nat): (c: char)
    requires d < 16
    ensures IsHex(c) && HexValue(c) == d
  {
    if d < 10 then ('0' as int + d) as char else ('a' as int + d - 10) as char
  }

  function EscapeChar(c: char): string {
    if c == '\"' then "\\\""
    else if c == '\\' then "\\\\"
    else if c == 8 as char then "\\b"
    else if c == 9 as char then "\\t"
    else if c == 10 as char then "\\n"
    else if c == 12 as char then "\\f"
    else if c == 13 as char then "\\r"
    else if c < 32 as char then "\\u00" + [HexChar(c as int / 16), HexChar(c as int % 16)]
    else [c]
  }

  function EscapeAll(s: string): string {
    if s == [] then "" else EscapeChar(s[0]) + EscapeAll(s[1..])
  }

  function Quote(s: string): (q: string)
    ensures |q| > 0 && q[0] == '\"'
  {
    "\"" + EscapeAll(s) + "\""
  }

  function IntText(n: int): (s: string)
    ensures |s| > 0 && (s[0] == '-' || IsDigit(s[0]))
  {
    if n < 0 then "-" + NatText(-n) else NatText(n)
  }

  predicate StartsValue(c: char) {
    c in "ntf\"-[{" || IsDigit(c)
  }

  /** `serde_json::to_string(value)`. */
  function Text(v: Json): (t: string)
    ensures |t| > 0 && StartsValue(t[0])
  {
    match v
    case Null => "null"
    case Bool(b) => if b then "true" else "false"
    case Num(n) => IntText(n)
    case Str(s) => Quote(s)
    case Arr(items) =>
      "[" + JoinComma(seq(|items|, i requires 0 <= i < |items| => Text(items[i]))) + "]"
    case Obj(ms) =>
      "{" + JoinComma(seq(|ms|, i requires 0 <= i < |ms| => Quote(ms[i].key) + ":" + Text(ms[i].value))) + "}"
  }

  // ---------- reading ----------

  datatype Read<+T> = Bad | Got(value: T, rest: string)

  predicate IsSpace(c: char) {
    c == ' ' || c == '\t' || c == '\n' || c == '\r'
  }

  function SkipSpace(s: string): (r: string)
    ensures |r| <= |s|
    ensures s == [] || !IsSpace(s[0]) ==> r == s
  {
    if s != [] && IsSpace(s[0]) then SkipSpace(s[1..]) else s
  }

  predicate IsHex(c: char) {
    '0' <= c <= '9' || 'a' <= c <= 'f' || 'A' <= c <= 'F'
  }

  function HexValue(c: char): (d: nat)
    requires IsHex(c)
    ensures d < 16
  {
    if c <= '9' then c as int - '0' as int
    else if c <= 'F' then c as int - 'A' as int + 10
    else c as int - 'a' as int + 10
  }

  /** The four hex digits of a `\u` escape. */
  function HexCode(s: string): (r: Option<nat>)
    ensures r.Some? ==> |s| >= 4 && r.value < 0x1_0000
  {
    if |s| >= 4 && IsHex(s[0]) && IsHex(s[1]) && IsHex(s[2]) && IsHex(s[3]) then
      Some(HexValue(s[0]) * 4096 + HexValue(s[1]) * 256 + HexValue(s[2]) * 16 + HexValue(s[3]))
    else None
  }

  /** What follows a backslash. A high surrogate must be followed by an escaped low one. */
  function ReadEscape(s: string): (r: Read<char>)
    ensures r.Got? ==> |r.rest| < |s|
  {
    if s == [] then Bad
    else if s[0] == '\"' || s[0] == '\\' || s[0] == '/' then Got(s[0], s[1..])
    else if s[0] == 'b' then Got(8 as char, s[1..])
    else if s[0] == 't' then Got(9 as char, s[1..])
    else if s[0] == 'n' then Got(10 as char, s[1..])
    else if s[0] == 'f' then Got(12 as char, s[1..])
    else if s[0] == 'r' then Got(13 as char, s[1..])
    else if s[0] == 'u' then
      match HexCode(s[1..])
      case None => Bad
      case Some(n) =>
        if n < 0xD800 || 0xE000 <= n then Got(n as char, s[5..])
        else if n < 0xDC00 && |s| > 6 && s[5] == '\\' && s[6] == 'u' then
          match HexCode(s[7..])
          case Some(m) =>
            if 0xDC00 <= m < 0xE000 then Got((0x1_0000 + (n - 0xD800) * 0x400 + (m - 0xDC00)) as char, s[11..]) else Bad
          case None => Bad
        else Bad
    else Bad
  }

  /** The characters of a string, from after its opening quote to after its closing one. */
  function ReadChars(s: string): (r: Read<string>)
    ensures r.Got? ==> |r.rest| < |s|
    decreases |s|
  {
    if s == [] || s[0] < 32 as char then Bad
    else if s[0] == '\"' then Got("", s[1..])
    else if s[0] == '\\' then
      match ReadEscape(s[1..])
      case Bad => Bad
      case Got(c, rest) => Prepend(c, ReadChars(rest))
    else Prepend(s[0], ReadChars(s[1..]))
  }

  function Prepend(c: char, r: Read<string>): Read<string> {
    match r
    case Bad => Bad
    case Got(text, rest) => Got([c] + text, rest)
  }

  predicate ContinuesNumber(c: char) {
    IsDigit(c) || c == '.' || c == 'e' || c == 'E'
  }

  /** An integer in the range serde_json keeps exactly; a fraction, an exponent and `-0` are floats. */
  function ReadInt(s: string): (r: Read<Json>)
    ensures r.Got? ==> |r.rest| < |s| && r.value.Num? && WellFormed(r.value)
  {
    var negative := s != [] && s[0] == '-';
    var body := if negative then s[1..] else s;
    var digits := LeadingDigits(body);
    var rest := body[|digits|..];
    if |digits| == 0 || (|digits| > 1 && digits[0] == '0') || (rest != [] && ContinuesNumber(rest[0])) then Bad
    else
      var size := DigitsValue(digits);
      var n: int := if negative then -(size as int) else size;
      if (negative && size == 0) || !(MIN_INT <= n <= MAX_INT) then Bad else Got(Num(n), rest)
  }

  function ReadWord(s: string, word: string, v: Json): (r: Read<Json>)
    requires |word| > 0
    ensures r.Got? ==> |r.rest| < |s| && r.value == v
  {
    if word <= s then Got(v, s[|word|..]) else Bad
  }

  function ReadValue(input: string, levels: nat): (r: Read<Json>)
    ensures r.Got? ==> |r.rest| < |input| && WellFormed(r.value) && Fits(r.value, levels)
    decreases |input|, 0
  {
    var s := SkipSpace(input);
    if s == [] then Bad
    else if s[0] == 'n' then ReadWord(s, "null", Null)
    else if s[0] == 't' then ReadWord(s, "true", Bool(true))
    else if s[0] == 'f' then ReadWord(s, "false", Bool(false))
    else if s[0] == '\"' then
      match ReadChars(s[1..])
      case Bad => Bad
      case Got(text, rest) => Got(Str(text), rest)
    else if s[0] == '-' || IsDigit(s[0]) then ReadInt(s)
    else if levels == 0 then Bad
    else if s[0] == '[' then
      var t := SkipSpace(s[1..]);
      if t != [] && t[0] == ']' then Got(Arr([]), t[1..]) else ReadItems(s[1..], levels - 1, [])
    else if s[0] == '{' then
      var t := SkipSpace(s[1..]);
      if t != [] && t[0] == '}' then Got(Obj([]), t[1..]) else ReadMembers(s[1..], levels - 1, [])
    else Bad
  }

  function ReadItems(s: string, levels: nat, done: seq<Json>): (r: Read<Json>)
    requires WellFormed(Arr(done)) && Fits(Arr(done), levels + 1)
    ensures r.Got? ==> |r.rest| < |s| && WellFormed(r.value) && Fits(r.value, levels + 1)
    decreases |s|, 1
  {
    match ReadValue(s, levels)
    case Bad => Bad
    case Got(v, after) =>
      var t := SkipSpace(after);
      if t == [] then Bad
      else if t[0] == ',' then ReadItems(t[1..], levels, done + [v])
      else if t[0] == ']' then Got(Arr(done + [v]), t[1..])
      else Bad
  }

  function ReadMembers(input: string, levels: nat, done: seq<Member>): (r: Read<Json>)
    requires WellFormed(Obj(done)) && Fits(Obj(done), levels + 1)
    ensures r.Got? ==> |r.rest| < |input| && WellFormed(r.value) && Fits(r.value, levels + 1)
    decreases |input|, 1
  {
    var s := SkipSpace(input);
    if s == [] || s[0] != '\"' then Bad
    else
      match ReadChars(s[1..])
      case Bad => Bad
      case Got(key, afterKey) =>
        var colon := SkipSpace(afterKey);
        if colon == [] || colon[0] != ':' then Bad
        else
          match ReadValue(colon[1..], levels)
          case Bad => Bad
          case Got(v, after) =>
            var members := Put(done, key, v);
            var t := SkipSpace(after);
            PutKeepsShape(done, key, v, levels);
            if t == [] then Bad
            else if t[0] == ',' then ReadMembers(t[1..], levels, members)
            else if t[0] == '}' then Got(Obj(members), t[1..])
            else Bad
  }

  lemma PutKeepsShape(ms: seq<Member>, key: string, v: Json, levels: nat)
    requires WellFormed(Obj(ms)) && Fits(Obj(ms), levels + 1)
    requires WellFormed(v) && Fits(v, levels)
    ensures WellFormed(Obj(Put(ms, key, v))) && Fits(Obj(Put(ms, key, v)), levels + 1)
  {
    var r := Put(ms, key, v);
    forall i | 0 <= i < |r|
      ensures WellFormed(r[i].value) && Fits(r[i].value, levels)
    {
      assert r[i] in ms || r[i] == Member(key, v);
    }
  }

  /** `serde_json::from_str(text)`: one value and nothing but white space after it. */
  function FromText(text: string, levels: nat): (r: Option<Json>)
    ensures r.Some? ==> WellFormed(r.value) && Fits(r.value, levels)
  {
    match ReadValue(text, levels)
    case Got(v, rest) => if SkipSpace(rest) == [] then Some(v) else None
    case Bad => None
  }

  // ---------- reading what was printed ----------

  lemma ReadHexEscape(c: char, rest: string)
    requires c < 32 as char
    ensures ReadEscape("u00" + [HexChar(c as int / 16), HexChar(c as int % 16)] + rest) == Got(c, rest)
  {
    var hi, lo := c as int / 16, c as int % 16;
    var s := "u00" + [HexChar(hi), HexChar(lo)] + rest;
    var code := s[1..];
    assert code[0] == code[1] == '0' && code[2] == HexChar(hi) && code[3] == HexChar(lo);
    assert HexCode(code) == Some(hi * 16 + lo);
    assert s[5..] == rest;
  }

  lemma ReadEscapeOf(c: char, rest: string)
    requires EscapeChar(c) != [c]
    ensures EscapeChar(c)[0] == '\\' && ReadEscape((EscapeChar(c) + rest)[1..]) == Got(c, rest)
  {
    hide HexCode, HexChar;
    var t := (EscapeChar(c) + rest)[1..];
    if |EscapeChar(c)| == 2 {
      assert t[1..] == rest;
    } else {
      ReadHexEscape(c, rest);
      assert t == "u00" + [HexChar(c as int / 16), HexChar(c as int % 16)] + rest;
    }
  }

  lemma ReadEscapedChar(c: char, rest: string)
    ensures ReadChars(EscapeChar(c) + rest) == Prepend(c, ReadChars(rest))
  {
    hide HexCode, HexChar, ReadEscape;
    var t := EscapeChar(c) + rest;
    if EscapeChar(c) == [c] {
      assert t[1..] == rest;
    } else {
      ReadEscapeOf(c, rest);
    }
  }

  lemma ReadClosingQuote(rest: string)
    ensures ReadChars("\"" + rest) == Got("", rest)
  {
  }

  lemma {:induction false} ReadEscaped(text: string, rest: string)
    ensures ReadChars(EscapeAll(text) + "\"" + rest) == Got(text, rest)
  {
    hide EscapeChar, ReadChars;
    var tail := "\"" + rest;
    assert EscapeAll(text) + "\"" + rest == EscapeAll(text) + tail;
    if text == [] {
      assert EscapeAll(text) + tail == tail;
      ReadClosingQuote(rest);
    } else {
      ReadEscaped(text[1..], rest);
      assert EscapeAll(text[1..]) + "\"" + rest == EscapeAll(text[1..]) + tail;
      assert EscapeAll(text) + tail == EscapeChar(text[0]) + (EscapeAll(text[1..]) + tail);
      ReadEscapedChar(text[0], EscapeAll(text[1..]) + tail);
      assert [text[0]] + text[1..] == text;
    }
  }

  lemma ReadQuoted(text: string, rest: string)
    ensures |Quote(text) + rest| > 0 && (Quote(text) + rest)[0] == '\"'
    ensures ReadChars((Quote(text) + rest)[1..]) == Got(text, rest)
  {
    hide ReadChars, EscapeAll;
    ReadEscaped(text, rest);
    assert (Quote(text) + rest)[1..] == EscapeAll(text) + "\"" + rest;
  }

  lemma ReadPrintedInt(n: int, rest: string)
    requires MIN_INT <= n <= MAX_INT
    requires rest == [] || !ContinuesNumber(rest[0])
    ensures ReadInt(IntText(n) + rest) == Got(Num(n), rest)
  {
    hide NatText, DigitsValue, LeadingDigits;
    var size := if n < 0 then -n else n;
    var digits := NatText(size);
    var s := IntText(n) + rest;
    var body := if n < 0 then s[1..] else s;
    assert body == digits + rest;
    LeadingDigitsOfPrefix(digits, rest);
    NatTextRoundTrip(size);
    assert body[|digits|..] == rest;
  }

  // ---------- white space ----------

  predicate Spaces(s: string) {
    forall i :: 0 <= i < |s| ==> IsSpace(s[i])
  }

  /** A value's text with the given white space between any two tokens. */
  function Spaced(v: Json, sp: string): (t: string)
    ensures |t| > 0 && StartsValue(t[0])
  {
    match v
    case Arr(items) =>
      if items == [] then "[" + sp + "]"
      else "[" + JoinComma(seq(|items|, i requires 0 <= i < |items| => sp + Spaced(items[i], sp) + sp)) + "]"
    case Obj(ms) =>
      if ms == [] then "{" + sp + "}"
      else
        var parts := seq(|ms|, i requires 0 <= i < |ms| => SpacedMember(ms[i].key, Spaced(ms[i].value, sp), sp));
        "{" + JoinComma(parts) + "}"
    case _ => Text(v)
  }

  function SpacedMember(key: string, value: string, sp: string): string {
    sp + Quote(key) + sp + ":" + sp + value + sp
  }

  lemma {:induction false} SkipSpaces(sp: string, t: string)
    requires Spaces(sp) && (t == [] || !IsSpace(t[0]))
    ensures SkipSpace(sp + t) == t
  {
    if sp == [] {
      assert sp + t == t;
    } else {
      SkipSpaces(sp[1..], t);
      assert (sp + t)[1..] == sp[1..] + t;
    }
  }

  lemma ValueStarts(c: char)
    ensures StartsValue(c) ==> !IsSpace(c) && c != ']' && c != '}'
    ensures IsSpace(c) || c in "],}:" ==> !ContinuesNumber(c)
  {
  }

  /** What follows white space or closes a value does not continue a number. */
  lemma SpaceEndsNumber(sp: string, t: string)
    requires Spaces(sp) && t != [] && t[0] in "],}:"
    ensures !ContinuesNumber((sp + t)[0])
  {
    ValueStarts((sp + t)[0]);
  }

  /** Reading skips white space before a value. */
  lemma ReadAfterSpace(sp: string, t: string, levels: nat)
    requires Spaces(sp) && t != [] && !IsSpace(t[0])
    ensures ReadValue(sp + t, levels) == ReadValue(t, levels)
  {
    hide ReadItems, ReadMembers, ReadChars, ReadInt, ReadWord;
    SkipSpaces(sp, t);
  }

  // ---------- reading what was printed ----------

  /** A value's text, with any white space between its tokens, is read in only one way whatever follows it. */
  lemma {:induction false} ReadSpaced(v: Json, sp: string, levels: nat, rest: string)
    requires WellFormed(v) && Fits(v, levels) && Spaces(sp)
    requires rest == [] || !ContinuesNumber(rest[0])
    ensures ReadValue(Spaced(v, sp) + rest, levels) == Got(v, rest)
    decreases v, 3
  {
    match v
    case Arr(_) => ReadSpacedArr(v, sp, levels, rest);
    case Obj(_) => ReadSpacedObj(v, sp, levels, rest);
    case _ => ReadPrintedScalar(v, levels, rest);
  }

  lemma ReadPrintedScalar(v: Json, levels: nat, rest: string)
    requires WellFormed(v) && !v.Arr? && !v.Obj?
    requires rest == [] || !ContinuesNumber(rest[0])
    ensures ReadValue(Text(v) + rest, levels) == Got(v, rest)
  {
    hide ReadChars, ReadItems, ReadMembers, ReadInt, Quote, IntText;
    var s := Text(v) + rest;
    assert s[|Text(v)|..] == rest;
    match v
    case Num(n) => ReadPrintedInt(n, rest);
    case Str(text) => ReadQuoted(text, rest);
    case _ =>
  }

  lemma ArrText(v: Json, parts: seq<string>)
    requires v.Arr? && parts == seq(|v.items|, i requires 0 <= i < |v.items| => Text(v.items[i]))
    ensures Text(v) == "[" + JoinComma(parts) + "]"
  {
  }

  lemma ObjText(v: Json, parts: seq<string>)
    requires v.Obj?
    requires parts == seq(|v.members|, i requires 0 <= i < |v.members| =>
                        Quote(v.members[i].key) + ":" + Text(v.members[i].value))
    ensures Text(v) == "{" + JoinComma(parts) + "}"
  {
  }

  ghost predicate SpacedItems(v: Json, sp: string, parts: seq<string>) {
    v.Arr? && |parts| == |v.items| && forall i :: 0 <= i < |parts| ==> parts[i] == sp + Spaced(v.items[i], sp) + sp
  }

  ghost predicate SpacedMembers(v: Json, sp: string, parts: seq<string>) {
    && v.Obj? && |parts| == |v.members|
    && forall i :: 0 <= i < |parts| ==>
         parts[i] == SpacedMember(v.members[i].key, Spaced(v.members[i].value, sp), sp)
  }

  lemma SpacedArrText(v: Json, sp: string, parts: seq<string>, rest: string)
    requires SpacedItems(v, sp, parts) && parts != []
    ensures Spaced(v, sp) + rest == "[" + (JoinComma(parts) + ("]" + rest))
  {
    assert parts == seq(|v.items|, i requires 0 <= i < |v.items| => sp + Spaced(v.items[i], sp) + sp);
  }

  lemma SpacedObjText(v: Json, sp: string, parts: seq<string>, rest: string)
    requires SpacedMembers(v, sp, parts) && parts != []
    ensures Spaced(v, sp) + rest == "{" + (JoinComma(parts) + ("}" + rest))
  {
    hide SpacedMember;
    var ms := v.members;
    assert parts == seq(|ms|, i requires 0 <= i < |ms| => SpacedMember(ms[i].key, Spaced(ms[i].value, sp), sp));
  }

  /** The first part of a list is reached past the white space before it. */
  lemma SkipToPart(parts: seq<string>, tail: string, sp: string, body: string)
    requires parts != [] && Spaces(sp) && body != [] && !IsSpace(body[0]) && parts[0] == sp + body
    ensures SkipSpace(JoinComma(parts) + tail) != [] && SkipSpace(JoinComma(parts) + tail)[0] == body[0]
  {
    hide Spaces, SkipSpace;
    var more := if |parts| == 1 then tail else "," + JoinComma(parts[1..]) + tail;
    assert JoinComma(parts) + tail == sp + (body + more);
    SkipSpaces(sp, body + more);
  }

  lemma ReadOpened(inside: string, levels: nat)
    requires levels > 0
    ensures ReadValue("[" + inside, levels) ==
            var t := SkipSpace(inside);
            if t != [] && t[0] == ']' then Got(Arr([]), t[1..]) else ReadItems(inside, levels - 1, [])
    ensures ReadValue("{" + inside, levels) ==
            var t := SkipSpace(inside);
            if t != [] && t[0] == '}' then Got(Obj([]), t[1..]) else ReadMembers(inside, levels - 1, [])
  {
    hide ReadItems, ReadMembers, SkipSpace, ReadChars, ReadInt, ReadWord;
    assert ("[" + inside)[1..] == inside && ("{" + inside)[1..] == inside;
    assert SkipSpace("[" + inside) == "[" + inside && SkipSpace("{" + inside) == "{" + inside;
  }

  lemma ReadEmpty(sp: string, levels: nat, rest: string)
    requires levels > 0 && Spaces(sp)
    ensures ReadValue(Spaced(Arr([]), sp) + rest, levels) == Got(Arr([]), rest)
    ensures ReadValue(Spaced(Obj([]), sp) + rest, levels) == Got(Obj([]), rest)
  {
    hide ReadItems, ReadMembers, ReadValue, SkipSpace, Spaces;
    var bracket, brace := "]" + rest, "}" + rest;
    assert Spaced(Arr([]), sp) + rest == "[" + (sp + bracket) && bracket[1..] == rest;
    assert Spaced(Obj([]), sp) + rest == "{" + (sp + brace) && brace[1..] == rest;
    ReadOpened(sp + bracket, levels);
    ReadOpened(sp + brace, levels);
    SkipSpaces(sp, bracket);
    SkipSpaces(sp, brace);
  }

  lemma {:induction false} ReadSpacedArr(v: Json, sp: string, levels: nat, rest: string)
    requires WellFormed(v) && Fits(v, levels) && v.Arr? && Spaces(sp)
    ensures ReadValue(Spaced(v, sp) + rest, levels) == Got(v, rest)
    decreases v, 2
  {
    hide ReadItems, ReadValue, SkipSpace, Spaces, Spaced, StartsValue, JoinComma;
    if v.items == [] {
      ReadEmpty(sp, levels, rest);
    } else {
      var parts := seq(|v.items|, i requires 0 <= i < |v.items| => sp + Spaced(v.items[i], sp) + sp);
      SpacedArrText(v, sp, parts, rest);
      ReadOpened(JoinComma(parts) + ("]" + rest), levels);
      ReadSpacedItems(v, sp, levels - 1, 0, parts, rest);
      assert parts[0..] == parts && v.items[..0] == [];
      var body := Spaced(v.items[0], sp) + sp;
      ValueStarts(body[0]);
      assert parts[0] == sp + body;
      SkipToPart(parts, "]" + rest, sp, body);
    }
  }

  lemma {:induction false} ReadSpacedItems(v: Json, sp: string, levels: nat, k: nat, parts: seq<string>, rest: string)
    requires WellFormed(v) && Fits(v, levels + 1) && v.Arr? && k < |v.items| && Spaces(sp)
    requires SpacedItems(v, sp, parts)
    ensures ReadItems(JoinComma(parts[k..]) + ("]" + rest), levels, v.items[..k]) == Got(v, rest)
    decreases v, 1, |v.items| - k
  {
    hide Spaced, ReadValue, Spaces;
    var items := v.items;
    assert items[..k] + [items[k]] == items[..k + 1];
    var s := JoinComma(parts[k..]) + ("]" + rest);
    assert parts[k..][0] == parts[k];
    if k + 1 == |items| {
      var after := "]" + rest;
      assert s == parts[k] + after;
      ReadSpacedItem(items[k], sp, levels, parts[k], after);
      assert after[1..] == rest;
      assert items[..k + 1] == items;
    } else {
      assert parts[k..][1..] == parts[k + 1..];
      var more := JoinComma(parts[k + 1..]) + ("]" + rest);
      var after := "," + more;
      assert s == parts[k] + after;
      ReadSpacedItem(items[k], sp, levels, parts[k], after);
      assert after[1..] == more;
      ReadSpacedItems(v, sp, levels, k + 1, parts, rest);
    }
  }

  lemma {:induction false} ReadSpacedItem(v: Json, sp: string, levels: nat, part: string, after: string)
    requires WellFormed(v) && Fits(v, levels) && Spaces(sp) && part == sp + Spaced(v, sp) + sp
    requires after != [] && after[0] in "],}:"
    ensures ReadValue(part + after, levels) == Got(v, sp + after) && SkipSpace(sp + after) == after
    decreases v, 4
  {
    hide Spaced, ReadValue, Spaces;
    var tail := sp + after;
    assert part + after == sp + (Spaced(v, sp) + tail);
    SpaceEndsNumber(sp, after);
    ReadSpaced(v, sp, levels, tail);
    ValueStarts(Spaced(v, sp)[0]);
    ReadAfterSpace(sp, Spaced(v, sp) + tail, levels);
    SkipSpaces(sp, after);
  }

  lemma {:induction false} ReadSpacedObj(v: Json, sp: string, levels: nat, rest: string)
    requires WellFormed(v) && Fits(v, levels) && v.Obj? && Spaces(sp)
    ensures ReadValue(Spaced(v, sp) + rest, levels) == Got(v, rest)
    decreases v, 2
  {
    hide ReadMembers, ReadValue, SkipSpace, Spaces, Spaced, StartsValue, JoinComma, SpacedMember;
    var ms := v.members;
    if ms == [] {
      ReadEmpty(sp, levels, rest);
    } else {
      var parts := seq(|ms|, i requires 0 <= i < |ms| => SpacedMember(ms[i].key, Spaced(ms[i].value, sp), sp));
      SpacedObjText(v, sp, parts, rest);
      ReadOpened(JoinComma(parts) + ("}" + rest), levels);
      ReadSpacedMembers(v, sp, levels - 1, 0, parts, rest);
      assert parts[0..] == parts && ms[..0] == [];
      var body := MemberStarts(ms[0].key, Spaced(ms[0].value, sp), sp);
      SkipToPart(parts, "}" + rest, sp, body);
    }
  }

  lemma MemberStarts(key: string, value: string, sp: string) returns (body: string)
    ensures SpacedMember(key, value, sp) == sp + body && body != [] && body[0] == '\"'
  {
    hide Quote;
    body := Quote(key) + (sp + ":" + sp + value + sp);
  }

  lemma {:induction false} ReadSpacedMembers(v: Json, sp: string, levels: nat, k: nat, parts: seq<string>, rest: string)
    requires WellFormed(v) && Fits(v, levels + 1) && v.Obj? && k < |v.members| && Spaces(sp)
    requires SpacedMembers(v, sp, parts)
    ensures ReadMembers(JoinComma(parts[k..]) + ("}" + rest), levels, v.members[..k]) == Got(v, rest)
    decreases v, 1, |v.members| - k
  {
    hide Spaced, ReadValue, ReadMembers, SpacedMember, Put, Spaces;
    var ms := v.members;
    var m := ms[k];
    assert m.key !in KeySet(ms[..k]) && ms[..k] + [m] == ms[..k + 1];
    var s := JoinComma(parts[k..]) + ("}" + rest);
    assert parts[k..][0] == parts[k];
    if k + 1 == |ms| {
      var after := "}" + rest;
      assert after[1..] == rest && s == parts[k] + after;
      ReadSpacedMember(parts[k], m, sp, levels, after, ms[..k]);
      assert ms[..k + 1] == ms;
    } else {
      assert parts[k..][1..] == parts[k + 1..];
      var more := JoinComma(parts[k + 1..]) + ("}" + rest);
      var after := "," + more;
      assert after[1..] == more && s == parts[k] + after;
      ReadSpacedMember(parts[k], m, sp, levels, after, ms[..k]);
      ReadSpacedMembers(v, sp, levels, k + 1, parts, rest);
    }
  }

  lemma {:induction false} ReadSpacedMember(part: string, m: Member, sp: string, levels: nat, after: string,
                                            done: seq<Member>)
    requires WellFormed(Obj(done)) && Fits(Obj(done), levels + 1) && Spaces(sp)
    requires WellFormed(m.value) && Fits(m.value, levels)
    requires after != [] && (after[0] == ',' || after[0] == '}')
    requires part == SpacedMember(m.key, Spaced(m.value, sp), sp)
    ensures WellFormed(Obj(Put(done, m.key, m.value))) && Fits(Obj(Put(done, m.key, m.value)), levels + 1)
    ensures ReadMembers(part + after, levels, done) ==
            if after[0] == ',' then ReadMembers(after[1..], levels, Put(done, m.key, m.value))
            else Got(Obj(Put(done, m.key, m.value)), after[1..])
    decreases m.value, 5
  {
    hide Spaced, ReadValue, Quote, ReadChars, Put, Spaces, SkipSpace;
    var value := sp + Spaced(m.value, sp) + sp;
    var colon := ":" + (value + after);
    var tail := sp + colon;
    assert part + after == sp + (Quote(m.key) + tail);
    SkipSpaces(sp, Quote(m.key) + tail);
    ReadQuoted(m.key, tail);
    SkipSpaces(sp, colon);
    assert colon[1..] == value + after;
    ReadSpacedItem(m.value, sp, levels, value, after);
    PutKeepsShape(done, m.key, m.value, levels);
  }

  /** Without white space, the text is the printed one. */
  lemma {:induction false} SpacedByNothing(v: Json)
    ensures Spaced(v, "") == Text(v)
  {
    match v
    case Arr(items) =>
      var parts := seq(|items|, i requires 0 <= i < |items| => Text(items[i]));
      forall i | 0 <= i < |items|
        ensures parts[i] == "" + Spaced(items[i], "") + ""
      {
        SpacedByNothing(items[i]);
      }
      ArrText(v, parts);
      if items != [] {
        SpacedArrText(v, "", parts, "");
        assert Spaced(v, "") + "" == Spaced(v, "") && Text(v) + "" == Text(v);
        assert JoinComma(parts) + ("]" + "") == JoinComma(parts) + "]";
      }
    case Obj(ms) =>
      var parts := seq(|ms|, i requires 0 <= i < |ms| => Quote(ms[i].key) + ":" + Text(ms[i].value));
      forall i | 0 <= i < |ms|
        ensures parts[i] == SpacedMember(ms[i].key, Spaced(ms[i].value, ""), "")
      {
        SpacedByNothing(ms[i].value);
        MemberSpacedByNothing(ms[i].key, Text(ms[i].value));
      }
      ObjText(v, parts);
      if ms != [] {
        SpacedObjText(v, "", parts, "");
        assert Spaced(v, "") + "" == Spaced(v, "") && Text(v) + "" == Text(v);
        assert JoinComma(parts) + ("}" + "") == JoinComma(parts) + "}";
      }
    case _ =>
  }

  lemma MemberSpacedByNothing(key: string, value: string)
    ensures SpacedMember(key, value, "") == Quote(key) + ":" + value
  {
    hide Quote;
  }

  /** A value's text can be read back in only one way, whatever text follows it. */
  lemma ReadPrinted(v: Json, levels: nat, rest: string)
    requires WellFormed(v) && Fits(v, levels)
    requires rest == [] || !ContinuesNumber(rest[0])
    ensures ReadValue(Text(v) + rest, levels) == Got(v, rest)
  {
    hide ReadValue, Text, Spaced;
    SpacedByNothing(v);
    ReadSpaced(v, "", levels, rest);
  }

  /** White space around and between the tokens changes nothing: every spaced text of a value reads as it. */
  lemma SpaceIsIgnored(v: Json, sp: string, levels: nat)
    requires WellFormed(v) && Fits(v, levels) && Spaces(sp)
    ensures FromText(sp + Spaced(v, sp) + sp, levels) == Some(v)
  {
    hide ReadValue, Spaced, Spaces;
    SpaceAtEnd(sp);
    ReadSpaced(v, sp, levels, sp);
    ValueStarts(Spaced(v, sp)[0]);
    ReadAfterSpace(sp, Spaced(v, sp) + sp, levels);
    assert sp + Spaced(v, sp) + sp == sp + (Spaced(v, sp) + sp);
  }

  lemma SpaceAtEnd(sp: string)
    requires Spaces(sp)
    ensures SkipSpace(sp) == [] && (sp == [] || !ContinuesNumber(sp[0]))
  {
    SkipSpaces(sp, "");
    assert sp + "" == sp;
  }

  /** `from_str(to_string(v)) == v`, for every value the parser's nesting bound admits. */
  lemma RoundTrip(v: Json, levels: nat)
    requires WellFormed(v) && Fits(v, levels)
    ensures FromText(Text(v), levels) == Some(v)
  {
    ReadPrinted(v, levels, "");
    assert Text(v) + "" == Text(v);
  }
}
