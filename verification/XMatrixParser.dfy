/**
 The `X-Matrix` authorization header parser: a six-state character machine, the exact language it accepts, and the
 auth-param lists of section 11.2 of RFC 9110 inside that language.
 */
module XMatrixParser {
  import opened Prelude

  datatype State =
    | ExpectingParamName
    | ExpectingEquals
    | ExpectingParamValue
    | InQuotedString
    | AfterBackslash
    | ExpectingCommaOrEnd

  datatype ParseError =
    | InvalidScheme
    | InvalidParameterSyntax
    | InvalidToken
    | UnterminatedQuotedString
    | MissingRequiredParameter(param: string)
    | InvalidParameterValue(param: string)

  type Params = map<string, string>

  // ---------- characters ----------

  /** tchar of section 5.6.2 of RFC 9110, and the colon that older servers leave unquoted. */
  predicate TokenChar(c: char) {
    c in "!#$%&'*+-.^_`|~" || c == ':' || '0' <= c <= '9' || 'a' <= c <= 'z' || 'A' <= c <= 'Z'
  }

  /** The same class by exclusion: the visible characters without the delimiters, except the colon. */
  lemma TokenCharExact(c: char)
    ensures TokenChar(c) <==> '!' <= c <= '~' && c !in "\"(),/;<=>?@[\\]{}"
  {
  }

  predicate Blank(c: char) {
    c == ' ' || c == '\t'
  }

  function LowerChar(c: char): char {
    if 'A' <= c <= 'Z' then (c as int + 32) as char else c
  }

  /** `to_lowercase` on the characters a parameter name can hold. */
  function Lower(s: string): string {
    seq(|s|, i requires 0 <= i < |s| => LowerChar(s[i]))
  }

  // ---------- the machine ----------

  datatype Machine = Machine(state: State, name: string, value: string, params: Params)

  const START := Machine(ExpectingParamName, "", "", map[])

  function Step(m: Machine, c: char): Result<Machine, ParseError> {
    match m.state
    case ExpectingParamName =>
      if TokenChar(c) then Success(m.(name := m.name + [c]))
      else if c == '=' then
        if m.name == "" then Failure(InvalidParameterSyntax) else Success(m.(state := ExpectingParamValue))
      else if Blank(c) then
        if m.name == "" then Success(m) else Success(m.(state := ExpectingEquals))
      else Failure(InvalidToken)
    case ExpectingEquals =>
      if c == '=' then Success(m.(state := ExpectingParamValue))
      else if Blank(c) then Success(m)
      else Failure(InvalidParameterSyntax)
    case ExpectingParamValue =>
      if c == '\"' then Success(m.(state := InQuotedString))
      else if Blank(c) then Success(m)
      else if TokenChar(c) then Success(m.(state := ExpectingCommaOrEnd, value := m.value + [c]))
      else Failure(InvalidParameterSyntax)
    case InQuotedString =>
      if c == '\"' then Success(m.(state := ExpectingCommaOrEnd))
      else if c == '\\' then Success(m.(state := AfterBackslash))
      else Success(m.(value := m.value + [c]))
    case AfterBackslash =>
      Success(m.(state := InQuotedString, value := m.value + [c]))
    case ExpectingCommaOrEnd =>
      if c == ',' then Success(Machine(ExpectingParamName, "", "", m.params[Lower(m.name) := m.value]))
      else if Blank(c) then Success(m)
      else if TokenChar(c) then Success(m.(value := m.value + [c]))
      else Failure(InvalidParameterSyntax)
  }

  function Run(m: Machine, s: string): Result<Machine, ParseError>
    decreases |s|
  {
    if s == [] then Success(m)
    else
      match Step(m, s[0])
      case Failure(e) => Failure(e)
      case Success(next) => Run(next, s[1..])
  }

  /** What the end of the input means in each state. */
  function Finish(m: Machine): Result<Params, ParseError> {
    match m.state
    case InQuotedString => Failure(UnterminatedQuotedString)
    case AfterBackslash => Failure(UnterminatedQuotedString)
    case ExpectingParamValue => Failure(InvalidParameterSyntax)
    case ExpectingParamName => Success(m.params)
    case _ => Success(if m.name == "" then m.params else m.params[Lower(m.name) := m.value])
  }

  function Parse(s: string): Result<Params, ParseError> {
    match Run(START, s)
    case Failure(e) => Failure(e)
    case Success(m) => Finish(m)
  }

  /** `parse_auth_params`, with its two loops that peek past white space; they never change the outcome. */
  method ParseAuthParams(s: string) returns (r: Result<Params, ParseError>)
    ensures r == Parse(s)
  {
    var params: Params := map[];
    var state := ExpectingParamName;
    var name, value := "", "";
    var i := 0;
    i := SkipBlanks(s, i, START);
    while i < |s|
      invariant i <= |s|
      invariant Run(START, s) == Run(Machine(state, name, value, params), s[i..])
    {
      var c := s[i];
      i := i + 1;
      assert s[i - 1..][1..] == s[i..];
      match state {
        case ExpectingParamName =>
          if TokenChar(c) {
            name := name + [c];
          } else if c == '=' {
            if name == "" {
              return Failure(InvalidParameterSyntax);
            }
            state := ExpectingParamValue;
          } else if Blank(c) {
            if name != "" {
              state := ExpectingEquals;
            }
          } else {
            return Failure(InvalidToken);
          }
        case ExpectingEquals =>
          if c == '=' {
            state := ExpectingParamValue;
          } else if !Blank(c) {
            return Failure(InvalidParameterSyntax);
          }
        case ExpectingParamValue =>
          if c == '\"' {
            state := InQuotedString;
          } else if Blank(c) {
          } else if TokenChar(c) {
            value := value + [c];
            state := ExpectingCommaOrEnd;
          } else {
            return Failure(InvalidParameterSyntax);
          }
        case InQuotedString =>
          if c == '\"' {
            state := ExpectingCommaOrEnd;
          } else if c == '\\' {
            state := AfterBackslash;
          } else {
            value := value + [c];
          }
        case AfterBackslash =>
          value := value + [c];
          state := InQuotedString;
        case ExpectingCommaOrEnd =>
          if c == ',' {
            params := params[Lower(name) := value];
            name, value := "", "";
            state := ExpectingParamName;
            i := SkipBlanks(s, i, Machine(state, name, value, params));
          } else if Blank(c) {
          } else if TokenChar(c) {
            value := value + [c];
          } else {
            return Failure(InvalidParameterSyntax);
          }
      }
    }
    assert s[i..] == [];
    match state {
      case InQuotedString => return Failure(UnterminatedQuotedString);
      case AfterBackslash => return Failure(UnterminatedQuotedString);
      case ExpectingParamValue => return Failure(InvalidParameterSyntax);
      case ExpectingParamName => return Success(params);
      case _ =>
        if name != "" {
          params := params[Lower(name) := value];
        }
        return Success(params);
    }
  }

  method SkipBlanks(s: string, start: nat, ghost m: Machine) returns (i: nat)
    requires start <= |s|
    requires m.state == ExpectingParamName && m.name == ""
    ensures start <= i <= |s| && (i < |s| ==> !Blank(s[i]))
    ensures Run(m, s[start..]) == Run(m, s[i..])
  {
    i := start;
    while i < |s| && Blank(s[i])
      invariant start <= i <= |s|
      invariant Run(m, s[start..]) == Run(m, s[i..])
    {
      assert s[i..][1..] == s[i + 1..];
      i := i + 1;
    }
  }

  // ---------- the accepted language ----------

  /** A character of a quoted string, written as itself or behind a backslash. */
  datatype Piece = Plain(c: char) | Escaped(c: char)

  /** A value begins with a token character or a quoted string; loose characters may follow. */
  datatype Opening = Bare(first: char) | Quoted(pieces: seq<Piece>)

  datatype Value = Value(opening: Opening, more: string)

  datatype Param = Param(lead: string, name: string, before: string, after: string, value: Value)

  /** How far into a parameter a text goes. */
  datatype Stage =
    | AtName(lead: string, name: string)
    | AtEquals(lead: string, name: string, before: string)
    | AtValue(lead: string, name: string, before: string, after: string)
    | AtQuoted(lead: string, name: string, before: string, after: string, pieces: seq<Piece>)
    | AtEscape(lead: string, name: string, before: string, after: string, pieces: seq<Piece>)
    | AtEnd(param: Param)

  /** A text read as parameters closed by commas and then one stage. */
  datatype Reading = Reading(closed: seq<Param>, stage: Stage)

  predicate Blanks(s: string) {
    forall i :: 0 <= i < |s| ==> Blank(s[i])
  }

  predicate Token(s: string) {
    forall i :: 0 <= i < |s| ==> TokenChar(s[i])
  }

  /** The machine goes on taking token characters and skipping blanks after a value has begun. */
  predicate Loose(s: string) {
    forall i :: 0 <= i < |s| ==> TokenChar(s[i]) || Blank(s[i])
  }

  predicate ValidPieces(ps: seq<Piece>) {
    forall i :: 0 <= i < |ps| ==> (ps[i].Plain? ==> ps[i].c != '\"' && ps[i].c != '\\')
  }

  predicate ValidValue(v: Value) {
    Loose(v.more) && match v.opening
                     case Bare(first) => TokenChar(first)
                     case Quoted(pieces) => ValidPieces(pieces)
  }

  predicate ValidParam(p: Param) {
    Blanks(p.lead) && p.name != "" && Token(p.name) && Blanks(p.before) && Blanks(p.after) && ValidValue(p.value)
  }

  predicate ValidStage(st: Stage) {
    match st
    case AtName(lead, name) => Blanks(lead) && Token(name)
    case AtEquals(lead, name, before) => Blanks(lead) && name != "" && Token(name) && before != "" && Blanks(before)
    case AtValue(lead, name, before, after) =>
      Blanks(lead) && name != "" && Token(name) && Blanks(before) && Blanks(after)
    case AtQuoted(lead, name, before, after, pieces) =>
      Blanks(lead) && name != "" && Token(name) && Blanks(before) && Blanks(after) && ValidPieces(pieces)
    case AtEscape(lead, name, before, after, pieces) =>
      Blanks(lead) && name != "" && Token(name) && Blanks(before) && Blanks(after) && ValidPieces(pieces)
    case AtEnd(p) => ValidParam(p)
  }

  predicate Valid(r: Reading) {
    ValidStage(r.stage) && forall i :: 0 <= i < |r.closed| ==> ValidParam(r.closed[i])
  }

  function PieceText(p: Piece): string {
    match p
    case Plain(c) => [c]
    case Escaped(c) => ['\\', c]
  }

  function PiecesText(ps: seq<Piece>): string {
    if ps == [] then "" else PiecesText(ps[..|ps| - 1]) + PieceText(ps[|ps| - 1])
  }

  function Unescape(ps: seq<Piece>): string {
    seq(|ps|, i requires 0 <= i < |ps| => ps[i].c)
  }

  function OpeningText(o: Opening): string {
    match o
    case Bare(first) => [first]
    case Quoted(pieces) => "\"" + PiecesText(pieces) + "\""
  }

  function OpeningValue(o: Opening): string {
    match o
    case Bare(first) => [first]
    case Quoted(pieces) => Unescape(pieces)
  }

  function ValueText(v: Value): string {
    OpeningText(v.opening) + v.more
  }

  function WithoutBlanks(s: string): string {
    if s == [] then ""
    else if Blank(s[|s| - 1]) then WithoutBlanks(s[..|s| - 1])
    else WithoutBlanks(s[..|s| - 1]) + [s[|s| - 1]]
  }

  /** What a value denotes. */
  function ValueOf(v: Value): string {
    OpeningValue(v.opening) + WithoutBlanks(v.more)
  }

  function ParamText(p: Param): string {
    p.lead + p.name + p.before + "=" + p.after + ValueText(p.value)
  }

  function StageText(st: Stage): string {
    match st
    case AtName(lead, name) => lead + name
    case AtEquals(lead, name, before) => lead + name + before
    case AtValue(lead, name, before, after) => lead + name + before + "=" + after
    case AtQuoted(lead, name, before, after, pieces) =>
      lead + name + before + "=" + after + "\"" + PiecesText(pieces)
    case AtEscape(lead, name, before, after, pieces) =>
      lead + name + before + "=" + after + "\"" + PiecesText(pieces) + "\\"
    case AtEnd(p) => ParamText(p)
  }

  function ClosedText(ps: seq<Param>): string {
    if ps == [] then "" else ClosedText(ps[..|ps| - 1]) + ParamText(ps[|ps| - 1]) + ","
  }

  function ReadingText(r: Reading): string {
    ClosedText(r.closed) + StageText(r.stage)
  }

  /** Later parameters replace earlier ones of the same name, ignoring case. */
  function ParamsOf(ps: seq<Param>): Params {
    if ps == [] then map[]
    else ParamsOf(ps[..|ps| - 1])[Lower(ps[|ps| - 1].name) := ValueOf(ps[|ps| - 1].value)]
  }

  /** A text may end after a comma, inside or after a name, or after a value. */
  predicate Complete(r: Reading) {
    r.stage.AtName? || r.stage.AtEquals? || r.stage.AtEnd?
  }

  /** An unfinished name is dropped; a name followed by white space alone means an empty value. */
  function Meaning(r: Reading): Params
    requires Complete(r)
  {
    match r.stage
    case AtName(_, _) => ParamsOf(r.closed)
    case AtEquals(_, name, _) => ParamsOf(r.closed)[Lower(name) := ""]
    case AtEnd(p) => ParamsOf(r.closed + [p])
  }

  /** The machine's state after a reading. */
  function After(r: Reading): Machine {
    var ps := ParamsOf(r.closed);
    match r.stage
    case AtName(_, name) => Machine(ExpectingParamName, name, "", ps)
    case AtEquals(_, name, _) => Machine(ExpectingEquals, name, "", ps)
    case AtValue(_, name, _, _) => Machine(ExpectingParamValue, name, "", ps)
    case AtQuoted(_, name, _, _, pieces) => Machine(InQuotedString, name, Unescape(pieces), ps)
    case AtEscape(_, name, _, _, pieces) => Machine(AfterBackslash, name, Unescape(pieces), ps)
    case AtEnd(p) => Machine(ExpectingCommaOrEnd, p.name, ValueOf(p.value), ps)
  }

  // ---------- the machine accepts exactly these texts ----------

  lemma {:induction false} RunSnoc(m: Machine, s: string, c: char)
    ensures Run(m, s + [c]) == match Run(m, s)
                               case Failure(e) => Failure(e)
                               case Success(next) => Step(next, c)
    decreases |s|
  {
    hide Step;
    if s == [] {
      assert s + [c] == [c];
      assert [c][1..] == [];
    } else {
      assert (s + [c])[1..] == s[1..] + [c];
      var first := Step(m, s[0]);
      if first.Success? {
        RunSnoc(first.value, s[1..], c);
      }
    }
  }

  function Front<T>(s: seq<T>): seq<T>
    requires s != []
  {
    s[..|s| - 1]
  }

  function Last<T>(s: seq<T>): T
    requires s != []
  {
    s[|s| - 1]
  }

  /** One more character of a stage: `d`'s text is `e`'s and `c`, and the machine goes from one to the other. */
  ghost predicate Extends(closed: seq<Param>, e: Stage, c: char, d: Stage) {
    StageText(d) == StageText(e) + [c] && Step(After(Reading(closed, e)), c) == Success(After(Reading(closed, d)))
  }

  lemma CharClasses(c: char)
    ensures TokenChar(c) ==> !Blank(c)
    ensures TokenChar(c) || Blank(c) ==> c != '=' && c != '\"' && c != '\\' && c != ','
  {
  }

  lemma ExtendValue(closed: seq<Param>, p: Param, c: char)
    requires TokenChar(c) || Blank(c)
    requires ValidParam(p)
    ensures var q := p.(value := Value(p.value.opening, p.value.more + [c]));
            ValidParam(q) && Extends(closed, AtEnd(p), c, AtEnd(q))
  {
    hide ParamsOf, TokenChar, OpeningText, OpeningValue;
    var more := p.value.more + [c];
    var q := p.(value := Value(p.value.opening, more));
    assert more[..|more| - 1] == p.value.more;
    assert WithoutBlanks(more) == WithoutBlanks(p.value.more) + if Blank(c) then [] else [c];
    assert ParamText(q) == ParamText(p) + [c];
    assert ValueOf(q.value) == ValueOf(p.value) + if Blank(c) then [] else [c];
    CharClasses(c);
  }

  lemma PiecesSnoc(pieces: seq<Piece>, p: Piece)
    ensures PiecesText(pieces + [p]) == PiecesText(pieces) + PieceText(p)
    ensures Unescape(pieces + [p]) == Unescape(pieces) + [p.c]
  {
  }

  lemma ExtendPlain(closed: seq<Param>, lead: string, name: string, before: string, after: string,
                    pieces: seq<Piece>, c: char)
    requires c != '\"' && c != '\\'
    ensures Extends(closed, AtQuoted(lead, name, before, after, pieces), c,
                    AtQuoted(lead, name, before, after, pieces + [Plain(c)]))
  {
    hide ParamsOf, PiecesText, Unescape, TokenChar;
    PiecesSnoc(pieces, Plain(c));
  }

  lemma ExtendEscaped(closed: seq<Param>, lead: string, name: string, before: string, after: string,
                      pieces: seq<Piece>, c: char)
    ensures Extends(closed, AtEscape(lead, name, before, after, pieces), c,
                    AtQuoted(lead, name, before, after, pieces + [Escaped(c)]))
  {
    hide ParamsOf, PiecesText, Unescape, TokenChar;
    PiecesSnoc(pieces, Escaped(c));
    var head := lead + name + before + "=" + after + "\"";
    assert head + (PiecesText(pieces) + ['\\', c]) == head + PiecesText(pieces) + "\\" + [c];
  }

  lemma CloseParam(closed: seq<Param>, p: Param)
    ensures ReadingText(Reading(closed + [p], AtName("", ""))) == ReadingText(Reading(closed, AtEnd(p))) + ","
    ensures Step(After(Reading(closed, AtEnd(p))), ',') == Success(After(Reading(closed + [p], AtName("", ""))))
  {
  }

  /** Whenever the machine takes a character, the text read so far still has a reading. */
  lemma Grow(q: Reading, c: char) returns (r: Reading)
    requires Valid(q) && Step(After(q), c).Success?
    ensures Valid(r) && ReadingText(r) == ReadingText(q) + [c] && Step(After(q), c) == Success(After(r))
  {
    hide ParamsOf, TokenChar, ParamText, PiecesText, WithoutBlanks, Unescape, ClosedText;
    CharClasses(c);
    match q.stage
    case AtName(lead, name) =>
      r := GrowName(q, c);
    case AtEquals(lead, name, before) =>
      r := q.(stage := if c == '=' then AtValue(lead, name, before, "") else AtEquals(lead, name, before + [c]));
    case AtValue(lead, name, before, after) =>
      r := GrowValue(q, c);
    case AtQuoted(lead, name, before, after, pieces) =>
      r := GrowQuoted(q, c);
    case AtEscape(lead, name, before, after, pieces) =>
      ExtendEscaped(q.closed, lead, name, before, after, pieces, c);
      r := q.(stage := AtQuoted(lead, name, before, after, pieces + [Escaped(c)]));
    case AtEnd(p) =>
      if c == ',' {
        r := Reading(q.closed + [p], AtName("", ""));
        CloseParam(q.closed, p);
      } else {
        ExtendValue(q.closed, p, c);
        r := q.(stage := AtEnd(p.(value := Value(p.value.opening, p.value.more + [c]))));
      }
  }

  lemma GrowName(q: Reading, c: char) returns (r: Reading)
    requires Valid(q) && q.stage.AtName? && Step(After(q), c).Success?
    ensures Valid(r) && ReadingText(r) == ReadingText(q) + [c] && Step(After(q), c) == Success(After(r))
  {
    hide ParamsOf, TokenChar, ClosedText;
    CharClasses(c);
    var AtName(lead, name) := q.stage;
    r := q.(stage :=
      if TokenChar(c) then AtName(lead, name + [c])
      else if c == '=' then AtValue(lead, name, "", "")
      else if name == "" then AtName(lead + [c], "")
      else AtEquals(lead, name, [c]));
    assert lead + [c] + "" == lead + [c];
  }

  lemma GrowValue(q: Reading, c: char) returns (r: Reading)
    requires Valid(q) && q.stage.AtValue? && Step(After(q), c).Success?
    ensures Valid(r) && ReadingText(r) == ReadingText(q) + [c] && Step(After(q), c) == Success(After(r))
  {
    hide ParamsOf, TokenChar, ClosedText;
    CharClasses(c);
    var AtValue(lead, name, before, after) := q.stage;
    if c == '\"' {
      r := q.(stage := AtQuoted(lead, name, before, after, []));
      assert Unescape([]) == "";
      assert StageText(r.stage) == StageText(q.stage) + [c];
    } else if Blank(c) {
      r := q.(stage := AtValue(lead, name, before, after + [c]));
    } else {
      r := q.(stage := AtEnd(Param(lead, name, before, after, Value(Bare(c), ""))));
      assert [c] + "" == "" + [c];
      assert StageText(r.stage) == StageText(q.stage) + [c];
    }
  }

  lemma GrowQuoted(q: Reading, c: char) returns (r: Reading)
    requires Valid(q) && q.stage.AtQuoted?
    ensures Valid(r) && ReadingText(r) == ReadingText(q) + [c] && Step(After(q), c) == Success(After(r))
  {
    hide ParamsOf, TokenChar, ClosedText, PiecesText, Unescape;
    var AtQuoted(lead, name, before, after, pieces) := q.stage;
    if c == '\"' {
      r := q.(stage := AtEnd(Param(lead, name, before, after, Value(Quoted(pieces), ""))));
      assert StageText(r.stage) == StageText(q.stage) + [c];
      assert Unescape(pieces) + "" == Unescape(pieces);
    } else if c == '\\' {
      r := q.(stage := AtEscape(lead, name, before, after, pieces));
    } else {
      ExtendPlain(q.closed, lead, name, before, after, pieces, c);
      r := q.(stage := AtQuoted(lead, name, before, after, pieces + [Plain(c)]));
    }
  }

  /** A non-empty reading comes from a shorter one by a character that the machine takes. */
  lemma Shrink(r: Reading) returns (q: Reading, c: char)
    requires Valid(r) && ReadingText(r) != []
    ensures Valid(q) && ReadingText(r) == ReadingText(q) + [c] && Step(After(q), c) == Success(After(r))
  {
    hide ParamsOf, TokenChar, PiecesText, WithoutBlanks, Unescape, ParamText, ClosedText;
    match r.stage
    case AtName(_, _) =>
      q, c := ShrinkName(r);
    case AtEquals(_, _, _) =>
      q, c := ShrinkEquals(r);
    case AtValue(_, _, _, _) =>
      q, c := ShrinkValue(r);
    case AtQuoted(lead, name, before, after, pieces) =>
      q, c := ShrinkQuoted(r);
    case AtEscape(lead, name, before, after, pieces) =>
      q, c := r.(stage := AtQuoted(lead, name, before, after, pieces)), '\\';
    case AtEnd(p) =>
      q, c := ShrinkEnd(r);
  }

  lemma ShrinkName(r: Reading) returns (q: Reading, c: char)
    requires Valid(r) && r.stage.AtName? && ReadingText(r) != []
    ensures Valid(q) && ReadingText(r) == ReadingText(q) + [c] && Step(After(q), c) == Success(After(r))
  {
    hide ParamsOf, TokenChar, ClosedText;
    var AtName(lead, name) := r.stage;
    if name != "" {
      q, c := r.(stage := AtName(lead, Front(name))), Last(name);
      assert name == Front(name) + [c];
    } else if lead != "" {
      q, c := r.(stage := AtName(Front(lead), "")), Last(lead);
      assert lead == Front(lead) + [c];
    } else {
      q, c := ShrinkComma(r);
    }
    CharClasses(c);
  }

  lemma ShrinkComma(r: Reading) returns (q: Reading, c: char)
    requires Valid(r) && r.stage == AtName("", "") && ReadingText(r) != []
    ensures Valid(q) && ReadingText(r) == ReadingText(q) + [c] && Step(After(q), c) == Success(After(r))
  {
    hide ParamsOf, TokenChar, ParamText;
    var p := Last(r.closed);
    q, c := Reading(Front(r.closed), AtEnd(p)), ',';
    CloseParam(Front(r.closed), p);
    assert Front(r.closed) + [p] == r.closed;
  }

  lemma ShrinkEquals(r: Reading) returns (q: Reading, c: char)
    requires Valid(r) && r.stage.AtEquals?
    ensures Valid(q) && ReadingText(r) == ReadingText(q) + [c] && Step(After(q), c) == Success(After(r))
  {
    hide ParamsOf, TokenChar, ClosedText;
    var AtEquals(lead, name, before) := r.stage;
    c := Last(before);
    q := r.(stage := if |before| == 1 then AtName(lead, name) else AtEquals(lead, name, Front(before)));
    CharClasses(c);
  }

  lemma ShrinkValue(r: Reading) returns (q: Reading, c: char)
    requires Valid(r) && r.stage.AtValue?
    ensures Valid(q) && ReadingText(r) == ReadingText(q) + [c] && Step(After(q), c) == Success(After(r))
  {
    hide ParamsOf, TokenChar, ClosedText;
    var AtValue(lead, name, before, after) := r.stage;
    if after != "" {
      q, c := r.(stage := AtValue(lead, name, before, Front(after))), Last(after);
    } else {
      q, c := r.(stage := if before == "" then AtName(lead, name) else AtEquals(lead, name, before)), '=';
    }
    CharClasses(c);
  }

  lemma ShrinkQuoted(r: Reading) returns (q: Reading, c: char)
    requires Valid(r) && r.stage.AtQuoted?
    ensures Valid(q) && ReadingText(r) == ReadingText(q) + [c] && Step(After(q), c) == Success(After(r))
  {
    hide ParamsOf, TokenChar, ClosedText;
    var AtQuoted(lead, name, before, after, pieces) := r.stage;
    if pieces == [] {
      q, c := r.(stage := AtValue(lead, name, before, after)), '\"';
      assert Unescape([]) == "";
      assert StageText(r.stage) == StageText(q.stage) + [c];
    } else {
      var front, last := Front(pieces), Last(pieces);
      assert pieces == front + [last];
      c := last.c;
      if last.Plain? {
        q := r.(stage := AtQuoted(lead, name, before, after, front));
        ExtendPlain(r.closed, lead, name, before, after, front, c);
      } else {
        q := r.(stage := AtEscape(lead, name, before, after, front));
        ExtendEscaped(r.closed, lead, name, before, after, front, c);
      }
    }
  }

  lemma ShrinkEnd(r: Reading) returns (q: Reading, c: char)
    requires Valid(r) && r.stage.AtEnd?
    ensures Valid(q) && ReadingText(r) == ReadingText(q) + [c] && Step(After(q), c) == Success(After(r))
  {
    hide ParamsOf, TokenChar, ClosedText, PiecesText, Unescape;
    var p := r.stage.param;
    var more := p.value.more;
    if more != "" {
      c := Last(more);
      var shorter := p.(value := Value(p.value.opening, Front(more)));
      q := r.(stage := AtEnd(shorter));
      ExtendValue(r.closed, shorter, c);
      assert Front(more) + [c] == more;
    } else {
      match p.value.opening
      case Bare(first) =>
        q, c := r.(stage := AtValue(p.lead, p.name, p.before, p.after)), first;
        CharClasses(c);
        assert [c] + "" == "" + [c];
      case Quoted(pieces) =>
        q, c := r.(stage := AtQuoted(p.lead, p.name, p.before, p.after, pieces)), '\"';
        assert Unescape(pieces) + "" == Unescape(pieces);
    }
  }

  lemma {:induction false} RunReading(r: Reading)
    requires Valid(r)
    ensures Run(START, ReadingText(r)) == Success(After(r))
    decreases |ReadingText(r)|
  {
    if ReadingText(r) == [] {
      assert r.closed == [];
    } else {
      var q, c := Shrink(r);
      RunReading(q);
      RunSnoc(START, ReadingText(q), c);
    }
  }

  lemma {:induction false} ReadingOf(s: string) returns (r: Reading)
    requires Run(START, s).Success?
    ensures Valid(r) && ReadingText(r) == s && Run(START, s) == Success(After(r))
    decreases |s|
  {
    if s == [] {
      r := Reading([], AtName("", ""));
    } else {
      assert s == Front(s) + [Last(s)];
      RunSnoc(START, Front(s), Last(s));
      var q := ReadingOf(Front(s));
      r := Grow(q, Last(s));
    }
  }

  /** Parsing succeeds with `params` exactly when the text has a complete reading that means `params`. */
  lemma ParseExact(s: string, params: Params)
    ensures Parse(s) == Success(params) <==>
            exists r :: Valid(r) && Complete(r) && ReadingText(r) == s && Meaning(r) == params
  {
    hide Run, After, Finish, Valid, ReadingText, Meaning;
    forall r | Valid(r) && Complete(r) && ReadingText(r) == s
      ensures Parse(s) == Success(Meaning(r))
    {
      RunReading(r);
      FinishMeans(r);
    }
    if Parse(s) == Success(params) {
      var r := ReadingOf(s);
      FinishMeans(r);
    }
  }

  lemma FinishMeans(r: Reading)
    requires Valid(r)
    ensures Finish(After(r)).Success? <==> Complete(r)
    ensures Complete(r) ==> Finish(After(r)) == Success(Meaning(r))
  {
  }

  // ---------- errors ----------

  /** Why no text goes on with this character here, if none does. */
  function Stuck(stage: Stage, c: char): Option<ParseError> {
    match stage
    case AtName(_, name) =>
      if c == '=' && name == "" then Some(InvalidParameterSyntax)
      else if c == '=' || TokenChar(c) || Blank(c) then None
      else Some(InvalidToken)
    case AtEquals(_, _, _) => if c == '=' || Blank(c) then None else Some(InvalidParameterSyntax)
    case AtValue(_, _, _, _) =>
      if c == '\"' || TokenChar(c) || Blank(c) then None else Some(InvalidParameterSyntax)
    case AtEnd(_) => if c == ',' || TokenChar(c) || Blank(c) then None else Some(InvalidParameterSyntax)
    case _ => None
  }

  /** Why no text ends here, if none does: a value is missing, or its closing quote. */
  function Unended(stage: Stage): Option<ParseError> {
    match stage
    case AtValue(_, _, _, _) => Some(InvalidParameterSyntax)
    case AtQuoted(_, _, _, _, _) => Some(UnterminatedQuotedString)
    case AtEscape(_, _, _, _, _) => Some(UnterminatedQuotedString)
    case _ => None
  }

  /** The text reads up to position `i` and goes on in no way, or ends there in the middle of a value. */
  ghost predicate FailsAt(s: string, i: int, r: Reading, e: ParseError) {
    && 0 <= i <= |s| && Valid(r) && ReadingText(r) == s[..i]
    && (if i < |s| then Stuck(r.stage, s[i]) else Unended(r.stage)) == Some(e)
  }

  lemma StuckSteps(r: Reading, c: char, e: ParseError)
    ensures Stuck(r.stage, c) == Some(e) <==> Step(After(r), c) == Failure(e)
  {
    hide TokenChar, Lower, ParamsOf, Unescape, ValueOf;
    CharClasses(c);
  }

  lemma EmptyRuns(s: string)
    requires Run(START, s).Failure?
    ensures s != []
  {
  }

  lemma {:induction false} RunStops(s: string, e: ParseError) returns (i: int, r: Reading)
    requires Run(START, s) == Failure(e)
    ensures i < |s| && FailsAt(s, i, r, e)
    decreases |s|
  {
    hide Run, Step, Stuck, Unended, Valid, ReadingText, After;
    EmptyRuns(s);
    var front, last := Front(s), Last(s);
    assert s == front + [last];
    RunSnoc(START, front, last);
    if Run(START, front).Success? {
      r := ReadingOf(front);
      i := |s| - 1;
      StuckSteps(r, last, e);
    } else {
      i, r := RunStops(front, e);
      assert front[..i] == s[..i] && front[i] == s[i];
    }
  }

  lemma {:induction false} StopsRun(s: string, i: int, r: Reading, e: ParseError)
    requires i < |s| && FailsAt(s, i, r, e)
    ensures Run(START, s) == Failure(e)
    decreases |s|
  {
    hide Run, Step, Stuck, Unended, Valid, ReadingText, After;
    var front, last := Front(s), Last(s);
    assert s == front + [last];
    RunSnoc(START, front, last);
    if i == |s| - 1 {
      RunReading(r);
      StuckSteps(r, last, e);
    } else {
      assert front[..i] == s[..i] && front[i] == s[i];
      StopsRun(front, i, r, e);
    }
  }

  lemma UnendedFinishes(r: Reading, e: ParseError)
    ensures Unended(r.stage) == Some(e) <==> Finish(After(r)) == Failure(e)
  {
  }

  /** A text is refused with an error exactly when a reading of it stops with that error. */
  lemma ErrorsExact(s: string, e: ParseError)
    ensures Parse(s) == Failure(e) <==> exists i, r :: FailsAt(s, i, r, e)
  {
    hide Run, Finish, Stuck, Unended, Valid, ReadingText, After;
    assert s[..|s|] == s;
    if Run(START, s).Failure? {
      if Parse(s) == Failure(e) {
        var i, r := RunStops(s, e);
      }
    } else {
      var r := ReadingOf(s);
      UnendedFinishes(r, e);
      assert Parse(s) == Failure(e) ==> FailsAt(s, |s|, r, e);
    }
    forall i, r | FailsAt(s, i, r, e)
      ensures Parse(s) == Failure(e)
    {
      if i < |s| {
        StopsRun(s, i, r, e);
      } else {
        RunReading(r);
        UnendedFinishes(r, e);
      }
    }
  }
}
