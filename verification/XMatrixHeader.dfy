/**
 Whole `X-Matrix` headers: auth-param lists as section 11.2 of RFC 9110 writes them, the header the request signer
 prints, and exactly when parsing it gives its fields back.
 */
module XMatrixHeader {
  import opened Prelude
  import opened XMatrixParser

  // ---------- auth-param lists ----------

  datatype AuthValue = TokenValue(token: string) | QuotedValue(pieces: seq<Piece>)

  /** auth-param = token BWS "=" BWS ( token / quoted-string ), with the optional white space around it. */
  datatype AuthParam =
    AuthParam(lead: string, name: string, before: string, after: string, value: AuthValue, trail: string)

  predicate ValidAuthParam(a: AuthParam) {
    && Blanks(a.lead) && a.name != "" && Token(a.name) && Blanks(a.before) && Blanks(a.after) && Blanks(a.trail)
    && match a.value
       case TokenValue(t) => t != "" && Token(t)
       case QuotedValue(pieces) => ValidPieces(pieces)
  }

  function AuthValueText(v: AuthValue): string {
    match v
    case TokenValue(t) => t
    case QuotedValue(pieces) => "\"" + PiecesText(pieces) + "\""
  }

  function AuthParamText(a: AuthParam): string {
    a.lead + a.name + a.before + "=" + a.after + AuthValueText(a.value) + a.trail
  }

  function Denoted(v: AuthValue): string {
    match v
    case TokenValue(t) => t
    case QuotedValue(pieces) => Unescape(pieces)
  }

  function ListText(ps: seq<AuthParam>): string {
    JoinComma(seq(|ps|, i requires 0 <= i < |ps| => AuthParamText(ps[i])))
  }

  function AsParam(a: AuthParam): Param
    requires ValidAuthParam(a)
  {
    Param(a.lead, a.name, a.before, a.after,
          match a.value
          case TokenValue(t) => Value(Bare(t[0]), t[1..] + a.trail)
          case QuotedValue(pieces) => Value(Quoted(pieces), a.trail))
  }

  lemma {:induction false} TokenThenBlanks(token: string, blanks: string)
    requires Token(token) && Blanks(blanks)
    ensures WithoutBlanks(token + blanks) == token
    decreases |token| + |blanks|
  {
    hide TokenChar;
    var s := token + blanks;
    if blanks != "" {
      assert s[..|s| - 1] == token + Front(blanks);
      TokenThenBlanks(token, Front(blanks));
    } else if token != "" {
      assert s == token && s[..|s| - 1] == Front(token) + "";
      CharClasses(Last(token));
      TokenThenBlanks(Front(token), "");
    }
  }

  lemma AsParamFaithful(a: AuthParam)
    requires ValidAuthParam(a)
    ensures ValidParam(AsParam(a)) && ParamText(AsParam(a)) == AuthParamText(a)
    ensures ValueOf(AsParam(a).value) == Denoted(a.value)
  {
    hide TokenChar, PiecesText, WithoutBlanks;
    match a.value
    case TokenValue(t) =>
      TokenThenBlanks(t[1..], a.trail);
      assert [t[0]] + t[1..] == t;
      assert [t[0]] + (t[1..] + a.trail) == t + a.trail;
    case QuotedValue(pieces) =>
      TokenThenBlanks("", a.trail);
      assert "" + a.trail == a.trail;
  }

  function AsParams(ps: seq<AuthParam>): (r: seq<Param>)
    requires forall i :: 0 <= i < |ps| ==> ValidAuthParam(ps[i])
  {
    seq(|ps|, i requires 0 <= i < |ps| => AsParam(ps[i]))
  }

  lemma {:induction false} JoinSnoc(xs: seq<string>, x: string)
    requires xs != []
    ensures JoinComma(xs + [x]) == JoinComma(xs) + "," + x
  {
    if |xs| == 1 {
      assert (xs + [x])[1..] == [x];
    } else {
      JoinSnoc(xs[1..], x);
      assert (xs + [x])[1..] == xs[1..] + [x];
    }
  }

  lemma {:induction false} ListIsReading(ps: seq<AuthParam>)
    requires ps != [] && forall i :: 0 <= i < |ps| ==> ValidAuthParam(ps[i])
    ensures ListText(ps) == ClosedText(AsParams(Front(ps))) + ParamText(AsParam(Last(ps)))
  {
    hide AsParam, ParamText, AuthParamText, ValidAuthParam;
    var texts := seq(|ps|, i requires 0 <= i < |ps| => AuthParamText(ps[i]));
    var front, last := Front(ps), Last(ps);
    AsParamFaithful(last);
    if |ps| > 1 {
      var texts' := seq(|front|, i requires 0 <= i < |front| => AuthParamText(front[i]));
      assert texts == texts' + [AuthParamText(last)];
      JoinSnoc(texts', AuthParamText(last));
      ListIsReading(front);
      assert AsParams(front)[..|front| - 1] == AsParams(Front(front));
    }
  }

  function Names(ps: seq<AuthParam>): set<string> {
    set i | 0 <= i < |ps| :: Lower(ps[i].name)
  }

  /** No later parameter has the same name, ignoring case. */
  predicate LastOfItsName(ps: seq<AuthParam>, i: nat)
    requires i < |ps|
  {
    forall j :: i < j < |ps| ==> Lower(ps[j].name) != Lower(ps[i].name)
  }

  lemma {:induction false} ParamsOfList(ps: seq<AuthParam>)
    requires forall i :: 0 <= i < |ps| ==> ValidAuthParam(ps[i])
    ensures ParamsOf(AsParams(ps)).Keys == Names(ps)
    ensures forall i :: 0 <= i < |ps| && LastOfItsName(ps, i) ==>
              ParamsOf(AsParams(ps))[Lower(ps[i].name)] == Denoted(ps[i].value)
  {
    hide ValueOf, Lower, Denoted, ValidAuthParam, AsParam, ParamsOf, AsParams;
    if ps == [] {
      assert AsParams(ps) == [] && ParamsOf([]) == map[] by { NoParams(ps); }
    } else {
      var front, last := Front(ps), Last(ps);
      var before, all := ParamsOf(AsParams(front)), ParamsOf(AsParams(ps));
      ParamsOfList(front);
      ParamsOfSnoc(ps);
      assert forall i :: 0 <= i < |front| ==> front[i] == ps[i];
      assert Names(ps) == Names(front) + {Lower(last.name)};
      forall i | 0 <= i < |ps| && LastOfItsName(ps, i)
        ensures all[Lower(ps[i].name)] == Denoted(ps[i].value)
      {
        if i < |front| {
          assert Lower(ps[|ps| - 1].name) != Lower(ps[i].name);
          assert LastOfItsName(front, i);
          assert before[Lower(front[i].name)] == Denoted(front[i].value);
        }
      }
    }
  }

  lemma NoParams(ps: seq<AuthParam>)
    requires ps == []
    ensures AsParams(ps) == [] && ParamsOf([]) == map[]
  {
  }

  lemma ParamsOfSnoc(ps: seq<AuthParam>)
    requires ps != [] && forall i :: 0 <= i < |ps| ==> ValidAuthParam(ps[i])
    ensures ParamsOf(AsParams(ps)) == ParamsOf(AsParams(Front(ps)))[Lower(Last(ps).name) := Denoted(Last(ps).value)]
  {
    hide ValueOf, Lower, Denoted, ValidAuthParam;
    AsParamFaithful(Last(ps));
    assert AsParams(ps)[..|ps| - 1] == AsParams(Front(ps));
  }

  lemma ListParses(ps: seq<AuthParam>)
    requires ps != [] && forall i :: 0 <= i < |ps| ==> ValidAuthParam(ps[i])
    ensures Parse(ListText(ps)) == Success(ParamsOf(AsParams(ps)))
  {
    hide Run, ParamsOf, ValidParam, Lower, Denoted, ListText, ValidAuthParam, AsParam, ValueOf, ParamText;
    var r := Reading(AsParams(Front(ps)), AtEnd(AsParam(Last(ps))));
    forall i | 0 <= i < |ps|
      ensures ValidParam(AsParam(ps[i]))
    {
      AsParamFaithful(ps[i]);
    }
    ListIsReading(ps);
    RunReading(r);
    FinishMeans(r);
    assert AsParams(Front(ps)) + [AsParam(Last(ps))] == AsParams(ps);
  }

  /** Every auth-param list parses to its lower-cased names, each with the unescaped value it was last given. */
  lemma AuthParamsParse(ps: seq<AuthParam>)
    requires ps != [] && forall i :: 0 <= i < |ps| ==> ValidAuthParam(ps[i])
    ensures Parse(ListText(ps)).Success? && Parse(ListText(ps)).value.Keys == Names(ps)
    ensures forall i :: 0 <= i < |ps| && LastOfItsName(ps, i) ==>
              Parse(ListText(ps)).value[Lower(ps[i].name)] == Denoted(ps[i].value)
  {
    hide Parse, ParamsOf, Lower, Denoted, ListText, LastOfItsName, ValidAuthParam, AsParams;
    ListParses(ps);
    ParamsOfList(ps);
  }

  /** The same character, or the same letter in the other case. */
  predicate SameLetter(c: char, d: char) {
    || c == d
    || ('A' <= c <= 'Z' && d as int - c as int == 'a' as int - 'A' as int)
    || ('A' <= d <= 'Z' && c as int - d as int == 'a' as int - 'A' as int)
  }

  /** Names are compared without case: two are the same parameter exactly when their letters are. */
  lemma NamesIgnoreCase(a: string, b: string)
    ensures Lower(a) == Lower(b) <==> |a| == |b| && forall i :: 0 <= i < |a| ==> SameLetter(a[i], b[i])
    ensures (forall i :: 0 <= i < |a| ==> !('A' <= a[i] <= 'Z')) ==> Lower(a) == a
  {
    if Lower(a) == Lower(b) {
      forall i | 0 <= i < |a|
        ensures |a| == |b| && SameLetter(a[i], b[i])
      {
        assert Lower(a)[i] == Lower(b)[i];
      }
    }
  }

  /** The value that a list last gives to a name, the names compared without case. */
  function Given(ps: seq<AuthParam>, name: string): Option<string> {
    if ps == [] then None
    else if Lower(Last(ps).name) == name then Some(Denoted(Last(ps).value))
    else Given(Front(ps), name)
  }

  lemma {:induction false} ParamsAreGiven(ps: seq<AuthParam>, name: string)
    requires forall i :: 0 <= i < |ps| ==> ValidAuthParam(ps[i])
    ensures Get(ParamsOf(AsParams(ps)), name) == Given(ps, name)
  {
    hide Lower, Denoted, ValidAuthParam, ParamsOf, AsParams;
    if ps == [] {
      NoParams(ps);
    } else {
      ParamsAreGiven(Front(ps), name);
      ParamsOfSnoc(ps);
    }
  }

  // ---------- X-Matrix headers ----------

  datatype XMatrixAuth =
    XMatrixAuth(origin: string, destination: Option<string>, keyId: string, signature: string)

  const SCHEME := "X-Matrix "
  const KEY_PREFIX := "ed25519:"

  function Get(params: Params, name: string): Option<string> {
    if name in params then Some(params[name]) else None
  }

  /** `parse_x_matrix_header`, on the parameters that follow the scheme. */
  function AuthOf(params: Params): Result<XMatrixAuth, ParseError> {
    if Get(params, "origin").None? then Failure(MissingRequiredParameter("origin"))
    else if Get(params, "key").None? then Failure(MissingRequiredParameter("key"))
    else if !(KEY_PREFIX <= params["key"]) then Failure(InvalidParameterValue("key"))
    else
      var signature := if "signature" in params then Get(params, "signature") else Get(params, "sig");
      if signature.None? then Failure(MissingRequiredParameter("signature"))
      else
        var keyId := params["key"][|KEY_PREFIX|..];
        Success(XMatrixAuth(params["origin"], Get(params, "destination"), keyId, signature.value))
  }

  /** Both spellings of the signature are read; the full one wins. */
  ghost predicate SignatureIs(params: Params, signature: string) {
    ("signature" in params && params["signature"] == signature) ||
    ("signature" !in params && "sig" in params && params["sig"] == signature)
  }

  /** The parameters give these fields exactly when each is where the specification puts it. */
  lemma AuthOfExact(params: Params, auth: XMatrixAuth)
    ensures AuthOf(params) == Success(auth) <==>
            && Get(params, "origin") == Some(auth.origin)
            && Get(params, "key") == Some(KEY_PREFIX + auth.keyId)
            && SignatureIs(params, auth.signature)
            && Get(params, "destination") == auth.destination
  {
    if "key" in params && KEY_PREFIX <= params["key"] {
      assert params["key"] == KEY_PREFIX + params["key"][|KEY_PREFIX|..];
    }
    assert (KEY_PREFIX + auth.keyId)[|KEY_PREFIX|..] == auth.keyId;
  }

  function ParseHeader(header: string): Result<XMatrixAuth, ParseError> {
    if !(SCHEME <= header) then Failure(InvalidScheme)
    else
      match Parse(header[|SCHEME|..])
      case Failure(e) => Failure(e)
      case Success(params) => AuthOf(params)
  }

  lemma ParseNeedsNoScheme(s: string)
    ensures Parse(s) != Failure(InvalidScheme)
  {
    RunNeedsNoScheme(START, s);
  }

  lemma {:induction false} RunNeedsNoScheme(m: Machine, s: string)
    ensures Run(m, s) != Failure(InvalidScheme)
    decreases |s|
  {
    hide Lower;
    if s != [] && Step(m, s[0]).Success? {
      RunNeedsNoScheme(Step(m, s[0]).value, s[1..]);
    }
  }

  /** A header of another scheme, or of this one in other letters, is refused. */
  lemma OtherSchemesRefused(header: string)
    ensures ParseHeader(header) == Failure(InvalidScheme) <==> !("X-Matrix " <= header)
  {
    hide Parse;
    if SCHEME <= header && Parse(header[|SCHEME|..]) == Failure(InvalidScheme) {
      ParseNeedsNoScheme(header[|SCHEME|..]);
    }
  }

  function Field(name: string, value: string): string {
    name + "=\"" + value + "\""
  }

  function HeaderParams(origin: string, destination: string, key: string, signature: string): string {
    Field("origin", origin) + "," +
    (Field("destination", destination) + "," + (Field("key", key) + "," + Field("signature", signature)))
  }

  /** The header that `create_authorization_header` prints. */
  function HeaderText(origin: string, destination: string, key: string, signature: string): string {
    SCHEME + HeaderParams(origin, destination, key, signature)
  }

  /** No character that a quoted string must escape. */
  predicate Clean(s: string) {
    '\"' !in s && '\\' !in s
  }

  // ---------- clean fields come back ----------

  function PlainPieces(s: string): seq<Piece> {
    seq(|s|, i requires 0 <= i < |s| => Plain(s[i]))
  }

  lemma {:induction false} PlainPiecesText(s: string)
    ensures PiecesText(PlainPieces(s)) == s
  {
    if s != [] {
      PlainPiecesText(Front(s));
      assert PlainPieces(s)[..|s| - 1] == PlainPieces(Front(s));
    }
  }

  function QuotedParam(name: string, s: string): AuthParam {
    AuthParam("", name, "", "", QuotedValue(PlainPieces(s)), "")
  }

  lemma QuotedParamFaithful(name: string, s: string)
    requires name != "" && Token(name) && Clean(s)
    ensures ValidAuthParam(QuotedParam(name, s))
    ensures AuthParamText(QuotedParam(name, s)) == Field(name, s)
    ensures Denoted(QuotedParam(name, s).value) == s
  {
    hide PiecesText;
    PlainPiecesText(s);
    var head := "" + name + "" + "=" + "";
    assert head == name + "=";
    assert head + ("\"" + s + "\"") + "" == name + "=\"" + s + "\"";
  }

  function HeaderList(origin: string, destination: string, key: string, signature: string): seq<AuthParam> {
    [QuotedParam("origin", origin), QuotedParam("destination", destination), QuotedParam("key", key),
     QuotedParam("signature", signature)]
  }

  lemma JoinFour(a: string, b: string, c: string, d: string)
    ensures JoinComma([a, b, c, d]) == a + "," + (b + "," + (c + "," + d))
  {
    assert [c, d][1..] == [d];
    assert JoinComma([c, d]) == c + "," + d;
    assert [b, c, d][1..] == [c, d];
    assert JoinComma([b, c, d]) == b + "," + JoinComma([c, d]);
    assert [a, b, c, d][1..] == [b, c, d];
  }

  lemma HeaderListFaithful(origin: string, destination: string, key: string, signature: string)
    requires Clean(origin) && Clean(destination) && Clean(key) && Clean(signature)
    ensures forall i :: 0 <= i < 4 ==> ValidAuthParam(HeaderList(origin, destination, key, signature)[i])
    ensures ListText(HeaderList(origin, destination, key, signature)) ==
            HeaderParams(origin, destination, key, signature)
  {
    hide AuthParamText, ValidAuthParam, QuotedParam, JoinComma, Clean;
    var ps := HeaderList(origin, destination, key, signature);
    QuotedParamFaithful("origin", origin);
    QuotedParamFaithful("destination", destination);
    QuotedParamFaithful("key", key);
    QuotedParamFaithful("signature", signature);
    var a, b, c, d := AuthParamText(ps[0]), AuthParamText(ps[1]), AuthParamText(ps[2]), AuthParamText(ps[3]);
    assert seq(|ps|, i requires 0 <= i < |ps| => AuthParamText(ps[i])) == [a, b, c, d];
    JoinFour(a, b, c, d);
  }

  lemma CleanHeaderParses(origin: string, destination: string, key: string, signature: string)
    requires Clean(origin) && Clean(destination) && Clean(key) && Clean(signature)
    ensures Parse(HeaderParams(origin, destination, key, signature)) ==
            Success(map["origin" := origin, "destination" := destination, "key" := key, "signature" := signature])
  {
    hide Parse, ListText, Denoted, QuotedParam, HeaderParams, ValidAuthParam, Clean, Names, LastOfItsName, Lower;
    var ps := HeaderList(origin, destination, key, signature);
    HeaderListFaithful(origin, destination, key, signature);
    AuthParamsParse(ps);
    HeaderNames(origin, destination, key, signature);
    QuotedParamFaithful("origin", origin);
    QuotedParamFaithful("destination", destination);
    QuotedParamFaithful("key", key);
    QuotedParamFaithful("signature", signature);
    var params := Parse(ListText(ps)).value;
    var expected := map["origin" := origin, "destination" := destination, "key" := key, "signature" := signature];
    assert params["origin"] == origin by { assert params[Lower(ps[0].name)] == origin; }
    assert params["destination"] == destination by { assert params[Lower(ps[1].name)] == destination; }
    assert params["key"] == key by { assert params[Lower(ps[2].name)] == key; }
    assert params["signature"] == signature by { assert params[Lower(ps[3].name)] == signature; }
    assert params.Keys == expected.Keys;
    assert params == expected;
  }

  lemma HeaderNames(origin: string, destination: string, key: string, signature: string)
    ensures var ps := HeaderList(origin, destination, key, signature);
            && Lower(ps[0].name) == "origin" && Lower(ps[1].name) == "destination"
            && Lower(ps[2].name) == "key" && Lower(ps[3].name) == "signature"
            && Names(ps) == {"origin", "destination", "key", "signature"}
            && LastOfItsName(ps, 0) && LastOfItsName(ps, 1) && LastOfItsName(ps, 2) && LastOfItsName(ps, 3)
  {
  }

  // ---------- and only clean ones ----------

  function Backslashes(s: string): nat {
    if s == [] then 0 else Backslashes(s[..|s| - 1]) + if s[|s| - 1] == '\\' then 1 else 0
  }

  lemma {:induction false} BackslashesConcat(a: string, b: string)
    ensures Backslashes(a + b) == Backslashes(a) + Backslashes(b)
  {
    if b == [] {
      assert a + b == a;
    } else {
      BackslashesConcat(a, Front(b));
      assert (a + b)[..|a + b| - 1] == a + Front(b);
    }
  }

  lemma {:induction false} BackslashesFound(s: string)
    ensures Backslashes(s) == 0 <==> '\\' !in s
  {
    if s != [] {
      BackslashesFound(Front(s));
      assert s == Front(s) + [Last(s)];
    }
  }

  function Held(params: Params, name: string): nat {
    if name in params then Backslashes(params[name]) else 0
  }

  /** Backslashes in the parameters an `X-Matrix` header is read for. */
  function AllHeld(params: Params): nat {
    Held(params, "origin") + Held(params, "destination") + Held(params, "key") + Held(params, "signature")
    + Held(params, "sig")
  }

  /** Every backslash in a stored value was paid for with another one in the input. */
  ghost predicate Paid(m: Machine, input: string) {
    2 * (AllHeld(m.params) + Backslashes(m.value)) + (if m.state == AfterBackslash then 1 else 0) <= Backslashes(input)
  }

  lemma InsertHolds(params: Params, name: string, value: string)
    ensures AllHeld(params[name := value]) <= AllHeld(params) + Backslashes(value)
  {
    hide Backslashes;
  }

  lemma PushBackslashes(s: string, c: char)
    ensures Backslashes(s + [c]) == Backslashes(s) + if c == '\\' then 1 else 0
  {
  }

  lemma StepPays(m: Machine, c: char, input: string)
    requires Step(m, c).Success? && Paid(m, input)
    ensures Paid(Step(m, c).value, input + [c])
  {
    hide AllHeld, TokenChar, Lower, Backslashes;
    PushBackslashes(input, c);
    PushBackslashes(m.value, c);
    CharClasses(c);
    if m.state == ExpectingCommaOrEnd && c == ',' {
      InsertHolds(m.params, Lower(m.name), m.value);
      assert Backslashes("") == 0 by { BackslashesFound(""); }
    }
  }

  lemma {:induction false} RunPays(s: string)
    requires Run(START, s).Success?
    ensures Paid(Run(START, s).value, s)
    decreases |s|
  {
    hide Step;
    if s != [] {
      RunSnoc(START, Front(s), Last(s));
      assert Front(s) + [Last(s)] == s;
      RunPays(Front(s));
      StepPays(Run(START, Front(s)).value, Last(s), Front(s));
    }
  }

  lemma ParsePays(s: string)
    requires Parse(s).Success?
    ensures 2 * AllHeld(Parse(s).value) <= Backslashes(s)
  {
    hide AllHeld, Lower, Run, Backslashes;
    RunPays(s);
    var m := Run(START, s).value;
    InsertHolds(m.params, Lower(m.name), m.value);
  }

  /** Without a backslash in the input, no value holds a quote. */
  ghost predicate Quoteless(m: Machine) {
    m.state != AfterBackslash && '\"' !in m.value && forall k :: k in m.params ==> '\"' !in m.params[k]
  }

  lemma {:induction false} RunQuoteless(s: string)
    requires Run(START, s).Success? && '\\' !in s
    ensures Quoteless(Run(START, s).value)
    decreases |s|
  {
    hide TokenChar, Lower;
    if s != [] {
      RunSnoc(START, Front(s), Last(s));
      assert Front(s) + [Last(s)] == s;
      CharClasses(Last(s));
      RunQuoteless(Front(s));
    }
  }

  lemma ParseQuoteless(s: string)
    requires Parse(s).Success? && '\\' !in s
    ensures forall k :: k in Parse(s).value ==> '\"' !in Parse(s).value[k]
  {
    hide Lower, Run;
    RunQuoteless(s);
  }

  lemma FieldBackslashes(name: string, value: string)
    requires '\\' !in name
    ensures Backslashes(Field(name, value)) == Backslashes(value)
  {
    hide Backslashes;
    BackslashesFound(name);
    BackslashesFound("=\"");
    BackslashesFound("\"");
    BackslashesConcat(name, "=\"");
    BackslashesConcat(name + "=\"", value);
    BackslashesConcat(name + "=\"" + value, "\"");
  }

  lemma CommaBackslashes(a: string, b: string)
    ensures Backslashes(a + "," + b) == Backslashes(a) + Backslashes(b)
  {
    hide Backslashes;
    BackslashesFound(",");
    BackslashesConcat(a, ",");
    BackslashesConcat(a + ",", b);
  }

  lemma HeaderBackslashes(o: string, d: string, k: string, s: string)
    ensures Backslashes(HeaderParams(o, d, k, s)) == Backslashes(o) + Backslashes(d) + Backslashes(k) + Backslashes(s)
  {
    hide Backslashes, Field;
    var fo, fd, fk, fs := Field("origin", o), Field("destination", d), Field("key", k), Field("signature", s);
    FieldBackslashes("origin", o);
    FieldBackslashes("destination", d);
    FieldBackslashes("key", k);
    FieldBackslashes("signature", s);
    CommaBackslashes(fk, fs);
    CommaBackslashes(fd, fk + "," + fs);
    CommaBackslashes(fo, fd + "," + (fk + "," + fs));
  }

  /** The parsed header gives every field back. */
  ghost predicate Recovers(origin: string, destination: string, key: string, signature: string) {
    && KEY_PREFIX <= key
    && ParseHeader(HeaderText(origin, destination, key, signature)) ==
       Success(XMatrixAuth(origin, Some(destination), key[|KEY_PREFIX|..], signature))
  }

  /** The signature a list gives: the full spelling wins over the short one. */
  function GivenSignature(ps: seq<AuthParam>): Option<string> {
    if Given(ps, "signature").Some? then Given(ps, "signature") else Given(ps, "sig")
  }

  /** The list gives an origin, an ed25519 key and a signature. */
  predicate GivesFields(ps: seq<AuthParam>) {
    && Given(ps, "origin").Some? && GivenSignature(ps).Some?
    && Given(ps, "key").Some? && "ed25519:" <= Given(ps, "key").value
  }

  lemma GivenAuth(params: Params, ps: seq<AuthParam>)
    requires forall name :: Get(params, name) == Given(ps, name)
    ensures var r := AuthOf(params);
            && (r.Success? <==> GivesFields(ps))
            && (r.Success? ==>
                  r.value == XMatrixAuth(Given(ps, "origin").value, Given(ps, "destination"),
                                         Given(ps, "key").value[|KEY_PREFIX|..], GivenSignature(ps).value))
  {
    hide Given;
    assert Get(params, "origin") == Given(ps, "origin") && Get(params, "key") == Given(ps, "key");
    assert Get(params, "signature") == Given(ps, "signature") && Get(params, "sig") == Given(ps, "sig");
  }

  /** A header that carries an auth-param list has the fields that the list gives. */
  lemma ListHeader(ps: seq<AuthParam>)
    requires ps != [] && forall i :: 0 <= i < |ps| ==> ValidAuthParam(ps[i])
    ensures var r := ParseHeader(SCHEME + ListText(ps));
            && (r.Success? <==> GivesFields(ps))
            && (r.Success? ==>
                  r.value == XMatrixAuth(Given(ps, "origin").value, Given(ps, "destination"),
                                         Given(ps, "key").value[|KEY_PREFIX|..], GivenSignature(ps).value))
  {
    hide Parse, ParamsOf, AsParams, ValidAuthParam, ListText, Given, AuthOf, GivesFields, GivenSignature;
    ListParses(ps);
    SchemeStripped(ListText(ps));
    forall name
      ensures Get(ParamsOf(AsParams(ps)), name) == Given(ps, name)
    {
      ParamsAreGiven(ps, name);
    }
    GivenAuth(ParamsOf(AsParams(ps)), ps);
  }

  lemma SchemeStripped(params: string)
    ensures SCHEME <= SCHEME + params && (SCHEME + params)[|SCHEME|..] == params
  {
  }

  lemma RecoveredFieldsAreClean(o: string, d: string, k: string, s: string)
    requires Recovers(o, d, k, s)
    ensures Clean(o) && Clean(d) && Clean(k) && Clean(s)
  {
    hide Parse, HeaderParams, Backslashes;
    var text := HeaderParams(o, d, k, s);
    SchemeStripped(text);
    var params := Parse(text).value;
    assert KEY_PREFIX + params["key"][|KEY_PREFIX|..] == params["key"];
    assert KEY_PREFIX + k[|KEY_PREFIX|..] == k;
    ParsePays(text);
    HeaderBackslashes(o, d, k, s);
    assert Backslashes(text) == 0;
    BackslashesFound(text);
    BackslashesFound(o);
    BackslashesFound(d);
    BackslashesFound(k);
    BackslashesFound(s);
    ParseQuoteless(text);
  }

  /** A header whose fields need no escaping is refused when its key is not an ed25519 one. */
  lemma ForeignKeyRefused(origin: string, destination: string, key: string, signature: string)
    requires Clean(origin) && Clean(destination) && Clean(key) && Clean(signature) && !(KEY_PREFIX <= key)
    ensures ParseHeader(HeaderText(origin, destination, key, signature)).Failure?
  {
    hide Parse, HeaderParams;
    SchemeStripped(HeaderParams(origin, destination, key, signature));
    CleanHeaderParses(origin, destination, key, signature);
  }

  /**
   Parsing the printed header recovers all of its fields exactly when none needs escaping and the key is an ed25519
   one.
   */
  lemma HeaderRoundTripExact(origin: string, destination: string, key: string, signature: string)
    ensures Recovers(origin, destination, key, signature) <==>
            KEY_PREFIX <= key && Clean(origin) && Clean(destination) && Clean(key) && Clean(signature)
  {
    if Recovers(origin, destination, key, signature) {
      RecoveredFieldsAreClean(origin, destination, key, signature);
    }
    if KEY_PREFIX <= key && Clean(origin) && Clean(destination) && Clean(key) && Clean(signature) {
      hide Parse, HeaderParams;
      SchemeStripped(HeaderParams(origin, destination, key, signature));
      CleanHeaderParses(origin, destination, key, signature);
    }
  }
}
