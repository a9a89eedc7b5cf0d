/**
 Signing and verifying federation requests: the signer's text, the header it travels with, and the texts that the two
 verifiers rebuild from what they receive.
 */
module RequestSigning {
  import opened Prelude
  import opened Json
  import opened JsonText
  import opened CanonicalJson
  import opened BoundedCanonicalJson
  import opened KeyOrder
  import opened ShortestJson
  import opened XMatrixHeader

  /** `FederationRequestSigningData`. */
  datatype Request =
    Request(verb: string, uri: string, origin: string, destination: string, content: Option<Json>)

  ghost predicate WellFormedRequest(r: Request) {
    r.content.Some? ==> WellFormed(r.content.value)
  }

  /** `serde_json::to_value(signing_data)`: an absent content is skipped. */
  function RequestJson(r: Request): Json {
    Obj([Member("method", Str(r.verb)), Member("uri", Str(r.uri)), Member("origin", Str(r.origin)),
         Member("destination", Str(r.destination))]
        + if r.content.Some? then [Member("content", r.content.value)] else [])
  }

  /** The text that `create_authorization_header` has signed. */
  function SignerText(r: Request): Result<string, LimitError> {
    BoundedText(RequestJson(r))
  }

  /** The same request, up to member order in its body. */
  ghost predicate SameRequest(a: Request, b: Request) {
    && a.verb == b.verb && a.uri == b.uri && a.origin == b.origin && a.destination == b.destination
    && match (a.content, b.content)
       case (None, None) => true
       case (Some(x), Some(y)) => Equivalent(x, y)
       case _ => false
  }

  lemma RequestMembers(r: Request)
    ensures RequestJson(r).Obj?
    ensures var ms := RequestJson(r).members;
            && |ms| == (if r.content.Some? then 5 else 4)
            && ms[0] == Member("method", Str(r.verb)) && ms[1] == Member("uri", Str(r.uri))
            && ms[2] == Member("origin", Str(r.origin)) && ms[3] == Member("destination", Str(r.destination))
            && (r.content.Some? ==> ms[4] == Member("content", r.content.value))
            && DistinctKeys(ms)
            && ("content" in KeySet(ms) <==> r.content.Some?)
  {
  }

  lemma RequestJsonWellFormed(r: Request)
    requires WellFormedRequest(r)
    ensures WellFormed(RequestJson(r))
  {
  }

  lemma RequestJsonDecides(a: Request, b: Request)
    ensures Equivalent(RequestJson(a), RequestJson(b)) <==> SameRequest(a, b)
  {
    hide RequestJson, KeySet, DistinctKeys;
    RequestMembers(a);
    RequestMembers(b);
    var ms, ns := RequestJson(a).members, RequestJson(b).members;
    if Equivalent(RequestJson(a), RequestJson(b)) {
      assert a.content.Some? <==> b.content.Some?;
      assert Equivalent(ms[0].value, ns[0].value) && Equivalent(ms[1].value, ns[1].value);
      assert Equivalent(ms[2].value, ns[2].value) && Equivalent(ms[3].value, ns[3].value);
      if a.content.Some? {
        assert Equivalent(ms[4].value, ns[4].value);
      }
    }
    if SameRequest(a, b) {
      SameKeys(a, b);
      forall i, j | 0 <= i < |ms| && 0 <= j < |ns| && ms[i].key == ns[j].key
        ensures Equivalent(ms[i].value, ns[j].value)
      {
        assert i == j;
      }
    }
  }

  lemma SameKeys(a: Request, b: Request)
    requires a.content.Some? <==> b.content.Some?
    ensures KeySet(RequestJson(a).members) == KeySet(RequestJson(b).members)
  {
    hide RequestJson;
    RequestMembers(a);
    RequestMembers(b);
    var ms, ns := RequestJson(a).members, RequestJson(b).members;
    assert forall i :: 0 <= i < |ms| ==> ms[i].key == ns[i].key;
  }

  /** The signed text binds every field: two requests share it exactly when they are the same request. */
  lemma TextBindsRequest(a: Request, b: Request)
    requires WellFormedRequest(a) && WellFormedRequest(b)
    ensures CanonicalText(RequestJson(a)) == CanonicalText(RequestJson(b)) <==> SameRequest(a, b)
  {
    hide CanonicalText, RequestJson, Equivalent, SameRequest, WellFormed;
    RequestJsonWellFormed(a);
    RequestJsonWellFormed(b);
    CanonicalTextDecides(RequestJson(a), RequestJson(b));
    RequestJsonDecides(a, b);
  }

  // ---------- the bytes of the signed text ----------

  /** The members of the request in key order, the body's own sorted. */
  function SortedMembers(r: Request): seq<Member> {
    (if r.content.Some? then [Member("content", Canonical(r.content.value))] else [])
    + [Member("destination", Str(r.destination)), Member("method", Str(r.verb)), Member("origin", Str(r.origin)),
       Member("uri", Str(r.uri))]
  }

  /** The order shows in the first letters already. */
  lemma RequestIsSorted(r: Request)
    ensures Sorted(SortedMembers(r))
  {
    var ms := SortedMembers(r);
    forall i, j | 0 <= i < j < |ms|
      ensures Less(Keys(ms)[i], Keys(ms)[j])
    {
      assert Keys(ms)[i][0] < Keys(ms)[j][0];
    }
  }

  lemma SortedRequest(r: Request)
    ensures Canonical(RequestJson(r)) == Obj(SortedMembers(r))
  {
    hide Canonical, RequestJson, Sorted;
    RequestMembers(r);
    RequestIsSorted(r);
    var ms := RequestJson(r).members;
    CanonicalObject(ms);
    var canonical, sorted := Canonical(RequestJson(r)).members, SortedMembers(r);
    ScalarsAreCanonical(r);
    forall x
      ensures x in sorted ==> x in canonical
      ensures x in canonical ==> x in sorted
    {
      if x in canonical {
        var i :| 0 <= i < |ms| && x == Member(ms[i].key, Canonical(ms[i].value));
      }
      if x in sorted {
        assert exists i :: 0 <= i < |ms| && x == Member(ms[i].key, Canonical(ms[i].value));
      }
    }
    SortedUnique(canonical, sorted);
  }

  lemma ScalarsAreCanonical(r: Request)
    ensures Canonical(Str(r.verb)) == Str(r.verb) && Canonical(Str(r.uri)) == Str(r.uri)
    ensures Canonical(Str(r.origin)) == Str(r.origin) && Canonical(Str(r.destination)) == Str(r.destination)
  {
  }

  /** A name between quotes, as it is, and a colon. */
  function Label(name: string): string {
    "\"" + name + "\":"
  }

  lemma LabelIsPrinted(name: string, value: Json)
    requires forall i :: 0 <= i < |name| ==> 'a' <= name[i] <= 'z'
    ensures MemberText(Member(name, value)) == Label(name) + Text(value)
  {
    hide EscapeAll, Text;
    PlainIsPrintedAsIs(name);
    assert Quote(name) + ":" == Label(name);
  }

  function FieldBytes(name: string, s: string): string {
    Label(name) + Quote(s)
  }

  function HeadBytes(r: Request): string {
    FieldBytes("destination", r.destination) + "," +
    (FieldBytes("method", r.verb) + "," + (FieldBytes("origin", r.origin) + "," + FieldBytes("uri", r.uri)))
  }

  lemma FourMembers(r: Request, parts: seq<string>)
    requires |parts| == 4
    requires parts[0] == MemberText(Member("destination", Str(r.destination)))
    requires parts[1] == MemberText(Member("method", Str(r.verb)))
    requires parts[2] == MemberText(Member("origin", Str(r.origin)))
    requires parts[3] == MemberText(Member("uri", Str(r.uri)))
    ensures JoinComma(parts) == HeadBytes(r)
  {
    hide Quote, JoinComma, MemberText, Label;
    LabelIsPrinted("destination", Str(r.destination));
    LabelIsPrinted("method", Str(r.verb));
    LabelIsPrinted("origin", Str(r.origin));
    LabelIsPrinted("uri", Str(r.uri));
    assert parts == [parts[0], parts[1], parts[2], parts[3]];
    JoinFour(parts[0], parts[1], parts[2], parts[3]);
  }

  /** The signed text, byte by byte: the members in key order under the specification's names, without white space. */
  lemma SignedBytes(r: Request)
    ensures CanonicalText(RequestJson(r)) ==
            "{" + (if r.content.Some? then Label("content") + CanonicalText(r.content.value) + "," else "") +
            HeadBytes(r) + "}"
  {
    hide Canonical, RequestJson, Text, Quote, HeadBytes, JoinComma, Label;
    SortedRequest(r);
    var ms := SortedMembers(r);
    var parts := MemberTexts(ms);
    assert parts == seq(|ms|, i requires 0 <= i < |ms| => Quote(ms[i].key) + ":" + Text(ms[i].value));
    ObjText(Obj(ms), parts);
    if r.content.Some? {
      FourMembers(r, parts[1..]);
      JoinCons(parts);
      LabelIsPrinted("content", Canonical(r.content.value));
    } else {
      FourMembers(r, parts);
    }
  }

  lemma JoinCons(parts: seq<string>)
    requires |parts| > 1
    ensures JoinComma(parts) == parts[0] + "," + JoinComma(parts[1..])
  {
  }

  // ---------- the session service ----------

  function UpperChar(c: char): char {
    if 'a' <= c <= 'z' then (c as int - 32) as char else c
  }

  /** `to_uppercase` on an HTTP method. */
  function Upper(s: string): string {
    seq(|s|, i requires 0 <= i < |s| => UpperChar(s[i]))
  }

  datatype AuthError = MissingToken | InvalidSignature | Unauthorized | Unknown

  /** The body of a request as the session service reads it. */
  function BodyContent(body: string, levels: nat): Result<Option<Json>, AuthError> {
    if body == "" then Success(None)
    else
      match FromText(body, levels)
      case None => Failure(InvalidSignature)
      case Some(c) => Success(Some(c))
  }

  function SessionText(verb: string, uri: string, origin: string, destination: string, body: string, levels: nat)
    : Result<string, AuthError>
  {
    match BodyContent(body, levels)
    case Failure(e) => Failure(e)
    case Success(content) => Success(DirectText(RequestJson(Request(Upper(verb), uri, origin, destination, content))))
  }

  /** `build_canonical_json`. */
  method BuildCanonicalJson(verb: string, uri: string, origin: string, destination: string, body: string, levels: nat)
    returns (r: Result<string, AuthError>)
    ensures r == SessionText(verb, uri, origin, destination, body, levels)
  {
    hide DirectText, Put, Lookup, FromText, Upper;
    var ms: seq<Member> := [];
    ms := Put(ms, "method", Str(Upper(verb)));
    ms := Put(ms, "uri", Str(uri));
    ms := Put(ms, "origin", Str(origin));
    ms := Put(ms, "destination", Str(destination));
    assert Obj(ms) == RequestJson(Request(Upper(verb), uri, origin, destination, None));
    if body != "" {
      var parsed := FromText(body, levels);
      if parsed.None? {
        return Failure(InvalidSignature);
      }
      ms := Put(ms, "content", parsed.value);
      assert Obj(ms) == RequestJson(Request(Upper(verb), uri, origin, destination, parsed));
    }
    return Success(DirectText(Obj(ms)));
  }

  /** Upper-casing a method changes its small letters, each to the capital at the same place in the alphabet. */
  lemma UpperExact(s: string)
    ensures |Upper(s)| == |s|
    ensures forall i :: 0 <= i < |s| ==>
              if 'a' <= s[i] <= 'z' then Upper(s)[i] as int - 'A' as int == s[i] as int - 'a' as int
              else Upper(s)[i] == s[i]
  {
  }

  /** No body is no content; any other body must parse, and one that does not is an invalid signature. */
  lemma BodyMustParse(verb: string, uri: string, origin: string, destination: string, body: string, levels: nat)
    ensures var text := SessionText(verb, uri, origin, destination, body, levels);
            && (text == Failure(InvalidSignature) <==> body != "" && FromText(body, levels).None?)
            && (text.Failure? ==> text == Failure(InvalidSignature))
            && (body == "" ==>
                  text == Success(DirectText(RequestJson(Request(Upper(verb), uri, origin, destination, None)))))
  {
    hide FromText, DirectText, Upper;
  }

  /** The session service rebuilds a request's text exactly when it received that request, its method in upper case. */
  lemma SessionRebuildsExactly(r: Request, verb: string, uri: string, origin: string, destination: string, body: string,
                               levels: nat)
    requires WellFormedRequest(r)
    ensures SessionText(verb, uri, origin, destination, body, levels) == Success(CanonicalText(RequestJson(r))) <==>
            && BodyContent(body, levels).Success?
            && SameRequest(r, Request(Upper(verb), uri, origin, destination, BodyContent(body, levels).value))
  {
    hide CanonicalText, RequestJson, DirectText, SameRequest, Upper;
    if BodyContent(body, levels).Success? {
      var got := Request(Upper(verb), uri, origin, destination, BodyContent(body, levels).value);
      RequestJsonWellFormed(got);
      DirectTextAgrees(RequestJson(got));
      TextBindsRequest(r, got);
    }
  }

  // ---------- verify_x_matrix_auth ----------

  /** The characters that `HeaderValue::to_str` admits. */
  predicate VisibleChar(c: char) {
    ' ' <= c <= '~' || c == '\t'
  }

  predicate VisibleAscii(s: string) {
    forall i :: 0 <= i < |s| ==> VisibleChar(s[i])
  }

  /** The text `verify_x_matrix_auth` checks the signature against; the header may be missing. */
  function VerifierText(header: Option<string>, homeserver: string, verb: string, uri: string, content: Option<Json>)
    : Result<string, AuthError>
  {
    if header.None? then Failure(MissingToken)
    else if !VisibleAscii(header.value) then Failure(Unauthorized)
    else
      match ParseHeader(header.value)
      case Failure(_) => Failure(Unauthorized)
      case Success(auth) =>
        if auth.destination.Some? && auth.destination.value != homeserver then Failure(Unauthorized)
        else if auth.keyId == "" then Failure(Unauthorized)
        else if auth.signature == "" then Failure(InvalidSignature)
        else
          match BoundedText(RequestJson(Request(verb, uri, auth.origin, homeserver, content)))
          case Failure(_) => Failure(Unknown)
          case Success(text) => Success(text)
  }

  /** The list gives all fields, the key with an id, and no destination but this server. */
  predicate Usable(ps: seq<AuthParam>, homeserver: string) {
    && GivesFields(ps) && Given(ps, "key").value != "ed25519:"
    && (Given(ps, "destination").Some? ==> Given(ps, "destination").value == homeserver)
  }

  /**
   The verifier on every header of section 11.2 of RFC 9110, whoever printed it: a usable one with a signature leads to
   the text that its origin signs for this server, whether or not it names the destination, and every other one to its
   own error.
   */
  lemma VerifierOnLists(ps: seq<AuthParam>, homeserver: string, verb: string, uri: string, content: Option<Json>)
    requires ps != [] && forall i :: 0 <= i < |ps| ==> ValidAuthParam(ps[i])
    ensures var answer := VerifierText(Some(SCHEME + ListText(ps)), homeserver, verb, uri, content);
            && (!VisibleAscii(ListText(ps)) || !Usable(ps, homeserver) ==> answer == Failure(Unauthorized))
            && (VisibleAscii(ListText(ps)) && Usable(ps, homeserver) ==>
                  var signed := SignerText(Request(verb, uri, Given(ps, "origin").value, homeserver, content));
                  if GivenSignature(ps).value == "" then answer == Failure(InvalidSignature)
                  else if signed.Success? then answer == Success(signed.value)
                  else answer == Failure(Unknown))
  {
    hide ParseHeader, ListText, ValidAuthParam, VisibleAscii, BoundedText, Given, GivenSignature;
    ListHeader(ps);
    FixedTextVisible();
    VisibleConcat(SCHEME, ListText(ps));
  }

  /** A request without the header, or with one of another scheme, has its own error. */
  lemma VerifierNeedsHeader(header: Option<string>, homeserver: string, verb: string, uri: string,
                            content: Option<Json>)
    ensures VerifierText(header, homeserver, verb, uri, content) == Failure(MissingToken) <==> header.None?
    ensures header.Some? && !("X-Matrix " <= header.value) ==>
              VerifierText(header, homeserver, verb, uri, content) == Failure(Unauthorized)
  {
    hide ParseHeader, VisibleAscii, BoundedText;
    if header.Some? {
      OtherSchemesRefused(header.value);
    }
  }

  /** The header that travels with a signed request. */
  function HeaderOf(r: Request, key: string, signature: string): string {
    HeaderText(r.origin, r.destination, key, signature)
  }

  /** No header field needs escaping. */
  predicate CleanFields(r: Request, key: string, signature: string) {
    Clean(r.origin) && Clean(r.destination) && Clean(key) && Clean(signature)
  }

  predicate VisibleFields(r: Request, key: string, signature: string) {
    VisibleAscii(r.origin) && VisibleAscii(r.destination) && VisibleAscii(key) && VisibleAscii(signature)
  }

  /** What the verifier asks of the header fields: all visible ASCII, an ed25519 key with an id, and a signature. */
  predicate Presentable(r: Request, key: string, signature: string) {
    VisibleFields(r, key, signature) && KEY_PREFIX < key && signature != ""
  }

  lemma VisibleConcat(a: string, b: string)
    ensures VisibleAscii(a + b) <==> VisibleAscii(a) && VisibleAscii(b)
  {
    assert forall i :: 0 <= i < |a| ==> (a + b)[i] == a[i];
    assert forall i :: 0 <= i < |b| ==> (a + b)[|a| + i] == b[i];
  }

  lemma VisibleField(name: string, value: string)
    requires VisibleAscii(name)
    ensures VisibleAscii(Field(name, value)) <==> VisibleAscii(value)
  {
    VisibleConcat(name, "=\"");
    VisibleConcat(name + "=\"", value);
    VisibleConcat(name + "=\"" + value, "\"");
  }

  lemma VisiblePair(a: string, b: string)
    ensures VisibleAscii(a + "," + b) <==> VisibleAscii(a) && VisibleAscii(b)
  {
    VisibleConcat(a, ",");
    VisibleConcat(a + ",", b);
  }

  lemma FixedTextVisible()
    ensures VisibleAscii(SCHEME) && VisibleAscii("origin") && VisibleAscii("destination") && VisibleAscii("key")
    ensures VisibleAscii("signature")
  {
  }

  lemma HeaderVisible(r: Request, key: string, signature: string)
    ensures VisibleAscii(HeaderOf(r, key, signature)) <==> VisibleFields(r, key, signature)
  {
    hide VisibleAscii, Field;
    FixedTextVisible();
    var origin, destination := Field("origin", r.origin), Field("destination", r.destination);
    var keyField, signatureField := Field("key", key), Field("signature", signature);
    VisibleField("origin", r.origin);
    VisibleField("destination", r.destination);
    VisibleField("key", key);
    VisibleField("signature", signature);
    VisiblePair(keyField, signatureField);
    VisiblePair(destination, keyField + "," + signatureField);
    VisiblePair(origin, destination + "," + (keyField + "," + signatureField));
    VisibleConcat(SCHEME, HeaderParams(r.origin, r.destination, key, signature));
  }

  /**
   A request whose origin, destination, key or signature holds a character outside visible ASCII is refused before its
   header is read, by every server and whatever else it carries.
   */
  lemma InvisibleFieldRefused(signed: Request, key: string, signature: string,
                              homeserver: string, verb: string, uri: string, content: Option<Json>)
    requires !VisibleFields(signed, key, signature)
    ensures VerifierText(Some(HeaderOf(signed, key, signature)), homeserver, verb, uri, content) ==
            Failure(Unauthorized)
  {
    hide HeaderText, ParseHeader, VisibleAscii, BoundedText;
    HeaderVisible(signed, key, signature);
  }

  lemma UnpresentableFails(signed: Request, key: string, signature: string,
                           homeserver: string, verb: string, uri: string, content: Option<Json>)
    requires CleanFields(signed, key, signature) && !Presentable(signed, key, signature)
    ensures VerifierText(Some(HeaderOf(signed, key, signature)), homeserver, verb, uri, content).Failure?
  {
    hide HeaderText, ParseHeader, VisibleAscii, BoundedText, Clean;
    HeaderVisible(signed, key, signature);
    HeaderRoundTripExact(signed.origin, signed.destination, key, signature);
    if !(KEY_PREFIX <= key) {
      ForeignKeyRefused(signed.origin, signed.destination, key, signature);
    }
  }

  /**
   A signed request's header, if no field needs escaping, leads a verifier to the signed text exactly when its fields
   are visible ASCII with a key id and a signature, and the request received is the one signed and was meant for this
   server.
   */
  lemma VerifierRebuildsExactly(signed: Request, key: string, signature: string,
                                homeserver: string, verb: string, uri: string, content: Option<Json>)
    requires WellFormedRequest(signed) && WellFormedRequest(Request(verb, uri, signed.origin, homeserver, content))
    ensures SignerText(signed).Success? && CleanFields(signed, key, signature) ==>
              (VerifierText(Some(HeaderOf(signed, key, signature)), homeserver, verb, uri, content)
               == Success(SignerText(signed).value) <==>
               && Presentable(signed, key, signature)
               && SameRequest(signed, Request(verb, uri, signed.origin, homeserver, content)))
  {
    hide HeaderText, ParseHeader, CanonicalText, RequestJson, FirstViolation, Equivalent, WellFormed, VisibleAscii,
         Clean;
    if CleanFields(signed, key, signature) && !Presentable(signed, key, signature) {
      UnpresentableFails(signed, key, signature, homeserver, verb, uri, content);
    }
    HeaderVisible(signed, key, signature);
    HeaderRoundTripExact(signed.origin, signed.destination, key, signature);
    var got := Request(verb, uri, signed.origin, homeserver, content);
    TextBindsRequest(signed, got);
    if SameRequest(signed, got) {
      RequestJsonDecides(signed, got);
      RequestJsonWellFormed(signed);
      RequestJsonWellFormed(got);
      LimitsIgnoreOrder(RequestJson(signed), RequestJson(got), 0);
      ViolationExact(RequestJson(signed), 0);
      ViolationExact(RequestJson(got), 0);
    }
  }

  /** The body text carries the content, up to member order. */
  ghost predicate Carries(body: string, levels: nat, content: Option<Json>) {
    match content
    case None => body == ""
    case Some(c) => FromText(body, levels).Some? && Equivalent(c, FromText(body, levels).value)
  }

  /**
   Both verifiers rebuild the signer's own text, with or without a body: the one that reads the header exactly when it
   finds the fields presentable, the session service for an upper-case method.
   */
  lemma VerifiersAgreeWithSigner(r: Request, key: string, signature: string, body: string, levels: nat)
    requires WellFormedRequest(r)
    ensures SignerText(r).Success? && CleanFields(r, key, signature) ==>
              (Presentable(r, key, signature) <==>
               VerifierText(Some(HeaderOf(r, key, signature)), r.destination, r.verb, r.uri, r.content) ==
               Success(SignerText(r).value))
    ensures SignerText(r).Success? && Upper(r.verb) == r.verb && Carries(body, levels, r.content) ==>
              SessionText(r.verb, r.uri, r.origin, r.destination, body, levels) == Success(SignerText(r).value)
  {
    hide HeaderOf, VerifierText, CanonicalText, RequestJson, FirstViolation, Equivalent, WellFormed, SessionText,
         FromText, Upper, CleanFields, Presentable;
    if r.content.Some? {
      EquivalentReflexive(r.content.value);
    }
    EmptyIsNoText(levels);
    VerifierRebuildsExactly(r, key, signature, r.destination, r.verb, r.uri, r.content);
    SessionRebuildsExactly(r, r.verb, r.uri, r.origin, r.destination, body, levels);
  }

  lemma EmptyIsNoText(levels: nat)
    ensures FromText("", levels) == None
  {
  }
}
