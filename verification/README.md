# Verified model of a Matrix homeserver's federation, session and sync core

This project models, in Dafny, the parts of the Matryx homeserver and client where a small mistake is a security or
availability problem, and proves what they do on every input or over every run.

| file | what it models |
|---|---|
| `Json.dfy`, `JsonText.dfy`, `ShortestJson.dfy` | JSON values, their compact text and a reader for it, the round trip between them with any white space, and why no other text of a value is as short |
| `KeyOrder.dfy`, `CanonicalJson.dfy`, `BoundedCanonicalJson.dfy` | three implementations of canonical JSON: the entity package's sorted tree, the session service's direct printer, and the server's bounded one |
| `XMatrixParser.dfy`, `XMatrixHeader.dfy` | the `X-Matrix` header machine, the exact language it accepts, and the header round trip |
| `RequestSigning.dfy` | the text a federation request signs and the texts its two verifiers rebuild |
| `ServerName.dfy`, `SrvResolution.dfy`, `ServerDiscovery.dfy` | server-name parsing, SRV ordering, and the resolver with its two caches and backoff |
| `RefreshTokens.dfy` | refresh-token rotation and revocation over the token repository |
| `LeftUsers.dfy` | the two sync tasks that share the set of departed users |
| `Uia.dfy` | User-Interactive Authentication sessions |
| `FilterCache.dfy` | the filter-result cache and its room index |
| `HttpRetry.dfy` | the client's retry loop |
| `Prelude.dfy` | options, results, searching in strings, decimal text and powers of two |

Code that computes a value is a function; code that updates fields, maps or loop variables is a class or a method with
loops, proved equal to a specification function on values, and the theorems are about that function. Clock readings,
random identifiers, network and database answers and failures are arguments. Where a call reads the clock several
times, the model takes several readings in order. `dafny verify dfyconfig.toml` checks the whole project.

## Findings

Three things the documentation or the design promises are not what the code does; each has its exact condition here.

- **Revoking a token chain does not revoke the chain.** `revoke_token_chain` is documented to revoke "all tokens in the
  chain", but the repository's query marks the root and its direct children only. After a revocation the family is dead
  exactly when every live member is at most one rotation after the oldest stored one (`RefreshTokens.RevokeReach`);
  otherwise the live token goes on rotating (`RevokedFamilyCanRotate`). Hitting the rotation limit revokes in the same
  way and has the same exact condition (`LimitLeavesTokenLive`), which in a run without failures comes down to the count
  of the presented token itself (`LimitInFaultlessRuns`).
- **A started UIA session cannot be found.** `start_session` returns an identifier of its own while the repository files
  the session under another one. An attempt finds a session exactly when the repository filed one under that identifier
  and no cleanup has found it expired since (`Uia.InvalidSessionExactly`), so every attempt under the returned
  identifier is an invalid session (`ReturnedIdIsUnknown`; `StartThenAuth` is such a run).
- **The printed `X-Matrix` header is not escaped.** Parsing gives its fields back exactly when none holds a quote or a
  backslash and the key is an ed25519 one (`XMatrixHeader.HeaderRoundTripExact`). That is a statement about the printer
  and the parser alone: `verify_x_matrix_auth` refuses a header with any character outside visible ASCII and tab before
  it parses it, so a server with such a name can never be verified (`RequestSigning.InvisibleFieldRefused`).
  `RequestSigning.VerifierRebuildsExactly` has the exact condition for the whole way from signer to verifier.

The parser also accepts more than section 11.2 of RFC 9110: it drops a name left unfinished at the end, gives a name
followed by white space an empty value, and ignores white space inside unquoted values. `XMatrixParser.ParseExact` is the
whole language, leniencies included.

## Model

| member | source | states |
|---|---|---|
| JsonText.RoundTrip | packages/entity/src/utils/canonical_json.rs:133-139 | reading a value's compact text gives the value back, for every value the parser's nesting bound admits |
| JsonText.ReadPrinted | packages/entity/src/utils/canonical_json.rs:39-43 | a value's text is read back in only one way whatever text follows it, unless that text would continue a number |
| JsonText.ReadEscaped | packages/entity/src/utils/canonical_json.rs:250-259 | every escaped string reads back as the string, control characters included |
| JsonText.SpaceIsIgnored | packages/server/src/auth/session_service.rs:291-294 | a text with any white space around and between its tokens reads as the same value; the printed text is the one without any |
| ShortestJson.EscapeCharIsChosen | packages/entity/src/utils/canonical_json.rs:250-259 | the text of a character is the only shortest one without upper-case hex digits that reads back as it |
| ShortestJson.EscapeConcat | packages/entity/src/utils/canonical_json.rs:39-43 | strings are printed character by character |
| ShortestJson.PlainIsPrintedAsIs | packages/entity/src/utils/canonical_json.rs:39-43 | a string with no quote, backslash or control character is printed as it is |
| ShortestJson.EscapedIsShortest | packages/entity/src/utils/canonical_json.rs:39-43 | no text of a string, up to and including its closing quote, is shorter than the printed one |
| ShortestJson.TextIsShortest | packages/entity/src/utils/canonical_json.rs:39-43 | no text that reads as a value is shorter than its printed text: no white space, no needless escape, no leading zero |
| ShortestJson.CanonicalTextIsShortest | packages/entity/src/utils/canonical_json.rs:39-97 | among all texts of all values equal to it up to member order, none is shorter than a value's canonical text |
| KeyOrder.LessIsLexicographic | packages/entity/src/utils/canonical_json.rs:70-71 | keys are ordered lexicographically by code point |
| CanonicalJson.CanonicalizeValue | packages/entity/src/utils/canonical_json.rs:67-97 | the loops over `BTreeMap`, `Map` and `Vec` build the value with members in key order at every depth |
| CanonicalJson.ToCanonicalText | packages/entity/src/utils/canonical_json.rs:39-43 | rebuild and print gives the canonical text |
| CanonicalJson.CanonicalDecides | packages/entity/src/utils/canonical_json.rs:67-97 | two values canonicalize to the same tree if and only if they are equal up to member order at every depth |
| CanonicalJson.CanonicalTextDecides | packages/entity/src/utils/canonical_json.rs:39-97 | canonical text is injective: equal texts if and only if equal values up to member order |
| CanonicalJson.EquivalenceLaws | packages/entity/src/utils/canonical_json.rs:61-66 | equality up to member order is reflexive, symmetric and transitive |
| CanonicalJson.CanonicalShape | packages/entity/src/utils/canonical_json.rs:67-97 | canonicalizing keeps a value well formed and exactly as deep |
| CanonicalJson.CanonicalIdempotent | packages/entity/src/utils/canonical_json.rs:67-97 | canonicalizing twice is canonicalizing once |
| CanonicalJson.IsCanonicalTextExact | packages/entity/src/utils/canonical_json.rs:133-139 | the check accepts a text if and only if it is the canonical text of some value within the parser's nesting bound |
| CanonicalJson.SigningTextDecides | packages/entity/src/utils/canonical_json.rs:111-121 | two events have the same bytes to sign if and only if they agree, up to member order, outside `signatures` and `unsigned` |
| CanonicalJson.SigningTextIs | packages/entity/src/utils/canonical_json.rs:111-121 | the bytes to sign are the canonical text of any object that holds exactly the members other than `signatures` and `unsigned` |
| CanonicalJson.SigningLeavesTextAlone | packages/entity/src/utils/canonical_json.rs:111-121 | writing signatures and unsigned data, any number of times in any order, never changes the bytes to sign |
| CanonicalJson.DirectTextAgrees | packages/server/src/auth/session_service.rs:753-785 | printing directly with sorted keys gives the text of the sorted tree, for every value |
| CanonicalJson.SortedKeysAgree | packages/server/src/auth/session_service.rs:767-770 | sorting the keys gives exactly the keys of the sorted tree, in order |
| BoundedCanonicalJson.CanonicalizeBounded | packages/server/src/utils/canonical_json.rs:55-132 | the bounded walk returns the canonical value, or the first bound broken in walk order |
| BoundedCanonicalJson.ToCanonicalJson | packages/server/src/utils/canonical_json.rs:15-22 | the text is printed within the bounds and the first error is returned otherwise |
| BoundedCanonicalJson.ViolationExact | packages/server/src/utils/canonical_json.rs:55-132 | the walk finds no broken bound if and only if every node is within the depth and size bounds and no key is empty |
| BoundedCanonicalJson.ViolationIsFirst | packages/server/src/utils/canonical_json.rs:55-132 | the error names the bound broken first, top down and left to right, with everything before it within the bounds |
| BoundedCanonicalJson.LimitsIgnoreOrder | packages/server/src/utils/canonical_json.rs:55-132 | whether a value is within the bounds does not depend on member order |
| BoundedCanonicalJson.BoundedTextExact | packages/server/src/utils/canonical_json.rs:15-22 | it succeeds exactly within the bounds, and then agrees with the session service's printer |
| XMatrixParser.ParseAuthParams | packages/server/src/auth/x_matrix_parser.rs:135-253 | the loop with its two peeking loops computes the plain six-state machine's outcome, errors included |
| XMatrixParser.ParseExact | packages/server/src/auth/x_matrix_parser.rs:135-253 | parsing succeeds with a parameter map if and only if the text has a complete reading in an independent grammar that means that map |
| XMatrixParser.ErrorsExact | packages/server/src/auth/x_matrix_parser.rs:147-250 | parsing fails with an error if and only if some reading stops with it: at a character no text goes on with, or at the end in the middle of a value |
| XMatrixParser.TokenCharExact | packages/server/src/auth/x_matrix_parser.rs:259-270 | token characters are the visible ones except the delimiters of section 5.6.2 of RFC 9110, the colon allowed |
| XMatrixParser.RunReading | packages/server/src/auth/x_matrix_parser.rs:147-232 | every text of the grammar drives the machine to the state the grammar says |
| XMatrixParser.ReadingOf | packages/server/src/auth/x_matrix_parser.rs:147-232 | every text the machine has not rejected has a reading in the grammar |
| XMatrixHeader.AuthParamsParse | packages/server/src/auth/x_matrix_parser.rs:131-253 | every auth-param list of section 11.2 of RFC 9110, with tokens, quoted strings, escapes and optional white space, parses to exactly its lower-cased names, each with the unescaped value it was last given |
| XMatrixHeader.NamesIgnoreCase | packages/server/src/auth/x_matrix_parser.rs:213-214 | two names are the same parameter if and only if they have the same letters without case |
| XMatrixHeader.ListHeader | packages/server/src/auth/x_matrix_parser.rs:93-129 | a header carrying an auth-param list parses if and only if the list gives an origin, an ed25519 key and a signature, to the values last given |
| XMatrixHeader.OtherSchemesRefused | packages/server/src/auth/x_matrix_parser.rs:93-97 | a header is refused for its scheme if and only if it does not begin with `X-Matrix ` |
| XMatrixHeader.AuthOfExact | packages/server/src/auth/x_matrix_parser.rs:102-129 | the fields come from `origin`, `key` after its prefix, `destination` if present, and `signature` or else `sig` |
| XMatrixHeader.ParsePays | packages/server/src/auth/x_matrix_parser.rs:192-208 | every backslash in a parsed value was paid for by another one in the input |
| XMatrixHeader.HeaderRoundTripExact | packages/server/src/auth/signing.rs:140-144 | parsing the printed header recovers origin, destination, signature and the key without its prefix if and only if the key is an ed25519 one and no field holds a quote or a backslash |
| XMatrixHeader.ForeignKeyRefused | packages/server/src/auth/x_matrix_parser.rs:112-117 | a printed header whose fields need no escaping is refused if its key is not an ed25519 one |
| RequestSigning.TextBindsRequest | packages/server/src/auth/signing.rs:16-43 | two requests have the same signed text if and only if method, uri, origin and destination are equal and the bodies are equal up to member order |
| RequestSigning.SignedBytes | packages/server/src/auth/signing.rs:16-43 | the signed text is, byte by byte, `content` if present, `destination`, `method`, `origin` and `uri` in that order without white space |
| RequestSigning.BuildCanonicalJson | packages/server/src/auth/session_service.rs:274-301 | the inserted map prints as the request's canonical text; a non-empty body that does not parse is an invalid signature |
| RequestSigning.SessionRebuildsExactly | packages/server/src/auth/session_service.rs:274-301 | the session service rebuilds a request's signed text if and only if it received that request, with its method upper-cased and its body parsed |
| RequestSigning.BodyMustParse | packages/server/src/auth/session_service.rs:274-301 | the only failure is an invalid signature, exactly for a non-empty body that does not parse; an empty body is no content |
| RequestSigning.UpperExact | packages/server/src/auth/session_service.rs:285 | upper-casing changes small letters only, each to the capital at its place in the alphabet |
| RequestSigning.VerifierRebuildsExactly | packages/server/src/auth/signing.rs:187-234 | for a header whose fields need no escaping, the verifier reaches the signed text if and only if the fields are visible ASCII with a key id under the ed25519 prefix and a signature, and the request received is the signed one, body up to member order, and was meant for this server |
| RequestSigning.VerifierOnLists | packages/server/src/auth/signing.rs:187-234 | on every auth-param header, whoever printed it, a usable list with a signature leads to the text its origin signs for this server, destination named or not; a destination of another server, a missing field, a foreign key and an empty signature each give their own error |
| RequestSigning.VerifierNeedsHeader | packages/server/src/auth/signing.rs:196-204 | a missing header is a missing token, and one of another scheme is unauthorized |
| RequestSigning.InvisibleFieldRefused | packages/server/src/auth/signing.rs:196-200 | a character outside visible ASCII and tab in origin, destination, key or signature is answered with Unauthorized by every server, whatever the request |
| RequestSigning.VerifiersAgreeWithSigner | packages/server/src/auth/signing.rs:100-145 | both verifiers rebuild the signer's own text, with or without a body: the header's verifier if and only if it finds the unescaped fields presentable, the session service for an upper-case method |
| ServerName.ParseServerNameExact | packages/server/src/federation/dns_resolver.rs:336-386 | a name parses to an endpoint if and only if it has one of five shapes denoting that endpoint |
| ServerName.ParsePortExact | packages/server/src/federation/dns_resolver.rs:349-353 | a text is a port if and only if it is digits after an optional plus sign whose number is at most 65535 |
| ServerName.PrintedNameParses | packages/server/src/federation/dns_resolver.rs:336-386 | parsing inverts printing for host, host and port, bracketed literal, and bracketed literal and port |
| ServerName.AcceptedPortsFit | packages/server/src/federation/dns_resolver.rs:349-353 | documents the definition: every accepted port is a 16-bit number |
| SrvResolution.TryTargets | packages/server/src/federation/dns_resolver.rs:615-645 | the loop over the sorted records finds the first that resolves, with its address |
| SrvResolution.SortRecordsSorts | packages/server/src/federation/dns_resolver.rs:610-613 | the records tried are a permutation of the given ones, by priority and then weight |
| SrvResolution.PickExact | packages/server/src/federation/dns_resolver.rs:610-645 | the record used resolves, no better one does and no equally good earlier one does; none is used if and only if no target resolves |
| ServerDiscovery.ViaSrvExact | packages/server/src/federation/dns_resolver.rs:588-646 | an SRV lookup answers with a server if and only if it is built from the best record that resolves |
| ServerDiscovery.DelegateExact | packages/server/src/federation/dns_resolver.rs:428-492 | a delegation gives a server if and only if it leads there: address, port, Host header and TLS name of a literal, a host with a port, or a plain host |
| ServerDiscovery.ResolutionExact | packages/server/src/federation/dns_resolver.rs:288-332 | the whole answer for a plain host, address, port and names included: where a delegation leads, or else the best record of the newer service, of the older one, or its own address on 8448; the error is that of its own address |
| ServerDiscovery.ResolutionOrder | packages/server/src/federation/dns_resolver.rs:288-332 | each step of resolving a plain host is used exactly when all before it have nothing that resolves, and resolution fails exactly when none has |
| ServerDiscovery.DelegationOrder | packages/server/src/federation/dns_resolver.rs:428-492 | documents the definition: a delegation to a plain host follows its records in order and then the default port, under the delegated name |
| ServerDiscovery.ExplicitNames | packages/server/src/federation/dns_resolver.rs:262-286 | documents the definition: a name with an address literal or a port is reached there without discovery, at its port or 8448, and is itself the Host header |
| ServerDiscovery.ExplicitDelegations | packages/server/src/federation/dns_resolver.rs:433-458 | documents the definition: a delegated literal or port likewise, with a Host header that names the port |
| ServerDiscovery.CacheIsTransparent | packages/server/src/federation/dns_resolver.rs:258-333 | with fixed outside answers, a well-known cache filled from them changes no result, errors included, and stays so filled |
| ServerDiscovery.DelayDoubles | packages/server/src/federation/dns_resolver.rs:120-125 | the delay starts at one second and doubles with each failure up to 1024 seconds |
| ServerDiscovery.MatrixDnsResolver.ResolveServer | packages/server/src/federation/dns_resolver.rs:221-255 | the method's answer and new maps are those of the specification |
| ServerDiscovery.MatrixDnsResolver.ResolveInternal | packages/server/src/federation/dns_resolver.rs:258-333 | the same for the uncached part and the well-known cache |
| ServerDiscovery.MatrixDnsResolver.ResolveViaWellKnown | packages/server/src/federation/dns_resolver.rs:389-425 | successes and failures are both cached, for a day |
| ServerDiscovery.MatrixDnsResolver.ProcessWellKnownResponse | packages/server/src/federation/dns_resolver.rs:428-492 | a delegation leads where the specification says, trying the two SRV services and the default port in order |
| ServerDiscovery.MatrixDnsResolver.ResolveViaSrv | packages/server/src/federation/dns_resolver.rs:588-646 | the lookup and the loop over its sorted records give the specified answer, with each of its errors |
| ServerDiscovery.MatrixDnsResolver.CleanupCache | packages/server/src/federation/dns_resolver.rs:564-585 | exactly the unexpired entries and the backoffs of the last day are retained |
| ServerDiscovery.WellKnownLastsADay | packages/server/src/federation/dns_resolver.rs:389-425 | a fetched response, or the lack of one, is used for a day whatever the network says and fetched anew after it; other hosts are left alone |
| ServerDiscovery.CachedWasFetched | packages/server/src/federation/dns_resolver.rs:389-425 | after every run, each cached response is what the network answered to some call, kept for a day from then |
| ServerDiscovery.OutcomeRecorded | packages/server/src/federation/dns_resolver.rs:239-254 | an attempt counts a failure, sets the doubled delay and keeps the error for an hour, or clears the backoff, and touches no other name |
| ServerDiscovery.ErrorLastsAnHour | packages/server/src/federation/dns_resolver.rs:224-254 | a failure is repeated for one hour whatever the network says, and the name is resolved anew right after it |
| ServerDiscovery.BackoffNeverRejects | packages/server/src/federation/dns_resolver.rs:224-237 | after every run, with any network answers and cleanups, a name without a live cached error passes the backoff check |
| ServerDiscovery.ResolverRefinesSimple | packages/server/src/federation/dns_resolver.rs:221-255 | over every run with any network answers, the three-map resolver answers as one that only repeats an error for an hour |
| ServerDiscovery.ResolverRefinesOneHourBan | packages/server/src/federation/dns_resolver.rs:221-255 | with fixed outside answers, every run is direct resolution with one hour of rejection after a failure: no cache shows |
| ServerDiscovery.CleanupChangesNoAnswer | packages/server/src/federation/dns_resolver.rs:564-585 | cleanup keeps exactly the unexpired entries and the backoffs of the last day, and changes no lookup and no retry check from its time on |
| ServerDiscovery.CleanupIsInvisible | packages/server/src/federation/dns_resolver.rs:564-585 | removing all cleanups from a run changes none of its answers |
| ServerDiscovery.FailureCounterFits | packages/server/src/federation/dns_resolver.rs:120-122 | the failure counter grows by at most one an hour, so its 32 bits last 2^32 hours |
| RefreshTokens.RefreshTokenService.CreateInitialTokens | packages/server/src/auth/refresh_token.rs:63-108 | the new store and result, with any of its calls failing |
| RefreshTokens.RefreshTokenService.RefreshTokens | packages/server/src/auth/refresh_token.rs:111-192 | the new store and result, with the clock read twice and any of its calls failing or its update selecting nothing, and the forest kept |
| RefreshTokens.RefreshTokenService.RevokeRefreshToken | packages/server/src/auth/refresh_token.rs:195-211 | the new store and result, with any of its calls failing |
| RefreshTokens.RefreshTokenService.RevokeTokenChain | packages/server/src/auth/refresh_token.rs:277-296 | the walk over parents ends within `rotation_count` steps at the oldest stored ancestor, or where a lookup fails, and revocation starts there |
| RefreshTokens.RunsAreForests | packages/server/src/auth/refresh_token.rs:63-192 | in every run, whatever fails midway, a stored child has its parent's user and device and one more rotation, and counts stay within 0 to 100 |
| RefreshTokens.FamiliesNeverChange | packages/server/src/auth/refresh_token.rs:277-285 | over a run without cleanup, whatever fails, every token keeps its family, and the family's root is an original login |
| RefreshTokens.FamiliesAreStable | packages/server/src/auth/refresh_token.rs:140-152 | a refreshed token's successor joins its family |
| RefreshTokens.OneLiveTokenPerFamily | packages/server/src/auth/refresh_token.rs:111-192 | in every run without failures, the tokens that share an oldest stored ancestor hold at most one neither used nor revoked |
| RefreshTokens.OneLiveTokenPerLogin | packages/server/src/auth/refresh_token.rs:63-192 | in every run without failures, a login has at most one token neither used nor revoked, also where cleanups have split its chain; a family always belongs to one login |
| RefreshTokens.RefreshSucceedsExactly | packages/server/src/auth/refresh_token.rs:115-130 | documents the definition: a refresh succeeds if and only if the token is stored, unused, unrevoked, unexpired and below the limit |
| RefreshTokens.TokensWorkOnce | packages/server/src/auth/refresh_token.rs:154-168 | a refreshed token is refused ever after and its successor is valid for thirty days |
| RefreshTokens.LoginWorks | packages/server/src/auth/refresh_token.rs:63-108 | a login's token carries its user, device and access token, works for thirty days and leaves all other tokens alone |
| RefreshTokens.SuccessorInherits | packages/server/src/auth/refresh_token.rs:140-168 | a successor carries its parent's user and device one rotation on for thirty days, and no other record but its parent changes |
| RefreshTokens.EarlyFailureChangesNothing | packages/server/src/auth/refresh_token.rs:115-159 | a refresh that fails before the successor is stored changes nothing |
| RefreshTokens.LostSuccessor | packages/server/src/auth/refresh_token.rs:170-179 | a refresh that fails only to create the session has rotated all the same: the old token never works again |
| RefreshTokens.CleanupExact | packages/surrealdb/src/repository/auth.rs:386-399 | a cleanup removes exactly the expired records and those used and created more than a week ago, and no token that would validate from then on |
| RefreshTokens.FailedMarkForks | packages/server/src/auth/refresh_token.rs:162-168 | when marking the old token fails, the refresh fails and the old token and its successor are both live in one family |
| RefreshTokens.MissedMarkForks | packages/surrealdb/src/repository/auth.rs:320-330 | when the marking update selects no record, the refresh succeeds, the old token validates exactly as before and its successor is live beside it |
| RefreshTokens.RevokeReach | packages/surrealdb/src/repository/auth.rs:370-383 | after a revocation no token of the family is live if and only if every live one was at most one rotation after the root |
| RefreshTokens.RevokeExact | packages/surrealdb/src/repository/auth.rs:370-383 | a record is marked revoked, and nothing else in it changes, if and only if it is in the family and at most one rotation after the root; every other record stays as it was |
| RefreshTokens.RevokeSparesOthers | packages/server/src/auth/refresh_token.rs:277-296 | whatever fails, a revocation leaves every other family as it was |
| RefreshTokens.RevocationStaysInLogin | packages/server/src/auth/refresh_token.rs:195-211 | at every step of every run, whatever fails, revoking a token changes no token of another login |
| RefreshTokens.WalkStopsAt | packages/server/src/auth/refresh_token.rs:277-285 | a lookup that fails stops the walk that many rotations back, or at the root before that |
| RefreshTokens.RevokeAnswers | packages/server/src/auth/refresh_token.rs:195-211 | a revocation succeeds exactly for a known token with no failing call, and changes nothing when it fails |
| RefreshTokens.BulkRevocationExact | packages/surrealdb/src/repository/auth.rs:332-368 | revoking by user or by device marks exactly those records |
| RefreshTokens.RevokedFamilyCanRotate | packages/surrealdb/src/repository/auth.rs:370-383 | otherwise the live token can still be refreshed |
| RefreshTokens.RotationStopsAtLimit | packages/server/src/auth/refresh_token.rs:125-130 | documents the definition: at the rotation limit a refresh fails and creates nothing, whatever else fails |
| RefreshTokens.LimitLeavesTokenLive | packages/server/src/auth/refresh_token.rs:125-130 | a refresh at the limit reports an expired session; it leaves the family dead if and only if every live member is at most one rotation after the oldest stored one, and the presented token goes on validating if and only if it is further on |
| RefreshTokens.LimitInFaultlessRuns | packages/server/src/auth/refresh_token.rs:125-130 | in a run without failures, a refresh at the limit leaves the family dead if and only if the presented token is at most one rotation after the oldest stored one |
| RefreshTokens.RevocationMissesThirdToken | packages/surrealdb/src/repository/auth.rs:374-378 | a login, two refreshes and a revocation that leaves the third token live |
| LeftUsers.FilterTrulyLeftUsers | packages/client/src/sync.rs:674-728 | the nested loops keep exactly the candidates, in order, whom the queries show in no joined room with us; only the first query's failure is an error |
| LeftUsers.FailuresOnlyAdd | packages/client/src/sync.rs:476-484 | a failed query can only add reported users, never drop one |
| LeftUsers.LiveQuerySync.TrackMembership | packages/client/src/sync.rs:334-344 | a leave or a ban adds its user, anything else adds nobody |
| LeftUsers.LiveQuerySync.DrainLeftUsers | packages/client/src/sync.rs:450-457 | the set is cleared and its users are returned, each once |
| LeftUsers.PendingExact | packages/client/src/sync.rs:325-356 | over every interleaving, a user is pending if and only if they departed since the last drain |
| LeftUsers.ReportExact | packages/client/src/sync.rs:444-497 | over every interleaving, a report names a user if and only if they departed between the last two drains and its queries show no shared joined room |
| Uia.UiaService.ProcessAuth | packages/server/src/auth/uia.rs:171-272 | the four handlers and the flow check give the specified reply and stored sessions |
| Uia.UiaService.StartSession | packages/server/src/auth/uia.rs:128-168 | the session is filed under the identifier and expiry the repository chose and returned under those of the service; nothing is filed when the repository fails |
| Uia.OnlySuccessChanges | packages/server/src/auth/uia.rs:191-272 | a stored session changes only for a timely, successful and persisted attempt, and no other session does |
| Uia.RepliesExact | packages/server/src/auth/uia.rs:171-272 | which of the seven replies answers which attempt, both ways: a passed, timely and stored attempt completes the session if and only if some flow then asks for no other stage |
| Uia.AcceptedIsRecorded | packages/server/src/auth/uia.rs:203-228 | an accepted attempt adds its stage and its flag, and completion if it completes a flow, and changes nothing else |
| Uia.SessionsAreSound | packages/server/src/auth/uia.rs:320-446 | in every run a session is completed if and only if a stage was recorded and some flow has all its stages, and its flags are exactly those of its recorded stages |
| Uia.StagesWerePassed | packages/server/src/auth/uia.rs:338-438 | every recorded stage came from a successful, timely check in that session |
| Uia.CompletionIsKept | packages/server/src/auth/uia.rs:203-219 | completion is never undone |
| Uia.InvalidSessionExactly | packages/server/src/auth/uia.rs:171-190 | at every point of every run, the reply is an invalid session if and only if the lookup fails, or the repository filed no session under that identifier or a cleanup has since found it expired |
| Uia.ReturnedIdIsUnknown | packages/surrealdb/src/repository/uia.rs:61-93 | an identifier that the repository did not choose is answered with an invalid session at every point of every run |
| Uia.StartThenAuth | packages/server/src/auth/uia.rs:128-168 | after any start, a passed attempt under the returned identifier is an invalid session, while under the repository's it is accepted and completes the session if and only if some flow asks for no other stage |
| FilterCache.FilterResultCache.GetOrCompileFilter | packages/server/src/cache/filter_cache.rs:43-69 | a cached filter is returned as it is, a new one is cached and indexed under each of its rooms |
| FilterCache.FilterResultCache.CacheFilterResults | packages/server/src/cache/filter_cache.rs:73-89 | results and index after storing |
| FilterCache.FilterResultCache.GetCachedResults | packages/server/src/cache/filter_cache.rs:93-103 | the lookup under hash and room |
| FilterCache.FilterResultCache.InvalidateRoom | packages/server/src/cache/filter_cache.rs:107-124 | the room's keys and its index entry are removed, nothing else |
| FilterCache.AlwaysIndexed | packages/server/src/cache/filter_cache.rs:79-88 | in every run each stored result's key is in its room's index, which holds only that room's keys and filter hashes |
| FilterCache.KeysSplit | packages/server/src/cache/filter_cache.rs:155-164 | since hashes hold no colon, a key determines its hash and room |
| FilterCache.LookupsExact | packages/server/src/cache/filter_cache.rs:71-124 | in every run with any evictions, a lookup gives exactly what was last stored under its hash and room since invalidation or eviction |
| FilterCache.CompiledExact | packages/server/src/cache/filter_cache.rs:43-69 | in every run a hash gives the filter first compiled under it since it was last evicted |
| FilterCache.CompileIndexes | packages/server/src/cache/filter_cache.rs:54-65 | a newly compiled filter is indexed under exactly the rooms it names |
| FilterCache.InvalidationIsComplete | packages/server/src/cache/filter_cache.rs:105-124 | after invalidation no result of the room is found under any hash |
| FilterCache.ColonDefeatsInvalidation | packages/server/src/cache/filter_cache.rs:73-89 | every hash that does hold a colon lets a result survive the invalidation of a room it is found under |
| HttpRetry.RequestWithRetry | packages/client/src/http_client.rs:301-361 | the loop makes at most max(1, max_retries) requests, all but the last answered by a retryable error, and returns the last answer or `MaxRetriesExceeded` |
| HttpRetry.RequestsDetermined | packages/client/src/http_client.rs:306-325 | those facts determine the number of requests |
| HttpRetry.RetriesExactly | packages/client/src/http_client.rs:306-325 | another request follows exactly a network failure, a server error or a rate limit, with an attempt left |
| HttpRetry.SleepExact | packages/client/src/http_client.rs:327-358 | the sleep after a failed request is the server's hint to the millisecond, or 100 * 2^i without one |
| HttpRetry.DelayFitsExactly | packages/client/src/http_client.rs:327-328 | a delay is the intended power of two in 64 bits if and only if the attempt is at most the 58th |
| HttpRetry.DelaysNeverOverflowExactly | packages/client/src/http_client.rs:327-328 | no delay overflows if and only if at most 59 retries are allowed |
| HttpRetry.TotalBackoff | packages/client/src/http_client.rs:327-358 | without server hints the sleep before request n totals 100 * (2^n - 1) milliseconds |

## Left out

- Floating-point JSON numbers, and integers outside the ranges of `i64` and `u64`: the reader rejects them and the model has no value for them.
- Duplicate keys are resolved as an insertion-ordered map does; the sorted map of serde_json's default build is the special case of members already in order.
- The nesting bound of serde_json's parser is a parameter of the reader, so the statements hold for any bound.
- The pointer set of the bounded canonicalizer is not modelled: a value that owns its parts never meets its own address.
- Unicode case mapping: header names and HTTP methods are ASCII where the code maps their case.
- Request bodies are text; undecodable UTF-8 is not modelled. Headers are text too: bytes outside ASCII are characters outside ASCII, and the control characters that a header value cannot hold at all are refused like them.
- Ed25519, base64, key lookup and key fetching: only the equality of signed and verified text is claimed, never acceptance of a request.
- RefreshTokens.MarkUsed: takes the repository's update to select the record filed under the token; whether a record id equals a bare string in the database's query language is not modelled, and `RefreshTokens.MissedMarkForks` says what follows if it does not.
- RefreshTokens.Apply: a failing database call is taken to have had no effect.
- ServerDiscovery.RecordFailure: the counter is unbounded; `ServerDiscovery.FailureCounterFits` says how long 32 bits suffice.
- IP-address parsing, DNS, timeouts and the well-known client's own cache are the answers of an arbitrary network; SRV targets are taken with their final dots removed.
- Overlapping calls on the resolver, the token service and the filter cache, which hold no lock across a whole operation; only the sync tasks are interleaved.
- UIA checks of passwords, CAPTCHAs and email tokens are outcomes given with the attempt; sending updates over the broadcast channel, and metrics, logs and statistics, are not modelled.
- The rest of the repository (routing, storage, media, push, room authorization and state resolution).
