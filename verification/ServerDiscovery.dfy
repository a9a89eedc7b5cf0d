/**
 Federation server discovery ("Resolving server names" of the Matrix Server-Server API): the resolution order, and the
 resolver with its well-known cache, error cache and backoff. Times are clock readings in nanoseconds.
 */
module ServerDiscovery {
  import opened Prelude
  import opened Decimal
  import opened Powers
  import opened ServerName
  import opened SrvResolution

  datatype ResolutionMethod =
    | IpLiteral
    | ExplicitPort
    | WellKnownDelegation
    | SrvMatrixFed
    | SrvMatrixLegacy
    | FallbackPort8448

  datatype ResolvedServer =
    ResolvedServer(ip: Ip, port: nat, hostHeader: string, tlsHostname: string, via: ResolutionMethod)

  type Answer = Result<ResolvedServer, DnsError>

  /** What the outside world answers during one call. */
  datatype Net = Net(
    readIp: string -> Option<Ip>,
    addressOf: Addresses,
    srvOf: string -> Result<seq<SrvRecord>, DnsError>,
    wellKnownOf: string -> Result<Option<string>, DnsError>)

  const DEFAULT_PORT := 8448
  const FED_SERVICE := "_matrix-fed._tcp"
  const LEGACY_SERVICE := "_matrix._tcp"

  function PortOr(port: Option<nat>): nat {
    if port.Some? then port.value else DEFAULT_PORT
  }

  // ---------- the resolution order ----------

  /** `resolve_via_srv`. */
  function ViaSrv(net: Net, hostname: string, service: string): Answer {
    var srvName := service + "." + hostname;
    match net.srvOf(srvName)
    case Failure(e) => Failure(e)
    case Success(records) =>
      if records == [] then Failure(NoServerFound("No SRV records found for " + srvName))
      else
        match Pick(net.addressOf, records)
        case None => Failure(NoServerFound("All SRV targets failed for " + srvName))
        case Some(r) =>
          match net.addressOf(r.target)
          case Failure(e) => Failure(e)
          case Success(ip) =>
            Success(ResolvedServer(ip, r.port, hostname, hostname,
                                   if service == FED_SERVICE then SrvMatrixFed else SrvMatrixLegacy))
  }

  function ViaAddress(net: Net, hostname: string, port: nat, hostHeader: string, via: ResolutionMethod): Answer {
    match net.addressOf(hostname)
    case Failure(e) => Failure(e)
    case Success(ip) => Success(ResolvedServer(ip, port, hostHeader, hostname, via))
  }

  /** `process_well_known_response`: where a delegation leads. */
  function Delegate(net: Net, server: string): Answer {
    match ParseServerName(server)
    case Failure(e) => Failure(e)
    case Success(Endpoint(hostname, port)) =>
      match net.readIp(hostname)
      case Some(ip) =>
        Success(ResolvedServer(ip, PortOr(port), ip.text + ":" + NatText(PortOr(port)), ip.text, WellKnownDelegation))
      case None =>
        if port.Some? then
          ViaAddress(net, hostname, port.value, hostname + ":" + NatText(port.value), WellKnownDelegation)
        else
          var fed, legacy := ViaSrv(net, hostname, FED_SERVICE), ViaSrv(net, hostname, LEGACY_SERVICE);
          if fed.Success? then
            Success(ResolvedServer(fed.value.ip, fed.value.port, hostname, hostname, WellKnownDelegation))
          else if legacy.Success? then
            Success(ResolvedServer(legacy.value.ip, legacy.value.port, hostname, hostname, WellKnownDelegation))
          else ViaAddress(net, hostname, DEFAULT_PORT, hostname, WellKnownDelegation)
  }

  /** Steps 5 and 6: SRV records and then the default port. */
  function WithoutDelegation(net: Net, hostname: string): Answer {
    var fed, legacy := ViaSrv(net, hostname, FED_SERVICE), ViaSrv(net, hostname, LEGACY_SERVICE);
    if fed.Success? then fed
    else if legacy.Success? then legacy
    else ViaAddress(net, hostname, DEFAULT_PORT, hostname, FallbackPort8448)
  }

  datatype Entry<T> = Entry(value: T, expiresAt: int)

  type WellKnownCache = map<string, Entry<Option<string>>>

  const SECOND := 1_000_000_000
  const HOUR := 3600 * SECOND
  const DAY := 24 * HOUR

  /** `CacheEntry::is_expired` guards every lookup. */
  function Live<T>(cache: map<string, Entry<T>>, key: string, now: int): Option<T> {
    if key in cache && !(now > cache[key].expiresAt) then Some(cache[key].value) else None
  }

  /** `resolve_via_well_known_cached`: the answer and the cache it leaves. */
  function ViaWellKnown(net: Net, cache: WellKnownCache, hostname: string, readAt: int, storeAt: int)
    : (Answer, WellKnownCache)
  {
    var cached: Option<Option<string>> := Live(cache, hostname, readAt);
    match cached
    case Some(Some(server)) => (Delegate(net, server), cache)
    case Some(None) => (Failure(WellKnownError("Cached well-known response is None")), cache)
    case None =>
      match net.wellKnownOf(hostname)
      case Success(Some(server)) => (Delegate(net, server), cache[hostname := Entry(Some(server), storeAt + DAY)])
      case Success(None) =>
        (Failure(WellKnownError("No well-known response")), cache[hostname := Entry(None, storeAt + DAY)])
      case Failure(e) => (Failure(e), cache[hostname := Entry(None, storeAt + DAY)])
  }

  /**
   A fetched response, or the lack of one, is used for one day whatever the network says, and fetched anew after it;
   other hosts' responses are left alone.
   */
  lemma WellKnownLastsADay(net: Net, cache: WellKnownCache, hostname: string, readAt: int, storeAt: int,
                           later: Net, again: int, storeAgain: int)
    requires Live(cache, hostname, readAt).None?
    ensures var next := ViaWellKnown(net, cache, hostname, readAt, storeAt).1;
            && hostname in next
            && (forall other :: other != hostname ==>
                  (other in next <==> other in cache) && (other in cache ==> next[other] == cache[other]))
            && (again <= storeAt + 24 * 3600 * SECOND ==>
                  && ViaWellKnown(later, next, hostname, again, storeAgain).1 == next
                  && ViaWellKnown(later, next, hostname, again, storeAgain).0 ==
                     match net.wellKnownOf(hostname)
                     case Success(Some(server)) => Delegate(later, server)
                     case _ => Failure(WellKnownError("Cached well-known response is None")))
            && (again > storeAt + 24 * 3600 * SECOND ==>
                  ViaWellKnown(later, next, hostname, again, storeAgain).0 ==
                  match later.wellKnownOf(hostname)
                  case Success(Some(server)) => Delegate(later, server)
                  case Success(None) => Failure(WellKnownError("No well-known response"))
                  case Failure(e) => Failure(e))
  {
    hide Delegate;
  }

  /** `resolve_server_internal`: the answer and the well-known cache it leaves. */
  function Internal(net: Net, cache: WellKnownCache, name: string, readAt: int, storeAt: int)
    : (Answer, WellKnownCache)
  {
    match ParseServerName(name)
    case Failure(e) => (Failure(e), cache)
    case Success(Endpoint(hostname, port)) =>
      match net.readIp(hostname)
      case Some(ip) => (Success(ResolvedServer(ip, PortOr(port), name, ip.text, IpLiteral)), cache)
      case None =>
        if port.Some? then (ViaAddress(net, hostname, port.value, name, ExplicitPort), cache)
        else
          var (delegated, next) := ViaWellKnown(net, cache, hostname, readAt, storeAt);
          (if delegated.Success? then delegated else WithoutDelegation(net, hostname), next)
  }

  /** What resolution means, with no cache at all. */
  function Direct(net: Net, name: string): Answer {
    match ParseServerName(name)
    case Failure(e) => Failure(e)
    case Success(Endpoint(hostname, port)) =>
      match net.readIp(hostname)
      case Some(ip) => Success(ResolvedServer(ip, PortOr(port), name, ip.text, IpLiteral))
      case None =>
        if port.Some? then ViaAddress(net, hostname, port.value, name, ExplicitPort)
        else
          match net.wellKnownOf(hostname)
          case Success(Some(server)) =>
            if Delegate(net, server).Success? then Delegate(net, server) else WithoutDelegation(net, hostname)
          case _ => WithoutDelegation(net, hostname)
  }

  /** The server's SRV lookup gives the best record that resolves. */
  lemma ViaSrvExact(net: Net, hostname: string, service: string, server: ResolvedServer)
    ensures ViaSrv(net, hostname, service) == Success(server) <==>
            && net.srvOf(service + "." + hostname).Success?
            && var records := net.srvOf(service + "." + hostname).value;
               exists i: nat :: Best(net.addressOf, records, i) &&
                 server == ResolvedServer(net.addressOf(records[i].target).value, records[i].port, hostname, hostname,
                                          if service == FED_SERVICE then SrvMatrixFed else SrvMatrixLegacy)
  {
    hide Pick;
    var found := net.srvOf(service + "." + hostname);
    if found.Success? {
      var records := found.value;
      var i := PickIsBest(net.addressOf, records);
      forall k: nat | Best(net.addressOf, records, k)
        ensures Pick(net.addressOf, records) == Some(records[k])
      {
        PickExact(net.addressOf, records, records[k]);
      }
    }
  }

  /** Some record of the service for the host resolves. */
  ghost predicate Served(net: Net, hostname: string, service: string) {
    var found := net.srvOf(service + "." + hostname);
    found.Success? && exists i :: 0 <= i < |found.value| && net.addressOf(found.value[i].target).Success?
  }

  /** The address and port are those of the best record of the service that resolves. */
  ghost predicate ServedAt(net: Net, hostname: string, service: string, ip: Ip, port: nat) {
    var found := net.srvOf(service + "." + hostname);
    && found.Success?
    && exists i: nat ::
         Best(net.addressOf, found.value, i) && net.addressOf(found.value[i].target) == Success(ip)
         && port == found.value[i].port
  }

  /** Where a plain host is found: by its records, those of the newer service first, or else by its own address. */
  ghost predicate FoundAt(net: Net, hostname: string, ip: Ip, port: nat) {
    if Served(net, hostname, "_matrix-fed._tcp") then ServedAt(net, hostname, "_matrix-fed._tcp", ip, port)
    else if Served(net, hostname, "_matrix._tcp") then ServedAt(net, hostname, "_matrix._tcp", ip, port)
    else net.addressOf(hostname) == Success(ip) && port == 8448
  }

  /** The host has neither a record nor an address that resolves. */
  ghost predicate Nowhere(net: Net, hostname: string) {
    && !Served(net, hostname, FED_SERVICE) && !Served(net, hostname, LEGACY_SERVICE)
    && net.addressOf(hostname).Failure?
  }

  /**
   Where a delegation leads: to an address literal, to a host on the port given, or to where a plain host is found. Only
   a plain host keeps its own name as the Host header; the others add the port.
   */
  ghost predicate LeadsTo(net: Net, server: string, to: ResolvedServer) {
    var parsed := ParseServerName(server);
    && parsed.Success? && to.via == WellKnownDelegation
    && var Endpoint(hostname, port) := parsed.value;
       var literal := net.readIp(hostname);
       if literal.Some? then
         && to.ip == literal.value && to.port == (if port.Some? then port.value else 8448)
         && to.tlsHostname == literal.value.text && to.hostHeader == literal.value.text + ":" + NatText(to.port)
       else if port.Some? then
         && net.addressOf(hostname) == Success(to.ip) && to.port == port.value
         && to.tlsHostname == hostname && to.hostHeader == hostname + ":" + NatText(to.port)
       else
         FoundAt(net, hostname, to.ip, to.port) && to.tlsHostname == hostname == to.hostHeader
  }

  /** The well-known answer for the host names a server that leads somewhere. */
  ghost predicate Delegated(net: Net, hostname: string) {
    exists to :: DelegatedTo(net, hostname, to)
  }

  ghost predicate DelegatedTo(net: Net, hostname: string, to: ResolvedServer) {
    var answer := net.wellKnownOf(hostname);
    answer.Success? && answer.value.Some? && LeadsTo(net, answer.value.value, to)
  }

  /** The name is a plain host: no address literal and no port. */
  ghost predicate Plain(net: Net, name: string, hostname: string) {
    ParseServerName(name) == Success(Endpoint(hostname, None)) && net.readIp(hostname).None?
  }

  lemma ServedExact(net: Net, hostname: string, service: string)
    ensures var answer := ViaSrv(net, hostname, service);
            && (answer.Success? <==> Served(net, hostname, service))
            && (answer.Success? ==>
                  && ServedAt(net, hostname, service, answer.value.ip, answer.value.port)
                  && answer.value.hostHeader == hostname == answer.value.tlsHostname
                  && answer.value.via == if service == FED_SERVICE then SrvMatrixFed else SrvMatrixLegacy)
  {
    hide Pick;
    var found := net.srvOf(service + "." + hostname);
    if found.Success? {
      var i := PickIsBest(net.addressOf, found.value);
    }
  }

  lemma ServedAtOnce(net: Net, hostname: string, service: string, ip: Ip, port: nat)
    requires ServedAt(net, hostname, service, ip, port)
    ensures var answer := ViaSrv(net, hostname, service);
            answer.Success? && (answer.value.ip, answer.value.port) == (ip, port)
  {
    hide ViaSrv;
    var found := net.srvOf(service + "." + hostname);
    var i: nat :| Best(net.addressOf, found.value, i) && net.addressOf(found.value[i].target) == Success(ip)
                  && port == found.value[i].port;
    var via := if service == FED_SERVICE then SrvMatrixFed else SrvMatrixLegacy;
    ViaSrvExact(net, hostname, service, ResolvedServer(ip, port, hostname, hostname, via));
  }

  /** A plain host's two services and its own address, tried in order. */
  lemma FoundExact(net: Net, hostname: string, ip: Ip, port: nat)
    ensures var fed, legacy := ViaSrv(net, hostname, FED_SERVICE), ViaSrv(net, hostname, LEGACY_SERVICE);
            FoundAt(net, hostname, ip, port) <==>
            if fed.Success? then (fed.value.ip, fed.value.port) == (ip, port)
            else if legacy.Success? then (legacy.value.ip, legacy.value.port) == (ip, port)
            else net.addressOf(hostname) == Success(ip) && port == 8448
  {
    hide ViaSrv, Served, ServedAt;
    ServedExact(net, hostname, FED_SERVICE);
    ServedExact(net, hostname, LEGACY_SERVICE);
    if ServedAt(net, hostname, FED_SERVICE, ip, port) {
      ServedAtOnce(net, hostname, FED_SERVICE, ip, port);
    }
    if ServedAt(net, hostname, LEGACY_SERVICE, ip, port) {
      ServedAtOnce(net, hostname, LEGACY_SERVICE, ip, port);
    }
  }

  /** A delegation gives a server exactly when it leads there. */
  lemma DelegateExact(net: Net, server: string, to: ResolvedServer)
    ensures Delegate(net, server) == Success(to) <==> LeadsTo(net, server, to)
  {
    hide ViaSrv, ParseServerName, FoundAt;
    var parsed := ParseServerName(server);
    if parsed.Success? {
      FoundExact(net, parsed.value.hostname, to.ip, to.port);
      ServedExact(net, parsed.value.hostname, FED_SERVICE);
      ServedExact(net, parsed.value.hostname, LEGACY_SERVICE);
    }
  }

  /**
   The whole answer for a plain host, whatever the network says: where a delegation leads if it leads anywhere, and
   otherwise where the host is found, under its own name; an error exactly when it is found nowhere.
   */
  lemma ResolutionExact(net: Net, name: string, hostname: string, to: ResolvedServer)
    requires Plain(net, name, hostname)
    ensures Direct(net, name) == Success(to) <==>
            if Delegated(net, hostname) then DelegatedTo(net, hostname, to)
            else
              && FoundAt(net, hostname, to.ip, to.port) && to.hostHeader == hostname == to.tlsHostname
              && to.via == (if Served(net, hostname, FED_SERVICE) then SrvMatrixFed
                            else if Served(net, hostname, LEGACY_SERVICE) then SrvMatrixLegacy
                            else FallbackPort8448)
    ensures Direct(net, name).Failure? <==> !Delegated(net, hostname) && Nowhere(net, hostname)
    ensures Direct(net, name).Failure? ==> Direct(net, name).error == net.addressOf(hostname).error
  {
    hide ViaSrv, ParseServerName, FoundAt, Delegate, LeadsTo, Served, ServedAt;
    FoundExact(net, hostname, to.ip, to.port);
    ServedExact(net, hostname, FED_SERVICE);
    ServedExact(net, hostname, LEGACY_SERVICE);
    DelegatedExact(net, hostname, to);
  }

  lemma DelegatedExact(net: Net, hostname: string, to: ResolvedServer)
    ensures var answer := net.wellKnownOf(hostname);
            var follows := answer.Success? && answer.value.Some?;
            && (Delegated(net, hostname) <==> follows && Delegate(net, answer.value.value).Success?)
            && (DelegatedTo(net, hostname, to) <==> follows && Delegate(net, answer.value.value) == Success(to))
  {
    hide Delegate, LeadsTo;
    var answer := net.wellKnownOf(hostname);
    if answer.Success? && answer.value.Some? {
      var server := answer.value.value;
      DelegateExact(net, server, to);
      if Delegate(net, server).Success? {
        DelegateExact(net, server, Delegate(net, server).value);
        assert DelegatedTo(net, hostname, Delegate(net, server).value);
      }
      if other :| DelegatedTo(net, hostname, other) {
        DelegateExact(net, server, other);
      }
    }
  }

  /** Each way of resolving a plain host is used exactly when all before it fail; resolution fails when all do. */
  lemma ResolutionOrder(net: Net, name: string, hostname: string)
    requires Plain(net, name, hostname)
    ensures var answer := Direct(net, name);
            var fed, legacy := Served(net, hostname, FED_SERVICE), Served(net, hostname, LEGACY_SERVICE);
            && (answer.Success? && answer.value.via == WellKnownDelegation <==> Delegated(net, hostname))
            && (answer.Success? && answer.value.via == SrvMatrixFed <==> !Delegated(net, hostname) && fed)
            && (answer.Success? && answer.value.via == SrvMatrixLegacy <==>
                !Delegated(net, hostname) && !fed && legacy)
            && (answer.Success? && answer.value.via == FallbackPort8448 <==>
                !Delegated(net, hostname) && !fed && !legacy && net.addressOf(hostname).Success?)
            && (answer.Failure? <==>
                !Delegated(net, hostname) && !fed && !legacy && net.addressOf(hostname).Failure?)
  {
    hide Direct, ParseServerName, FoundAt, LeadsTo, Served, Delegated;
    var answer := Direct(net, name);
    var any := if answer.Success? then answer.value else ResolvedServer(Ip(""), 0, "", "", FallbackPort8448);
    ResolutionExact(net, name, hostname, any);
    if answer.Success? && Delegated(net, hostname) {
      DelegationIsTagged(net, hostname, any);
    }
  }

  lemma DelegationIsTagged(net: Net, hostname: string, to: ResolvedServer)
    requires DelegatedTo(net, hostname, to)
    ensures to.via == WellKnownDelegation
  {
  }

  /**
   The definition read back: a delegation to a plain host goes where that host's records lead, or to the default port,
   in that order.
   */
  lemma DelegationOrder(net: Net, server: string, hostname: string)
    requires Plain(net, server, hostname)
    ensures var answer := Delegate(net, server);
            var fed, legacy := ViaSrv(net, hostname, FED_SERVICE), ViaSrv(net, hostname, LEGACY_SERVICE);
            && (answer.Success? <==> fed.Success? || legacy.Success? || net.addressOf(hostname).Success?)
            && (answer.Success? ==> answer.value.tlsHostname == hostname == answer.value.hostHeader)
            && (fed.Success? ==> (answer.value.ip, answer.value.port) == (fed.value.ip, fed.value.port))
            && (fed.Failure? && legacy.Success? ==>
                  (answer.value.ip, answer.value.port) == (legacy.value.ip, legacy.value.port))
            && (answer.Success? && fed.Failure? && legacy.Failure? ==> answer.value.port == DEFAULT_PORT)
  {
  }

  /**
   The definition read back: a name with an address literal or a port is reached there, with no discovery, and is
   itself the Host header.
   */
  lemma ExplicitNames(net: Net, name: string, hostname: string, port: Option<nat>)
    requires ParseServerName(name) == Success(Endpoint(hostname, port)) && (net.readIp(hostname).Some? || port.Some?)
    ensures var answer, literal := Direct(net, name), net.readIp(hostname);
            && (answer.Success? <==> literal.Some? || net.addressOf(hostname).Success?)
            && (answer.Failure? ==> answer.error == net.addressOf(hostname).error)
            && (answer.Success? ==>
                  && answer.value.hostHeader == name && answer.value.port == PortOr(port)
                  && answer.value.via == (if literal.Some? then IpLiteral else ExplicitPort)
                  && answer.value.ip == (if literal.Some? then literal.value else net.addressOf(hostname).value)
                  && answer.value.tlsHostname == (if literal.Some? then literal.value.text else hostname))
  {
  }

  /** The definition read back for a delegation; its Host header always names the port. */
  lemma ExplicitDelegations(net: Net, server: string, hostname: string, port: Option<nat>)
    requires ParseServerName(server) == Success(Endpoint(hostname, port)) && (net.readIp(hostname).Some? || port.Some?)
    ensures var answer, literal := Delegate(net, server), net.readIp(hostname);
            && (answer.Success? <==> literal.Some? || net.addressOf(hostname).Success?)
            && (answer.Success? ==>
                  && answer.value.hostHeader == answer.value.tlsHostname + ":" + NatText(PortOr(port))
                  && answer.value.port == PortOr(port)
                  && answer.value.ip == (if literal.Some? then literal.value else net.addressOf(hostname).value)
                  && answer.value.tlsHostname == (if literal.Some? then literal.value.text else hostname))
  {
  }

  /** Every cached response is the one the network gives; a failed request is cached as no response. */
  ghost predicate Faithful(net: Net, cache: WellKnownCache) {
    forall h :: h in cache ==>
      cache[h].value == match net.wellKnownOf(h)
                        case Success(answer) => answer
                        case Failure(_) => None
  }

  /** With fixed outside answers, a cache filled from them never changes a result, errors included. */
  lemma CacheIsTransparent(net: Net, cache: WellKnownCache, name: string, readAt: int, storeAt: int)
    requires Faithful(net, cache)
    ensures Internal(net, cache, name, readAt, storeAt).0 == Direct(net, name)
    ensures Faithful(net, Internal(net, cache, name, readAt, storeAt).1)
  {
    hide Delegate, WithoutDelegation, ParseServerName;
  }

  // ---------- the resolver's state ----------

  /** `BackoffState`; its base delay is one second. */
  datatype Backoff = Backoff(failures: nat, nextRetryAt: int)

  /** `base_delay * 2^min(failures, 10)`. */
  function Delay(failures: nat): (d: int)
    ensures 0 < d <= 1024 * SECOND
  {
    Power2Monotone(if failures < 10 then failures else 10, 10);
    assert Power2(10) == 1024;
    SECOND * Power2(if failures < 10 then failures else 10)
  }

  /** From one second the delay doubles with each failure, up to 1024 seconds. */
  lemma DelayDoubles(failures: nat)
    ensures Delay(0) == SECOND
    ensures failures < 10 ==> Delay(failures + 1) == 2 * Delay(failures)
    ensures failures >= 10 ==> Delay(failures) == 1024 * SECOND
  {
  }

  datatype Caches = Caches(
    wellKnown: WellKnownCache,
    errors: map<string, Entry<DnsError>>,
    backoff: map<string, Backoff>)

  const EMPTY := Caches(map[], map[], map[])

  function CanRetry(c: Caches, name: string, now: int): bool {
    name in c.backoff ==> now >= c.backoff[name].nextRetryAt
  }

  function RecordFailure(backoff: map<string, Backoff>, name: string, now: int): map<string, Backoff> {
    var failures := 1 + if name in backoff then backoff[name].failures else 0;
    backoff[name := Backoff(failures, now + Delay(failures))]
  }

  function ResetBackoff(backoff: map<string, Backoff>, name: string, now: int): map<string, Backoff> {
    if name in backoff then backoff[name := Backoff(0, now)] else backoff
  }

  /** The clock readings of one `resolve_server` call, in order. */
  datatype ResolveClock = ResolveClock(
    checkError: int, checkRetry: int, readWellKnown: int, storeWellKnown: int, recordOutcome: int, storeError: int)
  {
    predicate InOrder() {
      checkError <= checkRetry <= readWellKnown <= storeWellKnown <= recordOutcome <= storeError
    }
  }

  /** `resolve_server`. */
  function Resolve(c: Caches, net: Net, name: string, clock: ResolveClock): (Answer, Caches) {
    match Live(c.errors, name, clock.checkError)
    case Some(e) => (Failure(e), c)
    case None =>
      if !CanRetry(c, name, clock.checkRetry) then
        (Failure(NoServerFound("Server " + name + " is in backoff state")), c)
      else
        var (answer, wellKnown) := Internal(net, c.wellKnown, name, clock.readWellKnown, clock.storeWellKnown);
        match answer
        case Success(_) =>
          (answer, c.(wellKnown := wellKnown, backoff := ResetBackoff(c.backoff, name, clock.recordOutcome)))
        case Failure(e) =>
          (answer, Caches(wellKnown, c.errors[name := Entry(e, clock.storeError + HOUR)],
                          RecordFailure(c.backoff, name, clock.recordOutcome)))
  }

  /** No live error and no backoff stand in the way, so the name is resolved. */
  predicate Attempts(c: Caches, name: string, clock: ResolveClock) {
    Live(c.errors, name, clock.checkError).None? && CanRetry(c, name, clock.checkRetry)
  }

  /** An attempt counts a failure and doubles the delay, or clears the backoff, and touches no other name. */
  lemma OutcomeRecorded(c: Caches, net: Net, name: string, clock: ResolveClock)
    requires Attempts(c, name, clock)
    ensures var (answer, next) := Resolve(c, net, name, clock);
            && answer == Internal(net, c.wellKnown, name, clock.readWellKnown, clock.storeWellKnown).0
            && (answer.Success? ==>
                  next.errors == c.errors && next.backoff.Keys == c.backoff.Keys
                  && (name in c.backoff ==> next.backoff[name] == Backoff(0, clock.recordOutcome)))
            && (answer.Failure? ==>
                  && name in next.backoff && name in next.errors
                  && next.backoff[name].failures == 1 + (if name in c.backoff then c.backoff[name].failures else 0)
                  && next.backoff[name].nextRetryAt == clock.recordOutcome + Delay(next.backoff[name].failures)
                  && next.errors[name] == Entry(answer.error, clock.storeError + 3600 * SECOND))
            && (forall other :: other != name ==>
                  && (other in next.errors <==> other in c.errors) && (other in next.backoff <==> other in c.backoff)
                  && (other in c.errors ==> next.errors[other] == c.errors[other])
                  && (other in c.backoff ==> next.backoff[other] == c.backoff[other]))
  {
    hide Internal, Delay;
  }

  /** A failure is repeated for one hour, whatever the network says, and the name is resolved anew after it. */
  lemma ErrorLastsAnHour(c: Caches, net: Net, name: string, clock: ResolveClock, later: Net, again: ResolveClock)
    requires Attempts(c, name, clock) && Resolve(c, net, name, clock).0.Failure? && clock.InOrder() && again.InOrder()
    ensures var (answer, next) := Resolve(c, net, name, clock);
            Resolve(next, later, name, again).0 ==
            if again.checkError <= clock.storeError + 3600 * SECOND then answer
            else Internal(later, next.wellKnown, name, again.readWellKnown, again.storeWellKnown).0
  {
    hide Internal, Delay;
  }

  /** The clock readings of one `cleanup_cache` call, in order. */
  datatype CleanupClock = CleanupClock(wellKnown: int, errors: int, backoff: int) {
    predicate InOrder() {
      wellKnown <= errors <= backoff
    }
  }

  function Retained<T>(cache: map<string, Entry<T>>, now: int): map<string, Entry<T>> {
    map k | k in cache && !(now > cache[k].expiresAt) :: cache[k]
  }

  /** `cleanup_cache`. */
  function Cleanup(c: Caches, clock: CleanupClock): Caches {
    Caches(Retained(c.wellKnown, clock.wellKnown),
           Retained(c.errors, clock.errors),
           map k | k in c.backoff && c.backoff[k].nextRetryAt > clock.backoff - DAY :: c.backoff[k])
  }

  /** The resolver object. Each method is one of the source's, with its clock readings as arguments. */
  class MatrixDnsResolver {
    var wellKnownCache: WellKnownCache
    var errorCache: map<string, Entry<DnsError>>
    var backoffState: map<string, Backoff>

    constructor ()
      ensures State() == EMPTY
    {
      wellKnownCache, errorCache, backoffState := map[], map[], map[];
    }

    function State(): Caches
      reads this
    {
      Caches(wellKnownCache, errorCache, backoffState)
    }

    method ResolveInternal(net: Net, name: string, readAt: int, storeAt: int) returns (answer: Answer)
      modifies this`wellKnownCache
      ensures (answer, wellKnownCache) == Internal(net, old(wellKnownCache), name, readAt, storeAt)
    {
      hide Delegate, ViaSrv, ParseServerName;
      var parsed := ParseServerName(name);
      if parsed.Failure? {
        return Failure(parsed.error);
      }
      var Endpoint(hostname, port) := parsed.value;
      var ip := net.readIp(hostname);
      if ip.Some? {
        return Success(ResolvedServer(ip.value, PortOr(port), name, ip.value.text, IpLiteral));
      }
      if port.Some? {
        return ViaAddress(net, hostname, port.value, name, ExplicitPort);
      }
      answer := ResolveViaWellKnown(net, hostname, readAt, storeAt);
      if answer.Success? {
        return answer;
      }
      answer := ResolveViaSrv(net, hostname, FED_SERVICE);
      if answer.Success? {
        return answer;
      }
      answer := ResolveViaSrv(net, hostname, LEGACY_SERVICE);
      if answer.Success? {
        return answer;
      }
      return ViaAddress(net, hostname, DEFAULT_PORT, hostname, FallbackPort8448);
    }

    method ResolveViaSrv(net: Net, hostname: string, service: string) returns (answer: Answer)
      ensures answer == ViaSrv(net, hostname, service)
    {
      hide Pick;
      var srvName := service + "." + hostname;
      var found := net.srvOf(srvName);
      if found.Failure? {
        return Failure(found.error);
      }
      if found.value == [] {
        return Failure(NoServerFound("No SRV records found for " + srvName));
      }
      var target := TryTargets(net.addressOf, found.value);
      if target.None? {
        return Failure(NoServerFound("All SRV targets failed for " + srvName));
      }
      var (record, ip) := target.value;
      var via := if service == FED_SERVICE then SrvMatrixFed else SrvMatrixLegacy;
      return Success(ResolvedServer(ip, record.port, hostname, hostname, via));
    }

    method ProcessWellKnownResponse(net: Net, server: string) returns (answer: Answer)
      ensures answer == Delegate(net, server)
    {
      hide ViaSrv, ParseServerName;
      var parsed := ParseServerName(server);
      if parsed.Failure? {
        return Failure(parsed.error);
      }
      var Endpoint(hostname, port) := parsed.value;
      var ip := net.readIp(hostname);
      if ip.Some? {
        var hostHeader := ip.value.text + ":" + NatText(PortOr(port));
        return Success(ResolvedServer(ip.value, PortOr(port), hostHeader, ip.value.text, WellKnownDelegation));
      }
      if port.Some? {
        return ViaAddress(net, hostname, port.value, hostname + ":" + NatText(port.value), WellKnownDelegation);
      }
      var found := ResolveViaSrv(net, hostname, FED_SERVICE);
      if found.Failure? {
        found := ResolveViaSrv(net, hostname, LEGACY_SERVICE);
      }
      if found.Success? {
        return Success(ResolvedServer(found.value.ip, found.value.port, hostname, hostname, WellKnownDelegation));
      }
      return ViaAddress(net, hostname, DEFAULT_PORT, hostname, WellKnownDelegation);
    }

    method ResolveViaWellKnown(net: Net, hostname: string, readAt: int, storeAt: int) returns (answer: Answer)
      modifies this`wellKnownCache
      ensures (answer, wellKnownCache) == ViaWellKnown(net, old(wellKnownCache), hostname, readAt, storeAt)
    {
      hide Delegate;
      var cached := Live(wellKnownCache, hostname, readAt);
      if cached.Some? {
        if cached.value.None? {
          return Failure(WellKnownError("Cached well-known response is None"));
        }
        answer := ProcessWellKnownResponse(net, cached.value.value);
        return answer;
      }
      var fetched := net.wellKnownOf(hostname);
      if fetched.Failure? {
        wellKnownCache := wellKnownCache[hostname := Entry(None, storeAt + DAY)];
        return Failure(fetched.error);
      }
      wellKnownCache := wellKnownCache[hostname := Entry(fetched.value, storeAt + DAY)];
      if fetched.value.None? {
        return Failure(WellKnownError("No well-known response"));
      }
      answer := ProcessWellKnownResponse(net, fetched.value.value);
    }

    method ResolveServer(net: Net, name: string, clock: ResolveClock) returns (answer: Answer)
      modifies this
      ensures (answer, State()) == Resolve(old(State()), net, name, clock)
    {
      hide Internal, Delay;
      var cached := Live(errorCache, name, clock.checkError);
      if cached.Some? {
        return Failure(cached.value);
      }
      if name in backoffState && clock.checkRetry < backoffState[name].nextRetryAt {
        return Failure(NoServerFound("Server " + name + " is in backoff state"));
      }
      answer := ResolveInternal(net, name, clock.readWellKnown, clock.storeWellKnown);
      if answer.Success? {
        if name in backoffState {
          backoffState := backoffState[name := Backoff(0, clock.recordOutcome)];
        }
      } else {
        var failures := 1 + if name in backoffState then backoffState[name].failures else 0;
        backoffState := backoffState[name := Backoff(failures, clock.recordOutcome + Delay(failures))];
        errorCache := errorCache[name := Entry(answer.error, clock.storeError + HOUR)];
      }
    }

    method CleanupCache(clock: CleanupClock)
      modifies this
      ensures State() == Cleanup(old(State()), clock)
    {
      wellKnownCache :=
        map k | k in wellKnownCache && !(clock.wellKnown > wellKnownCache[k].expiresAt) :: wellKnownCache[k];
      errorCache := map k | k in errorCache && !(clock.errors > errorCache[k].expiresAt) :: errorCache[k];
      var cutoff := clock.backoff - DAY;
      backoffState := map k | k in backoffState && backoffState[k].nextRetryAt > cutoff :: backoffState[k];
    }
  }

  // ---------- runs ----------

  datatype Call =
    | ResolveCall(net: Net, name: string, resolveClock: ResolveClock)
    | CleanupCall(cleanupClock: CleanupClock)

  ghost predicate InOrder(calls: seq<Call>, now: int)
    decreases |calls|
  {
    calls == [] ||
    match calls[0]
    case ResolveCall(_, _, clock) =>
      now <= clock.checkError && clock.InOrder() && InOrder(calls[1..], clock.storeError)
    case CleanupCall(clock) =>
      now <= clock.wellKnown && clock.InOrder() && InOrder(calls[1..], clock.backoff)
  }

  /** The answers of a run from `c`, one for each `resolve_server` call. */
  ghost function Answers(c: Caches, calls: seq<Call>): seq<Answer>
    decreases |calls|
  {
    if calls == [] then []
    else
      match calls[0]
      case ResolveCall(net, name, clock) =>
        var (answer, next) := Resolve(c, net, name, clock);
        [answer] + Answers(next, calls[1..])
      case CleanupCall(clock) => Answers(Cleanup(c, clock), calls[1..])
  }

  ghost function StateAfter(c: Caches, calls: seq<Call>): Caches
    decreases |calls|
  {
    if calls == [] then c
    else
      match calls[0]
      case ResolveCall(net, name, clock) => StateAfter(Resolve(c, net, name, clock).1, calls[1..])
      case CleanupCall(clock) => StateAfter(Cleanup(c, clock), calls[1..])
  }

  /** The last clock reading of a run. */
  ghost function EndOf(calls: seq<Call>, now: int): int
    decreases |calls|
  {
    if calls == [] then now
    else
      match calls[0]
      case ResolveCall(_, _, clock) => EndOf(calls[1..], clock.storeError)
      case CleanupCall(clock) => EndOf(calls[1..], clock.backoff)
  }

  lemma {:induction false} EndIsLater(calls: seq<Call>, now: int)
    requires InOrder(calls, now)
    ensures now <= EndOf(calls, now)
    decreases |calls|
  {
    if calls != [] {
      match calls[0]
      case ResolveCall(_, _, clock) => EndIsLater(calls[1..], clock.storeError);
      case CleanupCall(clock) => EndIsLater(calls[1..], clock.backoff);
    }
  }

  // ---------- one hour of rejection is all that backoff and cleanup amount to ----------

  /** A well-known cache and the errors to repeat until their time: no backoff, and nothing is ever removed. */
  datatype Simple = Simple(wellKnown: WellKnownCache, bans: map<string, Entry<DnsError>>)

  function SimpleResolve(s: Simple, net: Net, name: string, clock: ResolveClock): (Answer, Simple) {
    match Live(s.bans, name, clock.checkError)
    case Some(e) => (Failure(e), s)
    case None =>
      var (answer, wellKnown) := Internal(net, s.wellKnown, name, clock.readWellKnown, clock.storeWellKnown);
      match answer
      case Success(_) => (answer, s.(wellKnown := wellKnown))
      case Failure(e) => (answer, Simple(wellKnown, s.bans[name := Entry(e, clock.storeError + HOUR)]))
  }

  ghost function SimpleAnswers(s: Simple, calls: seq<Call>): seq<Answer>
    decreases |calls|
  {
    if calls == [] then []
    else
      match calls[0]
      case ResolveCall(net, name, clock) =>
        var (answer, next) := SimpleResolve(s, net, name, clock);
        [answer] + SimpleAnswers(next, calls[1..])
      case CleanupCall(_) => SimpleAnswers(s, calls[1..])
  }

  /** From `now` on the two caches give the same answers. */
  ghost predicate SameLive<T>(a: map<string, Entry<T>>, b: map<string, Entry<T>>, now: int) {
    forall k, t :: t >= now ==> Live(a, k, t) == Live(b, k, t)
  }

  /** A server whose backoff is not over has a cached error that outlives it. */
  ghost predicate BackoffCovered(c: Caches, now: int) {
    forall n :: n in c.backoff && c.backoff[n].nextRetryAt > now ==>
      n in c.errors && c.errors[n].expiresAt >= c.backoff[n].nextRetryAt
  }

  ghost predicate Simulates(c: Caches, s: Simple, now: int) {
    SameLive(c.wellKnown, s.wellKnown, now) && SameLive(c.errors, s.bans, now) && BackoffCovered(c, now)
  }

  lemma CoveredBackoffPasses(c: Caches, name: string, now: int, errorCheck: int, retryCheck: int)
    requires BackoffCovered(c, now) && now <= errorCheck <= retryCheck
    requires Live(c.errors, name, errorCheck).None?
    ensures CanRetry(c, name, retryCheck)
  {
  }

  lemma StoreKeepsSameLive<T>(a: map<string, Entry<T>>, b: map<string, Entry<T>>, now: int, later: int, key: string,
                              e: Entry<T>)
    requires SameLive(a, b, now) && now <= later
    ensures SameLive(a, b, later) && SameLive(a[key := e], b[key := e], later)
  {
    var a', b' := a[key := e], b[key := e];
    assert forall k, t {:trigger Live(a', k, t)} :: t >= later ==>
        Live(a', k, t) == (if k == key then Live(b', k, t) else Live(a, k, t));
  }

  lemma WellKnownDependsOnLive(net: Net, a: WellKnownCache, b: WellKnownCache, hostname: string, readAt: int,
                               storeAt: int)
    requires SameLive(a, b, readAt) && readAt <= storeAt
    ensures ViaWellKnown(net, a, hostname, readAt, storeAt).0 == ViaWellKnown(net, b, hostname, readAt, storeAt).0
    ensures SameLive(ViaWellKnown(net, a, hostname, readAt, storeAt).1,
                     ViaWellKnown(net, b, hostname, readAt, storeAt).1, storeAt)
  {
    hide Delegate, SameLive;
    assert Live(a, hostname, readAt) == Live(b, hostname, readAt) by { LiveAgrees(a, b, hostname, readAt); }
    var answer := net.wellKnownOf(hostname);
    var stored := Entry(if answer.Success? then answer.value else None, storeAt + DAY);
    StoreKeepsSameLive(a, b, readAt, storeAt, hostname, stored);
  }

  lemma LiveAgrees<T>(a: map<string, Entry<T>>, b: map<string, Entry<T>>, key: string, now: int)
    requires SameLive(a, b, now)
    ensures Live(a, key, now) == Live(b, key, now)
  {
  }

  lemma InternalDependsOnLive(net: Net, a: WellKnownCache, b: WellKnownCache, name: string, readAt: int, storeAt: int)
    requires SameLive(a, b, readAt) && readAt <= storeAt
    ensures Internal(net, a, name, readAt, storeAt).0 == Internal(net, b, name, readAt, storeAt).0
    ensures SameLive(Internal(net, a, name, readAt, storeAt).1, Internal(net, b, name, readAt, storeAt).1, storeAt)
  {
    hide ViaWellKnown, WithoutDelegation, ParseServerName, ViaAddress, SameLive;
    StoreKeepsSameLive(a, b, readAt, storeAt, "", Entry(None, 0));
    var parsed := ParseServerName(name);
    if parsed.Success? {
      WellKnownDependsOnLive(net, a, b, parsed.value.hostname, readAt, storeAt);
    }
  }

  lemma ResolveSimulates(c: Caches, s: Simple, now: int, net: Net, name: string, clock: ResolveClock)
    requires Simulates(c, s, now) && now <= clock.checkError && clock.InOrder()
    ensures Resolve(c, net, name, clock).0 == SimpleResolve(s, net, name, clock).0
    ensures Simulates(Resolve(c, net, name, clock).1, SimpleResolve(s, net, name, clock).1, clock.storeError)
  {
    hide Internal, Delay, SameLive;
    var end := clock.storeError;
    StoreKeepsSameLive(c.wellKnown, s.wellKnown, now, clock.readWellKnown, "", Entry(None, 0));
    StoreKeepsSameLive(c.wellKnown, s.wellKnown, now, end, "", Entry(None, 0));
    StoreKeepsSameLive(c.errors, s.bans, now, clock.checkError, "", Entry(ResolveError(""), 0));
    StoreKeepsSameLive(c.errors, s.bans, now, end, "", Entry(ResolveError(""), 0));
    LiveAgrees(c.errors, s.bans, name, clock.checkError);
    if Live(c.errors, name, clock.checkError).None? {
      CoveredBackoffPasses(c, name, now, clock.checkError, clock.checkRetry);
      InternalDependsOnLive(net, c.wellKnown, s.wellKnown, name, clock.readWellKnown, clock.storeWellKnown);
      var (answer, wk) := Internal(net, c.wellKnown, name, clock.readWellKnown, clock.storeWellKnown);
      var (_, wk') := Internal(net, s.wellKnown, name, clock.readWellKnown, clock.storeWellKnown);
      StoreKeepsSameLive(wk, wk', clock.storeWellKnown, end, "", Entry(None, 0));
      if answer.Failure? {
        StoreKeepsSameLive(c.errors, s.bans, now, end, name, Entry(answer.error, end + HOUR));
      }
    }
  }

  lemma CleanupSimulates(c: Caches, s: Simple, now: int, clock: CleanupClock)
    requires Simulates(c, s, now) && now <= clock.wellKnown && clock.InOrder()
    ensures Simulates(Cleanup(c, clock), s, clock.backoff)
  {
  }

  /**
   Cleaning up at some time changes no lookup and no retry check from that time on, and leaves nothing expired behind:
   exactly the unexpired entries and the backoffs of the last day are kept, as they were.
   */
  lemma CleanupChangesNoAnswer(c: Caches, clock: CleanupClock)
    requires clock.InOrder()
    ensures SameLive(Cleanup(c, clock).wellKnown, c.wellKnown, clock.wellKnown)
    ensures SameLive(Cleanup(c, clock).errors, c.errors, clock.errors)
    ensures forall name, t :: t >= clock.backoff ==> CanRetry(Cleanup(c, clock), name, t) == CanRetry(c, name, t)
    ensures forall k :: k in Cleanup(c, clock).wellKnown <==>
                        k in c.wellKnown && clock.wellKnown <= c.wellKnown[k].expiresAt
    ensures forall k :: k in Cleanup(c, clock).errors <==> k in c.errors && clock.errors <= c.errors[k].expiresAt
    ensures forall k :: k in Cleanup(c, clock).backoff <==>
                        k in c.backoff && clock.backoff < c.backoff[k].nextRetryAt + 24 * 3600 * SECOND
    ensures forall k :: k in Cleanup(c, clock).backoff ==> Cleanup(c, clock).backoff[k] == c.backoff[k]
  {
  }

  lemma {:induction false} RunSimulates(c: Caches, s: Simple, now: int, calls: seq<Call>)
    requires Simulates(c, s, now) && InOrder(calls, now)
    ensures Answers(c, calls) == SimpleAnswers(s, calls)
    decreases |calls|
  {
    hide Resolve, SimpleResolve, Cleanup, Simulates;
    if calls != [] {
      match calls[0]
      case ResolveCall(net, name, clock) =>
        ResolveSimulates(c, s, now, net, name, clock);
        var c', s' := Resolve(c, net, name, clock).1, SimpleResolve(s, net, name, clock).1;
        RunSimulates(c', s', clock.storeError, calls[1..]);
      case CleanupCall(clock) =>
        CleanupSimulates(c, s, now, clock);
        RunSimulates(Cleanup(c, clock), s, clock.backoff, calls[1..]);
    }
  }

  /** Every run of the three-map resolver answers as the simple one that repeats an error for one hour. */
  lemma ResolverRefinesSimple(calls: seq<Call>, start: int)
    requires InOrder(calls, start)
    ensures Answers(EMPTY, calls) == SimpleAnswers(Simple(map[], map[]), calls)
  {
    RunSimulates(EMPTY, Simple(map[], map[]), start, calls);
  }

  lemma {:induction false} RunsStayCovered(c: Caches, s: Simple, now: int, calls: seq<Call>)
    requires Simulates(c, s, now) && InOrder(calls, now)
    ensures BackoffCovered(StateAfter(c, calls), EndOf(calls, now))
    decreases |calls|
  {
    hide Resolve, SimpleResolve, Cleanup, SameLive, BackoffCovered;
    if calls != [] {
      hide Simulates;
      match calls[0]
      case ResolveCall(net, name, clock) =>
        ResolveSimulates(c, s, now, net, name, clock);
        var c', s' := Resolve(c, net, name, clock).1, SimpleResolve(s, net, name, clock).1;
        RunsStayCovered(c', s', clock.storeError, calls[1..]);
      case CleanupCall(clock) =>
        CleanupSimulates(c, s, now, clock);
        RunsStayCovered(Cleanup(c, clock), s, clock.backoff, calls[1..]);
    }
  }

  /**
   The backoff check never rejects: after every run, with any network answers and any cleanups, a name without a live
   cached error passes it.
   */
  lemma BackoffNeverRejects(calls: seq<Call>, start: int, name: string, errorCheck: int, retryCheck: int)
    requires InOrder(calls, start) && EndOf(calls, start) <= errorCheck <= retryCheck
    requires Live(StateAfter(EMPTY, calls).errors, name, errorCheck).None?
    ensures CanRetry(StateAfter(EMPTY, calls), name, retryCheck)
  {
    RunsStayCovered(EMPTY, Simple(map[], map[]), start, calls);
    CoveredBackoffPasses(StateAfter(EMPTY, calls), name, EndOf(calls, start), errorCheck, retryCheck);
  }

  ghost function WithoutCleanups(calls: seq<Call>): seq<Call> {
    if calls == [] then []
    else if calls[0].ResolveCall? then [calls[0]] + WithoutCleanups(calls[1..])
    else WithoutCleanups(calls[1..])
  }

  lemma {:induction false} SimpleIgnoresCleanups(s: Simple, calls: seq<Call>)
    ensures SimpleAnswers(s, WithoutCleanups(calls)) == SimpleAnswers(s, calls)
    decreases |calls|
  {
    hide SimpleResolve;
    if calls != [] {
      match calls[0]
      case ResolveCall(net, name, clock) =>
        SimpleIgnoresCleanups(SimpleResolve(s, net, name, clock).1, calls[1..]);
        assert WithoutCleanups(calls)[1..] == WithoutCleanups(calls[1..]);
      case CleanupCall(_) => SimpleIgnoresCleanups(s, calls[1..]);
    }
  }

  lemma {:induction false} InOrderEarlier(calls: seq<Call>, earlier: int, now: int)
    requires InOrder(calls, now) && earlier <= now
    ensures InOrder(calls, earlier)
  {
  }

  lemma {:induction false} InOrderWithoutCleanups(calls: seq<Call>, now: int)
    requires InOrder(calls, now)
    ensures InOrder(WithoutCleanups(calls), now)
    decreases |calls|
  {
    if calls != [] {
      match calls[0]
      case ResolveCall(net, name, clock) =>
        InOrderWithoutCleanups(calls[1..], clock.storeError);
        assert WithoutCleanups(calls)[1..] == WithoutCleanups(calls[1..]);
      case CleanupCall(clock) =>
        InOrderWithoutCleanups(calls[1..], clock.backoff);
        InOrderEarlier(WithoutCleanups(calls[1..]), now, clock.backoff);
    }
  }

  /** Cleanups, at any points of a run, change none of its answers. */
  lemma CleanupIsInvisible(calls: seq<Call>, start: int)
    requires InOrder(calls, start)
    ensures Answers(EMPTY, WithoutCleanups(calls)) == Answers(EMPTY, calls)
  {
    InOrderWithoutCleanups(calls, start);
    ResolverRefinesSimple(calls, start);
    ResolverRefinesSimple(WithoutCleanups(calls), start);
    SimpleIgnoresCleanups(Simple(map[], map[]), calls);
  }

  // ---------- where cached responses come from ----------

  /** Call `i` fetched the host's response and stored it for a day. */
  ghost predicate FetchedAt(calls: seq<Call>, i: int, hostname: string, entry: Entry<Option<string>>) {
    && 0 <= i < |calls| && calls[i].ResolveCall?
    && ParseServerName(calls[i].name) == Success(Endpoint(hostname, None))
    && entry.expiresAt == calls[i].resolveClock.storeWellKnown + 24 * 3600 * SECOND
    && entry.value == match calls[i].net.wellKnownOf(hostname)
                      case Success(answer) => answer
                      case Failure(_) => None
  }

  lemma ResolveFetches(c: Caches, net: Net, name: string, clock: ResolveClock, hostname: string)
    requires hostname in Resolve(c, net, name, clock).1.wellKnown
    ensures var entry := Resolve(c, net, name, clock).1.wellKnown[hostname];
            || (hostname in c.wellKnown && entry == c.wellKnown[hostname])
            || FetchedAt([ResolveCall(net, name, clock)], 0, hostname, entry)
  {
    hide Delegate, WithoutDelegation, ParseServerName, Delay, ViaAddress;
  }

  lemma {:induction false} CachedWasStoredOrFetched(c: Caches, calls: seq<Call>, hostname: string)
    requires hostname in StateAfter(c, calls).wellKnown
    ensures var entry := StateAfter(c, calls).wellKnown[hostname];
            || (hostname in c.wellKnown && entry == c.wellKnown[hostname])
            || exists i :: FetchedAt(calls, i, hostname, entry)
    decreases |calls|
  {
    hide Resolve, ParseServerName;
    if calls != [] {
      var next := match calls[0]
        case ResolveCall(net, name, clock) => Resolve(c, net, name, clock).1
        case CleanupCall(clock) => Cleanup(c, clock);
      var entry := StateAfter(c, calls).wellKnown[hostname];
      CachedWasStoredOrFetched(next, calls[1..], hostname);
      if i :| FetchedAt(calls[1..], i, hostname, entry) {
        assert FetchedAt(calls, i + 1, hostname, entry);
      } else if calls[0].ResolveCall? {
        ResolveFetches(c, calls[0].net, calls[0].name, calls[0].resolveClock, hostname);
        assert FetchedAt([calls[0]], 0, hostname, entry) ==> FetchedAt(calls, 0, hostname, entry);
      }
    }
  }

  /** After every run, each cached response is what the network answered to some call, kept for a day from then. */
  lemma CachedWasFetched(calls: seq<Call>, hostname: string)
    requires hostname in StateAfter(EMPTY, calls).wellKnown
    ensures exists i :: FetchedAt(calls, i, hostname, StateAfter(EMPTY, calls).wellKnown[hostname])
  {
    CachedWasStoredOrFetched(EMPTY, calls, hostname);
  }

  // ---------- a network that does not change ----------

  ghost predicate OneNet(calls: seq<Call>, net: Net) {
    forall i :: 0 <= i < |calls| && calls[i].ResolveCall? ==> calls[i].net == net
  }

  /** Reject for one hour after a failure; otherwise resolve directly. */
  ghost function BanAnswers(bans: map<string, Entry<DnsError>>, calls: seq<Call>): seq<Answer>
    decreases |calls|
  {
    if calls == [] then []
    else
      match calls[0]
      case ResolveCall(net, name, clock) =>
        (match Live(bans, name, clock.checkError)
         case Some(e) => [Failure(e)] + BanAnswers(bans, calls[1..])
         case None =>
           match Direct(net, name)
           case Success(server) => [Success(server)] + BanAnswers(bans, calls[1..])
           case Failure(e) => [Failure(e)] + BanAnswers(bans[name := Entry(e, clock.storeError + HOUR)], calls[1..]))
      case CleanupCall(_) => BanAnswers(bans, calls[1..])
  }

  lemma {:induction false} SimpleIsBan(s: Simple, calls: seq<Call>, net: Net)
    requires Faithful(net, s.wellKnown) && OneNet(calls, net)
    ensures SimpleAnswers(s, calls) == BanAnswers(s.bans, calls)
    decreases |calls|
  {
    hide Internal, Direct, Faithful;
    if calls != [] {
      match calls[0]
      case ResolveCall(_, name, clock) =>
        CacheIsTransparent(net, s.wellKnown, name, clock.readWellKnown, clock.storeWellKnown);
        SimpleIsBan(SimpleResolve(s, net, name, clock).1, calls[1..], net);
      case CleanupCall(_) => SimpleIsBan(s, calls[1..], net);
    }
  }

  /**
   With fixed outside answers, no cache shows: a run is direct resolution with one hour of rejection after a failure.
   */
  lemma ResolverRefinesOneHourBan(calls: seq<Call>, start: int, net: Net)
    requires InOrder(calls, start) && OneNet(calls, net)
    ensures Answers(EMPTY, calls) == BanAnswers(map[], calls)
  {
    ResolverRefinesSimple(calls, start);
    SimpleIsBan(Simple(map[], map[]), calls, net);
  }

  // ---------- the failure counter ----------

  /** Failures are at least an hour apart, and an error is kept for at most one. */
  ghost predicate CounterPaced(c: Caches, start: int, now: int) {
    && (forall n :: n in c.errors ==> c.errors[n].expiresAt <= now + HOUR)
    && (forall n :: n in c.backoff && c.backoff[n].failures > 0 ==>
          || now > start + c.backoff[n].failures * HOUR
          || (n in c.errors && c.errors[n].expiresAt >= start + c.backoff[n].failures * HOUR))
  }

  lemma ResolveKeepsPace(c: Caches, start: int, now: int, net: Net, name: string, clock: ResolveClock)
    requires CounterPaced(c, start, now) && start <= now <= clock.checkError && clock.InOrder()
    ensures CounterPaced(Resolve(c, net, name, clock).1, start, clock.storeError)
  {
    hide Internal, Delay;
    if Live(c.errors, name, clock.checkError).None? && CanRetry(c, name, clock.checkRetry) {
      var (answer, wk) := Internal(net, c.wellKnown, name, clock.readWellKnown, clock.storeWellKnown);
      if answer.Failure? {
        FailureKeepsPace(c, start, now, name, wk, answer.error, clock);
      }
    }
  }

  lemma FailureKeepsPace(c: Caches, start: int, now: int, name: string, wk: WellKnownCache, e: DnsError,
                         clock: ResolveClock)
    requires CounterPaced(c, start, now) && start <= now <= clock.checkError && clock.InOrder()
    requires Live(c.errors, name, clock.checkError).None?
    ensures CounterPaced(Caches(wk, c.errors[name := Entry(e, clock.storeError + HOUR)],
                                RecordFailure(c.backoff, name, clock.recordOutcome)), start, clock.storeError)
  {
  }

  lemma CleanupKeepsPace(c: Caches, start: int, now: int, clock: CleanupClock)
    requires CounterPaced(c, start, now) && now <= clock.wellKnown && clock.InOrder()
    ensures CounterPaced(Cleanup(c, clock), start, clock.backoff)
  {
  }

  lemma {:induction false} RunKeepsPace(c: Caches, start: int, now: int, calls: seq<Call>)
    requires CounterPaced(c, start, now) && start <= now && InOrder(calls, now)
    ensures CounterPaced(StateAfter(c, calls), start, EndOf(calls, now))
    decreases |calls|
  {
    hide Resolve, CounterPaced, Cleanup;
    if calls != [] {
      match calls[0]
      case ResolveCall(net, name, clock) =>
        ResolveKeepsPace(c, start, now, net, name, clock);
        RunKeepsPace(Resolve(c, net, name, clock).1, start, clock.storeError, calls[1..]);
      case CleanupCall(clock) =>
        CleanupKeepsPace(c, start, now, clock);
        RunKeepsPace(Cleanup(c, clock), start, clock.backoff, calls[1..]);
    }
  }

  /** The failure counter grows by at most one an hour, so 32 bits hold it for 2^32 hours of running. */
  lemma FailureCounterFits(calls: seq<Call>, start: int, name: string)
    requires InOrder(calls, start) && name in StateAfter(EMPTY, calls).backoff
    ensures StateAfter(EMPTY, calls).backoff[name].failures * HOUR <= EndOf(calls, start) - start + HOUR
  {
    RunKeepsPace(EMPTY, start, start, calls);
    EndIsLater(calls, start);
  }
}
