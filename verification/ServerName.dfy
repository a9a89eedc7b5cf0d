/** Matrix server names: `parse_server_name` and exactly which names it accepts. */
module ServerName {
  import opened Prelude
  import opened Decimal

  datatype DnsError =
    | ResolveError(text: string)
    | WellKnownError(text: string)
    | NoServerFound(text: string)
    | InvalidHostname(text: string)

  const MAX_PORT := 65535

  /** `str::rfind(c)`. */
  function FindLast(s: string, c: char): (r: Option<nat>)
    ensures r.None? <==> c !in s
    ensures r.Some? ==> r.value < |s| && s[r.value] == c && c !in s[r.value + 1..]
  {
    if s == [] then None
    else if s[|s| - 1] == c then Some(|s| - 1)
    else
      match FindLast(s[..|s| - 1], c)
      case None => assert s == s[..|s| - 1] + [s[|s| - 1]]; None
      case Some(i) =>
        assert s[i + 1..] == s[..|s| - 1][i + 1..] + [s[|s| - 1]];
        Some(i)
  }

  /** `parse::<u16>()`: an optional plus sign and digits; leading zeros are fine. */
  function ParsePort(s: string): (r: Option<nat>)
    ensures r.Some? ==> r.value <= MAX_PORT && ':' !in s
  {
    var digits := if s != [] && s[0] == '+' then s[1..] else s;
    if digits == [] || !AllDigits(digits) || DigitsValue(digits) > MAX_PORT then None
    else
      assert forall i :: 0 <= i < |digits| ==> digits[i] != ':';
      Some(DigitsValue(digits))
  }

  /** A text is a port exactly when it is digits after an optional plus sign and their number fits in 16 bits. */
  lemma ParsePortExact(s: string, port: nat)
    ensures ParsePort(s) == Some(port) <==>
            exists digits :: PortDigits(s, digits) && DigitsValue(digits) == port && port <= 65535
  {
    hide DigitsValue;
    var digits := if s != [] && s[0] == '+' then s[1..] else s;
    if ParsePort(s) == Some(port) {
      assert PortDigits(s, digits);
    }
    forall other | PortDigits(s, other)
      ensures other == digits
    {
    }
  }

  ghost predicate PortDigits(s: string, digits: string) {
    digits != [] && AllDigits(digits) && (s == digits || s == "+" + digits)
  }

  function PortOf(text: string): (r: Result<nat, DnsError>)
    ensures r.Success? <==> ParsePort(text).Some?
    ensures r.Success? ==> r.value == ParsePort(text).value
  {
    match ParsePort(text)
    case Some(port) => Success(port)
    case None => Failure(InvalidHostname("Invalid port: " + text))
  }

  datatype Endpoint = Endpoint(hostname: string, port: Option<nat>)

  function WithPort(hostname: string, text: string): Result<Endpoint, DnsError> {
    match PortOf(text)
    case Success(port) => Success(Endpoint(hostname, Some(port)))
    case Failure(e) => Failure(e)
  }

  /** `parse_server_name`. */
  function ParseServerName(name: string): Result<Endpoint, DnsError> {
    if name == "" then Failure(InvalidHostname("Empty server name"))
    else if name[0] == '[' then
      match Find(name, ']')
      case None => Failure(InvalidHostname("Unclosed IPv6 literal: " + name))
      case Some(end) =>
        var rest := name[end + 1..];
        if rest == "" then Success(Endpoint(name[1..end], None))
        else if rest[0] == ':' then WithPort(name[1..end], rest[1..])
        else Failure(InvalidHostname("Invalid IPv6 literal: " + name))
    else
      match FindLast(name, ':')
      case None => Success(Endpoint(name, None))
      case Some(colon) =>
        // Two colons: taken for an IPv6 address without brackets.
        if ':' in name[..colon] then Success(Endpoint(name, None))
        else WithPort(name[..colon], name[colon + 1..])
  }

  /** The shapes of an accepted name. */
  datatype Shape =
    | Host(host: string)
    | HostPort(host: string, port: string)
    | Literal(v6: string)
    | LiteralPort(v6: string, port: string)
    | RawV6(head: string, tail: string)

  predicate ValidShape(n: Shape) {
    match n
    case Host(h) => h != "" && h[0] != '[' && ':' !in h
    case HostPort(h, port) => (h == "" || h[0] != '[') && ':' !in h && ParsePort(port).Some?
    case Literal(v6) => ']' !in v6
    case LiteralPort(v6, port) => ']' !in v6 && ParsePort(port).Some?
    case RawV6(head, tail) => ':' in head && head[0] != '[' && ':' !in tail
  }

  function ShapeText(n: Shape): string {
    match n
    case Host(h) => h
    case HostPort(h, port) => h + ":" + port
    case Literal(v6) => "[" + v6 + "]"
    case LiteralPort(v6, port) => "[" + v6 + "]:" + port
    case RawV6(head, tail) => head + ":" + tail
  }

  function ShapeEndpoint(n: Shape): Endpoint
    requires ValidShape(n)
  {
    match n
    case Host(h) => Endpoint(h, None)
    case HostPort(h, port) => Endpoint(h, ParsePort(port))
    case Literal(v6) => Endpoint(v6, None)
    case LiteralPort(v6, port) => Endpoint(v6, ParsePort(port))
    case RawV6(_, _) => Endpoint(ShapeText(n), None)
  }

  lemma {:induction false} FindLastSplits(a: string, c: char, b: string)
    requires c !in b
    ensures FindLast(a + [c] + b, c) == Some(|a|)
  {
    hide FindLast;
    if b == [] {
      FindLastEnds(a, c);
      assert a + [c] + b == a + [c];
    } else {
      var front, last := b[..|b| - 1], b[|b| - 1];
      FindLastSplits(a, c, front);
      FindLastSkips(a + [c] + front, last, c);
      AppendLast(a + [c], b);
    }
  }

  lemma AppendLast(p: string, b: string)
    requires b != []
    ensures p + b == p + b[..|b| - 1] + [b[|b| - 1]]
  {
    assert b == b[..|b| - 1] + [b[|b| - 1]];
  }

  lemma FindLastEnds(s: string, c: char)
    ensures FindLast(s + [c], c) == Some(|s|)
  {
  }

  lemma FindLastSkips(s: string, d: char, c: char)
    requires c != d
    ensures FindLast(s + [d], c) == FindLast(s, c)
  {
    assert (s + [d])[..|s|] == s;
  }

  lemma LiteralParses(v6: string, rest: string)
    requires ']' !in v6
    ensures ParseServerName("[" + v6 + "]" + rest) ==
            if rest == "" then Success(Endpoint(v6, None))
            else if rest[0] == ':' then WithPort(v6, rest[1..])
            else Failure(InvalidHostname("Invalid IPv6 literal: " + ("[" + v6 + "]" + rest)))
  {
    hide Find, FindLast, WithPort;
    var s := "[" + v6 + "]" + rest;
    FindSplits("[" + v6, ']', rest);
    assert s[1..|v6| + 1] == v6 && s[|v6| + 2..] == rest;
  }

  lemma ColonParses(head: string, tail: string)
    requires (head == "" || head[0] != '[') && ':' !in tail
    ensures ParseServerName(head + ":" + tail) ==
            if ':' in head then Success(Endpoint(head + ":" + tail, None)) else WithPort(head, tail)
  {
    hide Find, FindLast, WithPort;
    var s := head + ":" + tail;
    assert s[0] == if head == "" then ':' else head[0];
    FindLastSplits(head, ':', tail);
    assert s[..|head|] == head && s[|head| + 1..] == tail;
  }

  lemma ShapeParses(n: Shape)
    requires ValidShape(n)
    ensures ParseServerName(ShapeText(n)) == Success(ShapeEndpoint(n))
  {
    match n
    case Host(h) =>
    case HostPort(h, port) =>
      hide ParseServerName, ParsePort;
      ColonParses(h, port);
    case RawV6(head, tail) =>
      hide ParseServerName;
      ColonParses(head, tail);
    case Literal(v6) =>
      hide ParseServerName;
      LiteralParses(v6, "");
      assert ShapeText(n) == "[" + v6 + "]" + "";
    case LiteralPort(v6, port) =>
      hide ParseServerName, ParsePort;
      LiteralParses(v6, ":" + port);
      assert ShapeText(n) == "[" + v6 + "]" + (":" + port);
      assert (":" + port)[1..] == port;
  }

  lemma ParsedShape(name: string) returns (n: Shape)
    requires ParseServerName(name).Success?
    ensures ValidShape(n) && ShapeText(n) == name && ParseServerName(name) == Success(ShapeEndpoint(n))
  {
    hide Find, FindLast, ParsePort;
    if name[0] == '[' {
      var end := Find(name, ']').value;
      var v6, rest := name[1..end], name[end + 1..];
      assert name[..end] == [name[0]] + v6;
      if rest == "" {
        n := Literal(v6);
        assert name == "[" + v6 + "]";
      } else {
        n := LiteralPort(v6, rest[1..]);
        assert rest == ":" + rest[1..];
        assert name == "[" + v6 + "]:" + rest[1..];
      }
    } else if FindLast(name, ':').None? {
      n := Host(name);
    } else {
      var colon := FindLast(name, ':').value;
      var head, tail := name[..colon], name[colon + 1..];
      assert name == head + ":" + tail;
      n := if ':' in head then RawV6(head, tail) else HostPort(head, tail);
    }
  }

  /** A name is accepted as an endpoint exactly when it has a shape that denotes the endpoint. */
  lemma ParseServerNameExact(name: string, endpoint: Endpoint)
    ensures ParseServerName(name) == Success(endpoint) <==>
            exists n :: ValidShape(n) && ShapeText(n) == name && ShapeEndpoint(n) == endpoint
  {
    hide ParseServerName, ShapeText, ShapeEndpoint, ValidShape;
    forall n | ValidShape(n) && ShapeText(n) == name
      ensures ParseServerName(name) == Success(ShapeEndpoint(n))
    {
      ShapeParses(n);
    }
    if ParseServerName(name) == Success(endpoint) {
      var n := ParsedShape(name);
    }
  }

  /** The definition read back: every accepted port is a 16-bit number. */
  lemma AcceptedPortsFit(name: string)
    requires ParseServerName(name).Success? && ParseServerName(name).value.port.Some?
    ensures ParseServerName(name).value.port.value <= MAX_PORT
  {
  }

  /** Printing a port and parsing it gives the port back, so parsing a printed name gives its parts back. */
  lemma PrintedNameParses(host: string, port: nat)
    requires port <= MAX_PORT
    ensures host != "" && host[0] != '[' && ':' !in host ==>
              && ParseServerName(host) == Success(Endpoint(host, None))
              && ParseServerName(host + ":" + NatText(port)) == Success(Endpoint(host, Some(port)))
    ensures ']' !in host ==>
              && ParseServerName("[" + host + "]") == Success(Endpoint(host, None))
              && ParseServerName("[" + host + "]:" + NatText(port)) == Success(Endpoint(host, Some(port)))
  {
    hide ParseServerName, ParsePort;
    PrintedPort(port);
    if host != "" && host[0] != '[' && ':' !in host {
      ShapeParses(Host(host));
      ShapeParses(HostPort(host, NatText(port)));
    }
    if ']' !in host {
      ShapeParses(Literal(host));
      ShapeParses(LiteralPort(host, NatText(port)));
    }
  }

  lemma PrintedPort(port: nat)
    requires port <= MAX_PORT
    ensures ParsePort(NatText(port)) == Some(port)
  {
    hide NatText, DigitsValue;
    NatTextRoundTrip(port);
  }
}
