/** The middleware itself (ratelimit.go): what it does to a request's headers, which
    bucket the request lands in, and what becomes of it. */
module Middleware {
  import opened Wrappers
  import opened Text
  import opened Addresses
  import opened Checking
  import opened Walk
  import opened Strategies
  import opened Subnets
  import opened Headers
  import opened Limiting
  import opened Scripts
  import G = Gcra
  import B = Breaker

  const X_FORWARDED_FOR := "X-Forwarded-For"
  const CLIENT_IP := "Gateway-Connecting-IP"
  const CLIENT_IP_SOURCE := "Gateway-Connecting-IP-Source"
  const CLIENT_SUBNET := "Gateway-Connecting-Subnet"

  const DESTROYED: seq<string> := ["Forwarded", "X-Real-IP", CLIENT_IP, CLIENT_IP_SOURCE, CLIENT_SUBNET]

  // "open" and "closed"
  datatype FailureMode = FailOpen | FailClosed

  // How an address is derived, over the checkers of the running program or over
  // what they hold.
  datatype Strategy<C> = TrustedProxy(checker: C) | RemoteAddr | Depth(depth: int) | Pool(checker: C)

  // How a bucket is chosen.
  datatype Matcher<C> = Aggregate(walk: Strategy<C>, prefix: nat) | ByStrategy(strategy: Strategy<C>) | ByHeader(name: string) | ByHost

  // Everything a middleware was configured to do, as a value.
  datatype Policy = Policy(
    lib: Library,
    average: int,
    burst: int,
    period: int,
    whitelist: Option<Trust>,
    strategy: Strategy<Trust>,
    matcher: Matcher<Trust>,
    failureMode: FailureMode,
    prefix: nat,
    retryAfter: int)
  {
    predicate Valid() {
      && average >= 0 && burst >= 1 && period >= 1
      && MIN_IPV6_SUBNET <= prefix <= MAX_IPV6_SUBNET
      && (whitelist.Some? ==> whitelist.value.Valid())
      && Sound(strategy)
      && (matcher.ByStrategy? ==> Sound(matcher.strategy))
      && (matcher.Aggregate? ==> matcher.walk == strategy && strategy.TrustedProxy? && matcher.prefix == prefix)
    }

    function Limit(): (l: G.Limit)
      requires Valid() && average > 0
      ensures l.Valid()
      ensures l.rate == average && l.burst == burst && l.period == period as real
    {
      G.Limit(average, burst, period as real)
    }
  }

  predicate Sound(s: Strategy<Trust>) {
    match s
    case TrustedProxy(t) => t.Valid()
    case Pool(t) => t.Valid()
    case Depth(d) => d >= 1
    case RemoteAddr => true
  }

  datatype Message = Message(remoteAddr: string, host: string, header: Header)

  // Strategy.GetIP
  function Derive(lib: Library, s: Strategy<Trust>, m: Message): string
    requires Sound(s)
  {
    var xff := Get(m.header, X_FORWARDED_FOR);
    match s
    case TrustedProxy(t) => Resolved(lib, Some(t), m.remoteAddr, xff).addr
    case RemoteAddr => PeerHost(m.remoteAddr)
    case Depth(d) => DepthIP(xff, d)
    case Pool(t) => PoolIP(lib, t, Split(xff))
  }

  function SourceText(source: Walk.Source): (text: string)
    ensures text != ""
  {
    match source
    case Xff => "xff"
    case PeerUntrusted => "peer-untrusted"
    case PeerNoXff => "peer-no-xff"
    case PeerAllTrusted => "peer-all-trusted"
    case PeerMalformed => "peer-malformed"
  }

  // SourceExtractor.Extract, whose error none of the configurable matchers returns
  function Extract(lib: Library, matcher: Matcher<Trust>, m: Message): string
    requires matcher.Aggregate? ==> Sound(matcher.walk)
    requires matcher.ByStrategy? ==> Sound(matcher.strategy)
  {
    match matcher
    case Aggregate(walk, prefix) => Subnet(lib, Derive(lib, walk, m), prefix)
    case ByStrategy(s) => Derive(lib, s, m)
    case ByHeader(name) => Get(m.header, name)
    case ByHost => m.host
  }

  // The first n of the destroyed headers, gone.
  function Cleaned(h: Header, n: nat): Header
    requires n <= |DESTROYED|
  {
    if n == 0 then h else Del(Cleaned(h, n - 1), DESTROYED[n - 1])
  }

  // Which exit the walk took; the other strategies take none.
  function Provenance(lib: Library, s: Strategy<Trust>, m: Message): Option<string>
    requires Sound(s)
  {
    if s.TrustedProxy? then
      Some(SourceText(Resolved(lib, Some(s.checker), m.remoteAddr, Get(m.header, X_FORWARDED_FOR)).source))
    else None
  }

  function SetIdentity(h: Header, clientIP: string, subnet: string): Header {
    Set(Set(h, CLIENT_IP, clientIP), CLIENT_SUBNET, subnet)
  }

  function SetSource(h: Header, source: Option<string>): Header {
    if source.Some? then Set(h, CLIENT_IP_SOURCE, source.value) else h
  }

  // The message with what is published about a client that resolved.
  function Published(p: Policy, m: Message, clientIP: string): Message
    requires p.Valid()
  {
    if clientIP == "" then m
    else
      var named := m.(header := SetIdentity(m.header, clientIP, SubnetCIDR(p.lib, clientIP, p.prefix)));
      named.(header := SetSource(named.header, Provenance(p.lib, p.strategy, named)))
  }

  function Clean(m: Message): Message {
    m.(header := Cleaned(m.header, |DESTROYED|))
  }

  // The message as it goes on.
  function Outgoing(p: Policy, m: Message): Message
    requires p.Valid()
  {
    Published(p, Clean(m), Derive(p.lib, p.strategy, Clean(m)))
  }

  // Not limited at all, or counted in a bucket.
  datatype Route = Bypass | Bucket(key: string)

  predicate Exempt(p: Policy, clientIP: string)
    requires p.Valid()
  {
    || p.average == 0
    || (p.whitelist.Some? && clientIP != "" && p.whitelist.value.Contains(p.lib, clientIP) == Ok(true))
  }

  function RouteVia(p: Policy, clientIP: string, out: Message): (route: Route)
    requires p.Valid()
    ensures route.Bucket? ==> p.average > 0
  {
    if Exempt(p, clientIP) then Bypass else Bucket(Extract(p.lib, p.matcher, out))
  }

  function RouteOf(p: Policy, m: Message): (route: Route)
    requires p.Valid()
    ensures route.Bucket? ==> p.average > 0
  {
    RouteVia(p, Derive(p.lib, p.strategy, Clean(m)), Outgoing(p, m))
  }

  datatype Response = Forwarded | Refused(status: int, retryAfter: int)

  function Respond(p: Policy, res: Result<Outcome>): Response {
    match res
    case Err => if p.failureMode == FailOpen then Forwarded else Refused(503, p.retryAfter)
    case Ok(o) => if o.allowed <= 0 then Refused(429, Seconds(o.retryAfter) + 1) else Forwarded
  }

  // One request on a route: the answer, and what it leaves behind. An exempt one
  // leaves everything as it is; any other is one guarded call for one request.
  function Served(p: Policy, redisPrefix: string, settings: B.Settings, s: Backend, route: Route, start: int, link: Link, end: int)
    : (Response, Backend)
    requires p.Valid() && (route.Bucket? ==> p.average > 0)
  {
    match route
    case Bypass => (Forwarded, s)
    case Bucket(key) =>
      var (reply, after) := Guarded(settings, s, redisPrefix + key, p.Limit(), G.AllowN(1), start, link, end);
      (Respond(p, Read(p.Limit(), reply)), after)
  }

  // ------------------------------------------------ the running program

  function View(s: Strategy<Checker>): Strategy<Trust> {
    match s
    case TrustedProxy(c) => TrustedProxy(c.Trusted())
    case RemoteAddr => RemoteAddr
    case Depth(d) => Depth(d)
    case Pool(c) => Pool(c.Trusted())
  }

  function Chosen(m: Matcher<Checker>): Matcher<Trust> {
    match m
    case Aggregate(walk, prefix) => Aggregate(View(walk), prefix)
    case ByStrategy(s) => ByStrategy(View(s))
    case ByHeader(name) => ByHeader(name)
    case ByHost => ByHost
  }

  class Request {
    const remoteAddr: string
    const host: string
    var header: Header

    function Content(): Message
      reads this
    {
      Message(remoteAddr, host, header)
    }

    constructor (m: Message)
      ensures Content() == m
    {
      remoteAddr, host, header := m.remoteAddr, m.host, m.header;
    }
  }

  method GetIP(lib: Library, s: Strategy<Checker>, req: Request) returns (ip: string)
    requires Sound(View(s))
    ensures ip == Derive(lib, View(s), req.Content())
  {
    match s {
      case TrustedProxy(c) =>
        var r := Resolve(lib, c, req.remoteAddr, Get(req.header, X_FORWARDED_FOR));
        ip := r.addr;
      case RemoteAddr => ip := PeerHost(req.remoteAddr);
      case Depth(d) => ip := DepthIP(Get(req.header, X_FORWARDED_FOR), d);
      case Pool(c) => ip := GetPoolIP(lib, c, Get(req.header, X_FORWARDED_FOR));
    }
  }

  method ExtractSource(lib: Library, m: Matcher<Checker>, req: Request) returns (source: string)
    requires m.Aggregate? ==> Sound(View(m.walk))
    requires m.ByStrategy? ==> Sound(View(m.strategy))
    ensures source == Extract(lib, Chosen(m), req.Content())
  {
    match m {
      case Aggregate(walk, prefix) =>
        var ip := GetIP(lib, walk, req);
        source := Subnet(lib, ip, prefix);
      case ByStrategy(s) => source := GetIP(lib, s, req);
      case ByHeader(name) => source := Get(req.header, name);
      case ByHost => source := req.host;
    }
  }

  class ClusterRateLimit {
    const lib: Library
    const limiter: Limiter
    const average: int
    const burst: int
    const period: int
    const sourceMatcher: Matcher<Checker>
    const whitelistChecker: Checker?
    const ipStrategy: Strategy<Checker>
    const failureMode: FailureMode
    const ipv6Subnet: nat
    const retryAfter: int

    // What the fields amount to.
    function Configured(): Policy {
      Policy(lib, average, burst, period,
        if whitelistChecker == null then None else Some(whitelistChecker.Trusted()),
        View(ipStrategy), Chosen(sourceMatcher), failureMode, ipv6Subnet, retryAfter)
    }

    constructor (lib: Library, limiter: Limiter, average: int, burst: int, period: int, sourceMatcher: Matcher<Checker>,
                 whitelistChecker: Checker?, ipStrategy: Strategy<Checker>, failureMode: FailureMode, ipv6Subnet: nat, retryAfter: int)
      ensures this.limiter == limiter && this.sourceMatcher == sourceMatcher
      ensures this.whitelistChecker == whitelistChecker && this.ipStrategy == ipStrategy
      ensures Configured() == Policy(lib, average, burst, period,
        if whitelistChecker == null then None else Some(whitelistChecker.Trusted()),
        View(ipStrategy), Chosen(sourceMatcher), failureMode, ipv6Subnet, retryAfter)
    {
      this.lib, this.limiter, this.average, this.burst := lib, limiter, average, burst;
      this.period, this.sourceMatcher, this.whitelistChecker := period, sourceMatcher, whitelistChecker;
      this.ipStrategy, this.failureMode, this.ipv6Subnet, this.retryAfter := ipStrategy, failureMode, ipv6Subnet, retryAfter;
    }

    // Everything up to the limiter: clean, derive, publish.
    method Announce(req: Request) returns (clientIP: string)
      requires Configured().Valid()
      modifies req
      ensures req.Content() == Outgoing(Configured(), old(req.Content()))
      ensures clientIP == Derive(lib, Configured().strategy, Clean(old(req.Content())))
    {
      for i := 0 to |DESTROYED|
        invariant req.header == Cleaned(old(req.header), i)
      {
        req.header := Del(req.header, DESTROYED[i]);
      }
      clientIP := GetIP(lib, ipStrategy, req);
      if clientIP != "" {
        Publish(req, clientIP);
      }
    }

    method Publish(req: Request, clientIP: string)
      requires Configured().Valid() && clientIP != ""
      modifies req
      ensures req.Content() == Published(Configured(), old(req.Content()), clientIP)
    {
      req.header := Set(req.header, CLIENT_IP, clientIP);
      req.header := Set(req.header, CLIENT_SUBNET, SubnetCIDR(lib, clientIP, ipv6Subnet));
      var source := ResolveSource(req);
      if source.Some? && source.value != "" {
        req.header := Set(req.header, CLIENT_IP_SOURCE, source.value);
      }
    }

    // The exit, if the strategy is a Resolver.
    method ResolveSource(req: Request) returns (source: Option<string>)
      requires Configured().Valid()
      ensures source == Provenance(lib, Configured().strategy, req.Content())
      ensures source.Some? ==> source.value != ""
    {
      if !ipStrategy.TrustedProxy? {
        return None;
      }
      var r := Resolve(lib, ipStrategy.checker, req.remoteAddr, Get(req.header, X_FORWARDED_FOR));
      return Some(SourceText(r.source));
    }

    method Choose(req: Request, clientIP: string) returns (route: Route)
      requires Configured().Valid()
      ensures route == RouteVia(Configured(), clientIP, req.Content())
      ensures route.Bucket? ==> average > 0
    {
      if average == 0 {
        return Bypass;
      }
      if whitelistChecker != null && clientIP != "" {
        var contains := whitelistChecker.Contains(lib, clientIP);
        if contains.Ok? && contains.value {
          return Bypass;
        }
      }
      var source := ExtractSource(lib, sourceMatcher, req);
      return Bucket(source);
    }

    // What a request adds to the breaker's history.
    ghost function Recorded(before: Backend, route: Route, start: int, link: Link, end: int): seq<B.Call> {
      if route.Bucket? then [B.Call(start, !Heard(before, start, link), end)] else []
    }

    // Count one request in a bucket and answer it.
    method Limit(source: string, start: int, link: Link, end: int) returns (resp: Response)
      requires Configured().Valid() && average > 0 && limiter.Valid() && limiter.allowN.Ready(start, end)
      modifies limiter.allowN, limiter.allowN.script, limiter.rdb
      ensures limiter.Valid()
      ensures limiter.allowN.calls == old(limiter.allowN.calls) + Recorded(old(limiter.allowN.State()), Bucket(source), start, link, end)
      ensures (resp, limiter.allowN.State()) ==
        Served(Configured(), limiter.redisPrefix, limiter.allowN.settings, old(limiter.allowN.State()), Bucket(source), start, link, end)
    {
      var res := limiter.Allow(source, G.Limit(average, burst, period as real), start, link, end);
      if res.Err? {
        if failureMode == FailOpen {
          return Forwarded;
        }
        return Refused(503, retryAfter);
      } else {
        if res.value.allowed <= 0 {
          return Refused(429, Seconds(res.value.retryAfter) + 1);
        }
        return Forwarded;
      }
    }

    method ServeHTTP(req: Request, start: int, link: Link, end: int) returns (resp: Response)
      requires Configured().Valid() && limiter.Valid() && limiter.allowN.Ready(start, end)
      modifies req, limiter.allowN, limiter.allowN.script, limiter.rdb
      ensures req.Content() == Outgoing(Configured(), old(req.Content()))
      ensures var route := RouteOf(Configured(), old(req.Content()));
        && limiter.Valid()
        && limiter.allowN.calls == old(limiter.allowN.calls) + Recorded(old(limiter.allowN.State()), route, start, link, end)
        && (resp, limiter.allowN.State()) ==
             Served(Configured(), limiter.redisPrefix, limiter.allowN.settings, old(limiter.allowN.State()), route, start, link, end)
    {
      var clientIP := Announce(req);
      var route := Choose(req, clientIP);
      match route {
        case Bypass => resp := Forwarded;
        case Bucket(source) => resp := Limit(source, start, link, end);
      }
    }
  }
}
