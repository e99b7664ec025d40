/** Building the middleware from its configuration (ratelimit.go, New): defaults,
    refusals, and which strategy and bucket a configuration selects. */
module Configuring {
  import opened Wrappers
  import opened Addresses
  import opened Checking
  import opened Subnets
  import opened Middleware
  import opened Limiting
  import opened Scripts
  import G = Gcra
  import B = Breaker

  datatype IPStrategy = IPStrategy(depth: int, excludedIPs: seq<string>)

  datatype SourceCriterion = SourceCriterion(ipStrategy: Option<IPStrategy>, requestHeaderName: string, requestHost: bool)

  datatype Config = Config(
    average: int,
    burst: int,
    period: int,
    breakerThreshold: int,
    breakerReattempt: int,
    failureMode: string,
    redisPassword: string,
    redisPasswordFile: string,
    whitelistIPs: seq<string>,
    trustedProxies: seq<string>,
    ipv6Subnet: int,
    sourceCriterion: Option<SourceCriterion>)
  {
    predicate HasIPStrategy() {
      sourceCriterion.Some? && sourceCriterion.value.ipStrategy.Some?
    }

    // Bucketing by something that is not an address.
    predicate ByRequest() {
      sourceCriterion.Some? && (sourceCriterion.value.requestHeaderName != "" || sourceCriterion.value.requestHost)
    }
  }

  ghost predicate AllReadable(lib: Library, ips: seq<string>) {
    forall k :: 0 <= k < |ips| ==> Readable(lib, ips[k])
  }

  // At most one criterion, and excluded addresses that can be read where they count.
  ghost predicate CriterionSound(lib: Library, c: SourceCriterion) {
    && !(c.ipStrategy.Some? && c.requestHeaderName != "")
    && !(c.ipStrategy.Some? && c.requestHost)
    && !(c.requestHeaderName != "" && c.requestHost)
    && (c.ipStrategy.Some? && c.ipStrategy.value.depth <= 0 ==> AllReadable(lib, c.ipStrategy.value.excludedIPs))
  }

  // The configurations a middleware can be built from.
  ghost predicate Acceptable(lib: Library, c: Config) {
    && c.average >= 0 && c.burst >= 1
    && c.failureMode in {"", "open", "closed"}
    && (c.redisPassword == "" || c.redisPasswordFile == "")
    && (c.ipv6Subnet == 0 || MIN_IPV6_SUBNET <= c.ipv6Subnet <= MAX_IPV6_SUBNET)
    && (c.sourceCriterion.Some? ==> CriterionSound(lib, c.sourceCriterion.value))
    && AllReadable(lib, c.whitelistIPs)
    && AllReadable(lib, c.trustedProxies)
    // exactly one way to derive an address
    && (c.trustedProxies != [] <==> !c.HasIPStrategy())
  }

  // What a trusted set denotes.
  ghost predicate Holds(lib: Library, t: Trust, ips: seq<string>)
    requires lib.Lawful()
  {
    t.Valid() && forall a: Addr :: t.Has(a) <==> exists k :: 0 <= k < |ips| && Denotes(lib, ips[k], a)
  }

  ghost predicate Selects(lib: Library, s: IPStrategy, strategy: Strategy<Trust>)
    requires lib.Lawful()
  {
    if s.depth > 0 then strategy == Depth(s.depth)
    else if s.excludedIPs != [] then strategy.Pool? && Holds(lib, strategy.checker, s.excludedIPs)
    else strategy == RemoteAddr
  }

  // IPStrategy.Get
  method GetStrategy(lib: Library, s: IPStrategy) returns (r: Result<Strategy<Checker>>)
    requires lib.Lawful()
    ensures r.Ok? <==> (s.depth <= 0 ==> AllReadable(lib, s.excludedIPs))
    ensures r.Ok? ==> Selects(lib, s, View(r.value)) && Sound(View(r.value))
  {
    if s.depth > 0 {
      return Ok(Depth(s.depth));
    }
    if |s.excludedIPs| > 0 {
      var checker := Checker.NewChecker(lib, s.excludedIPs);
      if checker.Err? {
        return Err;
      }
      return Ok(Pool(checker.value));
    }
    return Ok(RemoteAddr);
  }

  // GetSourceExtractor; an absent or empty criterion means the socket peer.
  method GetSourceExtractor(lib: Library, criterion: Option<SourceCriterion>) returns (r: Result<Matcher<Checker>>)
    requires lib.Lawful()
    ensures r.Ok? <==> (criterion.Some? ==> CriterionSound(lib, criterion.value))
    ensures r.Ok? ==>
      var c := criterion.GetOr(SourceCriterion(None, "", false));
      if c.requestHeaderName != "" then r.value == ByHeader(c.requestHeaderName)
      else if c.requestHost then r.value == ByHost
      else
        && r.value.ByStrategy? && Sound(View(r.value.strategy))
        && Selects(lib, c.ipStrategy.GetOr(IPStrategy(0, [])), View(r.value.strategy))
  {
    var c := criterion.GetOr(SourceCriterion(None, "", false));
    if c.ipStrategy.Some? && c.requestHeaderName != "" {
      return Err;
    }
    if c.ipStrategy.Some? && c.requestHost {
      return Err;
    }
    if c.requestHeaderName != "" && c.requestHost {
      return Err;
    }
    if c.requestHeaderName != "" {
      return Ok(ByHeader(c.requestHeaderName));
    }
    if c.requestHost {
      return Ok(ByHost);
    }
    var strategy := GetStrategy(lib, c.ipStrategy.GetOr(IPStrategy(0, [])));
    if strategy.Err? {
      return Err;
    }
    return Ok(ByStrategy(strategy.value));
  }

  function Default(value: int, default: int): int {
    if value < 1 then default else value
  }

  // How a policy answers for a configuration, its defaults filled in.
  ghost predicate Implements(p: Policy, c: Config)
    requires p.lib.Lawful()
  {
    && p.average == c.average && p.burst == c.burst
    && p.period == (if c.period >= 1 then c.period else 1)
    && p.retryAfter == (if c.breakerReattempt >= 1 then c.breakerReattempt else 15)
    && p.prefix == (if c.ipv6Subnet == 0 then DEFAULT_IPV6_SUBNET else c.ipv6Subnet)
    && (p.failureMode == FailOpen <==> c.failureMode == "open")
    && (p.whitelist.Some? <==> c.whitelistIPs != [])
    && (p.whitelist.Some? ==> Holds(p.lib, p.whitelist.value, c.whitelistIPs))
    && Chooses(p.lib, c, p.prefix, p.strategy, p.matcher)
  }

  // The derivation and the bucket a configuration asks for.
  ghost predicate Chooses(lib: Library, c: Config, prefix: nat, strategy: Strategy<Trust>, matcher: Matcher<Trust>)
    requires lib.Lawful()
  {
    && (c.trustedProxies != [] ==> strategy.TrustedProxy? && Holds(lib, strategy.checker, c.trustedProxies))
    && (c.HasIPStrategy() ==> Selects(lib, c.sourceCriterion.value.ipStrategy.value, strategy))
    && if c.ByRequest() then
         matcher == (if c.sourceCriterion.value.requestHost then ByHost else ByHeader(c.sourceCriterion.value.requestHeaderName))
       else if c.trustedProxies != [] then matcher == Aggregate(strategy, prefix)
       else
         && c.HasIPStrategy() && matcher.ByStrategy?
         && Selects(lib, c.sourceCriterion.value.ipStrategy.value, matcher.strategy)
  }

  // The same, field by field: a number below its least value gives way to its default, and
  // any other is taken as it is; a header or the host comes before an address as what a
  // bucket is chosen by, and trustedProxies before an ipStrategy.
  lemma ConfiguredInFields(p: Policy, c: Config)
    requires p.lib.Lawful() && p.Valid() && Acceptable(p.lib, c) && Implements(p, c)
    ensures p.average == c.average && p.burst == c.burst
    ensures (c.period >= 1 ==> p.period == c.period) && (c.period < 1 ==> p.period == 1)
    ensures (c.breakerReattempt >= 1 ==> p.retryAfter == c.breakerReattempt) && (c.breakerReattempt < 1 ==> p.retryAfter == 15)
    ensures (c.ipv6Subnet != 0 ==> p.prefix == c.ipv6Subnet) && (c.ipv6Subnet == 0 ==> p.prefix == 64)
    ensures 32 <= p.prefix <= 64
    ensures c.failureMode == "open" ==> p.failureMode == FailOpen
    ensures c.failureMode == "closed" || c.failureMode == "" ==> p.failureMode == FailClosed
    ensures match c.sourceCriterion
      case None => p.strategy.TrustedProxy? && p.matcher == Aggregate(p.strategy, p.prefix)
      case Some(SourceCriterion(ips, name, byHost)) =>
        && (byHost ==> p.matcher == ByHost)
        && (name != "" ==> p.matcher == ByHeader(name))
        && (!byHost && name == "" && ips.None? ==> p.matcher == Aggregate(p.strategy, p.prefix))
        && (ips.Some? ==> p.matcher.ByStrategy?)
        && (ips.Some? && ips.value.depth > 0 ==> p.strategy == p.matcher.strategy == Depth(ips.value.depth))
        && (ips.Some? && ips.value.depth <= 0 && ips.value.excludedIPs == [] ==> p.strategy == p.matcher.strategy == RemoteAddr)
        && (ips.Some? && ips.value.depth <= 0 && ips.value.excludedIPs != [] ==> p.strategy.Pool? && p.matcher.strategy.Pool?)
        && (ips.None? ==> p.strategy.TrustedProxy?)
  {
  }

  // The derivation, and the bucket that goes with it.
  method Derivation(lib: Library, config: Config, prefix: nat)
    returns (r: Result<Strategy<Checker>>, sourceMatcher: Matcher<Checker>)
    requires lib.Lawful()
    ensures r.Ok? <==>
      && (config.sourceCriterion.Some? ==> CriterionSound(lib, config.sourceCriterion.value))
      && AllReadable(lib, config.trustedProxies)
      && (config.trustedProxies != [] <==> !config.HasIPStrategy())
    ensures r.Ok? ==>
      && Chooses(lib, config, prefix, View(r.value), Chosen(sourceMatcher))
      && Sound(View(r.value))
      && (sourceMatcher.ByStrategy? ==> Sound(View(sourceMatcher.strategy)))
  {
    sourceMatcher := ByHost;
    if |config.trustedProxies| > 0 && config.HasIPStrategy() {
      return Err, sourceMatcher;
    }
    var matcher := GetSourceExtractor(lib, config.sourceCriterion);
    if matcher.Err? {
      return Err, sourceMatcher;
    }
    sourceMatcher := matcher.value;
    if |config.trustedProxies| > 0 {
      var checker := Checker.NewChecker(lib, config.trustedProxies);
      if checker.Err? {
        return Err, sourceMatcher;
      }
      r := Ok(TrustedProxy(checker.value));
      if !config.ByRequest() {
        sourceMatcher := Aggregate(r.value, prefix);
      }
    } else if config.HasIPStrategy() {
      r := GetStrategy(lib, config.sourceCriterion.value.ipStrategy.value);
    } else {
      r := Err;
    }
  }

  function Mode(text: string): (mode: Result<FailureMode>)
    ensures mode.Ok? <==> text in {"", "open", "closed"}
    ensures mode == Ok(FailOpen) <==> text == "open"
  {
    if text == "" || text == "closed" then Ok(FailClosed) else if text == "open" then Ok(FailOpen) else Err
  }

  // The whitelist, if there is one.
  method Whitelist(lib: Library, ips: seq<string>) returns (r: Result<Checker?>)
    requires lib.Lawful()
    ensures r.Ok? <==> AllReadable(lib, ips)
    ensures r.Ok? ==> (r.value == null <==> ips == [])
    ensures r.Ok? && r.value != null ==> Holds(lib, r.value.Trusted(), ips)
  {
    if |ips| == 0 {
      return Ok(null);
    }
    var checker := Checker.NewChecker(lib, ips);
    if checker.Err? {
      return Err;
    }
    return Ok(checker.value);
  }

  // The limiter that a configuration asks for.
  method LimiterFor(rdb: G.Redis, config: Config, name: string, now: int) returns (limiter: Limiter)
    ensures limiter.Valid() && limiter.rdb == rdb && limiter.redisPrefix == "rate_" + name
    ensures limiter.allowN.settings.threshold == (if config.breakerThreshold >= 1 then config.breakerThreshold else 3)
    ensures limiter.allowN.settings.reattempt == (if config.breakerReattempt >= 1 then config.breakerReattempt else 15)
    ensures limiter.allowN.created == now && limiter.allowN.calls == []
    ensures limiter.allowN.State() == Backend(rdb.db, B.State(0, now), false)
    ensures fresh(limiter) && fresh(limiter.allowN) && fresh(limiter.allowN.script)
    ensures fresh(limiter.allowAtMost) && fresh(limiter.allowAtMost.script)
  {
    limiter := new Limiter(rdb, name, B.Settings(Default(config.breakerThreshold, 3), Default(config.breakerReattempt, 15)), now);
  }

  // What a middleware does apart from it; none, if the configuration is not acceptable.
  method PolicyParts(lib: Library, config: Config)
    returns (ok: bool, ipStrategy: Strategy<Checker>, sourceMatcher: Matcher<Checker>, whitelistChecker: Checker?, mode: FailureMode, prefix: nat)
    requires lib.Lawful()
    ensures ok <==> Acceptable(lib, config)
    ensures ok ==>
      var p := Policy(lib, config.average, config.burst, Default(config.period, 1),
                      if whitelistChecker == null then None else Some(whitelistChecker.Trusted()),
                      View(ipStrategy), Chosen(sourceMatcher), mode, prefix, Default(config.breakerReattempt, 15));
      p.Valid() && Implements(p, config)
  {
    ok, ipStrategy, sourceMatcher, whitelistChecker, mode, prefix := false, RemoteAddr, ByHost, null, FailClosed, 0;
    var chosen := Mode(config.failureMode);
    if config.average < 0 || config.burst < 1 || chosen.Err? {
      return;
    }
    mode := chosen.value;
    if config.redisPassword != "" && config.redisPasswordFile != "" {
      return;
    }
    var ipv6Subnet := if config.ipv6Subnet == 0 then DEFAULT_IPV6_SUBNET else config.ipv6Subnet;
    if ipv6Subnet < MIN_IPV6_SUBNET || ipv6Subnet > MAX_IPV6_SUBNET {
      return;
    }
    prefix := ipv6Subnet;
    var whitelist := Whitelist(lib, config.whitelistIPs);
    if whitelist.Err? {
      return;
    }
    whitelistChecker := whitelist.value;
    var strategy, matcher := Derivation(lib, config, prefix);
    if strategy.Err? {
      return;
    }
    ok, ipStrategy, sourceMatcher := true, strategy.value, matcher;
  }

  // A middleware is built exactly from the acceptable configurations whose Redis client
  // can be built; then it is sound, does what the configuration says, and is made of
  // new objects around that client's store.
  method New(lib: Library, client: Result<G.Redis>, config: Config, name: string, now: int) returns (r: Result<ClusterRateLimit>)
    requires lib.Lawful()
    ensures r.Ok? <==> Acceptable(lib, config) && client.Ok?
    ensures r.Ok? ==>
      && r.value.Configured().lib == lib
      && r.value.Configured().Valid() && Implements(r.value.Configured(), config)
    ensures r.Ok? ==>
      var limiter := r.value.limiter;
      && limiter.Valid() && limiter.rdb == client.value && limiter.redisPrefix == "rate_" + name
      && limiter.allowN.settings.threshold == (if config.breakerThreshold >= 1 then config.breakerThreshold else 3)
      && limiter.allowN.settings.reattempt == (if config.breakerReattempt >= 1 then config.breakerReattempt else 15)
      && limiter.allowN.settings.reattempt == r.value.Configured().retryAfter
      && limiter.allowN.created == now && limiter.allowN.calls == []
      && limiter.allowN.State() == Backend(client.value.db, B.State(0, now), false)
      && fresh(r.value) && fresh(limiter)
      && fresh(limiter.allowN) && fresh(limiter.allowN.script)
      && fresh(limiter.allowAtMost) && fresh(limiter.allowAtMost.script)
  {
    var ok, ipStrategy, sourceMatcher, whitelistChecker, mode, prefix := PolicyParts(lib, config);
    if !ok || client.Err? {
      return Err;
    }
    var limiter := LimiterFor(client.value, config, name, now);
    var rl := new ClusterRateLimit(lib, limiter, config.average, config.burst, Default(config.period, 1), sourceMatcher,
                                   whitelistChecker, ipStrategy, mode, prefix, Default(config.breakerReattempt, 15));
    return Ok(rl);
  }
}
