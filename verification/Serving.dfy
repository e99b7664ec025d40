/** What the middleware guarantees to backends and to clients. */
module Serving {
  import opened Wrappers
  import opened Addresses
  import opened Walk
  import opened Hops
  import opened Strategies
  import opened Text
  import opened Subnets
  import opened Headers
  import opened Limiting
  import opened Scripts
  import opened Middleware
  import G = Gcra
  import B = Breaker
  import Replies

  // ------------------------------------------------ headers

  predicate Destroyed(key: string) {
    exists n :: 0 <= n < |DESTROYED| && key == Canonical(DESTROYED[n])
  }

  lemma {:induction false} CleanedExactly(h: Header, n: nat)
    requires n <= |DESTROYED|
    ensures forall key :: key in Cleaned(h, n) <==> key in h && forall i :: 0 <= i < n ==> key != Canonical(DESTROYED[i])
    ensures forall key :: key in Cleaned(h, n) ==> Cleaned(h, n)[key] == h[key]
  {
    if n > 0 {
      CleanedExactly(h, n - 1);
    }
  }

  // The address is derived from headers that are never destroyed nor published.
  lemma DerivationInputIsKept(h: Header)
    ensures Get(Cleaned(h, |DESTROYED|), X_FORWARDED_FOR) == Get(h, X_FORWARDED_FOR)
    ensures forall ip, subnet :: Get(SetIdentity(h, ip, subnet), X_FORWARDED_FOR) == Get(h, X_FORWARDED_FOR)
    ensures forall source :: Get(SetSource(h, source), X_FORWARDED_FOR) == Get(h, X_FORWARDED_FOR)
  {
    NamesDiffer();
    CleanedExactly(h, |DESTROYED|);
  }

  lemma DerivedAlike(lib: Library, s: Strategy<Checking.Trust>, m: Message, other: Message)
    requires Sound(s) && m.remoteAddr == other.remoteAddr
    requires Get(m.header, X_FORWARDED_FOR) == Get(other.header, X_FORWARDED_FOR)
    ensures Derive(lib, s, m) == Derive(lib, s, other)
    ensures Provenance(lib, s, m) == Provenance(lib, s, other)
  {
  }

  function Announcing(h: Header, ip: string, subnet: string, source: Option<string>): Header {
    if ip == "" then h else SetSource(SetIdentity(h, ip, subnet), source)
  }

  // However often the walk runs, it is the request as it arrived that it resolves.
  lemma OneDerivation(p: Policy, m: Message)
    requires p.Valid()
    ensures var ip, source := Derive(p.lib, p.strategy, m), Provenance(p.lib, p.strategy, m);
      var out := Outgoing(p, m);
      && Derive(p.lib, p.strategy, Clean(m)) == ip == Derive(p.lib, p.strategy, out)
      && out == m.(header := Announcing(Clean(m).header, ip, SubnetCIDR(p.lib, ip, p.prefix), source))
  {
    DerivationInputIsKept(m.header);
    DerivationInputIsKept(Clean(m).header);
    DerivedAlike(p.lib, p.strategy, m, Clean(m));
    var ip := Derive(p.lib, p.strategy, m);
    if ip != "" {
      var named := m.(header := SetIdentity(Clean(m).header, ip, SubnetCIDR(p.lib, ip, p.prefix)));
      DerivedAlike(p.lib, p.strategy, m, named);
      DerivationInputIsKept(named.header);
      DerivedAlike(p.lib, p.strategy, m, named.(header := SetSource(named.header, Provenance(p.lib, p.strategy, m))));
    }
  }

  lemma NamesDiffer()
    ensures !Destroyed(Canonical(X_FORWARDED_FOR))
    ensures Destroyed(Canonical(CLIENT_IP)) && Destroyed(Canonical(CLIENT_SUBNET)) && Destroyed(Canonical(CLIENT_IP_SOURCE))
    ensures |Canonical(CLIENT_IP)| == 21 && |Canonical(CLIENT_SUBNET)| == 25 && |Canonical(CLIENT_IP_SOURCE)| == 28
    ensures Destroyed(Canonical("Forwarded")) && Destroyed(Canonical("X-Real-IP"))
    ensures |Canonical("Forwarded")| == 9 && |Canonical("X-Real-IP")| == 9
    ensures |Canonical(X_FORWARDED_FOR)| == 15
  {
    assert DESTROYED[0] == "Forwarded" && DESTROYED[1] == "X-Real-IP";
    assert DESTROYED[2] == CLIENT_IP && DESTROYED[3] == CLIENT_IP_SOURCE && DESTROYED[4] == CLIENT_SUBNET;
  }

  // What goes out under one of the destroyed names, given what was derived.
  function Announced(ip: string, subnet: string, source: Option<string>, key: string): Option<string> {
    if ip == "" then None
    else if key == Canonical(CLIENT_IP) then Some(ip)
    else if key == Canonical(CLIENT_SUBNET) then Some(subnet)
    else if key == Canonical(CLIENT_IP_SOURCE) then source
    else None
  }

  ghost predicate Carries(out: Header, key: string, value: Option<string>) {
    match value
    case Some(v) => key in out && out[key] == [v]
    case None => key !in out
  }

  lemma AnnouncedOver(h: Header, ip: string, subnet: string, source: Option<string>, key: string)
    ensures var out := Announcing(h, ip, subnet, source);
      match Announced(ip, subnet, source, key)
      case Some(value) => Carries(out, key, Some(value))
      case None => (key in out <==> key in h) && (key in h ==> out[key] == h[key])
  {
    NamesDiffer();
  }

  lemma AnnouncingExactly(h: Header, ip: string, subnet: string, source: Option<string>)
    ensures var out := Announcing(Cleaned(h, |DESTROYED|), ip, subnet, source);
      && (forall key :: !Destroyed(key) ==> (key in out <==> key in h) && (key in h ==> out[key] == h[key]))
      && (forall key :: Destroyed(key) ==> Carries(out, key, Announced(ip, subnet, source, key)))
  {
    CleanedExactly(h, |DESTROYED|);
    forall key {
      AnnouncedOver(Cleaned(h, |DESTROYED|), ip, subnet, source, key);
    }
    NamesDiffer();
  }

  // The outgoing headers, name by name: what the client sent under a destroyed name
  // is gone, what stands there is derived from the socket peer and X-Forwarded-For,
  // and every other header is as it came.
  lemma HeadersExactly(p: Policy, m: Message)
    requires p.Valid()
    ensures var out := Outgoing(p, m).header;
      var ip, source := Derive(p.lib, p.strategy, m), Provenance(p.lib, p.strategy, m);
      && (forall key :: !Destroyed(key) ==> (key in out <==> key in m.header) && (key in m.header ==> out[key] == m.header[key]))
      && (forall key :: Destroyed(key) ==> Carries(out, key, Announced(ip, SubnetCIDR(p.lib, ip, p.prefix), source, key)))
  {
    var ip, source := Derive(p.lib, p.strategy, m), Provenance(p.lib, p.strategy, m);
    OneDerivation(p, m);
    AnnouncingExactly(m.header, ip, SubnetCIDR(p.lib, ip, p.prefix), source);
  }

  // Whatever a client sends under the destroyed names makes no difference at all.
  lemma ForgeriesDoNotMatter(p: Policy, m: Message, other: Message)
    requires p.Valid() && m.remoteAddr == other.remoteAddr && m.host == other.host
    requires forall key :: !Destroyed(key) ==> (key in m.header <==> key in other.header)
    requires forall key :: !Destroyed(key) && key in m.header ==> m.header[key] == other.header[key]
    ensures Outgoing(p, m) == Outgoing(p, other) && RouteOf(p, m) == RouteOf(p, other)
  {
    CleanedExactly(m.header, |DESTROYED|);
    CleanedExactly(other.header, |DESTROYED|);
    assert Cleaned(m.header, |DESTROYED|) == Cleaned(other.header, |DESTROYED|);
  }

  // ------------------------------------------------ buckets

  // With trustedProxies and no other criterion, address, provenance, subnet and
  // bucket all come from the one resolution of the request as it arrived, although
  // the walk runs three times and the headers change in between.
  lemma {:induction false} PublishedAgreesWithBucket(p: Policy, m: Message)
    requires p.Valid() && p.matcher.Aggregate? && RouteOf(p, m).Bucket?
    ensures var r := Resolved(p.lib, Some(p.strategy.checker), m.remoteAddr, Get(m.header, X_FORWARDED_FOR));
      var out, key := Outgoing(p, m).header, RouteOf(p, m).key;
      && key == Subnet(p.lib, r.addr, p.prefix)
      && (r.addr != "" ==>
            && Get(out, CLIENT_IP) == r.addr
            && Get(out, CLIENT_IP_SOURCE) == SourceText(r.source)
            && Get(out, CLIENT_SUBNET) == key + Suffix(p.lib, r.addr, p.prefix))
  {
    var r := Resolved(p.lib, Some(p.strategy.checker), m.remoteAddr, Get(m.header, X_FORWARDED_FOR));
    var ip, source := Derive(p.lib, p.strategy, m), Provenance(p.lib, p.strategy, m);
    assert ip == r.addr && source == Some(SourceText(r.source));
    OneDerivation(p, m);
    assert RouteOf(p, m).key == Subnet(p.lib, ip, p.prefix);
    PublishedSubnetIsKey(p.lib, ip, p.prefix);
    if ip != "" {
      AnnouncedNames(Clean(m).header, ip, SubnetCIDR(p.lib, ip, p.prefix), SourceText(r.source));
    }
  }

  lemma AnnouncedNames(h: Header, ip: string, subnet: string, source: string)
    requires ip != ""
    ensures var out := Announcing(h, ip, subnet, Some(source));
      Get(out, CLIENT_IP) == ip && Get(out, CLIENT_SUBNET) == subnet && Get(out, CLIENT_IP_SOURCE) == source
  {
    NamesDiffer();
  }

  // By name, and by exit: what a backend finds in the three headers with trustedProxies.
  lemma PublishedByName(p: Policy, m: Message)
    requires p.Valid() && p.strategy.TrustedProxy?
    ensures var r := Resolved(p.lib, Some(p.strategy.checker), m.remoteAddr, Get(m.header, "X-Forwarded-For"));
      var out := Outgoing(p, m).header;
      r.addr != "" ==>
        && Get(out, "Gateway-Connecting-IP") == r.addr
        && Get(out, "Gateway-Connecting-Subnet") == SubnetCIDR(p.lib, r.addr, p.prefix)
        && Get(out, "Gateway-Connecting-IP-Source") ==
             match r.source
             case Xff => "xff"
             case PeerUntrusted => "peer-untrusted"
             case PeerNoXff => "peer-no-xff"
             case PeerAllTrusted => "peer-all-trusted"
             case PeerMalformed => "peer-malformed"
  {
    var ip, source := Derive(p.lib, p.strategy, m), Provenance(p.lib, p.strategy, m);
    OneDerivation(p, m);
    if ip != "" {
      AnnouncedNames(Clean(m).header, ip, SubnetCIDR(p.lib, ip, p.prefix), source.value);
    }
  }

  // Two IPv6 addresses of one network, written so that net.ParseIP reads them (without a
  // zone), or one and the same text.
  ghost predicate SameClient(lib: Library, s: string, t: string, prefix: nat)
    requires prefix <= 128
  {
    || s == t
    || (lib.parseIP(s).Some? && lib.parseIP(t).Some?
        && !IsV4(lib.parseIP(s).value) && !IsV4(lib.parseIP(t).value)
        && SamePrefix(lib.parseIP(s).value, lib.parseIP(t).value, prefix))
  }

  // And two requests share a bucket exactly when those resolutions name one client.
  lemma {:induction false} BucketsExactly(p: Policy, m: Message, other: Message)
    requires p.Valid() && p.lib.Lawful() && p.matcher.Aggregate?
    requires RouteOf(p, m).Bucket? && RouteOf(p, other).Bucket?
    ensures RouteOf(p, m) == RouteOf(p, other) <==>
      SameClient(p.lib, Derive(p.lib, p.strategy, m), Derive(p.lib, p.strategy, other), p.prefix)
  {
    PublishedAgreesWithBucket(p, m);
    PublishedAgreesWithBucket(p, other);
    KeysExactly(p.lib, Derive(p.lib, p.strategy, m), Derive(p.lib, p.strategy, other), p.prefix);
  }

  lemma KeysExactly(lib: Library, s: string, t: string, prefix: nat)
    requires lib.Lawful() && prefix <= MAX_IPV6_SUBNET
    ensures Subnet(lib, s, prefix) == Subnet(lib, t, prefix) <==> SameClient(lib, s, t, prefix)
  {
    if lib.parseIP(s).None? || IsV4(lib.parseIP(s).value) {
      OthersAreNeverMerged(lib, s, t, prefix);
    } else if lib.parseIP(t).None? || IsV4(lib.parseIP(t).value) {
      OthersAreNeverMerged(lib, t, s, prefix);
    } else {
      BucketIsPrefix(lib, s, t, prefix);
    }
  }

  // Where clients are told apart by an address, the bucket is the aggregate exactly if
  // trustedProxies selects it, or the address as it stands is its own aggregate: under
  // sourceCriterion.ipStrategy the key is the address.
  lemma AggregatedExactly(p: Policy, m: Message)
    requires p.Valid() && RouteOf(p, m).Bucket?
    requires p.matcher.Aggregate? || p.matcher == ByStrategy(p.strategy)
    ensures var ip := Derive(p.lib, p.strategy, m);
      RouteOf(p, m).key == Subnet(p.lib, ip, p.prefix) <==>
        || p.matcher.Aggregate?
        || (match p.lib.parseIP(ip) case None => true case Some(a) => IsV4(a) || p.lib.format(Masked(a, p.prefix)) == ip)
  {
    if p.matcher.Aggregate? {
      PublishedAgreesWithBucket(p, m);
    } else {
      OtherBucketsExactly(p, m);
    }
  }

  // The other criteria bucket by what the request itself said -- except that a header
  // among the destroyed ones stands for what the middleware put there.
  lemma OtherBucketsExactly(p: Policy, m: Message)
    requires p.Valid() && !p.matcher.Aggregate? && RouteOf(p, m).Bucket?
    ensures var key := RouteOf(p, m).key;
      var ip, source := Derive(p.lib, p.strategy, m), Provenance(p.lib, p.strategy, m);
      match p.matcher
      case ByStrategy(s) => key == Derive(p.lib, s, m)
      case ByHost => key == m.host
      case ByHeader(name) =>
        key == if Destroyed(Canonical(name))
               then Announced(ip, SubnetCIDR(p.lib, ip, p.prefix), source, Canonical(name)).GetOr("")
               else Get(m.header, name)
      case Aggregate(_, _) => true
  {
    OneDerivation(p, m);
    match p.matcher {
      case ByStrategy(s) =>
        DerivationInputIsKept(m.header);
        HeadersExactly(p, m);
        NamesDiffer();
        DerivedAlike(p.lib, s, m, Outgoing(p, m));
      case ByHeader(name) => HeadersExactly(p, m);
      case _ =>
    }
  }

  // A request is exempt exactly if the route is unlimited or the whitelist holds the
  // full address it resolved to -- not the network that a bucket would stand for.
  lemma BypassExactly(p: Policy, m: Message)
    requires p.Valid()
    ensures var ip := Derive(p.lib, p.strategy, m);
      RouteOf(p, m).Bypass? <==>
        || p.average == 0
        || (p.whitelist.Some? && ip != "" && p.lib.parseAddr(ip).Some? && p.whitelist.value.Has(p.lib.parseAddr(ip).value))
  {
    OneDerivation(p, m);
  }

  // ------------------------------------------------ one hop further in

  // The lines of X-Forwarded-For that a request carries.
  function Lines(h: Header): seq<string> {
    if Canonical(X_FORWARDED_FOR) in h then h[Canonical(X_FORWARDED_FOR)] else []
  }

  lemma FirstLineIsRead(h: Header)
    ensures Get(h, X_FORWARDED_FOR) == FirstLine(Lines(h))
  {
  }

  // The other lines are not read: whatever they say, address, provenance and bucket are
  // the same. (A header that a bucket is chosen by is read in the same way.)
  lemma {:induction false} OnlyTheFirstLineCounts(p: Policy, m: Message, other: Message, lines: seq<string>)
    requires p.Valid() && FirstLine(lines) == FirstLine(Lines(m.header))
    requires other == m.(header := m.header[Canonical(X_FORWARDED_FOR) := lines])
    ensures Derive(p.lib, p.strategy, other) == Derive(p.lib, p.strategy, m)
    ensures Provenance(p.lib, p.strategy, other) == Provenance(p.lib, p.strategy, m)
    ensures RouteOf(p, other) == RouteOf(p, m)
  {
    DerivedAlike(p.lib, p.strategy, m, other);
    BypassExactly(p, m);
    BypassExactly(p, other);
    if RouteOf(p, m).Bucket? {
      if p.matcher.Aggregate? {
        SameAggregate(p, m, other);
      } else {
        SameOtherBucket(p, m, other);
      }
    }
  }

  lemma SameAggregate(p: Policy, m: Message, other: Message)
    requires p.Valid() && p.matcher.Aggregate? && RouteOf(p, m).Bucket? && RouteOf(p, other).Bucket?
    requires Derive(p.lib, p.strategy, other) == Derive(p.lib, p.strategy, m)
    ensures RouteOf(p, other) == RouteOf(p, m)
  {
    PublishedAgreesWithBucket(p, m);
    PublishedAgreesWithBucket(p, other);
  }

  lemma SameOtherBucket(p: Policy, m: Message, other: Message)
    requires p.Valid() && !p.matcher.Aggregate? && RouteOf(p, m).Bucket? && RouteOf(p, other).Bucket?
    requires m.remoteAddr == other.remoteAddr && m.host == other.host
    requires forall name :: Get(other.header, name) == Get(m.header, name)
    ensures RouteOf(p, other) == RouteOf(p, m)
  {
    OtherBucketsExactly(p, m);
    OtherBucketsExactly(p, other);
    DerivedAlike(p.lib, p.strategy, m, other);
    if p.matcher.ByStrategy? {
      DerivedAlike(p.lib, p.matcher.strategy, m, other);
    }
  }

  // The walk is documented to be right at the edge and one hop further in alike. For a
  // request that this gateway has sent on, and that reaches another one through a proxy
  // of ours, this says exactly when the two find the same address.
  lemma {:induction false} FurtherInExactly(p: Policy, m: Message, further: Message, pad: string)
    requires p.Valid() && p.lib.Lawful() && p.strategy.TrustedProxy?
    requires Blank(pad) && AddressText(PeerHost(m.remoteAddr))
    requires p.strategy.checker.Contains(p.lib, PeerHost(further.remoteAddr)) == Ok(true)
    requires Lines(further.header) == [PassedOn(Lines(Outgoing(p, m).header), pad, PeerHost(m.remoteAddr))]
    ensures var host, lines := PeerHost(m.remoteAddr), Lines(m.header);
      var here := Resolved(p.lib, Some(p.strategy.checker), m.remoteAddr, FirstLine(lines));
      var others := Steps(p.lib, p.strategy.checker, EntriesOf(if lines == [] then [] else lines[1..]));
      && Derive(p.lib, p.strategy, m) == here.addr
      && (Derive(p.lib, p.strategy, further) == Derive(p.lib, p.strategy, m) <==>
            FoundFurtherIn(here, host, PeerHost(further.remoteAddr), p.lib.parseIP(host).Some?, |EntriesOf(lines)|, Stop(others)))
  {
    LinesGoOn(p, m);
    FirstLineIsRead(m.header);
    FirstLineIsRead(further.header);
    OneHopFurtherIn(p.lib, p.strategy.checker, m.remoteAddr, Lines(m.header), pad, further.remoteAddr);
  }

  lemma LinesGoOn(p: Policy, m: Message)
    requires p.Valid()
    ensures Lines(Outgoing(p, m).header) == Lines(m.header)
  {
    HeadersExactly(p, m);
    NamesDiffer();
  }

  // ------------------------------------------------ nothing derived

  lemma NoneWalked(lib: Library, t: Checking.Trust, m: Message)
    requires t.Valid() && lib.Lawful()
    ensures Derive(lib, TrustedProxy(t), m) == "" <==> PeerHost(m.remoteAddr) == ""
  {
    EmptyExactly(lib, Some(t), m.remoteAddr, Get(m.header, X_FORWARDED_FOR));
  }

  lemma NoneAtDepth(lib: Library, d: int, m: Message)
    requires d >= 1
    ensures var entries := Split(FirstLine(Lines(m.header)));
      Derive(lib, Depth(d), m) == "" <==> |entries| < d || Blank(entries[|entries| - d])
  {
    FirstLineIsRead(m.header);
    DepthEmptyExactly(FirstLine(Lines(m.header)), d);
  }

  lemma NoneOutsidePool(lib: Library, t: Checking.Trust, m: Message)
    requires t.Valid()
    ensures var entries := Split(FirstLine(Lines(m.header)));
      Derive(lib, Pool(t), m) == "" <==> AllPooled(lib, t, entries)
  {
    FirstLineIsRead(m.header);
    PoolEmptyExactly(lib, t, Split(FirstLine(Lines(m.header))));
  }

  // The condition, strategy by strategy, on the peer and the entries of the first line.
  ghost predicate NoneFor(lib: Library, s: Strategy<Checking.Trust>, peer: string, entries: seq<string>)
    requires Sound(s)
  {
    match s
    case TrustedProxy(_) => peer == ""
    case RemoteAddr => peer == ""
    case Depth(d) => |entries| < d || Blank(entries[|entries| - d])
    case Pool(t) => AllPooled(lib, t, entries)
  }

  lemma NoneDerivedExactly(lib: Library, s: Strategy<Checking.Trust>, m: Message)
    requires Sound(s) && lib.Lawful()
    ensures Derive(lib, s, m) == "" <==> NoneFor(lib, s, PeerHost(m.remoteAddr), Split(FirstLine(Lines(m.header))))
  {
    match s {
      case TrustedProxy(t) => NoneWalked(lib, t, m);
      case RemoteAddr =>
      case Depth(d) => NoneAtDepth(lib, d, m);
      case Pool(t) => NoneOutsidePool(lib, t, m);
    }
  }

  // Nothing at all is published exactly when there is no address to publish.
  lemma NothingPublishedExactly(p: Policy, m: Message)
    requires p.Valid()
    ensures Derive(p.lib, p.strategy, m) == "" <==> Outgoing(p, m) == Clean(m)
  {
    OneDerivation(p, m);
    CleanedExactly(m.header, |DESTROYED|);
    NamesDiffer();
    var ip := Derive(p.lib, p.strategy, m);
    if ip != "" {
      AnnouncedOver(Clean(m).header, ip, SubnetCIDR(p.lib, ip, p.prefix), Provenance(p.lib, p.strategy, m), Canonical(CLIENT_IP));
      assert Canonical(CLIENT_IP) !in Clean(m).header;
    }
  }

  // ------------------------------------------------ answers

  // A counted request goes through exactly when the store is seen to grant it or, in
  // the open mode, is not heard from; 503 means not heard from, 429 means denied, and
  // whoever waits as long as a 429 says is granted, if nobody else is before.
  lemma AnswersExactly(p: Policy, redisPrefix: string, settings: B.Settings, s: Backend, bucket: string, start: int, link: Link, end: int)
    requires p.Valid() && p.average > 0
    ensures var (resp, after) := Served(p, redisPrefix, settings, s, Bucket(bucket), start, link, end);
      var key := redisPrefix + bucket;
      && (resp == Forwarded <==>
            if Heard(s, start, link) then
              G.VerdictOn(p.Limit(), G.Expire(s.db, key, link.fate.time), key, link.fate.time, G.AllowN(1)).Granted?
            else p.failureMode == FailOpen)
      && (resp.Refused? ==> resp.status in {429, 503} && (resp.status == 503 <==> !Heard(s, start, link)))
      && (resp.Refused? && !Heard(s, start, link) ==> resp.retryAfter == p.retryAfter)
      && (resp.Refused? && Heard(s, start, link) ==>
            && after.db == G.Expire(s.db, key, link.fate.time)
            && forall later: real :: later >= link.fate.time + resp.retryAfter as real ==>
                 G.Decide(G.Room(p.Limit(), G.Lookup(after.db, key), later), G.AllowN(1)).Granted?)
  {
    var l, key := p.Limit(), redisPrefix + bucket;
    if Heard(s, start, link) {
      var now := link.fate.time;
      var slot := G.Lookup(G.Expire(s.db, key, now), key);
      SentinelSurvives(l, slot, now, G.AllowN(1));
      var v := G.Decide(G.Room(l, slot, now), G.AllowN(1));
      if v.Denied? {
        forall later: real | later >= now + (Seconds(ToOutcome(l, G.ToReply(l, v)).retryAfter) + 1) as real
          ensures G.Decide(G.Room(l, slot, later), G.AllowN(1)).Granted?
        {
          AdvertisedWaitIsEnough(l, slot, now, later);
        }
      }
    }
  }

  // The seconds of a 429 are no more than one too many: at any time earlier than that by
  // more than a second the same request would still be denied.
  lemma WaitingOutA429(p: Policy, redisPrefix: string, settings: B.Settings, s: Backend, bucket: string,
                       start: int, link: Link, end: int, later: real)
    requires p.Valid() && p.average > 0
    requires var resp := Served(p, redisPrefix, settings, s, Bucket(bucket), start, link, end).0;
      resp.Refused? && resp.status == 429
    ensures var (resp, after) := Served(p, redisPrefix, settings, s, Bucket(bucket), start, link, end);
      var slot, now := G.Lookup(after.db, redisPrefix + bucket), link.fate.time;
      && (later >= now + resp.retryAfter as real ==> G.Decide(G.Room(p.Limit(), slot, later), G.AllowN(1)).Granted?)
      && (now <= later < now + resp.retryAfter as real - 1.0 ==> G.Decide(G.Room(p.Limit(), slot, later), G.AllowN(1)).Denied?)
  {
    var l, key, now := p.Limit(), redisPrefix + bucket, link.fate.time;
    AnswersExactly(p, redisPrefix, settings, s, bucket, start, link, end);
    WithinASecond(l, G.Lookup(G.Expire(s.db, key, now), key), now, later);
  }

  lemma WithinASecond(l: G.Limit, slot: G.Slot, now: real, later: real)
    requires l.Valid() && G.Decide(G.Room(l, slot, now), G.AllowN(1)).Denied?
    ensures var v := G.Decide(G.Room(l, slot, now), G.AllowN(1));
      var wait := (Seconds(ToOutcome(l, G.ToReply(l, v)).retryAfter) + 1) as real;
      now <= later < now + wait - 1.0 ==> G.Decide(G.Room(l, slot, later), G.AllowN(1)).Denied?
  {
    AdvertisedWaitIsEnough(l, slot, now, later);
    if now <= later {
      Replies.RetryAfterIsExact(l, slot, now, 1, later);
    }
  }

  // In the closed mode, field by field: a counted request is answered 503 exactly if the
  // breaker is open, no connection is had, a script not loaded before cannot be loaded,
  // or no reply comes back. A first request that finds a healthy store is none of these.
  lemma UnavailableExactly(p: Policy, redisPrefix: string, settings: B.Settings, s: Backend, bucket: string, start: int, link: Link, end: int)
    requires p.Valid() && p.average > 0 && p.failureMode == FailClosed
    ensures var resp := Served(p, redisPrefix, settings, s, Bucket(bucket), start, link, end).0;
      (resp.Refused? && resp.status == 503) <==>
        || B.Open(s.breaker, start)
        || !link.connected
        || (!s.loaded && !link.loads)
        || !link.fate.Answered?
  {
    AnswersExactly(p, redisPrefix, settings, s, bucket, start, link, end);
  }

  // And what it leaves in the store: nothing changes unless the script runs, which a lost
  // reply does not undo; then its own key alone may be written, which it is exactly on a
  // grant, to the tat one interval later.
  lemma StoreChangesExactly(p: Policy, redisPrefix: string, settings: B.Settings, s: Backend, bucket: string, start: int, link: Link, end: int)
    requires p.Valid() && p.average > 0
    ensures var after := Served(p, redisPrefix, settings, s, Bucket(bucket), start, link, end).1;
      var key, l := redisPrefix + bucket, p.Limit();
      var runs := !B.Open(s.breaker, start) && link.connected && (s.loaded || link.loads) && !link.fate.NotRun?;
      && (!runs ==> after.db == s.db)
      && (forall other :: other != key ==> (other in after.db <==> other in s.db) && (other in s.db ==> after.db[other] == s.db[other]))
      && (runs ==>
            var now, slot := link.fate.time, G.Lookup(G.Expire(s.db, key, link.fate.time), key);
            if 1.0 <= G.Room(l, slot, now) then
              key in after.db && after.db[key].tat == G.Effective(slot, now) + p.period as real / p.average as real
            else after.db == G.Expire(s.db, key, now))
      && (after.loaded <==> s.loaded || (!B.Open(s.breaker, start) && link.connected && link.loads))
  {
    var key, l := redisPrefix + bucket, p.Limit();
    if Executes(s.loaded, link) {
      var now, slot := link.fate.time, G.Lookup(G.Expire(s.db, key, link.fate.time), key);
      OneIntervalLater(l, slot, now);
    }
  }

  lemma OneIntervalLater(l: G.Limit, slot: G.Slot, now: real)
    requires l.Valid()
    ensures var v := G.Decide(G.Room(l, slot, now), G.AllowN(1));
      v.Granted? ==>
        G.ResetAfter(l, v) > 0.0 && now + G.ResetAfter(l, v) == G.Effective(slot, now) + l.period / l.rate as real
  {
    var v := G.Decide(G.Room(l, slot, now), G.AllowN(1));
    G.RoomArithmetic(l.Interval(), l.burst as real, now, G.Effective(slot, now), 1.0);
    if v.Granted? {
      assert 1 as real == 1.0;
      assert v.left == G.Room(l, slot, now) - 1.0;
    }
  }

  // The seconds a 503 advertises are those that the breaker rests: if nobody else calls,
  // whoever waits them, and any moment more, gets through to the store.
  lemma WaitingOutA503(p: Policy, redisPrefix: string, settings: B.Settings, s: Backend, bucket: string,
                       created: int, calls: seq<B.Call>, start: int, link: Link, end: int, later: int)
    requires p.Valid() && p.average > 0 && p.failureMode == FailClosed && p.retryAfter == settings.reattempt
    requires B.Timely(created, calls) && s.breaker == B.StateAfter(settings, created, calls)
    requires created < start <= end && forall i :: 0 <= i < |calls| ==> calls[i].end <= start
    requires settings.reattempt >= 1 && !Heard(s, start, link)
    ensures var (resp, after) := Served(p, redisPrefix, settings, s, Bucket(bucket), start, link, end);
      && resp == Refused(503, p.retryAfter)
      && (later > end + resp.retryAfter * 1_000_000_000 ==> !B.Open(after.breaker, later))
  {
    AnswersExactly(p, redisPrefix, settings, s, bucket, start, link, end);
    var c := B.Call(start, true, end);
    B.OneMoreCall(settings, created, calls, c);
    if later > end + p.retryAfter * 1_000_000_000 {
      B.GateInNanoseconds(settings, created, calls + [c], later);
      B.ReachedAreCalls(settings, created, calls + [c]);
    }
  }
}
