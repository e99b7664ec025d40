/** Inputs at which the code does something else than its documentation says. Exactly
    when it does is stated by the lemmas named beside them. */
module Divergences {
  import opened Wrappers
  import opened Text
  import opened Addresses
  import opened Checking
  import opened Walk
  import opened Hops
  import opened Subnets
  import opened Headers
  import opened Middleware
  import opened LawfulLibrary
  import opened Replying
  import opened ReplyRoundTrip
  import S = Serving
  import C = Configuring
  import P = Resp
  import L = Limiting
  import B = Breaker
  import Runs
  import Decimals
  import G = Gcra
  import R = Replies

  // ------------------------------------------------ a few addresses

  function Mapped(a: Byte, b: Byte, c: Byte, d: Byte): (addr: Addr)
    ensures IsV4(addr)
  {
    [0, 0, 0, 0, 0, 0, 0, 0, 0, 0, 0xff, 0xff, a, b, c, d]
  }

  function LinkLocal(n: Byte): (addr: Addr)
    ensures !IsV4(addr)
  {
    [0xfe, 0x80, 0, 0, 0, 0, 0, 0, 0, 0, 0, 0, 0, 0, 0, n]
  }

  const CLIENT := "1.2.3.4"
  const CLIENT_MAPPED := "::ffff:1.2.3.4"
  const FORGED := "5.6.7.8"
  const PROXY := "10.0.0.1"
  const NEXT_PROXY := "10.0.0.2"

  predicate Dotted(s: string) {
    s != "" && forall i :: 0 <= i < |s| ==> s[i] == '.' || '0' <= s[i] <= '9'
  }

  lemma DottedIsText(s: string)
    requires Dotted(s)
    ensures AddressText(s) && NoMarks(s)
  {
  }

  lemma MappedIsText()
    ensures AddressText(CLIENT_MAPPED)
  {
    var s := CLIENT_MAPPED;
    assert s[0] == ':' && s[1] == ':';
    assert s == "::ffff:" + CLIENT;
    assert forall i :: 7 <= i < |s| ==> s[i] == CLIENT[i - 7];
  }

  // A library that reads two texts as one address, and a third as another.
  lemma LibraryOf(s: string, t: string, a: Addr, u: string, b: Addr) returns (lib: Library)
    requires AddressText(s) && AddressText(t) && AddressText(u) && |s| < 18 && |t| < 18 && |u| < 18 && u !in {s, t}
    ensures lib.Lawful() && lib.parseIP(s) == lib.parseIP(t) == Some(a) && lib.parseIP(u) == Some(b)
  {
    lib := LawfulLibrariesExist(map[s := a, t := a, u := b], map[], map[]);
  }

  lemma SomeLibrary() returns (lib: Library)
    ensures lib.Lawful()
    ensures lib.parseIP(CLIENT) == lib.parseIP(CLIENT_MAPPED) == Some(Mapped(1, 2, 3, 4))
    ensures lib.parseIP(PROXY) == Some(Mapped(10, 0, 0, 1)) && Mapped(10, 0, 0, 1) != Mapped(1, 2, 3, 4)
  {
    DottedIsText(CLIENT);
    DottedIsText(PROXY);
    MappedIsText();
    assert PROXY[1] != CLIENT[1];
    assert Mapped(1, 2, 3, 4)[12] != Mapped(10, 0, 0, 1)[12];
    lib := LibraryOf(CLIENT, CLIENT_MAPPED, Mapped(1, 2, 3, 4), PROXY, Mapped(10, 0, 0, 1));
  }

  lemma PeerOf(host: string, port: string)
    requires NoMarks(host) && NoMarks(port)
    ensures PeerHost(host + ":" + port) == host
  {
    SplitPlain(host, port);
  }

  // ------------------------------------------------ the walk

  // Resolve is not the floor it is documented to be if the peer has no host
  // (Walk.EmptyExactly).
  lemma PeerWithoutHost(lib: Library, trust: Option<Trust>, raw: string)
    requires lib.Lawful() && (trust.Some? ==> trust.value.Valid())
    ensures PeerHost(":80") == "" && Resolved(lib, trust, ":80", raw).addr == ""
  {
    SplitPlain("", "80");
    assert "" + ":" + "80" == ":80";
    EmptyExactly(lib, trust, ":80", raw);
  }

  // A client that sends a line of its own, behind a proxy that adds another line instead
  // of extending it, is taken for what its line says; one hop further in, where the lines
  // are folded, it is found (Hops.OneHopFurtherIn, Serving.OnlyTheFirstLineCounts).
  lemma TwoLinesTwoClients() returns (lib: Library, t: Trust)
    ensures lib.Lawful() && t.Valid()
    ensures Resolved(lib, Some(t), PROXY + ":" + "52000", FirstLine([FORGED, CLIENT])) == Resolution(FORGED, Xff)
    ensures Resolved(lib, Some(t), NEXT_PROXY + ":" + "52000", PassedOn([FORGED, CLIENT], " ", PROXY)) == Resolution(CLIENT, Xff)
  {
    DottedIsText(CLIENT);
    DottedIsText(FORGED);
    DottedIsText(PROXY);
    DottedIsText(NEXT_PROXY);
    assert FORGED[0] != CLIENT[0];
    assert PROXY[7] != NEXT_PROXY[7];
    AddressesDiffer();
    lib := FourTexts(FORGED, Mapped(5, 6, 7, 8), CLIENT, Mapped(1, 2, 3, 4), PROXY, Mapped(10, 0, 0, 1), NEXT_PROXY, Mapped(10, 0, 0, 2));
    t := Trust([Mapped(10, 0, 0, 1), Mapped(10, 0, 0, 2)], []);
    TwoLines(lib, t, FORGED, CLIENT, PROXY, NEXT_PROXY, "52000");
  }

  lemma AddressesDiffer()
    ensures Mapped(5, 6, 7, 8) !in [Mapped(10, 0, 0, 1), Mapped(10, 0, 0, 2)]
    ensures Mapped(1, 2, 3, 4) !in [Mapped(10, 0, 0, 1), Mapped(10, 0, 0, 2)]
  {
    assert Mapped(5, 6, 7, 8)[12] == 5 && Mapped(1, 2, 3, 4)[12] == 1;
    assert Mapped(10, 0, 0, 1)[12] == 10 && Mapped(10, 0, 0, 2)[12] == 10;
  }

  lemma FourTexts(s: string, a: Addr, t: string, b: Addr, u: string, c: Addr, v: string, d: Addr) returns (lib: Library)
    requires AddressText(s) && AddressText(t) && AddressText(u) && AddressText(v)
    requires |s| == |t| < |u| == |v| < 18 && s != t && u != v
    ensures lib.Lawful() && lib.parseIP(s) == Some(a) && lib.parseIP(t) == Some(b)
    ensures lib.parseIP(u) == Some(c) && lib.parseIP(v) == Some(d)
  {
    lib := LawfulLibrariesExist(map[s := a, t := b, u := c, v := d], map[], map[]);
  }

  lemma TwoLines(lib: Library, t: Trust, forged: string, client: string, proxy: string, next: string, port: string)
    requires lib.Lawful() && t.Valid() && NoMarks(proxy) && NoMarks(next) && NoMarks(port)
    requires lib.parseIP(forged).Some? && t.Contains(lib, forged) == Ok(false)
    requires lib.parseIP(client).Some? && t.Contains(lib, client) == Ok(false)
    requires lib.parseIP(proxy).Some? && t.Contains(lib, proxy) == Ok(true) && t.Contains(lib, next) == Ok(true)
    ensures Resolved(lib, Some(t), proxy + ":" + port, FirstLine([forged, client])) == Resolution(forged, Xff)
    ensures Resolved(lib, Some(t), next + ":" + port, PassedOn([forged, client], " ", proxy)) == Resolution(client, Xff)
  {
    PeerOf(proxy, port);
    PeerOf(next, port);
    HostSteps(lib, t, forged);
    HostSteps(lib, t, client);
    ResolvedInTheHeader(lib, t, proxy + ":" + port, forged, [Take(forged)]);
    WalkIsStop(proxy, [Take(forged)]);
    TwoEntries(forged, client);
    StepsOfBoth(lib, t, [forged], [client]);
    assert [forged] + [client] == [forged, client] && [Take(forged)] + [Take(client)] == [Take(forged), Take(client)];
    PassedOnSteps(lib, t, [forged, client], " ", proxy);
    var steps := [Take(forged), Take(client)] + [Skip];
    ResolvedInTheHeader(lib, t, next + ":" + port, PassedOn([forged, client], " ", proxy), steps);
    WalkIsStop(next, steps);
    assert steps[..2] == [Take(forged), Take(client)];
  }

  lemma TwoEntries(a: string, b: string)
    requires Split(a) == [a] && Split(b) == [b]
    ensures EntriesOf([a, b]) == [a, b]
  {
    assert [a, b][..1] == [a] && [a][..0] == [] && EntriesOf([]) + [a] == [a];
    assert EntriesOf([a]) == [a];
    assert [a] + [b] == [a, b];
  }

  // A chain of 32 entries from an untrusted client is the client's own address at the
  // edge, and the proxy's one hop further in (Hops.OneHopFurtherIn).
  lemma LongChainIsTheProxys() returns (lib: Library, t: Trust, raw: string)
    ensures lib.Lawful() && t.Valid()
    ensures |Split(raw)| == MAX_XFF_ENTRIES
    ensures Resolved(lib, Some(t), CLIENT + ":" + "52000", raw) == Resolution(CLIENT, PeerUntrusted)
    ensures Resolved(lib, Some(t), PROXY + ":" + "52000", PassedOn([raw], " ", CLIENT)) == Resolution(PROXY, PeerMalformed)
  {
    lib := SomeLibrary();
    DottedIsText(CLIENT);
    DottedIsText(PROXY);
    t, raw := LongChainOf(lib, CLIENT, PROXY, "52000");
  }

  lemma LongChainOf(lib: Library, client: string, proxy: string, port: string) returns (t: Trust, raw: string)
    requires lib.Lawful() && lib.parseIP(client).Some? && lib.parseIP(proxy).Some? && lib.parseIP(client) != lib.parseIP(proxy)
    requires AddressText(client) && NoMarks(client) && NoMarks(proxy) && NoMarks(port)
    ensures t.Valid() && |Split(raw)| == MAX_XFF_ENTRIES
    ensures Resolved(lib, Some(t), client + ":" + port, raw) == Resolution(client, PeerUntrusted)
    ensures Resolved(lib, Some(t), proxy + ":" + port, PassedOn([raw], " ", client)) == Resolution(proxy, PeerMalformed)
  {
    t := OnlyTrusting(lib, proxy, client);
    raw := ChainOf(client, MAX_XFF_ENTRIES);
    PeerOf(client, port);
    PeerOf(proxy, port);
    LongChain(lib, t, client + ":" + port, proxy + ":" + port, raw);
  }

  lemma OnlyTrusting(lib: Library, ours: string, other: string) returns (t: Trust)
    requires lib.Lawful() && lib.parseIP(ours).Some? && lib.parseIP(other).Some? && lib.parseIP(ours) != lib.parseIP(other)
    ensures t.Valid() && t.Contains(lib, ours) == Ok(true) && t.Contains(lib, other) == Ok(false)
  {
    t := Trust([lib.parseIP(ours).value], []);
  }

  lemma ChainOf(entry: string, n: nat) returns (raw: string)
    requires ',' !in entry && n > 0
    ensures |Split(raw)| == n
  {
    raw := Join(seq(n, i => entry));
    SplitJoin(seq(n, i => entry));
  }

  lemma LongChain(lib: Library, t: Trust, clientAddr: string, proxyAddr: string, raw: string)
    requires lib.Lawful() && t.Valid() && AddressText(PeerHost(clientAddr)) && |Split(raw)| == MAX_XFF_ENTRIES
    requires t.Contains(lib, PeerHost(clientAddr)) != Ok(true) && t.Contains(lib, PeerHost(proxyAddr)) == Ok(true)
    ensures Resolved(lib, Some(t), clientAddr, raw) == Resolution(PeerHost(clientAddr), PeerUntrusted)
    ensures Resolved(lib, Some(t), proxyAddr, PassedOn([raw], " ", PeerHost(clientAddr)))
         == Resolution(PeerHost(proxyAddr), PeerMalformed)
  {
    var further := PassedOn([raw], " ", PeerHost(clientAddr));
    EntriesOfFirst([raw]);
    assert [raw][1..] == [];
    PassedOnSteps(lib, t, [raw], " ", PeerHost(clientAddr));
    ResolvedInTheHeader(lib, t, proxyAddr, further, Steps(lib, t, Split(further)));
  }

  // ------------------------------------------------ buckets

  // One IPv4 address, two buckets -- though the sets of addresses take the two texts
  // for one (Subnets.SpellingsExactly).
  lemma TwoSpellingsTwoBuckets() returns (lib: Library)
    ensures lib.Lawful()
    ensures Subnet(lib, CLIENT, DEFAULT_IPV6_SUBNET) != Subnet(lib, CLIENT_MAPPED, DEFAULT_IPV6_SUBNET)
    ensures forall t: Trust :: t.Valid() ==> t.Contains(lib, CLIENT) == t.Contains(lib, CLIENT_MAPPED)
  {
    lib := SomeLibrary();
    assert |CLIENT| != |CLIENT_MAPPED|;
    SpellingsExactly(lib, CLIENT, CLIENT_MAPPED, DEFAULT_IPV6_SUBNET);
  }

  lemma Neighbours(a: Byte, b: Byte)
    ensures SamePrefix(LinkLocal(a), LinkLocal(b), DEFAULT_IPV6_SUBNET)
  {
    forall i | 0 <= i < DEFAULT_IPV6_SUBNET
      ensures Bit(LinkLocal(a), i) == Bit(LinkLocal(b), i)
    {
      assert LinkLocal(a)[i / 8] == LinkLocal(b)[i / 8];
    }
  }

  const ZONED := "fe80::1%eth0"
  const ZONED_NEIGHBOUR := "fe80::2%eth0"

  // Two peers of one /64 whose addresses carry a zone: each resolves to its own text,
  // which no aggregation reads, and has a bucket of its own (Subnets.SpellingsExactly).
  lemma ZonedNeighboursAreApart() returns (lib: Library)
    ensures lib.Lawful()
    ensures lib.parseAddr(ZONED) == Some(LinkLocal(1)) && lib.parseAddr(ZONED_NEIGHBOUR) == Some(LinkLocal(2))
    ensures SamePrefix(LinkLocal(1), LinkLocal(2), DEFAULT_IPV6_SUBNET)
    ensures Resolved(lib, None, "[" + ZONED + "]:443", "") == Resolution(ZONED, PeerUntrusted)
    ensures Resolved(lib, None, "[" + ZONED_NEIGHBOUR + "]:443", "") == Resolution(ZONED_NEIGHBOUR, PeerUntrusted)
    ensures Subnet(lib, ZONED, DEFAULT_IPV6_SUBNET) != Subnet(lib, ZONED_NEIGHBOUR, DEFAULT_IPV6_SUBNET)
  {
    assert ZONED[6] == '1' && ZONED_NEIGHBOUR[6] == '2';
    Neighbours(1, 2);
    NoBrackets(ZONED);
    NoBrackets(ZONED_NEIGHBOUR);
    lib := ZonedApart(ZONED, LinkLocal(1), ZONED_NEIGHBOUR, LinkLocal(2));
  }

  predicate Plainly(s: string) {
    forall i :: 0 <= i < |s| ==> s[i] == ':' || s[i] == '%' || '0' <= s[i] <= '9' || 'a' <= s[i] <= 'z'
  }

  lemma NoBrackets(s: string)
    requires Plainly(s)
    ensures '[' !in s && ']' !in s
  {
  }

  lemma ZonedApart(s: string, a: Addr, t: string, b: Addr) returns (lib: Library)
    requires s != t && |s| < 18 && |t| < 18
    requires '[' !in s && ']' !in s && '[' !in t && ']' !in t
    ensures lib.Lawful() && lib.parseAddr(s) == Some(a) && lib.parseAddr(t) == Some(b)
    ensures Resolved(lib, None, "[" + s + "]:443", "") == Resolution(s, PeerUntrusted)
    ensures Resolved(lib, None, "[" + t + "]:443", "") == Resolution(t, PeerUntrusted)
    ensures Subnet(lib, s, DEFAULT_IPV6_SUBNET) != Subnet(lib, t, DEFAULT_IPV6_SUBNET)
  {
    lib := LawfulLibrariesExist(map[], map[s := a, t := b], map[]);
    PeerInBrackets(s);
    PeerInBrackets(t);
    OthersAreNeverMerged(lib, s, t, DEFAULT_IPV6_SUBNET);
  }

  lemma PeerInBrackets(host: string)
    requires '[' !in host && ']' !in host
    ensures PeerHost("[" + host + "]:443") == host
  {
    SplitBracketed(host, "443");
    assert "[" + host + "]:" + "443" == "[" + host + "]:443";
  }

  // Aggregation is documented to be unconditional. With the socket peer as ipStrategy,
  // neighbours without a zone are apart as well (Serving.AggregatedExactly).
  lemma StrategyKeysAreApart(p: Policy, s: string, t: string)
    requires p.Valid() && p.average > 0 && p.whitelist.None?
    requires p.strategy == RemoteAddr && p.matcher == ByStrategy(RemoteAddr)
    requires s == "fe80::1" && t == "fe80::2"
    ensures RouteOf(p, Message("[" + s + "]:443", "", map[])) == Bucket(s)
    ensures RouteOf(p, Message("[" + t + "]:443", "", map[])) == Bucket(t)
    ensures s != t
  {
    assert s[6] == '1' && t[6] == '2';
    PeerKey(p, s);
    PeerKey(p, t);
  }

  lemma PeerKey(p: Policy, host: string)
    requires p.Valid() && p.average > 0 && p.whitelist.None?
    requires p.strategy == RemoteAddr && p.matcher == ByStrategy(RemoteAddr)
    requires '[' !in host && ']' !in host
    ensures RouteOf(p, Message("[" + host + "]:443", "", map[])) == Bucket(host)
  {
    var m := Message("[" + host + "]:443", "", map[]);
    PeerInBrackets(host);
    S.BypassExactly(p, m);
    S.OtherBucketsExactly(p, m);
  }

  // Not all three headers are always published: with a depth beyond the chain, none is
  // (Serving.NoneDerivedExactly, Serving.NothingPublishedExactly).
  lemma ShortChainIsNotPublished(p: Policy)
    requires p.Valid() && p.strategy == Depth(2)
    ensures var m := Message("10.0.0.1:52000", "", map[Canonical(X_FORWARDED_FOR) := [CLIENT]]);
      Outgoing(p, m) == m
  {
    var m := Message("10.0.0.1:52000", "", map[Canonical(X_FORWARDED_FOR) := [CLIENT]]);
    S.CleanedExactly(m.header, |DESTROYED|);
    S.NamesDiffer();
    assert Clean(m).header == m.header;
    SplitSingle(CLIENT);
  }

  // ------------------------------------------------ the limiter

  // A cost beyond the burst is denied with a time to wait, and denied at every time
  // (Replies.RetryAfterIsExact).
  lemma BeyondTheBurst(l: G.Limit, now: real, later: real)
    requires l.Valid() && now <= later
    ensures var v := G.Decide(G.Room(l, None, now), G.AllowN(l.burst + 1));
      && v.Denied? && G.RetryAfter(l, v) > 0.0
      && G.Decide(G.Room(l, G.Save(l, None, now, v), later), G.AllowN(l.burst + 1)).Denied?
  {
    Runs.RoomLater(l, None, now, now);
    R.RetryAfterIsExact(l, None, now, l.burst + 1, later);
  }

  // Three per second and a burst of one, used up: RetryAfter is 333333333 ns, and after
  // exactly that the same call is still denied (Limiting.RetryAfterInNanoseconds).
  lemma CutWaitIsTooShort()
    ensures var l := G.Limit(3, 1, 1.0);
      var used := G.Save(l, None, 0.0, G.Decide(G.Room(l, None, 0.0), G.AllowN(1)));
      var v := G.Decide(G.Room(l, used, 0.0), G.AllowN(1));
      && v.Denied? && L.ToOutcome(l, G.ToReply(l, v)).retryAfter == 333_333_333
      && G.Decide(G.Room(l, used, 333_333_333 as real / B.SECOND as real), G.AllowN(1)).Denied?
  {
    var l := G.Limit(3, 1, 1.0);
    var used := G.Save(l, None, 0.0, G.Decide(G.Room(l, None, 0.0), G.AllowN(1)));
    assert used == Some(l.Interval());
    assert G.Room(l, used, 0.0) == 0.0;
    L.RetryAfterInNanoseconds(l, used, 0.0, G.AllowN(1), 333_333_333);
  }

  // Of a burst of three, two are used: two more are denied with 0 remaining, and yet one
  // would be granted (Replies.RemainingOnDenialExactly).
  lemma DenialHidesRoom()
    ensures var l := G.Limit(1, 3, 1.0);
      var used := G.Save(l, None, 0.0, G.Decide(G.Room(l, None, 0.0), G.AllowN(2)));
      var v := G.Decide(G.Room(l, used, 0.0), G.AllowN(2));
      && v.Denied? && G.ToReply(l, v).remaining == 0
      && G.Decide(G.Room(l, G.Save(l, used, 0.0, v), 0.0), G.AllowN(1)).Granted?
  {
    var l := G.Limit(1, 3, 1.0);
    var used := G.Save(l, None, 0.0, G.Decide(G.Room(l, None, 0.0), G.AllowN(2)));
    assert used == Some(2.0);
    assert G.Room(l, used, 0.0) == 1.0;
  }

  // ------------------------------------------------ failures and configuration

  // A first failed call is refused with one period to wait, and the next one is let
  // through at once (Breaker.AdvertisedIsEarliestExactly).
  lemma FirstFailureIsRetriedAtOnce(s: B.Settings)
    requires s.reattempt >= 1
    ensures !B.Open(B.StateAfter(s, 0, [B.Call(1, true, 2)]), 2)
  {
    assert [B.Call(1, true, 2)][..0] == [];
  }

  // The documented "let pass through" is not what an unset failureMode means
  // (Serving.AnswersExactly).
  lemma UnsetModeRefuses(p: Policy)
    requires C.Mode("") == Ok(p.failureMode)
    ensures Respond(p, Err) == Refused(503, p.retryAfter)
  {
  }

  // Two documented defaults are refusals: a burst of 1, and the socket peer as the
  // derivation (Configuring.New).
  lemma DefaultsAreRefused(lib: Library, c: C.Config)
    requires c.burst == 0 || (c.sourceCriterion.None? && c.trustedProxies == [])
    ensures !C.Acceptable(lib, c)
  {
  }

  // ------------------------------------------------ the client of Redis

  // Of a bulk string with a line feed, only the first line is read, and the second is
  // left unread (ReplyRoundTrip.BulkExactly).
  lemma BulkOfTwoLines(rest: string)
    ensures TakeElement(P.Bulk("a\nb") + rest) == Got(Element(String, Text("a\n")), "b" + P.CRLF + rest)
  {
    var tail := "a\nb" + P.CRLF + rest;
    assert P.Bulk("a\nb") + rest == ['$'] + Decimals.Decimal(3) + P.CRLF + tail;
    MarkedLine('$', Decimals.Decimal(3), tail);
    assert tail == "a" + "\n" + ("b" + P.CRLF + rest);
    IndexOfAt("a", '\n', "b" + P.CRLF + rest);
    assert tail[2..] == "b" + P.CRLF + rest && tail[..2] == "a\n";
  }
}
