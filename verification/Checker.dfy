/** The set of trusted addresses (internal/ip/checker.go). */
module Checking {
  import opened Wrappers
  import opened Addresses

  // What a checker holds, as a value.
  datatype Trust = Trust(ips: seq<Addr>, nets: seq<Network>) {
    predicate Valid() {
      forall i :: 0 <= i < |nets| ==> nets[i].Valid()
    }

    predicate Has(a: Addr)
      requires Valid()
    {
      || a in ips
      || exists i :: 0 <= i < |nets| && InNetwork(nets[i], a)
    }

    // Contains, which fails on text it cannot read.
    function Contains(lib: Library, addr: string): Result<bool>
      requires Valid()
    {
      if addr == "" then Err
      else
        match lib.parseAddr(addr)
        case None => Err
        case Some(a) => Ok(Has(a))
    }
  }

  // An address agrees with a network of its family in all the network's leading bits.
  ghost predicate Agrees(n: Network, a: Addr)
    requires n.Valid()
  {
    match n
    case V4Net(b, ones) => IsV4(a) && SamePrefix(b, a[12..], ones)
    case V6Net(b, ones) => !IsV4(a) && SamePrefix(b, a, ones)
  }

  class Checker {
    const authorizedIPs: seq<Addr>
    const authorizedIPsNet: seq<Network>

    function Trusted(): Trust {
      Trust(authorizedIPs, authorizedIPsNet)
    }

    constructor (ips: seq<Addr>, nets: seq<Network>)
      ensures Trusted() == Trust(ips, nets)
    {
      authorizedIPs := ips;
      authorizedIPsNet := nets;
    }

    // A checker trusts exactly the addresses its configuration denotes, and there is
    // none if the configuration is empty or has an entry that is neither.
    static method NewChecker(lib: Library, trustedIPs: seq<string>) returns (r: Result<Checker>)
      requires lib.Lawful()
      ensures r.Ok? <==> trustedIPs != [] && forall k :: 0 <= k < |trustedIPs| ==> Readable(lib, trustedIPs[k])
      ensures r.Ok? ==> fresh(r.value) && r.value.Trusted().Valid()
      ensures r.Ok? ==> forall a: Addr ::
        r.value.Trusted().Has(a) <==> exists k :: 0 <= k < |trustedIPs| && Denotes(lib, trustedIPs[k], a)
    {
      if |trustedIPs| == 0 {
        return Err;
      }
      var ips, nets := [], [];
      for n := 0 to |trustedIPs|
        invariant Trust(ips, nets).Valid()
        invariant forall k :: 0 <= k < n ==> Readable(lib, trustedIPs[k])
        invariant forall a: Addr ::
          Trust(ips, nets).Has(a) <==> exists k :: 0 <= k < n && Denotes(lib, trustedIPs[k], a)
      {
        ghost var before := Trust(ips, nets);
        var ip := lib.parseIP(trustedIPs[n]);
        if ip.Some? {
          ips := ips + [ip.value];
          HasOneMore(before, Trust(ips, nets), lib, trustedIPs, n);
          continue;
        }
        var net := lib.parseCIDR(trustedIPs[n]);
        if net.None? {
          return Err;
        }
        nets := nets + [net.value];
        HasOneMore(before, Trust(ips, nets), lib, trustedIPs, n);
      }
      var checker := new Checker(ips, nets);
      return Ok(checker);
    }

    method ContainsIP(addr: Addr) returns (found: bool)
      requires Trusted().Valid()
      ensures found == Trusted().Has(addr)
      ensures found <==> addr in authorizedIPs || exists i :: 0 <= i < |authorizedIPsNet| && Agrees(authorizedIPsNet[i], addr)
    {
      forall i | 0 <= i < |authorizedIPsNet|
        ensures InNetwork(authorizedIPsNet[i], addr) <==> Agrees(authorizedIPsNet[i], addr)
      {
        InNetworkExactly(authorizedIPsNet[i], addr);
      }
      for i := 0 to |authorizedIPs|
        invariant addr !in authorizedIPs[..i]
      {
        if authorizedIPs[i] == addr {
          return true;
        }
      }
      for i := 0 to |authorizedIPsNet|
        invariant forall j :: 0 <= j < i ==> !InNetwork(authorizedIPsNet[j], addr)
      {
        if InNetwork(authorizedIPsNet[i], addr) {
          return true;
        }
      }
      return false;
    }

    method Contains(lib: Library, addr: string) returns (r: Result<bool>)
      requires Trusted().Valid()
      ensures r == Trusted().Contains(lib, addr)
    {
      if |addr| == 0 {
        return Err;
      }
      var ipAddr := lib.parseAddr(addr);
      if ipAddr.None? {
        return Err;
      }
      var found := ContainsIP(ipAddr.value);
      return Ok(found);
    }
  }

  // One more entry, appended to either list, adds what it denotes.
  lemma HasOneMore(before: Trust, after: Trust, lib: Library, entries: seq<string>, n: nat)
    requires lib.Lawful() && n < |entries| && before.Valid()
    requires match lib.parseIP(entries[n])
      case Some(ip) => after == before.(ips := before.ips + [ip])
      case None => lib.parseCIDR(entries[n]).Some? && after == before.(nets := before.nets + [lib.parseCIDR(entries[n]).value])
    requires forall a: Addr :: before.Has(a) <==> exists k :: 0 <= k < n && Denotes(lib, entries[k], a)
    ensures after.Valid()
    ensures forall a: Addr :: after.Has(a) <==> exists k :: 0 <= k < n + 1 && Denotes(lib, entries[k], a)
  {
    assert after.Valid();
    forall a: Addr
      ensures after.Has(a) <==> before.Has(a) || Denotes(lib, entries[n], a)
    {
      if lib.parseIP(entries[n]).None? {
        var net := lib.parseCIDR(entries[n]).value;
        assert after.nets[|before.nets|] == net;
        assert forall i :: 0 <= i < |before.nets| ==> after.nets[i] == before.nets[i];
      }
    }
  }
}
