/** Reducing a client address to the aggregate a bucket is keyed on
    (internal/ip/trustedproxy.go, Subnet and SubnetCIDR). */
module Subnets {
  import opened Wrappers
  import opened Addresses
  import opened Decimals

  const MIN_IPV6_SUBNET := 32
  const MAX_IPV6_SUBNET := 64
  const DEFAULT_IPV6_SUBNET := 64

  function Subnet(lib: Library, addr: string, ipv6Prefix: nat): string {
    match lib.parseIP(addr)
    case None => addr
    case Some(a) => if IsV4(a) then addr else lib.format(Masked(a, ipv6Prefix))
  }

  function SubnetCIDR(lib: Library, addr: string, ipv6Prefix: nat): string {
    match lib.parseIP(addr)
    case None => addr
    case Some(a) =>
      if IsV4(a) then addr + "/32"
      else lib.format(Masked(a, ipv6Prefix)) + "/" + Decimal(ipv6Prefix)
  }

  // A network of at most 80 bits is never a mapped IPv4 address.
  lemma MaskedIsNotV4(a: Addr, prefix: nat)
    requires prefix <= 80
    ensures !IsV4(Masked(a, prefix))
  {
    assert Masked(a, prefix)[10] == High(a[10], prefix - 80) == 0;
  }

  // Two IPv6 clients share a bucket exactly when their first bits agree.
  lemma BucketIsPrefix(lib: Library, s: string, t: string, prefix: nat)
    requires lib.Lawful() && prefix <= 128
    requires lib.parseIP(s).Some? && !IsV4(lib.parseIP(s).value)
    requires lib.parseIP(t).Some? && !IsV4(lib.parseIP(t).value)
    ensures Subnet(lib, s, prefix) == Subnet(lib, t, prefix)
       <==> SamePrefix(lib.parseIP(s).value, lib.parseIP(t).value, prefix)
  {
    var a, b := lib.parseIP(s).value, lib.parseIP(t).value;
    MaskedExactly(a, b, prefix);
    assert lib.parseIP(lib.format(Masked(a, prefix))) == Some(Masked(a, prefix));
    assert lib.parseIP(lib.format(Masked(b, prefix))) == Some(Masked(b, prefix));
  }

  // A key is its own key, whatever it came from.
  lemma SubnetIsIdempotent(lib: Library, s: string, prefix: nat)
    requires lib.Lawful() && prefix <= MAX_IPV6_SUBNET
    ensures Subnet(lib, Subnet(lib, s, prefix), prefix) == Subnet(lib, s, prefix)
  {
    if lib.parseIP(s).Some? && !IsV4(lib.parseIP(s).value) {
      var a := lib.parseIP(s).value;
      MaskedIsNotV4(a, prefix);
      MaskedIdempotent(a, prefix);
      assert lib.parseIP(lib.format(Masked(a, prefix))) == Some(Masked(a, prefix));
    }
  }

  // A shorter prefix only merges buckets.
  lemma ShorterPrefixIsCoarser(lib: Library, s: string, t: string, short: nat, long: nat)
    requires lib.Lawful() && short <= long <= MAX_IPV6_SUBNET
    requires Subnet(lib, s, long) == Subnet(lib, t, long)
    ensures Subnet(lib, s, short) == Subnet(lib, t, short)
  {
    KeyTellsFamily(lib, s, t, long);
    if lib.parseIP(s).Some? && !IsV4(lib.parseIP(s).value) {
      BucketIsPrefix(lib, s, t, long);
      BucketIsPrefix(lib, s, t, short);
    } else {
      OthersAreNeverMerged(lib, s, t, long);
    }
  }

  // Equal keys come from the same kind of text.
  lemma KeyTellsFamily(lib: Library, s: string, t: string, prefix: nat)
    requires lib.Lawful() && prefix <= MAX_IPV6_SUBNET
    requires Subnet(lib, s, prefix) == Subnet(lib, t, prefix)
    ensures lib.parseIP(s).Some? <==> lib.parseIP(t).Some?
    ensures lib.parseIP(s).Some? ==> (IsV4(lib.parseIP(s).value) <==> IsV4(lib.parseIP(t).value))
  {
    KeyKeepsFamily(lib, s, prefix);
    KeyKeepsFamily(lib, t, prefix);
  }

  lemma KeyKeepsFamily(lib: Library, s: string, prefix: nat)
    requires lib.Lawful() && prefix <= MAX_IPV6_SUBNET
    ensures var key := Subnet(lib, s, prefix);
      && (lib.parseIP(key).Some? <==> lib.parseIP(s).Some?)
      && (lib.parseIP(s).Some? ==> (IsV4(lib.parseIP(key).value) <==> IsV4(lib.parseIP(s).value)))
  {
    if lib.parseIP(s).Some? && !IsV4(lib.parseIP(s).value) {
      var m := Masked(lib.parseIP(s).value, prefix);
      MaskedIsNotV4(lib.parseIP(s).value, prefix);
      assert lib.parseIP(lib.format(m)) == Some(m);
    }
  }

  // IPv4 addresses, and texts that are no addresses, are never merged with anything.
  lemma OthersAreNeverMerged(lib: Library, s: string, t: string, prefix: nat)
    requires lib.Lawful() && prefix <= MAX_IPV6_SUBNET
    requires lib.parseIP(s).None? || IsV4(lib.parseIP(s).value)
    ensures Subnet(lib, s, prefix) == Subnet(lib, t, prefix) <==> s == t
  {
    if Subnet(lib, s, prefix) == Subnet(lib, t, prefix) {
      KeyTellsFamily(lib, s, t, prefix);
    }
  }

  // One address written in two ways, as the sets of addresses read it, has one key
  // exactly if net.ParseIP reads both as an IPv6 address: an IPv4 address is keyed by its
  // text, dotted or mapped, and so is an IPv6 address with a zone.
  lemma SpellingsExactly(lib: Library, s: string, t: string, prefix: nat)
    requires lib.Lawful() && prefix <= MAX_IPV6_SUBNET
    requires lib.parseAddr(s).Some? && lib.parseAddr(s) == lib.parseAddr(t)
    ensures Subnet(lib, s, prefix) == Subnet(lib, t, prefix) <==>
      s == t || (lib.parseIP(s).Some? && lib.parseIP(t).Some? && !IsV4(lib.parseAddr(s).value))
  {
    if lib.parseIP(s).None? || IsV4(lib.parseIP(s).value) {
      OthersAreNeverMerged(lib, s, t, prefix);
    } else if lib.parseIP(t).None? {
      OthersAreNeverMerged(lib, t, s, prefix);
    }
  }

  // The prefix length, written out; nothing for what is no address.
  function Suffix(lib: Library, addr: string, prefix: nat): string {
    match lib.parseIP(addr)
    case None => ""
    case Some(a) => "/" + Decimal(if IsV4(a) then 32 else prefix)
  }

  // The published subnet is the bucket key with its prefix length written out.
  lemma PublishedSubnetIsKey(lib: Library, addr: string, prefix: nat)
    ensures SubnetCIDR(lib, addr, prefix) == Subnet(lib, addr, prefix) + Suffix(lib, addr, prefix)
  {
    assert Decimal(32) == "32" by {
      assert Decimal(3) == "3" && Decimal(2) == "2";
    }
  }
}
