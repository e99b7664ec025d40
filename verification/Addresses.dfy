/** IP addresses as 16 bytes, the library's parsers and printer as parameters, and
    the bit arithmetic of prefixes. */
module Addresses {
  import opened Wrappers
  import opened Text

  type Byte = bv8

  // The 16-byte form; an IPv4 address is the mapped one (::ffff:a.b.c.d).
  type Addr = a: seq<Byte> | |a| == 16 witness seq(16, _ => 0)

  predicate IsV4(a: Addr) {
    (forall i :: 0 <= i < 10 ==> a[i] == 0) && a[10] == 0xff && a[11] == 0xff
  }

  // A network as the library holds it: four bytes for IPv4, sixteen for IPv6.
  datatype Network =
    | V4Net(bytes: seq<Byte>, ones: nat)
    | V6Net(bytes: seq<Byte>, ones: nat)
  {
    predicate Valid() {
      match this
      case V4Net(b, n) => |b| == 4 && n <= 32
      case V6Net(b, n) => |b| == 16 && n <= 128
    }

    // IPNet.Contains reads a mapped IPv4 network as the IPv4 network it maps; here that
    // is done when it is parsed (::ffff:10.0.0.0/104 is the V4Net 10.0.0.0/8).
    predicate Normal()
      requires Valid()
    {
      V6Net? ==> !IsV4(bytes)
    }
  }

  /** The library: net.ParseIP, netip.ParseAddr (followed by As16), net.ParseCIDR and
      IP.String. */
  datatype Library = Library(
    parseIP: string -> Option<Addr>,
    parseAddr: string -> Option<Addr>,
    parseCIDR: string -> Option<Network>,
    format: Addr -> string)
  {
    /** What the model takes from the library's documentation: an address text has no
        space, comma or bracket in it, and either no colon or at least two; both
        parsers read it alike; and a printed address reads back as itself. */
    ghost predicate Lawful() {
      && (forall s {:trigger parseIP(s)} :: parseIP(s).Some? ==> parseAddr(s) == parseIP(s) && AddressText(s))
      && (forall s {:trigger parseCIDR(s)} :: parseCIDR(s).Some? ==> parseCIDR(s).value.Valid() && parseCIDR(s).value.Normal())
      && (forall a {:trigger format(a)} :: parseIP(format(a)) == Some(a))
    }
  }

  predicate AddressText(s: string) {
    && s != ""
    && (forall i :: 0 <= i < |s| ==> !IsSpace(s[i]))
    && ',' !in s && '[' !in s && ']' !in s
    && (':' in s ==> exists i, j :: 0 <= i < j < |s| && s[i] == ':' && s[j] == ':')
  }

  // ------------------------------------------------ prefixes of bytes

  // The byte of a mask that keeps its n leading bits.
  function ByteMask(n: int): Byte {
    if n <= 0 then 0x00
    else if n == 1 then 0x80
    else if n == 2 then 0xc0
    else if n == 3 then 0xe0
    else if n == 4 then 0xf0
    else if n == 5 then 0xf8
    else if n == 6 then 0xfc
    else if n == 7 then 0xfe
    else 0xff
  }

  // A byte's leading bits, with the rest cleared.
  function High(x: Byte, n: int): Byte {
    x & ByteMask(n)
  }

  // The j-th bit of a byte, counted from the most significant one.
  predicate ByteBit(x: Byte, j: int) {
    if j <= 0 then x & 0x80 != 0
    else if j == 1 then x & 0x40 != 0
    else if j == 2 then x & 0x20 != 0
    else if j == 3 then x & 0x10 != 0
    else if j == 4 then x & 0x08 != 0
    else if j == 5 then x & 0x04 != 0
    else if j == 6 then x & 0x02 != 0
    else x & 0x01 != 0
  }

  // bytes & CIDRMask(ones, 8 * |bytes|)
  function Masked(bytes: seq<Byte>, ones: nat): (m: seq<Byte>)
    ensures |m| == |bytes|
    ensures forall i :: 0 <= i < |m| ==> m[i] == High(bytes[i], ones - 8 * i)
  {
    seq(|bytes|, i requires 0 <= i < |bytes| => High(bytes[i], ones - 8 * i))
  }

  // The k-th bit of a string of bytes.
  predicate Bit(bytes: seq<Byte>, k: nat)
    requires k < 8 * |bytes|
  {
    ByteBit(bytes[k / 8], k % 8)
  }

  // The two addresses have the same first bits.
  ghost predicate SamePrefix(a: seq<Byte>, b: seq<Byte>, ones: nat)
    requires |a| == |b| && ones <= 8 * |a|
  {
    forall k :: 0 <= k < ones ==> Bit(a, k) == Bit(b, k)
  }

  lemma HighKeepsBits(x: Byte, y: Byte, n: int, j: int)
    requires High(x, n) == High(y, n) && 0 <= j < 8 && j < n
    ensures ByteBit(x, j) == ByteBit(y, j)
  {
    HighBit(x, n, j);
    HighBit(y, n, j);
  }

  lemma HighBit(x: Byte, n: int, j: int)
    requires 0 <= j < 8 && j < n
    ensures ByteBit(High(x, n), j) == ByteBit(x, j)
  {
  }

  lemma {:induction false} BitsMakeHigh(x: Byte, y: Byte, n: int)
    requires forall j :: 0 <= j < 8 && j < n ==> ByteBit(x, j) == ByteBit(y, j)
    ensures High(x, n) == High(y, n)
    decreases n
  {
    if n > 0 {
      BitsMakeHigh(x, y, n - 1);
      HighStep(x, y, n - 1);
    }
  }

  lemma HighStep(x: Byte, y: Byte, n: int)
    requires n >= 0 && High(x, n) == High(y, n) && (n < 8 ==> ByteBit(x, n) == ByteBit(y, n))
    ensures High(x, n + 1) == High(y, n + 1)
  {
  }

  // Masking forgets exactly what is below the prefix.
  lemma MaskedExactly(a: seq<Byte>, b: seq<Byte>, ones: nat)
    requires |a| == |b| && ones <= 8 * |a|
    ensures Masked(a, ones) == Masked(b, ones) <==> SamePrefix(a, b, ones)
  {
    if Masked(a, ones) == Masked(b, ones) {
      forall k | 0 <= k < ones
        ensures Bit(a, k) == Bit(b, k)
      {
        assert Masked(a, ones)[k / 8] == Masked(b, ones)[k / 8];
        HighKeepsBits(a[k / 8], b[k / 8], ones - 8 * (k / 8), k % 8);
      }
    }
    if SamePrefix(a, b, ones) {
      forall i | 0 <= i < |a|
        ensures Masked(a, ones)[i] == Masked(b, ones)[i]
      {
        SameByte(a, b, ones, i);
      }
    }
  }

  lemma SameByte(a: seq<Byte>, b: seq<Byte>, ones: nat, i: nat)
    requires |a| == |b| && i < |a| && ones <= 8 * |a| && SamePrefix(a, b, ones)
    ensures High(a[i], ones - 8 * i) == High(b[i], ones - 8 * i)
  {
    forall j | 0 <= j < 8 && j < ones - 8 * i
      ensures ByteBit(a[i], j) == ByteBit(b[i], j)
    {
      var k := 8 * i + j;
      assert k / 8 == i && k % 8 == j;
      assert Bit(a, k) == Bit(b, k);
    }
    BitsMakeHigh(a[i], b[i], ones - 8 * i);
  }

  lemma MaskedIdempotent(a: seq<Byte>, ones: nat)
    ensures Masked(Masked(a, ones), ones) == Masked(a, ones)
  {
    forall i | 0 <= i < |a|
      ensures Masked(Masked(a, ones), ones)[i] == Masked(a, ones)[i]
    {
      HighTwice(a[i], ones - 8 * i);
    }
  }

  lemma HighTwice(x: Byte, n: int)
    ensures High(High(x, n), n) == High(x, n)
  {
  }

  // ------------------------------------------------ sets of trusted addresses

  // IPNet.Contains: an IPv4 address is compared with IPv4 networks only, on its last
  // four bytes, and any other address with IPv6 networks only.
  predicate InNetwork(n: Network, a: Addr)
    requires n.Valid()
  {
    match n
    case V4Net(b, ones) => IsV4(a) && Masked(b, ones) == Masked(a[12..], ones)
    case V6Net(b, ones) => !IsV4(a) && Masked(b, ones) == Masked(a, ones)
  }

  // Bit by bit: an address is in a network exactly if it is of the network's family and
  // agrees with it in each of the leading bits.
  lemma InNetworkExactly(n: Network, a: Addr)
    requires n.Valid()
    ensures match n
      case V4Net(b, ones) => InNetwork(n, a) <==> IsV4(a) && forall k :: 0 <= k < ones ==> Bit(b, k) == Bit(a[12..], k)
      case V6Net(b, ones) => InNetwork(n, a) <==> !IsV4(a) && forall k :: 0 <= k < ones ==> Bit(b, k) == Bit(a, k)
  {
    match n {
      case V4Net(b, ones) => MaskedExactly(b, a[12..], ones);
      case V6Net(b, ones) => MaskedExactly(b, a, ones);
    }
  }

  // Bits are counted from the most significant one.
  lemma BitsFromTheLeft(x: Byte)
    ensures ByteBit(x, 0) <==> (x >> 7) & 1 == 1
    ensures ByteBit(x, 1) <==> (x >> 6) & 1 == 1
    ensures ByteBit(x, 2) <==> (x >> 5) & 1 == 1
    ensures ByteBit(x, 3) <==> (x >> 4) & 1 == 1
    ensures ByteBit(x, 4) <==> (x >> 3) & 1 == 1
    ensures ByteBit(x, 5) <==> (x >> 2) & 1 == 1
    ensures ByteBit(x, 6) <==> (x >> 1) & 1 == 1
    ensures ByteBit(x, 7) <==> x & 1 == 1
  {
  }

  // What one configuration entry denotes: an address, or else a network.
  ghost predicate Denotes(lib: Library, entry: string, a: Addr)
    requires lib.Lawful()
  {
    match lib.parseIP(entry)
    case Some(ip) => ip == a
    case None => lib.parseCIDR(entry).Some? && InNetwork(lib.parseCIDR(entry).value, a)
  }

  ghost predicate Readable(lib: Library, entry: string) {
    lib.parseIP(entry).Some? || lib.parseCIDR(entry).Some?
  }
}
