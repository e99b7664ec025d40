/** The laws that Addresses asks of the library can be kept: here is one library that
    does, with an address notation of its own and any other texts it is told of. */
module LawfulLibrary {
  import opened Wrappers
  import opened Addresses

  function Digit(b: Byte): (c: char)
    ensures 1000 <= c as int < 1256
  {
    (b as int + 1000) as char
  }

  lemma DigitsDiffer(a: Byte, b: Byte)
    ensures Digit(a) == Digit(b) ==> a == b
  {
    var i, j := a as int, b as int;
    if Digit(a) == Digit(b) {
      assert i == j;
      assert i as Byte == a && j as Byte == b;
    }
  }

  function Written(a: Addr): string {
    "::" + seq(16, i requires 0 <= i < 16 => Digit(a[i]))
  }

  lemma WrittenOnce(a: Addr, b: Addr)
    ensures Written(a) == Written(b) ==> a == b
  {
    if Written(a) == Written(b) {
      forall i | 0 <= i < 16
        ensures a[i] == b[i]
      {
        assert Written(a)[i + 2] == Written(b)[i + 2];
        DigitsDiffer(a[i], b[i]);
      }
    }
  }

  ghost function Parsed(s: string): Option<Addr> {
    if exists a: Addr :: Written(a) == s then
      var a: Addr :| Written(a) == s; Some(a)
    else None
  }

  lemma WrittenIsAddressText(a: Addr)
    ensures AddressText(Written(a))
  {
    var s := Written(a);
    assert s[0] == ':' && s[1] == ':';
  }

  // Texts that can be told apart from that notation, some of which netip.ParseAddr alone
  // reads (with a zone, say), and networks in normal form.
  ghost predicate Tellable(names: map<string, Addr>, zoned: map<string, Addr>, nets: map<string, Network>) {
    && (forall s :: s in names ==> AddressText(s) && |s| != 18)
    && (forall s :: s in zoned ==> s !in names && |s| != 18)
    && (forall s :: s in nets ==> nets[s].Valid() && nets[s].Normal())
  }

  ghost function Knowing(names: map<string, Addr>, s: string): Option<Addr> {
    if s in names then Some(names[s]) else Parsed(s)
  }

  lemma LawfulLibrariesExist(names: map<string, Addr>, zoned: map<string, Addr>, nets: map<string, Network>)
    returns (lib: Library)
    requires Tellable(names, zoned, nets)
    ensures lib.Lawful()
    ensures forall s :: s in names ==> lib.parseIP(s) == Some(names[s])
    ensures forall s :: s in zoned ==> lib.parseIP(s) == None && lib.parseAddr(s) == Some(zoned[s])
    ensures forall s :: s in nets ==> lib.parseCIDR(s) == Some(nets[s])
  {
    lib := Library(s => Knowing(names, s), s => if s in zoned then Some(zoned[s]) else Knowing(names, s),
                   s => if s in nets then Some(nets[s]) else None, (a: Addr) => Written(a));
    forall s: string | Knowing(names, s).Some?
      ensures AddressText(s) && s !in zoned
    {
      if s !in names {
        WrittenIsAddressText(Parsed(s).value);
        assert |s| == 18;
      }
    }
    forall a: Addr
      ensures Knowing(names, Written(a)) == Some(a)
    {
      assert |Written(a)| == 18;
      WrittenOnce(a, Parsed(Written(a)).value);
    }
  }
}
