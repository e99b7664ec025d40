/** The walk one hop further in (internal/ip/trustedproxy.go): a request that a proxy of
    ours has passed on, with its own peer appended to X-Forwarded-For. A request may
    carry that header on several lines; the walk reads the first, and the proxy folds
    them all into one. */
module Hops {
  import opened Wrappers
  import opened Text
  import opened Addresses
  import opened Checking
  import opened Walk

  // What the walk reads of the header's lines.
  function FirstLine(lines: seq<string>): string {
    if lines == [] then "" else lines[0]
  }

  // Lines put together into one.
  function Folded(lines: seq<string>, pad: string): string
    requires lines != []
  {
    if |lines| == 1 then lines[0] else Folded(lines[..|lines| - 1], pad) + "," + pad + lines[|lines| - 1]
  }

  // The header after one more proxy, which appends the peer it got the request from.
  function PassedOn(lines: seq<string>, pad: string, host: string): string {
    Folded(lines + [host], pad)
  }

  // All entries of all lines.
  function EntriesOf(lines: seq<string>): seq<string> {
    if lines == [] then [] else EntriesOf(lines[..|lines| - 1]) + Split(lines[|lines| - 1])
  }

  lemma {:induction false} EntriesOfFirst(lines: seq<string>)
    requires lines != []
    ensures EntriesOf(lines) == Split(lines[0]) + EntriesOf(lines[1..])
  {
    if |lines| > 1 {
      var n := |lines| - 1;
      EntriesOfFirst(lines[..n]);
      assert lines[..n][1..] == lines[1..][..n - 1];
    } else {
      assert lines[..0] == [] && lines[1..] == [];
    }
  }

  // ------------------------------------------------ the steps of folded lines

  lemma PaddedSteps(lib: Library, t: Trust, pad: string, line: string)
    requires t.Valid() && Blank(pad)
    ensures Steps(lib, t, Split(pad + line)) == Steps(lib, t, Split(line))
  {
    SplitPadded(pad, line);
    var first := Split(line)[0];
    PaddedLook(lib, t, pad, first);
    StepsOfBoth(lib, t, [pad + first], Split(line)[1..]);
    StepsOfBoth(lib, t, [first], Split(line)[1..]);
    assert [first] + Split(line)[1..] == Split(line);
  }

  lemma PaddedLook(lib: Library, t: Trust, pad: string, entry: string)
    requires t.Valid() && Blank(pad)
    ensures Steps(lib, t, [pad + entry]) == Steps(lib, t, [entry])
  {
    TrimLeftPad(pad, entry);
    assert TrimSpace(pad + entry) == TrimSpace(entry);
  }

  lemma {:induction false} FoldedSteps(lib: Library, t: Trust, lines: seq<string>, pad: string)
    requires t.Valid() && lines != [] && Blank(pad)
    ensures Steps(lib, t, Split(Folded(lines, pad))) == Steps(lib, t, EntriesOf(lines))
    ensures |lines| > 1 ==> TrimSpace(Folded(lines, pad)) != ""
  {
    var n := |lines| - 1;
    if n == 0 {
      assert EntriesOf(lines) == EntriesOf([]) + Split(lines[0]);
      assert EntriesOf([]) + Split(lines[0]) == Split(lines[0]);
    } else {
      FoldedSteps(lib, t, lines[..n], pad);
      OneMoreLine(lib, t, Folded(lines[..n], pad), pad, lines[n]);
      StepsOfBoth(lib, t, EntriesOf(lines[..n]), Split(lines[n]));
    }
  }

  lemma OneMoreLine(lib: Library, t: Trust, raw: string, pad: string, line: string)
    requires t.Valid() && Blank(pad)
    ensures Steps(lib, t, Split(raw + "," + pad + line)) == Steps(lib, t, Split(raw)) + Steps(lib, t, Split(line))
    ensures TrimSpace(raw + "," + pad + line) != ""
  {
    assert raw + "," + pad + line == raw + "," + (pad + line);
    JoinedHeader(lib, t, raw, pad + line);
    PaddedSteps(lib, t, pad, line);
  }

  // What the walk makes of the appended peer.
  function LastStep(ours: bool, readable: bool, host: string): Step {
    if !readable then Bad else if ours then Skip else Take(host)
  }

  lemma HostSteps(lib: Library, t: Trust, host: string)
    requires lib.Lawful() && t.Valid() && AddressText(host)
    ensures TrimSpace(host) != "" && Split(host) == [host]
    ensures Steps(lib, t, [host]) == [LastStep(t.Contains(lib, host) == Ok(true), lib.parseIP(host).Some?, host)]
  {
    BareText(lib, host, "", "");
    assert "" + host + "" == host;
    SplitSingle(host);
  }

  lemma PassedOnSteps(lib: Library, t: Trust, lines: seq<string>, pad: string, host: string)
    requires lib.Lawful() && t.Valid() && Blank(pad) && AddressText(host)
    ensures TrimSpace(PassedOn(lines, pad, host)) != ""
    ensures Steps(lib, t, Split(PassedOn(lines, pad, host))) ==
      Steps(lib, t, EntriesOf(lines)) + [LastStep(t.Contains(lib, host) == Ok(true), lib.parseIP(host).Some?, host)]
  {
    var longer := lines + [host];
    assert longer[..|lines|] == lines;
    FoldedSteps(lib, t, longer, pad);
    HostSteps(lib, t, host);
    StepsOfBoth(lib, t, EntriesOf(lines), [host]);
  }

  lemma ResolvedInTheHeader(lib: Library, t: Trust, remoteAddr: string, raw: string, steps: seq<Step>)
    requires t.Valid() && t.Contains(lib, PeerHost(remoteAddr)) == Ok(true)
    requires TrimSpace(raw) != "" && steps == Steps(lib, t, Split(raw))
    ensures Resolved(lib, Some(t), remoteAddr, raw) ==
      if |steps| > MAX_XFF_ENTRIES then Resolution(PeerHost(remoteAddr), PeerMalformed) else WalkBack(PeerHost(remoteAddr), steps)
  {
  }

  // ------------------------------------------------ where the walk stops

  // The rightmost step that is not stepped over, if there is one.
  function Stop(steps: seq<Step>): Step {
    if steps == [] then Skip
    else if steps[|steps| - 1].Skip? then Stop(steps[..|steps| - 1])
    else steps[|steps| - 1]
  }

  lemma {:induction false} WalkIsStop(peer: string, steps: seq<Step>)
    ensures WalkBack(peer, steps) ==
      match Stop(steps)
      case Skip => Resolution(peer, PeerAllTrusted)
      case Bad => Resolution(peer, PeerMalformed)
      case Take(c) => Resolution(c, Xff)
  {
    if steps != [] {
      WalkIsStop(peer, steps[..|steps| - 1]);
    }
  }

  lemma {:induction false} StopOfBoth(a: seq<Step>, b: seq<Step>)
    ensures Stop(a + b) == if Stop(b).Skip? then Stop(a) else Stop(b)
  {
    if b == [] {
      assert a + b == a;
    } else {
      assert (a + b)[..|a + b| - 1] == a + b[..|b| - 1];
      StopOfBoth(a, b[..|b| - 1]);
    }
  }

  // What is taken is not ours.
  lemma {:induction false} TakenIsAStranger(lib: Library, t: Trust, entries: seq<string>)
    requires t.Valid() && Stop(Steps(lib, t, entries)).Take?
    ensures t.Contains(lib, Stop(Steps(lib, t, entries)).addr) != Ok(true)
  {
    var n := |entries| - 1;
    assert Steps(lib, t, entries)[..n] == Steps(lib, t, entries[..n]);
    if Look(lib, t, entries[n]).Skip? {
      TakenIsAStranger(lib, t, entries[..n]);
    }
  }

  // ------------------------------------------------ one hop further in

  // When the address found here is found one hop further in: with room for one more
  // entry, and a peer that reads as an address, a client found in the first line is
  // found if the walk steps over the other lines or stops there at the same client, and
  // an untrusted peer in any case. Where a peer of ours was all there was, it takes one
  // and the same proxy, and no one to be found in the other lines.
  predicate FoundFurtherIn(here: Resolution, host: string, proxy: string, readable: bool, entries: nat, later: Step) {
    var room := entries < MAX_XFF_ENTRIES && readable;
    match here.source
    case Xff => room && (later == Skip || later == Take(here.addr))
    case PeerUntrusted => room
    case _ => proxy == host && !(room && later.Take?)
  }

  function ThereBySteps(ours: bool, readable: bool, host: string, proxy: string, steps: seq<Step>): Resolution {
    if |steps| >= MAX_XFF_ENTRIES then Resolution(proxy, PeerMalformed)
    else WalkBack(proxy, steps + [LastStep(ours, readable, host)])
  }

  lemma FurtherInByCases(ours: bool, readable: bool, blank: bool, host: string, proxy: string, first: seq<Step>, later: seq<Step>)
    requires !ours ==> host != proxy
    requires Stop(first).Take? ==> Stop(first).addr != proxy && (ours ==> Stop(first).addr != host)
    requires Stop(later).Take? ==> Stop(later).addr != proxy && (ours ==> Stop(later).addr != host)
    requires blank ==> first == [] || first == [Bad]
    ensures var here, there := HereBySteps(ours, blank, host, first), ThereBySteps(ours, readable, host, proxy, first + later);
      && (there.addr == here.addr <==> FoundFurtherIn(here, host, proxy, readable, |first + later|, Stop(later)))
      && (there.addr == here.addr && here.source in {Xff, PeerUntrusted} ==> there.source == Xff)
  {
    var last := LastStep(ours, readable, host);
    StopOfBoth(first, later);
    StopOfBoth(first + later, [last]);
    assert Stop([last]) == last by {
      assert [last][..0] == [];
    }
    WalkIsStop(host, first);
    WalkIsStop(proxy, first + later + [last]);
  }

  // A request with any lines, and the same request one hop further in, behind a proxy of
  // ours that has folded the lines and appended its own peer.
  lemma {:induction false} OneHopFurtherIn(lib: Library, t: Trust, remoteAddr: string, lines: seq<string>, pad: string, proxyAddr: string)
    requires lib.Lawful() && t.Valid() && Blank(pad) && AddressText(PeerHost(remoteAddr))
    requires t.Contains(lib, PeerHost(proxyAddr)) == Ok(true)
    ensures var host, proxy := PeerHost(remoteAddr), PeerHost(proxyAddr);
      var here := Resolved(lib, Some(t), remoteAddr, FirstLine(lines));
      var there := Resolved(lib, Some(t), proxyAddr, PassedOn(lines, pad, host));
      var later := Stop(Steps(lib, t, EntriesOf(if lines == [] then [] else lines[1..])));
      && (there.addr == here.addr <==>
            FoundFurtherIn(here, host, proxy, lib.parseIP(host).Some?, |EntriesOf(lines)|, later))
      && (there.addr == here.addr && here.source in {Xff, PeerUntrusted} ==> there.source == Xff)
  {
    var host, proxy := PeerHost(remoteAddr), PeerHost(proxyAddr);
    var ours, readable := t.Contains(lib, host) == Ok(true), lib.parseIP(host).Some?;
    var entries := if lines == [] then [] else Split(lines[0]);
    var others := EntriesOf(if lines == [] then [] else lines[1..]);
    var first, later := Steps(lib, t, entries), Steps(lib, t, others);
    LinesApart(lib, t, lines, entries, others);
    PassedOnSteps(lib, t, lines, pad, host);
    ResolvedInTheHeader(lib, t, proxyAddr, PassedOn(lines, pad, host), first + later + [LastStep(ours, readable, host)]);
    ResolvedFirst(lib, t, remoteAddr, lines, first);
    StrangersTaken(lib, t, entries);
    StrangersTaken(lib, t, others);
    FurtherInByCases(ours, readable, Blank(FirstLine(lines)), host, proxy, first, later);
  }

  lemma LinesApart(lib: Library, t: Trust, lines: seq<string>, first: seq<string>, others: seq<string>)
    requires t.Valid()
    requires first == if lines == [] then [] else Split(lines[0])
    requires others == EntriesOf(if lines == [] then [] else lines[1..])
    ensures EntriesOf(lines) == first + others
    ensures Steps(lib, t, EntriesOf(lines)) == Steps(lib, t, first) + Steps(lib, t, others)
  {
    if lines != [] {
      EntriesOfFirst(lines);
    }
    StepsOfBoth(lib, t, first, others);
  }

  lemma ResolvedFirst(lib: Library, t: Trust, remoteAddr: string, lines: seq<string>, first: seq<Step>)
    requires t.Valid() && first == Steps(lib, t, if lines == [] then [] else Split(lines[0]))
    ensures var host, blank := PeerHost(remoteAddr), Blank(FirstLine(lines));
      && Resolved(lib, Some(t), remoteAddr, FirstLine(lines)) == HereBySteps(t.Contains(lib, host) == Ok(true), blank, host, first)
      && (blank ==> first == [] || first == [Bad])
  {
    ResolvedHere(lib, t, remoteAddr, FirstLine(lines));
  }

  lemma StrangersTaken(lib: Library, t: Trust, entries: seq<string>)
    requires t.Valid()
    ensures var stop := Stop(Steps(lib, t, entries));
      stop.Take? ==> t.Contains(lib, stop.addr) != Ok(true)
  {
    if Stop(Steps(lib, t, entries)).Take? {
      TakenIsAStranger(lib, t, entries);
    }
  }
}
