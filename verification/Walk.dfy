/** The trusted-proxy walk: which address a request is taken to come from
    (internal/ip/trustedproxy.go, Resolve and normaliseEntry). */
module Walk {
  import opened Wrappers
  import opened Text
  import opened Addresses
  import opened Checking

  const MAX_XFF_ENTRIES := 32

  datatype Source = Xff | PeerUntrusted | PeerNoXff | PeerAllTrusted | PeerMalformed

  datatype Resolution = Resolution(addr: string, source: Source)

  // remoteAddrIP
  function PeerHost(remoteAddr: string): string {
    match SplitHostPort(remoteAddr)
    case Some(hp) => hp.host
    case None => remoteAddr
  }

  function TrimPrefix(s: string, c: char): string {
    if s != "" && s[0] == c then s[1..] else s
  }

  function TrimSuffix(s: string, c: char): string {
    if s != "" && s[|s| - 1] == c then s[..|s| - 1] else s
  }

  // normaliseEntry
  function Normalise(lib: Library, raw: string): (r: Option<string>)
    ensures r.Some? ==> lib.parseIP(r.value).Some?
  {
    var s := TrimSpace(raw);
    if s == "" then None
    else
      var host := match SplitHostPort(s) case Some(hp) => hp.host case None => s;
      var bare := TrimPrefix(TrimSuffix(host, ']'), '[');
      if lib.parseIP(bare).None? then None else Some(bare)
  }

  // What the walk makes of one entry: one of ours, no address, or a stranger's.
  datatype Step = Skip | Bad | Take(addr: string)

  function Look(lib: Library, t: Trust, entry: string): Step
    requires t.Valid()
  {
    match Normalise(lib, entry)
    case None => Bad
    case Some(c) => if t.Contains(lib, c) == Ok(true) then Skip else Take(c)
  }

  function Steps(lib: Library, t: Trust, entries: seq<string>): (steps: seq<Step>)
    requires t.Valid()
    ensures |steps| == |entries|
    ensures forall i :: 0 <= i < |steps| ==> steps[i] == Look(lib, t, entries[i])
  {
    seq(|entries|, i requires 0 <= i < |entries| => Look(lib, t, entries[i]))
  }

  // From right to left, skipping ours.
  function WalkBack(peer: string, steps: seq<Step>): Resolution {
    if steps == [] then Resolution(peer, PeerAllTrusted)
    else
      match steps[|steps| - 1]
      case Skip => WalkBack(peer, steps[..|steps| - 1])
      case Bad => Resolution(peer, PeerMalformed)
      case Take(c) => Resolution(c, Xff)
  }

  // What a request resolves to; a missing checker trusts no one.
  function Resolved(lib: Library, trust: Option<Trust>, remoteAddr: string, raw: string): Resolution
    requires trust.Some? ==> trust.value.Valid()
  {
    var peer := PeerHost(remoteAddr);
    if trust.None? || trust.value.Contains(lib, peer) != Ok(true) then Resolution(peer, PeerUntrusted)
    else if TrimSpace(raw) == "" then Resolution(peer, PeerNoXff)
    else if |Split(raw)| > MAX_XFF_ENTRIES then Resolution(peer, PeerMalformed)
    else WalkBack(peer, Steps(lib, trust.value, Split(raw)))
  }

  lemma UnfoldWalk(peer: string, steps: seq<Step>, i: nat)
    requires i < |steps|
    ensures WalkBack(peer, steps[..i + 1]) ==
      match steps[i]
      case Skip => WalkBack(peer, steps[..i])
      case Bad => Resolution(peer, PeerMalformed)
      case Take(c) => Resolution(c, Xff)
  {
    assert steps[..i + 1][..i] == steps[..i];
  }

  method Resolve(lib: Library, checker: Checker?, remoteAddr: string, raw: string) returns (r: Resolution)
    requires checker != null ==> checker.Trusted().Valid()
    ensures r == Resolved(lib, if checker == null then None else Some(checker.Trusted()), remoteAddr, raw)
  {
    var peer := PeerHost(remoteAddr);
    if checker == null {
      return Resolution(peer, PeerUntrusted);
    }
    var trusted := checker.Contains(lib, peer);
    if trusted.Err? || !trusted.value {
      return Resolution(peer, PeerUntrusted);
    }
    if TrimSpace(raw) == "" {
      return Resolution(peer, PeerNoXff);
    }
    var entries := Split(raw);
    if |entries| > MAX_XFF_ENTRIES {
      return Resolution(peer, PeerMalformed);
    }
    ghost var steps := Steps(lib, checker.Trusted(), entries);
    var i := |entries| - 1;
    assert steps[..i + 1] == steps;
    while i >= 0
      invariant -1 <= i < |entries|
      invariant WalkBack(peer, steps) == WalkBack(peer, steps[..i + 1])
    {
      UnfoldWalk(peer, steps, i);
      var candidate := Normalise(lib, entries[i]);
      if candidate.None? {
        return Resolution(peer, PeerMalformed);
      }
      trusted := checker.Contains(lib, candidate.value);
      if trusted.Ok? && trusted.value {
        i := i - 1;
        continue;
      }
      return Resolution(candidate.value, Xff);
    }
    return Resolution(peer, PeerAllTrusted);
  }

  // ------------------------------------------------ the five exits

  // The i-th entry is the rightmost one that is not stepped over.
  ghost predicate StopsAt(steps: seq<Step>, i: nat) {
    && i < |steps|
    && !steps[i].Skip?
    && forall j :: i < j < |steps| ==> steps[j].Skip?
  }

  ghost predicate AllSkipped(steps: seq<Step>) {
    forall i :: 0 <= i < |steps| ==> steps[i].Skip?
  }

  lemma {:induction false} WalkMeetsStop(peer: string, steps: seq<Step>) returns (i: nat)
    ensures AllSkipped(steps) ==> WalkBack(peer, steps) == Resolution(peer, PeerAllTrusted)
    ensures !AllSkipped(steps) ==> StopsAt(steps, i)
    ensures !AllSkipped(steps) ==>
      WalkBack(peer, steps) == (if steps[i].Bad? then Resolution(peer, PeerMalformed) else Resolution(steps[i].addr, Xff))
  {
    i := 0;
    if steps != [] {
      i := |steps| - 1;
      if steps[i].Skip? {
        i := WalkMeetsStop(peer, steps[..|steps| - 1]);
      }
    }
  }

  // The walk looks at the header only if the peer is ours, the header is not blank
  // and the chain is not implausibly long.
  ghost predicate Walks(lib: Library, t: Trust, remoteAddr: string, raw: string)
    requires t.Valid()
  {
    && t.Contains(lib, PeerHost(remoteAddr)) == Ok(true)
    && !Blank(raw)
    && |Split(raw)| <= MAX_XFF_ENTRIES
  }

  // Each exit, and what is returned there, exactly when.
  lemma {:induction false} ExitsExactly(lib: Library, t: Trust, remoteAddr: string, raw: string)
    requires t.Valid()
    ensures var r := Resolved(lib, Some(t), remoteAddr, raw);
      var peer, steps := PeerHost(remoteAddr), Steps(lib, t, Split(raw));
      var ours := t.Contains(lib, peer) == Ok(true);
      && (r.source == PeerUntrusted <==> !ours)
      && (r.source == PeerNoXff <==> ours && Blank(raw))
      && (r.source == PeerAllTrusted <==> Walks(lib, t, remoteAddr, raw) && AllSkipped(steps))
      && (r.source == PeerMalformed <==>
            || (ours && !Blank(raw) && |steps| > MAX_XFF_ENTRIES)
            || (Walks(lib, t, remoteAddr, raw) && exists i: nat :: StopsAt(steps, i) && steps[i].Bad?))
      && (r.source == Xff <==>
            Walks(lib, t, remoteAddr, raw) && exists i: nat :: StopsAt(steps, i) && steps[i].Take?)
      && (r.source == Xff ==> forall i: nat :: StopsAt(steps, i) ==> r.addr == steps[i].addr)
      && (r.source != Xff ==> r.addr == peer)
  {
    TrimNothing(raw);
    var i := WalkMeetsStop(PeerHost(remoteAddr), Steps(lib, t, Split(raw)));
    StopIsUnique(Steps(lib, t, Split(raw)));
  }

  lemma StopIsUnique(steps: seq<Step>)
    ensures forall i: nat, j: nat :: StopsAt(steps, i) && StopsAt(steps, j) ==> i == j
    ensures AllSkipped(steps) ==> forall i: nat :: !StopsAt(steps, i)
  {
  }

  // ------------------------------------------------ position independence

  lemma {:induction false} WalkSkipsTail(peer: string, steps: seq<Step>, tail: seq<Step>)
    requires AllSkipped(tail)
    ensures WalkBack(peer, steps + tail) == WalkBack(peer, steps)
  {
    if tail == [] {
      assert steps + tail == steps;
    } else {
      assert (steps + tail)[..|steps + tail| - 1] == steps + tail[..|tail| - 1];
      WalkSkipsTail(peer, steps, tail[..|tail| - 1]);
    }
  }

  lemma {:induction false} WalkStopsEarly(peer: string, head: seq<Step>, steps: seq<Step>)
    requires WalkBack(peer, steps).source != PeerAllTrusted
    ensures WalkBack(peer, head + steps) == WalkBack(peer, steps)
  {
    if steps != [] && steps[|steps| - 1].Skip? {
      assert (head + steps)[..|head + steps| - 1] == head + steps[..|steps| - 1];
      WalkStopsEarly(peer, head, steps[..|steps| - 1]);
    }
  }

  // A header put together from two, read as one.
  lemma JoinedHeader(lib: Library, t: Trust, a: string, b: string)
    requires t.Valid()
    ensures Steps(lib, t, Split(a + "," + b)) == Steps(lib, t, Split(a)) + Steps(lib, t, Split(b))
    ensures TrimSpace(a + "," + b) != "" && |Split(a + "," + b)| == |Split(a)| + |Split(b)|
  {
    SplitJoined(a, b);
    StepsOfBoth(lib, t, Split(a), Split(b));
    JoinedIsNotBlank(a, b);
  }

  lemma StepsOfBoth(lib: Library, t: Trust, a: seq<string>, b: seq<string>)
    requires t.Valid()
    ensures Steps(lib, t, a + b) == Steps(lib, t, a) + Steps(lib, t, b)
  {
  }

  lemma JoinedIsNotBlank(a: string, b: string)
    ensures TrimSpace(a + "," + b) != ""
  {
    TrimNothing(a + "," + b);
    assert (a + "," + b)[|a|] == ',';
  }

  // Entries of ours appended on the right of the header change nothing.
  lemma {:induction false} TrustedHopsAreInvisible(lib: Library, t: Trust, remoteAddr: string, raw: string, hops: string)
    requires t.Valid() && !Blank(raw)
    requires |Split(raw)| + |Split(hops)| <= MAX_XFF_ENTRIES
    requires AllSkipped(Steps(lib, t, Split(hops)))
    ensures Resolved(lib, Some(t), remoteAddr, raw + "," + hops) == Resolved(lib, Some(t), remoteAddr, raw)
  {
    JoinedHeader(lib, t, raw, hops);
    TrimNothing(raw);
    WalkSkipsTail(PeerHost(remoteAddr), Steps(lib, t, Split(raw)), Steps(lib, t, Split(hops)));
  }

  // ------------------------------------------------ the floor

  // The peer is only the floor of the walk: it matters where no entry is taken.
  lemma {:induction false} PeerIsTheFloor(peer: string, other: string, steps: seq<Step>)
    ensures WalkBack(peer, steps).source == WalkBack(other, steps).source
    ensures WalkBack(peer, steps).addr == if WalkBack(other, steps).source == Xff then WalkBack(other, steps).addr else peer
  {
    if steps != [] {
      PeerIsTheFloor(peer, other, steps[..|steps| - 1]);
    }
  }

  // In terms of the steps: what is made of a request, its peer being one of ours or not.
  function HereBySteps(ours: bool, blank: bool, host: string, steps: seq<Step>): Resolution {
    if !ours then Resolution(host, PeerUntrusted)
    else if blank then Resolution(host, PeerNoXff)
    else if |steps| > MAX_XFF_ENTRIES then Resolution(host, PeerMalformed)
    else WalkBack(host, steps)
  }

  lemma ResolvedHere(lib: Library, t: Trust, remoteAddr: string, raw: string)
    requires t.Valid()
    ensures var host := PeerHost(remoteAddr);
      Resolved(lib, Some(t), remoteAddr, raw) ==
        HereBySteps(t.Contains(lib, host) == Ok(true), Blank(raw), host, Steps(lib, t, Split(raw)))
    ensures Blank(raw) ==> Steps(lib, t, Split(raw)) == [Bad]
  {
    TrimNothing(raw);
    if Blank(raw) {
      assert ',' !in raw;
      SplitSingle(raw);
      assert Look(lib, t, raw) == Bad;
    }
  }

  // The result is empty exactly when the peer's own host is.
  lemma {:induction false} EmptyExactly(lib: Library, trust: Option<Trust>, remoteAddr: string, raw: string)
    requires lib.Lawful() && (trust.Some? ==> trust.value.Valid())
    ensures Resolved(lib, trust, remoteAddr, raw).addr == "" <==> PeerHost(remoteAddr) == ""
  {
    if trust.Some? {
      var host, steps := PeerHost(remoteAddr), Steps(lib, trust.value, Split(raw));
      ResolvedHere(lib, trust.value, remoteAddr, raw);
      PeerIsTheFloor(host, host, steps);
      if WalkBack(host, steps).source == Xff {
        TakenIsAddress(lib, trust.value, host, Split(raw));
      }
    }
  }

  lemma {:induction false} TakenIsAddress(lib: Library, t: Trust, peer: string, entries: seq<string>)
    requires lib.Lawful() && t.Valid() && WalkBack(peer, Steps(lib, t, entries)).source == Xff
    ensures AddressText(WalkBack(peer, Steps(lib, t, entries)).addr)
  {
    var n := |entries| - 1;
    assert Steps(lib, t, entries)[..n] == Steps(lib, t, entries[..n]);
    match Look(lib, t, entries[n]) {
      case Skip => TakenIsAddress(lib, t, peer, entries[..n]);
      case Take(addr) => assert lib.parseIP(addr).Some?;
    }
  }

  // The bound on the walk: a chain of up to 32 entries is walked, and no longer one.
  lemma ThirtyTwoEntries(lib: Library, t: Trust, remoteAddr: string, raw: string)
    requires t.Valid() && t.Contains(lib, PeerHost(remoteAddr)) == Ok(true) && !Blank(raw)
    ensures |Split(raw)| > 32 ==> Resolved(lib, Some(t), remoteAddr, raw) == Resolution(PeerHost(remoteAddr), PeerMalformed)
    ensures |Split(raw)| <= 32 ==> Resolved(lib, Some(t), remoteAddr, raw) == WalkBack(PeerHost(remoteAddr), Steps(lib, t, Split(raw)))
  {
    ResolvedHere(lib, t, remoteAddr, raw);
  }

  // ------------------------------------------------ what is not read

  // A client may write what it likes in front: once the walk stops it is not read.
  lemma {:induction false} PrependedEntriesAreNotRead(lib: Library, t: Trust, remoteAddr: string, forged: string, raw: string)
    requires t.Valid() && !Blank(raw)
    requires |Split(forged)| + |Split(raw)| <= MAX_XFF_ENTRIES
    requires Resolved(lib, Some(t), remoteAddr, raw).source != PeerAllTrusted
    ensures Resolved(lib, Some(t), remoteAddr, forged + "," + raw) == Resolved(lib, Some(t), remoteAddr, raw)
  {
    JoinedHeader(lib, t, forged, raw);
    TrimNothing(raw);
    if t.Contains(lib, PeerHost(remoteAddr)) == Ok(true) {
      assert Resolved(lib, Some(t), remoteAddr, raw) == WalkBack(PeerHost(remoteAddr), Steps(lib, t, Split(raw)));
      WalkStopsEarly(PeerHost(remoteAddr), Steps(lib, t, Split(forged)), Steps(lib, t, Split(raw)));
    }
  }

  // ------------------------------------------------ ways of writing an entry

  // Headers whose entries read alike resolve alike.
  lemma {:induction false} WritingDoesNotMatter(lib: Library, t: Trust, remoteAddr: string, raw: string, other: string)
    requires t.Valid() && !Blank(raw) && !Blank(other) && |Split(raw)| == |Split(other)|
    requires forall i :: 0 <= i < |Split(raw)| ==> Normalise(lib, Split(raw)[i]) == Normalise(lib, Split(other)[i])
    ensures Resolved(lib, Some(t), remoteAddr, raw) == Resolved(lib, Some(t), remoteAddr, other)
  {
    TrimNothing(raw);
    TrimNothing(other);
    assert Steps(lib, t, Split(raw)) == Steps(lib, t, Split(other));
  }

  // An address reads alike bare, in brackets, in brackets with a port and, if it has
  // no colon of its own, with a port; each with any spaces around it.
  lemma WaysOfWriting(lib: Library, addr: string, port: string, left: string, right: string)
    requires lib.Lawful() && lib.parseIP(addr).Some?
    requires NoMarks(port) && (forall i :: 0 <= i < |port| ==> !IsSpace(port[i]))
    requires Blank(left) && Blank(right)
    ensures Normalise(lib, left + addr + right) == Some(addr)
    ensures Normalise(lib, left + ("[" + addr + "]") + right) == Some(addr)
    ensures Normalise(lib, left + ("[" + addr + "]:" + port) + right) == Some(addr)
    ensures ':' !in addr ==> Normalise(lib, left + (addr + ":" + port) + right) == Some(addr)
  {
    BareForm(lib, addr, left, right);
    BracketedForm(lib, addr, left, right);
    BracketedPortForm(lib, addr, port, left, right);
    if ':' !in addr {
      PortForm(lib, addr, port, left, right);
    }
  }

  lemma BracketedForm(lib: Library, addr: string, left: string, right: string)
    requires lib.Lawful() && lib.parseIP(addr).Some? && Blank(left) && Blank(right)
    ensures Normalise(lib, left + ("[" + addr + "]") + right) == Some(addr)
  {
    assert AddressText(addr);
    TrimPadded(left, "[" + addr + "]", right);
    BracketsOnly(addr);
    assert TrimSuffix("[" + addr + "]", ']') == "[" + addr;
  }

  lemma BracketedPortForm(lib: Library, addr: string, port: string, left: string, right: string)
    requires lib.Lawful() && lib.parseIP(addr).Some? && Blank(left) && Blank(right)
    requires NoMarks(port) && (forall i :: 0 <= i < |port| ==> !IsSpace(port[i]))
    ensures Normalise(lib, left + ("[" + addr + "]:" + port) + right) == Some(addr)
  {
    assert AddressText(addr);
    TrimPadded(left, "[" + addr + "]:" + port, right);
    SplitBracketed(addr, port);
  }

  lemma PortForm(lib: Library, addr: string, port: string, left: string, right: string)
    requires lib.Lawful() && lib.parseIP(addr).Some? && Blank(left) && Blank(right) && ':' !in addr
    requires NoMarks(port) && (forall i :: 0 <= i < |port| ==> !IsSpace(port[i]))
    ensures Normalise(lib, left + (addr + ":" + port) + right) == Some(addr)
  {
    assert AddressText(addr);
    TrimPadded(left, addr + ":" + port, right);
    SplitPlain(addr, port);
  }

  lemma BareForm(lib: Library, addr: string, left: string, right: string)
    requires lib.Lawful() && lib.parseIP(addr).Some? && Blank(left) && Blank(right)
    ensures TrimSpace(left + addr + right) == addr
    ensures Normalise(lib, left + addr + right) == Some(addr)
  {
    assert AddressText(addr);
    BareText(lib, addr, left, right);
  }

  // A text of that shape is taken as it stands, if it can be read at all.
  lemma BareText(lib: Library, text: string, left: string, right: string)
    requires AddressText(text) && Blank(left) && Blank(right)
    ensures TrimSpace(left + text + right) == text
    ensures Normalise(lib, left + text + right) == if lib.parseIP(text).None? then None else Some(text)
  {
    TrimPadded(left, text, right);
    if ':' in text {
      var i, j :| 0 <= i < j < |text| && text[i] == ':' && text[j] == ':';
      NoPort(text, i, j);
    } else {
      NoPort(text, 0, 0);
    }
  }
}
