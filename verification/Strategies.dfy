/** The simpler selections of a client address (internal/ip/strategy.go), and where
    they agree with the walk. */
module Strategies {
  import opened Wrappers
  import opened Text
  import opened Addresses
  import opened Checking
  import opened Walk

  // DepthStrategy.GetIP; a depth below one is never configured.
  function DepthIP(raw: string, depth: nat): string
    requires depth >= 1
  {
    var xffs := Split(raw);
    if |xffs| < depth then "" else TrimSpace(xffs[|xffs| - depth])
  }

  // What the pool makes of one entry: nothing, if it is blank or one of ours.
  function PoolLook(lib: Library, t: Trust, entry: string): Option<string>
    requires t.Valid()
  {
    var trimmed := TrimSpace(entry);
    if trimmed == "" || t.Contains(lib, trimmed) == Ok(true) then None else Some(trimmed)
  }

  function PoolLooks(lib: Library, t: Trust, xffs: seq<string>): (looks: seq<Option<string>>)
    requires t.Valid()
    ensures |looks| == |xffs|
    ensures forall i :: 0 <= i < |looks| ==> looks[i] == PoolLook(lib, t, xffs[i])
  {
    seq(|xffs|, i requires 0 <= i < |xffs| => PoolLook(lib, t, xffs[i]))
  }

  // The rightmost one, or the empty text.
  function Rightmost(looks: seq<Option<string>>): string {
    if looks == [] then ""
    else
      match looks[|looks| - 1]
      case Some(s) => s
      case None => Rightmost(looks[..|looks| - 1])
  }

  function PoolIP(lib: Library, t: Trust, xffs: seq<string>): string
    requires t.Valid()
  {
    Rightmost(PoolLooks(lib, t, xffs))
  }

  lemma UnfoldRightmost(looks: seq<Option<string>>, i: nat)
    requires i < |looks|
    ensures Rightmost(looks[..i + 1]) == if looks[i].Some? then looks[i].value else Rightmost(looks[..i])
  {
    assert looks[..i + 1][..i] == looks[..i];
  }

  // PoolStrategy.GetIP
  method GetPoolIP(lib: Library, checker: Checker?, raw: string) returns (ip: string)
    requires checker != null ==> checker.Trusted().Valid()
    ensures ip == if checker == null then "" else PoolIP(lib, checker.Trusted(), Split(raw))
  {
    if checker == null {
      return "";
    }
    var xffs := Split(raw);
    ghost var looks := PoolLooks(lib, checker.Trusted(), xffs);
    assert looks[..|xffs|] == looks;
    var i := |xffs| - 1;
    while i >= 0
      invariant -1 <= i < |xffs|
      invariant Rightmost(looks) == Rightmost(looks[..i + 1])
    {
      UnfoldRightmost(looks, i);
      var xffTrimmed := TrimSpace(xffs[i]);
      if |xffTrimmed| == 0 {
        i := i - 1;
        continue;
      }
      var contain := checker.Contains(lib, xffTrimmed);
      if contain.Err? || !contain.value {
        return xffTrimmed;
      }
      i := i - 1;
    }
    return "";
  }

  // ------------------------------------------------ when nothing is selected

  lemma DepthEmptyExactly(raw: string, depth: nat)
    requires depth >= 1
    ensures DepthIP(raw, depth) == "" <==> |Split(raw)| < depth || Blank(Split(raw)[|Split(raw)| - depth])
  {
    var xffs := Split(raw);
    if |xffs| >= depth {
      TrimNothing(xffs[|xffs| - depth]);
    }
  }

  // Blank, or one of ours.
  ghost predicate Pooled(lib: Library, t: Trust, entry: string)
    requires t.Valid()
  {
    Blank(entry) || t.Contains(lib, TrimSpace(entry)) == Ok(true)
  }

  ghost predicate AllPooled(lib: Library, t: Trust, entries: seq<string>)
    requires t.Valid()
  {
    forall i :: 0 <= i < |entries| ==> Pooled(lib, t, entries[i])
  }

  lemma {:induction false} RightmostEmpty(looks: seq<Option<string>>)
    requires forall i :: 0 <= i < |looks| ==> looks[i] != Some("")
    ensures Rightmost(looks) == "" <==> forall i :: 0 <= i < |looks| ==> looks[i].None?
  {
    if looks != [] && looks[|looks| - 1].None? {
      RightmostEmpty(looks[..|looks| - 1]);
    }
  }

  lemma PoolEmptyExactly(lib: Library, t: Trust, xffs: seq<string>)
    requires t.Valid()
    ensures PoolIP(lib, t, xffs) == "" <==> AllPooled(lib, t, xffs)
  {
    forall i | 0 <= i < |xffs|
      ensures Pooled(lib, t, xffs[i]) <==> PoolLook(lib, t, xffs[i]).None?
    {
      TrimNothing(xffs[i]);
    }
    RightmostEmpty(PoolLooks(lib, t, xffs));
  }

  // ------------------------------------------------ where the strategies agree

  // An entry that is a plain address, up to spaces around it.
  ghost predicate Plain(lib: Library, entry: string) {
    lib.parseIP(TrimSpace(entry)).Some?
  }

  lemma LookAtPlain(lib: Library, t: Trust, entry: string)
    requires lib.Lawful() && t.Valid() && Plain(lib, entry)
    ensures TrimSpace(entry) != ""
    ensures Look(lib, t, entry) == if t.Contains(lib, TrimSpace(entry)) == Ok(true) then Skip else Take(TrimSpace(entry))
  {
    var addr := TrimSpace(entry);
    assert AddressText(addr);
    BareForm(lib, addr, "", "");
    assert "" + addr + "" == addr;
  }

  ghost predicate Hop(lib: Library, t: Trust, entry: string)
    requires t.Valid()
  {
    Plain(lib, entry) && t.Contains(lib, TrimSpace(entry)) == Ok(true)
  }

  ghost predicate Stranger(lib: Library, t: Trust, entry: string)
    requires t.Valid()
  {
    Plain(lib, entry) && t.Contains(lib, TrimSpace(entry)) != Ok(true)
  }

  // The chain ends in exactly k plain addresses of ours, after a plain stranger.
  ghost predicate EndsInHops(lib: Library, t: Trust, entries: seq<string>, k: nat)
    requires t.Valid()
  {
    && k < |entries|
    && Stranger(lib, t, entries[|entries| - k - 1])
    && (forall i :: |entries| - k <= i < |entries| ==> Hop(lib, t, entries[i]))
  }

  lemma {:induction false} RightmostAt(looks: seq<Option<string>>, i: nat)
    requires i < |looks| && looks[i].Some?
    requires forall j :: i < j < |looks| ==> looks[j] == None
    ensures Rightmost(looks) == looks[i].value
  {
    if i < |looks| - 1 {
      RightmostAt(looks[..|looks| - 1], i);
    }
  }

  lemma PoolLooksAtHops(lib: Library, t: Trust, entries: seq<string>, k: nat)
    requires lib.Lawful() && t.Valid() && EndsInHops(lib, t, entries, k)
    ensures var looks, stop := PoolLooks(lib, t, entries), |entries| - k - 1;
      && looks[stop] == Some(TrimSpace(entries[stop]))
      && forall j :: stop < j < |looks| ==> looks[j] == None
  {
    LookAtPlain(lib, t, entries[|entries| - k - 1]);
    assert forall j :: |entries| - k <= j < |entries| ==> Hop(lib, t, entries[j]);
  }

  lemma {:induction false} WalkBackAt(peer: string, steps: seq<Step>, i: nat, addr: string)
    requires StopsAt(steps, i) && steps[i] == Take(addr)
    ensures WalkBack(peer, steps) == Resolution(addr, Xff)
  {
    if i < |steps| - 1 {
      WalkBackAt(peer, steps[..|steps| - 1], i, addr);
    }
  }

  lemma StepsAtHops(lib: Library, t: Trust, entries: seq<string>, k: nat)
    requires lib.Lawful() && t.Valid() && EndsInHops(lib, t, entries, k)
    ensures var steps, stop := Steps(lib, t, entries), |entries| - k - 1;
      steps[stop] == Take(TrimSpace(entries[stop])) && StopsAt(steps, stop)
  {
    LookAtPlain(lib, t, entries[|entries| - k - 1]);
    forall j | |entries| - k <= j < |entries|
      ensures Steps(lib, t, entries)[j].Skip?
    {
      HopIsSkipped(lib, t, entries[j]);
    }
  }

  lemma HopIsSkipped(lib: Library, t: Trust, entry: string)
    requires lib.Lawful() && t.Valid() && Hop(lib, t, entry)
    ensures Look(lib, t, entry) == Skip
  {
    LookAtPlain(lib, t, entry);
  }

  lemma WalkAtHops(lib: Library, t: Trust, peer: string, entries: seq<string>, k: nat)
    requires lib.Lawful() && t.Valid() && EndsInHops(lib, t, entries, k)
    ensures WalkBack(peer, Steps(lib, t, entries)) == Resolution(TrimSpace(entries[|entries| - k - 1]), Xff)
  {
    StepsAtHops(lib, t, entries, k);
    WalkBackAt(peer, Steps(lib, t, entries), |entries| - k - 1, TrimSpace(entries[|entries| - k - 1]));
  }

  lemma PoolAtHops(lib: Library, t: Trust, entries: seq<string>, k: nat)
    requires lib.Lawful() && t.Valid() && EndsInHops(lib, t, entries, k)
    ensures PoolIP(lib, t, entries) == TrimSpace(entries[|entries| - k - 1])
  {
    PoolLooksAtHops(lib, t, entries, k);
    RightmostAt(PoolLooks(lib, t, entries), |entries| - k - 1);
  }

  lemma ResolvedByWalk(lib: Library, t: Trust, remoteAddr: string, raw: string, entries: seq<string>)
    requires t.Valid() && t.Contains(lib, PeerHost(remoteAddr)) == Ok(true)
    requires TrimSpace(raw) != "" && entries == Split(raw) && |entries| <= MAX_XFF_ENTRIES
    ensures Resolved(lib, Some(t), remoteAddr, raw) == WalkBack(PeerHost(remoteAddr), Steps(lib, t, entries))
  {
  }

  lemma DepthAtHops(raw: string, entries: seq<string>, k: nat)
    requires entries == Split(raw) && k < |entries|
    ensures DepthIP(raw, k + 1) == TrimSpace(entries[|entries| - k - 1])
  {
  }

  // On a well-formed chain that ends in k of our hops, the walk, the pool and the
  // depth k + 1 all select the same address.
  lemma {:induction false} StrategiesAgree(lib: Library, t: Trust, remoteAddr: string, raw: string, k: nat)
    requires lib.Lawful() && t.Valid()
    requires t.Contains(lib, PeerHost(remoteAddr)) == Ok(true)
    requires |Split(raw)| <= MAX_XFF_ENTRIES && EndsInHops(lib, t, Split(raw), k)
    ensures Resolved(lib, Some(t), remoteAddr, raw) == Resolution(DepthIP(raw, k + 1), Xff)
    ensures PoolIP(lib, t, Split(raw)) == DepthIP(raw, k + 1)
  {
    var entries := Split(raw);
    HopsAreNotBlank(lib, t, raw, k);
    ResolvedByWalk(lib, t, remoteAddr, raw, entries);
    DepthAtHops(raw, entries, k);
    WalkAtHops(lib, t, PeerHost(remoteAddr), entries, k);
    PoolAtHops(lib, t, entries, k);
  }

  lemma HopsAreNotBlank(lib: Library, t: Trust, raw: string, k: nat)
    requires lib.Lawful() && t.Valid() && EndsInHops(lib, t, Split(raw), k)
    ensures TrimSpace(raw) != ""
  {
    TrimNothing(raw);
    if Blank(raw) {
      BlankIsOneEntry(raw);
      LookAtPlain(lib, t, Split(raw)[0]);
    }
  }

  lemma BlankIsOneEntry(raw: string)
    requires Blank(raw)
    ensures Split(raw) == [raw]
  {
    assert ',' !in raw;
    SplitSingle(raw);
  }
}
