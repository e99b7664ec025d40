/** A gateway at work: a middleware, newly built, serves any number of requests one
    after the other. What the objects do is a run of the cluster, and so the limit
    holds for what they answer. */
module Sessions {
  import opened Wrappers
  import opened Addresses
  import opened Scripts
  import opened Middleware
  import opened Cluster
  import opened ClusterRuns
  import opened Configuring
  import G = Gcra
  import B = Breaker
  import L = ClusterBound
  import R = Runs
  import S = Serving

  // A request, when it comes and goes on the gateway's clock, and its luck.
  datatype Visit = Visit(message: Message, start: int, link: Link, end: int)

  // One after the other, after the gateway was made.
  ghost predicate InTurn(created: int, visits: seq<Visit>) {
    && (forall i :: 0 <= i < |visits| ==> created < visits[i].start <= visits[i].end)
    && (forall i, j :: 0 <= i < j < |visits| ==> visits[i].end <= visits[j].start)
  }

  function Serve(p: Policy, redisPrefix: string, settings: B.Settings, s: Backend, v: Visit): (Response, Backend)
    requires p.Valid()
  {
    Served(p, redisPrefix, settings, s, RouteOf(p, v.message), v.start, v.link, v.end)
  }

  // The answers to all of them, and what they leave behind.
  function Session(p: Policy, redisPrefix: string, settings: B.Settings, s: Backend, visits: seq<Visit>)
    : (result: (seq<Response>, Backend))
    requires p.Valid()
    ensures |result.0| == |visits|
  {
    if visits == [] then ([], s)
    else
      var (resps, mid) := Session(p, redisPrefix, settings, s, visits[..|visits| - 1]);
      var (resp, after) := Serve(p, redisPrefix, settings, mid, visits[|visits| - 1]);
      (resps + [resp], after)
  }

  lemma OneMoreVisit(p: Policy, redisPrefix: string, settings: B.Settings, s: Backend, visits: seq<Visit>, n: nat)
    requires p.Valid() && n < |visits|
    ensures var (resps, mid) := Session(p, redisPrefix, settings, s, visits[..n]);
      var (resp, after) := Serve(p, redisPrefix, settings, mid, visits[n]);
      Session(p, redisPrefix, settings, s, visits[..n + 1]) == (resps + [resp], after)
  {
    assert visits[..n + 1][..n] == visits[..n];
  }

  // One request, from its arrival on; the gateway is then free for the next.
  method ServeOne(rl: ClusterRateLimit, v: Visit) returns (resp: Response)
    requires rl.Configured().Valid() && rl.limiter.Valid() && rl.limiter.allowN.Ready(v.start, v.end)
    modifies rl.limiter.allowN, rl.limiter.allowN.script, rl.limiter.rdb
    ensures rl.limiter.Valid()
    ensures rl.limiter.allowN.Free(v.end)
    ensures (resp, rl.limiter.allowN.State()) ==
      Serve(rl.Configured(), rl.limiter.redisPrefix, rl.limiter.allowN.settings, old(rl.limiter.allowN.State()), v)
  {
    var req := new Request(v.message);
    resp := rl.ServeHTTP(req, v.start, v.link, v.end);
  }

  method ServeInTurn(rl: ClusterRateLimit, visits: seq<Visit>) returns (resps: seq<Response>)
    requires rl.Configured().Valid() && rl.limiter.Valid() && InTurn(rl.limiter.allowN.created, visits)
    requires visits != [] ==> rl.limiter.allowN.Ready(visits[0].start, visits[0].end)
    modifies rl.limiter.allowN, rl.limiter.allowN.script, rl.limiter.rdb
    ensures rl.limiter.Valid()
    ensures (resps, rl.limiter.allowN.State()) ==
      Session(rl.Configured(), rl.limiter.redisPrefix, rl.limiter.allowN.settings, old(rl.limiter.allowN.State()), visits)
  {
    ghost var p, redisPrefix, settings := rl.Configured(), rl.limiter.redisPrefix, rl.limiter.allowN.settings;
    ghost var s := rl.limiter.allowN.State();
    resps := [];
    for n := 0 to |visits|
      invariant rl.limiter.Valid()
      invariant n < |visits| ==> rl.limiter.allowN.Ready(visits[n].start, visits[n].end)
      invariant (resps, rl.limiter.allowN.State()) == Session(p, redisPrefix, settings, s, visits[..n])
    {
      var resp := ServeOne(rl, visits[n]);
      OneMoreVisit(p, redisPrefix, settings, s, visits, n);
      resps := resps + [resp];
    }
    assert visits[..|visits|] == visits;
  }

  // ------------------------------------------------ the limit

  // The store's clock, as far as the session sees it, does not run backwards.
  ghost predicate Clocked(clock: real, visits: seq<Visit>) {
    && (forall i :: 0 <= i < |visits| && !visits[i].link.fate.NotRun? ==> clock <= visits[i].link.fate.time)
    && (forall i, j :: 0 <= i < j < |visits| && !visits[i].link.fate.NotRun? && !visits[j].link.fate.NotRun? ==>
          visits[i].link.fate.time <= visits[j].link.fate.time)
  }

  // What the cluster knows of a session on one of its gateways.
  ghost predicate Follows(c: Setup, s: State, gateway: Gateway, clock: real, visits: seq<Visit>, resps: seq<Response>, backend: Backend)
    requires c.Valid() && |resps| == |visits|
  {
    && gateway in s.breakers && BackendOf(s, gateway, backend.loaded) == backend
    && CallsFollow(c, s.calls, visits, resps)
    && ClockFollows(clock, s.clock, visits)
  }

  ghost predicate CallsFollow(c: Setup, calls: map<Id, Call>, visits: seq<Visit>, resps: seq<Response>)
    requires c.Valid() && |resps| == |visits|
  {
    && (forall id :: id in calls <==> 0 <= id < |visits|)
    && (forall i :: 0 <= i < |visits| ==> Answers(c, calls[i], visits[i], resps[i]))
  }

  ghost predicate ClockFollows(clock: real, now: real, visits: seq<Visit>) {
    now == clock || exists i :: 0 <= i < |visits| && !visits[i].link.fate.NotRun? && now == visits[i].link.fate.time
  }

  ghost predicate Answers(c: Setup, call: Call, v: Visit, resp: Response)
    requires c.Valid()
  {
    && call.caller == Done(resp) && call.route == RouteOf(c.policy, v.message)
    && (call.command.Ran? ==> !v.link.fate.NotRun? && RanAt(call, v.link.fate.time))
  }

  lemma SameAnswers(c: Setup, call: Call, v: Visit, resp: Response, call': Call, v': Visit, resp': Response)
    requires c.Valid() && Answers(c, call, v, resp) && call == call' && v == v' && resp == resp'
    ensures Answers(c, call', v', resp')
  {
  }

  lemma AnswersOneMore(c: Setup, calls: map<Id, Call>, visits: seq<Visit>, resps: seq<Response>, v: Visit, call: Call, resp: Response, i: nat)
    requires c.Valid() && |resps| == |visits| && CallsFollow(c, calls, visits, resps) && Answers(c, call, v, resp)
    requires i <= |visits|
    ensures i in calls[|visits| := call]
    ensures Answers(c, calls[|visits| := call][i], (visits + [v])[i], (resps + [resp])[i])
  {
    if i < |visits| {
      SameAnswers(c, calls[i], visits[i], resps[i], calls[|visits| := call][i], (visits + [v])[i], (resps + [resp])[i]);
    }
  }

  lemma CallsGrow(c: Setup, calls: map<Id, Call>, visits: seq<Visit>, resps: seq<Response>, v: Visit, call: Call, resp: Response)
    requires c.Valid() && |resps| == |visits| && CallsFollow(c, calls, visits, resps) && Answers(c, call, v, resp)
    ensures CallsFollow(c, calls[|visits| := call], visits + [v], resps + [resp])
  {
    var calls', visits', resps' := calls[|visits| := call], visits + [v], resps + [resp];
    forall i | 0 <= i < |visits'|
      ensures Answers(c, calls'[i], visits'[i], resps'[i])
    {
      AnswersOneMore(c, calls, visits, resps, v, call, resp, i);
    }
  }

  lemma ClockGrows(clock: real, now: real, visits: seq<Visit>, v: Visit)
    requires Clocked(clock, visits + [v]) && ClockFollows(clock, now, visits)
    ensures !v.link.fate.NotRun? ==> now <= v.link.fate.time && ClockFollows(clock, v.link.fate.time, visits + [v])
    ensures ClockFollows(clock, now, visits + [v])
  {
    var longer := visits + [v];
    assert longer[|visits|] == v;
    assert forall i :: 0 <= i < |visits| ==> longer[i] == visits[i];
  }

  // One more visit, on a cluster that follows the session so far.
  lemma VisitIsARun(c: Setup, s: State, gateway: Gateway, clock: real, visits: seq<Visit>, resps: seq<Response>, backend: Backend, v: Visit)
    returns (s': State)
    requires c.Valid() && gateway in c.gateways && |resps| == |visits| && Clocked(clock, visits + [v])
    requires Reachable(c, s) && Follows(c, s, gateway, clock, visits, resps, backend)
    ensures var (resp, after) := Serve(c.policy, c.redisPrefix, c.gateways[gateway].settings, backend, v);
      Reachable(c, s') && Follows(c, s', gateway, clock, visits + [v], resps + [resp], after)
  {
    var id := |visits|;
    ClockGrows(clock, s.clock, visits, v);
    var acts := ServingIsARun(c, s, id, gateway, v.message, v.start, backend.loaded, v.link, v.end);
    s' := After(c, s, acts).value;
    ReachableFurther(c, s, acts);
    CallsGrow(c, s.calls, visits, resps, v, s'.calls[id],
              Serve(c.policy, c.redisPrefix, c.gateways[gateway].settings, backend, v).0);
  }

  lemma {:induction false} SessionIsARun(c: Setup, gateway: Gateway, clock: real, visits: seq<Visit>) returns (s: State)
    requires c.Valid() && gateway in c.gateways && Clocked(clock, visits)
    ensures var g := c.gateways[gateway];
      var (resps, after) := Session(c.policy, c.redisPrefix, g.settings, Backend(map[], B.State(0, g.created), false), visits);
      Reachable(c, s) && Follows(c, s, gateway, clock, visits, resps, after)
  {
    if visits == [] {
      s := Initial(c, clock);
      assert After(c, Initial(c, clock), []) == Some(s);
    } else {
      var g, before, v := c.gateways[gateway], visits[..|visits| - 1], visits[|visits| - 1];
      assert before + [v] == visits;
      s := SessionIsARun(c, gateway, clock, before);
      var (resps, mid) := Session(c.policy, c.redisPrefix, g.settings, Backend(map[], B.State(0, g.created), false), before);
      s := VisitIsARun(c, s, gateway, clock, before, resps, mid, v);
    }
  }

  // The documented limit: a burst, and an average for every period of a window's length.
  function Bound(burst: int, average: int, period: int, length: real): real
    requires period >= 1
  {
    burst as real + length * (average as real / period as real)
  }

  lemma BoundIsAsDocumented(burst: int, average: int, period: int, length: real, n: real)
    requires period >= 1
    ensures n <= Bound(burst, average, period, length) <==> (n - burst as real) * period as real <= length * average as real
  {
    var rate := average as real / period as real;
    assert rate * period as real == average as real;
    OutOfThePeriod(n - burst as real, length, rate, period as real);
  }

  lemma WithinBound(p: Policy, length: real, n: real)
    requires p.Valid() && p.average > 0 && n <= L.Allowance(p.Limit(), length)
    ensures n <= Bound(p.burst, p.average, p.period, length)
  {
    L.AllowanceInFields(p, length);
  }

  lemma OutOfThePeriod(over: real, length: real, rate: real, period: real)
    requires period > 0.0
    ensures over <= length * rate <==> over * period <= length * (rate * period)
  {
    assert length * (rate * period) - over * period == (length * rate - over) * period;
    G.Positive(period, length * rate - over);
  }

  // The visits to one bucket whose script would have run within a window, and that were
  // let through.
  ghost function LetThrough(p: Policy, visits: seq<Visit>, resps: seq<Response>, key: string, a: real, b: real): set<Id>
    requires p.Valid() && |resps| == |visits|
  {
    set i | 0 <= i < |visits| && RouteOf(p, visits[i].message) == Bucket(key) && resps[i] == Forwarded
      && !visits[i].link.fate.NotRun? && a <= visits[i].link.fate.time <= b
  }

  // Whatever comes and whatever fails, one gateway in the closed mode lets through no
  // counted request whose script did not run, and no more of those that did than the
  // limit allows in any window.
  lemma SessionKeepsLimit(c: Setup, gateway: Gateway, clock: real, visits: seq<Visit>)
    requires c.Valid() && gateway in c.gateways && Clocked(clock, visits) && c.policy.failureMode == FailClosed
    ensures var g := c.gateways[gateway];
      var resps := Session(c.policy, c.redisPrefix, g.settings, Backend(map[], B.State(0, g.created), false), visits).0;
      && (forall i :: 0 <= i < |visits| && RouteOf(c.policy, visits[i].message).Bucket? && resps[i] == Forwarded ==>
            !visits[i].link.fate.NotRun?)
      && forall key, a: real, b: real :: a <= b ==>
           |LetThrough(c.policy, visits, resps, key, a, b)| as real <= Bound(c.policy.burst, c.policy.average, c.policy.period, b - a)
  {
    var g := c.gateways[gateway];
    var (resps, after) := Session(c.policy, c.redisPrefix, g.settings, Backend(map[], B.State(0, g.created), false), visits);
    var s := SessionIsARun(c, gateway, clock, visits);
    FollowingKeepsLimit(c, s, visits, resps);
  }

  lemma FollowingKeepsLimit(c: Setup, s: State, visits: seq<Visit>, resps: seq<Response>)
    requires c.Valid() && c.policy.failureMode == FailClosed && Reachable(c, s)
    requires |resps| == |visits| && CallsFollow(c, s.calls, visits, resps)
    ensures forall i :: 0 <= i < |visits| && RouteOf(c.policy, visits[i].message).Bucket? && resps[i] == Forwarded ==>
      !visits[i].link.fate.NotRun?
    ensures forall key, a: real, b: real :: a <= b ==>
      |LetThrough(c.policy, visits, resps, key, a, b)| as real <= Bound(c.policy.burst, c.policy.average, c.policy.period, b - a)
  {
    L.ClosedModeIsWithin(c, s);
    forall i | 0 <= i < |visits| && RouteOf(c.policy, visits[i].message).Bucket? && resps[i] == Forwarded
      ensures !visits[i].link.fate.NotRun?
    {
      assert Answers(c, s.calls[i], visits[i], resps[i]);
      assert Admitted(s.calls[i]);
    }
    forall key, a: real, b: real | a <= b
      ensures |LetThrough(c.policy, visits, resps, key, a, b)| as real <= Bound(c.policy.burst, c.policy.average, c.policy.period, b - a)
    {
      LetThroughKeepLimit(c, s, visits, resps, key, a, b);
    }
  }

  lemma LetThroughKeepLimit(c: Setup, s: State, visits: seq<Visit>, resps: seq<Response>, key: string, a: real, b: real)
    requires c.Valid() && c.policy.failureMode == FailClosed && Reachable(c, s) && a <= b
    requires |resps| == |visits| && CallsFollow(c, s.calls, visits, resps)
    ensures |LetThrough(c.policy, visits, resps, key, a, b)| as real <= Bound(c.policy.burst, c.policy.average, c.policy.period, b - a)
  {
    L.ClosedModeIsWithin(c, s);
    LetThroughAreAdmitted(c, s, visits, resps, key, a, b);
    SubsetWithinBound(c, LetThrough(c.policy, visits, resps, key, a, b), L.AdmittedIn(c, s, c.redisPrefix + key, a, b), b - a);
  }

  lemma SubsetWithinBound(c: Setup, ids: set<Id>, admitted: set<Id>, length: real)
    requires c.Valid() && ids <= admitted && |admitted| as real <= L.Allowance(c.Limit(), length)
    ensures |ids| as real <= Bound(c.policy.burst, c.policy.average, c.policy.period, length)
  {
    WithinBound(c.policy, length, |admitted| as real);
    L.SubsetIsWithin(ids, admitted, Bound(c.policy.burst, c.policy.average, c.policy.period, length));
  }

  lemma LetThroughAreAdmitted(c: Setup, s: State, visits: seq<Visit>, resps: seq<Response>, key: string, a: real, b: real)
    requires c.Valid() && |resps| == |visits| && CallsFollow(c, s.calls, visits, resps)
    requires forall i :: 0 <= i < |visits| && Admitted(s.calls[i]) ==> s.calls[i].command.Ran?
    ensures LetThrough(c.policy, visits, resps, key, a, b) <= L.AdmittedIn(c, s, c.redisPrefix + key, a, b)
  {
    forall i | i in LetThrough(c.policy, visits, resps, key, a, b)
      ensures i in L.AdmittedIn(c, s, c.redisPrefix + key, a, b)
    {
      assert Answers(c, s.calls[i], visits[i], resps[i]);
      assert Admitted(s.calls[i]);
    }
  }

  // ------------------------------------------------ a burst

  // A bucket with room for some more requests, a store that is heard from, and a breaker
  // that has seen no failure.
  ghost predicate RoomFor(p: Policy, s: Backend, key: string, t: real, room: nat)
    requires p.Valid() && p.average > 0
  {
    && s.breaker.errorCount == 0
    && (key in s.db ==> s.db[key].tat <= s.db[key].expiresAt)
    && G.Room(p.Limit(), G.Lookup(G.Expire(s.db, key, t), key), t) == room as real
  }

  lemma ServedWithRoom(p: Policy, redisPrefix: string, settings: B.Settings, s: Backend, v: Visit, t: real, room: nat)
    requires p.Valid() && RouteOf(p, v.message).Bucket? && v.link == Link(true, true, Answered(t))
    requires RoomFor(p, s, redisPrefix + RouteOf(p, v.message).key, t, room)
    ensures var (resp, after) := Serve(p, redisPrefix, settings, s, v);
      && RoomFor(p, after, redisPrefix + RouteOf(p, v.message).key, t, if room > 0 then room - 1 else 0)
      && if room > 0 then resp == Forwarded else resp.Refused? && resp.status == 429
  {
    var l, bucket := p.Limit(), RouteOf(p, v.message).key;
    var key := redisPrefix + bucket;
    S.AnswersExactly(p, redisPrefix, settings, s, bucket, v.start, v.link, v.end);
    RoomAfterScript(l, G.Expire(s.db, key, t), key, t);
  }

  lemma RoomAfterScript(l: G.Limit, db: map<string, G.Entry>, key: string, t: real)
    requires l.Valid() && (key in db ==> db[key].tat <= db[key].expiresAt)
    ensures var v := G.VerdictOn(l, db, key, t, G.AllowN(1));
      var after := G.Stored(l, db, key, t, v);
      && (key in after ==> after[key].tat <= after[key].expiresAt)
      && G.Room(l, G.Lookup(G.Expire(after, key, t), key), t) == v.RoomAfter()
  {
    var v := G.VerdictOn(l, db, key, t, G.AllowN(1));
    var after := G.Stored(l, db, key, t, v);
    L.StoredIsSaved(l, db, key, t, v);
    R.RoomSaved(l, G.Lookup(db, key), t, G.AllowN(1));
    assert G.Effective(G.Lookup(G.Expire(after, key, t), key), t) == G.Effective(G.Lookup(after, key), t);
  }

  // The first of them, up to the burst, go on; the others are refused with 429.
  ghost predicate FirstGoOn(burst: int, resps: seq<Response>) {
    forall i :: 0 <= i < |resps| ==> if i < burst then resps[i] == Forwarded else resps[i].Refused? && resps[i].status == 429
  }

  function Left(burst: int, n: nat): nat {
    if n < burst then burst - n else 0
  }

  lemma OneMoreOfABurst(burst: int, resps: seq<Response>, resp: Response)
    requires FirstGoOn(burst, resps)
    requires if Left(burst, |resps|) > 0 then resp == Forwarded else resp.Refused? && resp.status == 429
    ensures FirstGoOn(burst, resps + [resp])
  {
  }

  // The same request, again and again.
  ghost predicate SameAgain(m: Message, t: real, visits: seq<Visit>) {
    forall i :: 0 <= i < |visits| ==> visits[i].message == m && visits[i].link == Link(true, true, Answered(t))
  }

  lemma OneMoreSame(m: Message, t: real, visits: seq<Visit>)
    requires SameAgain(m, t, visits) && visits != []
    ensures SameAgain(m, t, visits[..|visits| - 1])
    ensures visits[|visits| - 1].message == m && visits[|visits| - 1].link == Link(true, true, Answered(t))
  {
  }

  lemma {:induction false} BurstUpTo(p: Policy, redisPrefix: string, settings: B.Settings, s: Backend, m: Message, key: string, t: real, visits: seq<Visit>)
    requires p.Valid() && RouteOf(p, m).Bucket? && key == redisPrefix + RouteOf(p, m).key && p.average > 0
    requires RoomFor(p, s, key, t, p.burst) && SameAgain(m, t, visits)
    ensures FirstGoOn(p.burst, Session(p, redisPrefix, settings, s, visits).0)
    ensures RoomFor(p, Session(p, redisPrefix, settings, s, visits).1, key, t, Left(p.burst, |visits|))
  {
    if visits != [] {
      var n := |visits| - 1;
      OneMoreSame(m, t, visits);
      BurstUpTo(p, redisPrefix, settings, s, m, key, t, visits[..n]);
      var (resps, mid) := Session(p, redisPrefix, settings, s, visits[..n]);
      ServedWithRoom(p, redisPrefix, settings, mid, visits[n], t, Left(p.burst, n));
      OneMoreOfABurst(p.burst, resps, Serve(p, redisPrefix, settings, mid, visits[n]).0);
    }
  }

  // Of any number of requests for a fresh bucket at one instant, exactly the configured
  // burst goes on, and the others are refused with 429.
  lemma {:induction false} BurstGoesOn(p: Policy, redisPrefix: string, settings: B.Settings, created: int, m: Message, t: real, visits: seq<Visit>)
    requires p.Valid() && RouteOf(p, m).Bucket?
    requires forall i :: 0 <= i < |visits| ==> visits[i].message == m && visits[i].link == Link(true, true, Answered(t))
    ensures var resps := Session(p, redisPrefix, settings, Backend(map[], B.State(0, created), false), visits).0;
      forall i :: 0 <= i < |visits| ==>
        if i < p.burst then resps[i] == Forwarded else resps[i].Refused? && resps[i].status == 429
  {
    R.RoomInTicks(p.Limit(), None, t);
    BurstUpTo(p, redisPrefix, settings, Backend(map[], B.State(0, created), false), m, redisPrefix + RouteOf(p, m).key, t, visits);
  }

  // ------------------------------------------------ from a configuration

  lemma DeployedKeepsLimit(p: Policy, config: Config, redisPrefix: string, settings: B.Settings, now: int, visits: seq<Visit>, clock: real)
    requires p.lib.Lawful() && p.Valid() && Implements(p, config) && Clocked(clock, visits)
    requires p.failureMode == FailClosed && p.average > 0
    ensures var resps := Session(p, redisPrefix, settings, Backend(map[], B.State(0, now), false), visits).0;
      forall key, a: real, b: real :: a <= b ==>
        |LetThrough(p, visits, resps, key, a, b)| as real <=
          Bound(config.burst, config.average, if config.period < 1 then 1 else config.period, b - a)
  {
    SessionKeepsLimit(Setup(p, redisPrefix, map[0 := Machine(settings, now)]), 0, clock, visits);
  }

  // From a configuration to answers: what New builds serves any number of requests, and
  // in the closed mode, over a store that was empty, its answers keep the limit.
  method Deploy(lib: Library, client: Result<G.Redis>, config: Config, name: string, now: int, visits: seq<Visit>, ghost clock: real)
    returns (r: Result<(ClusterRateLimit, seq<Response>)>)
    requires lib.Lawful() && InTurn(now, visits) && Clocked(clock, visits)
    modifies if client.Ok? then {client.value} else {}
    ensures r.Ok? <==> Acceptable(lib, config) && client.Ok?
    ensures r.Ok? ==>
      var (rl, resps) := r.value;
      var p, limiter := rl.Configured(), rl.limiter;
      && p.lib == lib && p.Valid() && Implements(p, config) && |resps| == |visits| && limiter.Valid()
      && (resps, limiter.allowN.State()) ==
           Session(p, limiter.redisPrefix, limiter.allowN.settings, Backend(old(client.value.db), B.State(0, now), false), visits)
      && (p.failureMode == FailClosed && p.average > 0 && old(client.value.db) == map[] ==>
            forall key, a: real, b: real :: a <= b ==>
              |LetThrough(p, visits, resps, key, a, b)| as real <=
                Bound(config.burst, config.average, if config.period < 1 then 1 else config.period, b - a))
  {
    var built := New(lib, client, config, name, now);
    if built.Err? {
      return Err;
    }
    var rl := built.value;
    var resps := ServeInTurn(rl, visits);
    ghost var p, settings := rl.Configured(), rl.limiter.allowN.settings;
    if p.failureMode == FailClosed && p.average > 0 && old(client.value.db) == map[] {
      DeployedKeepsLimit(p, config, rl.limiter.redisPrefix, settings, now, visits, clock);
    }
    return Ok((rl, resps));
  }
}
