/** What else the cluster can do: it serves a single request as the middleware does,
    and in the open mode a failing store leaves it without any limit. */
module ClusterRuns {
  import opened Wrappers
  import opened Gcra
  import opened Scripts
  import opened Cluster
  import opened Middleware
  import opened Limiting
  import B = Breaker
  import R = Runs

  lemma OneMore(c: Setup, s: State, acts: seq<Act>, act: Act)
    requires c.Valid() && After(c, s, acts).Some? && Enabled(c, After(c, s, acts).value, act)
    ensures After(c, s, acts + [act]) == Some(Next(c, After(c, s, acts).value, act))
  {
    assert (acts + [act])[..|acts|] == acts;
  }

  lemma {:induction false} AfterBoth(c: Setup, s: State, acts: seq<Act>, more: seq<Act>)
    requires c.Valid() && After(c, s, acts).Some?
    ensures After(c, s, acts + more) == After(c, After(c, s, acts).value, more)
    decreases |more|
  {
    if more == [] {
      assert acts + more == acts;
    } else {
      AfterBoth(c, s, acts, more[..|more| - 1]);
      assert (acts + more)[..|acts + more| - 1] == acts + more[..|more| - 1];
    }
  }

  // What one gateway's request starts from.
  function BackendOf(s: State, gateway: Gateway, loaded: bool): Backend
    requires gateway in s.breakers
  {
    Backend(s.db, s.breakers[gateway], loaded)
  }

  // A call's script, if it gets to run,
  lemma ExecutingIsARun(c: Setup, s: State, id: Id, loaded: bool, link: Link) returns (acts: seq<Act>)
    requires c.Valid() && id in s.calls && s.calls[id].route.Bucket? && s.calls[id].command.OnWire?
    requires Executes(loaded, link) ==> link.fate.time >= s.clock
    ensures After(c, s, acts).Some?
    ensures var s', l, key := After(c, s, acts).value, c.Limit(), c.redisPrefix + s.calls[id].route.key;
      if Executes(loaded, link) then
        && s' == RunScript(c, s, id, link.fate.time)
        && s'.db == Scripts.DbAfter(s.db, key, l, AllowN(1), loaded, link)
        && (link.fate.Answered? ==> Answer(s.db, key, l, AllowN(1), loaded, link) == Ok(s'.calls[id].command.reply))
      else s' == s
  {
    acts := [];
    if Executes(loaded, link) {
      OneMore(c, s, acts, Execute(id, link.fate.time));
      acts := acts + [Execute(id, link.fate.time)];
    }
  }

  // and its end, with what the caller got to see.
  lemma EndingIsARun(c: Setup, s: State, id: Id, r: Result<Reply>, end: int) returns (acts: seq<Act>)
    requires c.Valid() && id in s.calls && s.calls[id].caller.Waiting?
    requires s.calls[id].gateway in c.gateways && s.calls[id].gateway in s.breakers
    requires r.Ok? ==> s.calls[id].command.Ran? && s.calls[id].command.reply == r.value
    ensures After(c, s, acts) ==
      Some(s.(calls := s.calls[id := s.calls[id].(caller := Done(Respond(c.policy, Read(c.Limit(), r))))],
              breakers := Ended(c, s, id, r.Err?, end)))
  {
    var last := if r.Ok? then Deliver(id, end) else Fail(id, end);
    OneMore(c, s, [], last);
    acts := [] + [last];
  }

  // The part of a call that is between it and the store.
  lemma CallingIsARun(c: Setup, s: State, id: Id, loaded: bool, link: Link, end: int) returns (acts: seq<Act>)
    requires c.Valid() && id in s.calls && s.calls[id].route.Bucket?
    requires s.calls[id].caller.Waiting? && s.calls[id].command.OnWire?
    requires s.calls[id].gateway in c.gateways && s.calls[id].gateway in s.breakers
    requires Executes(loaded, link) ==> link.fate.time >= s.clock
    ensures After(c, s, acts).Some?
    ensures var s', g := After(c, s, acts).value, s.calls[id].gateway;
      var l, key := c.Limit(), c.redisPrefix + s.calls[id].route.key;
      var r := Answer(s.db, key, l, AllowN(1), loaded, link);
      && id in s'.calls && s'.calls == s.calls[id := s'.calls[id]]
      && s'.calls[id].caller == Done(Respond(c.policy, Read(l, r))) && s'.calls[id].route == s.calls[id].route
      && s'.db == Scripts.DbAfter(s.db, key, l, AllowN(1), loaded, link)
      && s'.breakers == s.breakers[g := B.Finish(c.gateways[g].settings, s.breakers[g], r.Err?, end)]
      && if Executes(loaded, link) then s'.clock == link.fate.time && RanAt(s'.calls[id], link.fate.time)
         else s'.clock == s.clock && s'.log == s.log && s'.calls[id].command.OnWire?
  {
    var r := Answer(s.db, c.redisPrefix + s.calls[id].route.key, c.Limit(), AllowN(1), loaded, link);
    acts := ExecutingIsARun(c, s, id, loaded, link);
    var more := EndingIsARun(c, After(c, s, acts).value, id, r, end);
    AfterBoth(c, s, acts, more);
    acts := acts + more;
  }

  predicate RanAt(call: Call, time: real) {
    call.command.Ran? && call.command.time == time
  }

  // The part before it: up to the breaker.
  lemma {:induction false} EnteringIsARun(c: Setup, s: State, id: Id, gateway: Gateway, m: Message, start: int) returns (acts: seq<Act>)
    requires c.Valid() && id !in s.calls && gateway in c.gateways && gateway in s.breakers
    ensures var route := RouteOf(c.policy, m);
      var call :=
        if route.Bypass? then Call(gateway, m, route, Unsent, Done(Forwarded))
        else if B.Open(s.breakers[gateway], start) then Call(gateway, m, route, Unsent, Done(Respond(c.policy, Err)))
        else Call(gateway, m, route, OnWire, Waiting);
      After(c, s, acts) == Some(s.(calls := s.calls[id := call]))
  {
    OneMore(c, s, [], Arrive(id, gateway, m));
    acts := [] + [Arrive(id, gateway, m)];
    if RouteOf(c.policy, m).Bucket? {
      OneMore(c, s, acts, Gate(id, start));
      acts := acts + [Gate(id, start)];
      var s' := After(c, s, acts).value;
      assert s'.calls == s.calls[id := s'.calls[id]];
    }
  }

  // What ServeHTTP promises of a request, served while no other one is under way, is
  // what the cluster does in a run of its own steps.
  lemma {:induction false} ServingIsARun(c: Setup, s: State, id: Id, gateway: Gateway, m: Message, start: int, loaded: bool, link: Link, end: int)
    returns (acts: seq<Act>)
    requires c.Valid() && id !in s.calls && gateway in c.gateways && gateway in s.breakers
    requires !link.fate.NotRun? ==> link.fate.time >= s.clock
    ensures After(c, s, acts).Some?
    ensures var route := RouteOf(c.policy, m);
      var (resp, after) :=
        Served(c.policy, c.redisPrefix, c.gateways[gateway].settings, BackendOf(s, gateway, loaded), route, start, link, end);
      var s' := After(c, s, acts).value;
      && id in s'.calls && s'.calls == s.calls[id := s'.calls[id]]
      && s'.calls[id].caller == Done(resp) && s'.calls[id].route == route
      && s'.db == after.db && s'.breakers == s.breakers[gateway := after.breaker]
      && (s'.calls[id].command.Ran? ==> !link.fate.NotRun? && RanAt(s'.calls[id], link.fate.time))
      && (s'.clock == s.clock || (!link.fate.NotRun? && s'.clock == link.fate.time))
      && (!Executes(loaded, link) ==> s'.clock == s.clock && s'.log == s.log)
  {
    var route := RouteOf(c.policy, m);
    acts := EnteringIsARun(c, s, id, gateway, m, start);
    var mid := After(c, s, acts).value;
    if mid.calls[id].caller.Waiting? {
      var more := CallingIsARun(c, mid, id, loaded, link, end);
      AfterBoth(c, s, acts, more);
      acts := acts + more;
    }
  }

  // A command can run after its caller has given up: the request is refused, and its
  // quota is spent all the same.
  lemma LateRunIsPossible(c: Setup, gateway: Gateway, m: Message, clock: real) returns (s: State)
    requires c.Valid() && gateway in c.gateways && c.policy.failureMode == FailClosed
    requires RouteOf(c.policy, m).Bucket?
    ensures Reachable(c, s) && 0 in s.calls
    ensures s.calls[0].caller == Done(Refused(503, c.policy.retryAfter))
    ensures s.log == [Charge(0, c.redisPrefix + RouteOf(c.policy, m).key, clock)]
  {
    var start := c.gateways[gateway].created;
    var acts := EnteringIsARun(c, Initial(c, clock), 0, gateway, m, start);
    var waiting := After(c, Initial(c, clock), acts).value;
    OneMore(c, Initial(c, clock), acts, Fail(0, start));
    acts := acts + [Fail(0, start)];
    OneMore(c, Initial(c, clock), acts, Execute(0, clock));
    acts := acts + [Execute(0, clock)];
    R.RoomInTicks(c.Limit(), None, clock);
    s := After(c, Initial(c, clock), acts).value;
    assert Reachable(c, s);
  }

  // How many calls for a route went on.
  ghost function Through(s: State, route: Route): set<Id> {
    set id | id in s.calls && s.calls[id].route == route && Admitted(s.calls[id])
  }

  // One more request gets through if its call fails or the breaker turns it away.
  lemma OpenModeLetsThrough(c: Setup, s: State, id: Id, gateway: Gateway, m: Message)
    returns (acts: seq<Act>)
    requires c.Valid() && c.policy.failureMode == FailOpen && RouteOf(c.policy, m).Bucket?
    requires id !in s.calls && gateway in c.gateways && gateway in s.breakers
    ensures After(c, s, acts).Some?
    ensures var s' := After(c, s, acts).value;
      && Through(s', RouteOf(c.policy, m)) == Through(s, RouteOf(c.policy, m)) + {id}
      && s'.log == s.log && s'.db == s.db && s'.clock == s.clock
      && s'.breakers.Keys == s.breakers.Keys && s'.calls.Keys == s.calls.Keys + {id}
  {
    var link := Link(false, false, NotRun);
    acts := ServingIsARun(c, s, id, gateway, m, 0, false, link, 0);
  }

  // In the open mode there is no bound: with a store that is never heard from, any
  // number of requests of one client go on, at one instant and without one script run.
  lemma {:induction false} OpenModeIsUnbounded(c: Setup, gateway: Gateway, m: Message, clock: real, n: nat)
    returns (s: State)
    requires c.Valid() && gateway in c.gateways && c.policy.failureMode == FailOpen
    requires RouteOf(c.policy, m).Bucket?
    ensures Reachable(c, s)
    ensures |Through(s, RouteOf(c.policy, m))| == n
    ensures s.log == [] && s.clock == clock
    ensures gateway in s.breakers && forall id :: id in s.calls ==> 0 <= id < n
  {
    if n == 0 {
      s := Initial(c, clock);
      assert After(c, Initial(c, clock), []) == Some(s);
      assert Through(s, RouteOf(c.policy, m)) == {};
    } else {
      var before := OpenModeIsUnbounded(c, gateway, m, clock, n - 1);
      var more := OpenModeLetsThrough(c, before, n - 1, gateway, m);
      s := After(c, before, more).value;
      ReachableFurther(c, before, more);
    }
  }

  lemma ReachableFurther(c: Setup, s: State, more: seq<Act>)
    requires c.Valid() && Reachable(c, s) && After(c, s, more).Some?
    ensures Reachable(c, After(c, s, more).value)
  {
    var clock: real, acts :| After(c, Initial(c, clock), acts) == Some(s);
    AfterBoth(c, Initial(c, clock), acts, more);
  }
}
