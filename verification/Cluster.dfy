/** Many gateways with breakers of their own around one store: every interleaving of
    arrivals, calls, script runs, lost commands, lost replies, timeouts and removals
    of expired keys. The store's clock is real time; each gateway reads whatever its
    own clock says. */
module Cluster {
  import opened Wrappers
  import opened Gcra
  import opened Middleware
  import opened Limiting
  import B = Breaker

  type Id = int
  type Gateway = int

  datatype Machine = Machine(settings: B.Settings, created: int)

  // One middleware, deployed on a number of gateways.
  datatype Setup = Setup(policy: Policy, redisPrefix: string, gateways: map<Gateway, Machine>) {
    predicate Valid() {
      policy.Valid() && policy.average > 0
    }

    function Limit(): (l: Limit)
      requires Valid()
      ensures l.Valid() && l == policy.Limit()
    {
      policy.Limit()
    }
  }

  // A script call's fate, which the caller's does not decide: a command may still run
  // after its caller has given up.
  datatype Command = Unsent | OnWire | Ran(time: real, reply: Reply) | Dropped

  datatype Caller = AtGate | Waiting | Done(resp: Response)

  datatype Call = Call(gateway: Gateway, message: Message, route: Route, command: Command, caller: Caller)

  // A grant, and whose it was.
  datatype Charge = Charge(id: Id, key: string, time: real)

  datatype State = State(
    clock: real,
    db: map<string, Entry>,
    breakers: map<Gateway, B.State>,
    calls: map<Id, Call>,
    log: seq<Charge>)

  datatype Act =
    | Arrive(id: Id, gateway: Gateway, message: Message)
    | Gate(id: Id, now: int)
    | Execute(id: Id, time: real)
    | Drop(id: Id)
    | Deliver(id: Id, end: int)
    | Fail(id: Id, end: int)
    | Evict(key: string, time: real)

  function Initial(c: Setup, clock: real): State {
    State(clock, map[], map g | g in c.gateways :: B.State(0, c.gateways[g].created), map[], [])
  }

  predicate Enabled(c: Setup, s: State, act: Act)
    requires c.Valid()
  {
    match act
    case Arrive(id, gateway, message) => id !in s.calls && gateway in c.gateways && gateway in s.breakers
    case Gate(id, now) => id in s.calls && s.calls[id].caller.AtGate? && s.calls[id].gateway in s.breakers
    case Execute(id, time) => id in s.calls && s.calls[id].command.OnWire? && s.calls[id].route.Bucket? && time >= s.clock
    case Drop(id) => id in s.calls && s.calls[id].command.OnWire?
    case Deliver(id, end) => id in s.calls && s.calls[id].caller.Waiting? && s.calls[id].command.Ran?
                             && s.calls[id].gateway in s.breakers && s.calls[id].gateway in c.gateways
    case Fail(id, end) => id in s.calls && s.calls[id].caller.Waiting?
                          && s.calls[id].gateway in s.breakers && s.calls[id].gateway in c.gateways
    case Evict(key, time) => time >= s.clock
  }

  // The breaker sees a call end.
  function Ended(c: Setup, s: State, id: Id, failed: bool, end: int): map<Gateway, B.State>
    requires id in s.calls && s.calls[id].gateway in s.breakers && s.calls[id].gateway in c.gateways
  {
    var g := s.calls[id].gateway;
    s.breakers[g := B.Finish(c.gateways[g].settings, s.breakers[g], failed, end)]
  }

  function RunScript(c: Setup, s: State, id: Id, time: real): State
    requires c.Valid() && Enabled(c, s, Execute(id, time))
  {
    var key := c.redisPrefix + s.calls[id].route.key;
    var db := Expire(s.db, key, time);
    var v := VerdictOn(c.Limit(), db, key, time, AllowN(1));
    s.(clock := time,
       db := Stored(c.Limit(), db, key, time, v),
       calls := s.calls[id := s.calls[id].(command := Ran(time, ToReply(c.Limit(), v)))],
       log := s.log + if v.Granted? then [Charge(id, key, time)] else [])
  }

  function Next(c: Setup, s: State, act: Act): State
    requires c.Valid() && Enabled(c, s, act)
  {
    match act
    case Arrive(id, gateway, message) =>
      var route := RouteOf(c.policy, message);
      s.(calls := s.calls[id := Call(gateway, message, route, Unsent, if route.Bypass? then Done(Forwarded) else AtGate)])
    case Gate(id, now) =>
      if B.Open(s.breakers[s.calls[id].gateway], now) then
        s.(calls := s.calls[id := s.calls[id].(caller := Done(Respond(c.policy, Err)))])
      else
        s.(calls := s.calls[id := s.calls[id].(caller := Waiting, command := OnWire)])
    case Execute(id, time) => RunScript(c, s, id, time)
    case Drop(id) =>
      s.(calls := s.calls[id := s.calls[id].(command := Dropped)])
    case Deliver(id, end) =>
      s.(calls := s.calls[id := s.calls[id].(caller := Done(Respond(c.policy, Read(c.Limit(), Ok(s.calls[id].command.reply)))))],
         breakers := Ended(c, s, id, false, end))
    case Fail(id, end) =>
      s.(calls := s.calls[id := s.calls[id].(caller := Done(Respond(c.policy, Err)))],
         breakers := Ended(c, s, id, true, end))
    case Evict(key, time) =>
      s.(clock := time, db := Expire(s.db, key, time))
  }

  // Where a run ends up; nowhere, if one of its steps is not possible.
  function After(c: Setup, s: State, acts: seq<Act>): Option<State>
    requires c.Valid()
  {
    if acts == [] then Some(s)
    else
      var before, act := After(c, s, acts[..|acts| - 1]), acts[|acts| - 1];
      if before.Some? && Enabled(c, before.value, act) then Some(Next(c, before.value, act)) else None
  }

  ghost predicate Reachable(c: Setup, s: State)
    requires c.Valid()
  {
    exists clock: real, acts :: After(c, Initial(c, clock), acts) == Some(s)
  }

  // A request that went on although it was not exempt.
  predicate Admitted(call: Call) {
    call.route.Bucket? && call.caller == Done(Forwarded)
  }
}
