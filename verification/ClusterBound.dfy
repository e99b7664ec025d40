/** The global limit: however the cluster interleaves and fails, what it lets through
    for one key keeps the limit in every window of time. */
module ClusterBound {
  import opened Wrappers
  import opened Gcra
  import opened Cluster
  import opened Middleware
  import opened Limiting
  import opened Serving
  import opened Subnets
  import R = Runs
  import W = Windows
  import E = Expiry

  // What was granted for one key.
  function GrantsFor(log: seq<Charge>, key: string): seq<W.Grant> {
    if log == [] then []
    else
      var last := log[|log| - 1];
      GrantsFor(log[..|log| - 1], key) + if last.key == key then [W.Grant(last.time, 1.0)] else []
  }

  // ------------------------------------------------ the store and the log

  // The stored tat is the one the log demands, and every grant fitted.
  ghost predicate KeyInv(l: Limit, db: map<string, Entry>, log: seq<Charge>, key: string, clock: real)
    requires l.Valid()
  {
    && R.PaidOff(l, GrantsFor(log, key), Lookup(db, key), clock)
    && W.AllFit(l.burst as real, R.OnTicks(l, GrantsFor(log, key)))
    && (key in db ==> db[key].tat <= db[key].expiresAt)
  }

  lemma SameRoomPaidOff(l: Limit, gs: seq<W.Grant>, slot: Slot, other: Slot, now: real)
    requires l.Valid() && R.PaidOff(l, gs, slot, now) && Effective(slot, now) == Effective(other, now)
    ensures R.PaidOff(l, gs, other, now)
  {
  }

  lemma KeyWaits(l: Limit, db: map<string, Entry>, log: seq<Charge>, key: string, clock: real, later: real)
    requires l.Valid() && clock <= later && KeyInv(l, db, log, key, clock)
    ensures KeyInv(l, db, log, key, later)
  {
    R.PaidOffLater(l, GrantsFor(log, key), Lookup(db, key), clock, later);
  }

  lemma KeyExpires(l: Limit, db: map<string, Entry>, log: seq<Charge>, key: string, victim: string, now: real)
    requires l.Valid() && KeyInv(l, db, log, key, now)
    ensures KeyInv(l, Expire(db, victim, now), log, key, now)
  {
    SameRoomPaidOff(l, GrantsFor(log, key), Lookup(db, key), Lookup(Expire(db, victim, now), key), now);
  }

  lemma GrantsSnoc(log: seq<Charge>, ch: Charge, key: string)
    ensures GrantsFor(log + [ch], key) == GrantsFor(log, key) + if ch.key == key then [W.Grant(ch.time, 1.0)] else []
  {
    assert (log + [ch])[..|log|] == log;
  }

  lemma KeyExecutes(l: Limit, db: map<string, Entry>, log: seq<Charge>, key: string, now: real, id: Id)
    requires l.Valid() && KeyInv(l, db, log, key, now)
    ensures var v := VerdictOn(l, db, key, now, AllowN(1));
      KeyInv(l, Stored(l, db, key, now, v), log + (if v.Granted? then [Charge(id, key, now)] else []), key, now)
  {
    var v := VerdictOn(l, db, key, now, AllowN(1));
    var gs, slot := GrantsFor(log, key), Lookup(db, key);
    R.PaidOffStep(l, gs, slot, now, AllowN(1));
    R.RoomIsFit(l, gs, slot, now, 1.0);
    StoredIsSaved(l, db, key, now, v);
    if v.Granted? {
      GrantsSnoc(log, Charge(id, key, now), key);
      R.AllFitSnoc(l, gs, W.Grant(now, 1.0));
    } else {
      assert log + [] == log;
      assert R.Logged(gs, now, v) == gs;
    }
  }

  lemma StoredIsSaved(l: Limit, db: map<string, Entry>, key: string, now: real, v: Verdict)
    requires l.Valid()
    ensures Lookup(Stored(l, db, key, now, v), key) == Save(l, Lookup(db, key), now, v)
    ensures (key in db ==> db[key].tat <= db[key].expiresAt) ==>
      var db' := Stored(l, db, key, now, v);
      key in db' ==> db'[key].tat <= db'[key].expiresAt
  {
    E.LivesLongEnough(ResetAfter(l, v));
  }

  // ------------------------------------------------ the invariant of the cluster

  ghost predicate StoreInv(l: Limit, s: State)
    requires l.Valid()
  {
    forall key :: KeyInv(l, s.db, s.log, key, s.clock)
  }

  // The log is in order, and no request is in it twice.
  ghost predicate LogInv(s: State) {
    && (forall i, j :: 0 <= i < j < |s.log| ==> s.log[i].time <= s.log[j].time && s.log[i].id != s.log[j].id)
    && (forall i :: 0 <= i < |s.log| ==> s.log[i].time <= s.clock)
    && (forall i :: 0 <= i < |s.log| ==> s.log[i].id in s.calls && s.calls[s.log[i].id].command.Ran?)
  }

  ghost predicate CallInv(c: Setup, log: seq<Charge>, id: Id, call: Call)
    requires c.Valid()
  {
    && call.route == RouteOf(c.policy, call.message)
    && (call.route.Bypass? ==> call.command.Unsent? && call.caller.Done?)
    && (call.caller.AtGate? ==> call.command.Unsent?)
    && (call.command.Ran? && call.command.reply.allowed > 0 ==>
          call.route.Bucket? && Charge(id, c.redisPrefix + call.route.key, call.command.time) in log)
    && (Admitted(call) && c.policy.failureMode == FailClosed ==> call.command.Ran? && call.command.reply.allowed > 0)
  }

  ghost predicate CallsInv(c: Setup, s: State)
    requires c.Valid()
  {
    forall id :: id in s.calls ==> CallInv(c, s.log, id, s.calls[id])
  }

  ghost predicate Inv(c: Setup, s: State)
    requires c.Valid()
  {
    StoreInv(c.Limit(), s) && LogInv(s) && CallsInv(c, s)
  }

  lemma StoreKept(c: Setup, s: State, act: Act)
    requires c.Valid() && StoreInv(c.Limit(), s) && Enabled(c, s, act)
    ensures StoreInv(c.Limit(), Next(c, s, act))
  {
    var l, s' := c.Limit(), Next(c, s, act);
    forall key
      ensures KeyInv(l, s'.db, s'.log, key, s'.clock)
    {
      match act {
        case Execute(id, time) => KeyKeptByScript(c, s, id, time, key);
        case Evict(victim, time) =>
          KeyWaits(l, s.db, s.log, key, s.clock, time);
          KeyExpires(l, s.db, s.log, key, victim, time);
        case _ =>
      }
    }
  }

  lemma KeyKeptByScript(c: Setup, s: State, id: Id, time: real, key: string)
    requires c.Valid() && StoreInv(c.Limit(), s) && Enabled(c, s, Execute(id, time))
    ensures var s' := RunScript(c, s, id, time);
      KeyInv(c.Limit(), s'.db, s'.log, key, s'.clock)
  {
    var l, own := c.Limit(), c.redisPrefix + s.calls[id].route.key;
    KeyWaits(l, s.db, s.log, key, s.clock, time);
    KeyExpires(l, s.db, s.log, key, own, time);
    if key == own {
      KeyExecutes(l, Expire(s.db, own, time), s.log, key, time, id);
    } else {
      OtherExecutes(l, Expire(s.db, own, time), s.log, key, own, time, id);
    }
  }

  // A script leaves the other keys alone.
  lemma OtherExecutes(l: Limit, db: map<string, Entry>, log: seq<Charge>, key: string, own: string, now: real, id: Id)
    requires l.Valid() && KeyInv(l, db, log, key, now) && key != own
    ensures var v := VerdictOn(l, db, own, now, AllowN(1));
      KeyInv(l, Stored(l, db, own, now, v), log + (if v.Granted? then [Charge(id, own, now)] else []), key, now)
  {
    var v := VerdictOn(l, db, own, now, AllowN(1));
    var log' := log + if v.Granted? then [Charge(id, own, now)] else [];
    GrantsSnoc(log, Charge(id, own, now), key);
    assert v.Denied? ==> log' == log;
    assert GrantsFor(log', key) == GrantsFor(log, key);
    assert Lookup(Stored(l, db, own, now, v), key) == Lookup(db, key);
  }

  // A command that ran has run.
  lemma RanStays(c: Setup, s: State, act: Act, id: Id)
    requires c.Valid() && Enabled(c, s, act) && id in s.calls && s.calls[id].command.Ran?
    requires CallInv(c, s.log, id, s.calls[id])
    ensures id in Next(c, s, act).calls && Next(c, s, act).calls[id].command == s.calls[id].command
  {
  }

  lemma LogKept(c: Setup, s: State, act: Act)
    requires c.Valid() && LogInv(s) && CallsInv(c, s) && Enabled(c, s, act)
    ensures LogInv(Next(c, s, act))
  {
    forall i | 0 <= i < |s.log|
      ensures s.log[i].id in Next(c, s, act).calls && Next(c, s, act).calls[s.log[i].id].command.Ran?
    {
      RanStays(c, s, act, s.log[i].id);
    }
    LogGrows(c, s, act);
  }

  lemma LogGrows(c: Setup, s: State, act: Act)
    requires c.Valid() && LogInv(s) && Enabled(c, s, act)
    ensures var s' := Next(c, s, act);
      && s'.clock >= s.clock
      && (s'.log == s.log
          || (act.Execute? && s'.log == s.log + [Charge(act.id, c.redisPrefix + s.calls[act.id].route.key, s'.clock)]
              && act.id in s'.calls && s'.calls[act.id].command.Ran?
              && forall i :: 0 <= i < |s.log| ==> s.log[i].id != act.id))
  {
  }

  lemma CallKeptByScript(c: Setup, s: State, other: Id, time: real, id: Id)
    requires c.Valid() && Enabled(c, s, Execute(other, time)) && id in s.calls
    requires CallInv(c, s.log, id, s.calls[id])
    ensures var s' := RunScript(c, s, other, time);
      id in s'.calls && CallInv(c, s'.log, id, s'.calls[id])
  {
    var s' := RunScript(c, s, other, time);
    if id == other && s'.calls[id].command.reply.allowed > 0 {
      assert s'.log[|s.log|] == Charge(id, c.redisPrefix + s.calls[id].route.key, time);
    }
  }

  lemma CallMovesOn(c: Setup, log: seq<Charge>, id: Id, call: Call)
    requires c.Valid() && CallInv(c, log, id, call) && !call.caller.Done?
    ensures CallInv(c, log, id, call.(caller := Done(Respond(c.policy, Err))))
    ensures call.caller.AtGate? ==> CallInv(c, log, id, call.(caller := Waiting, command := OnWire))
    ensures call.command.Ran? ==>
      CallInv(c, log, id, call.(caller := Done(Respond(c.policy, Read(c.Limit(), Ok(call.command.reply))))))
  {
  }

  lemma CallIsDropped(c: Setup, log: seq<Charge>, id: Id, call: Call)
    requires c.Valid() && CallInv(c, log, id, call) && call.command.OnWire?
    ensures CallInv(c, log, id, call.(command := Dropped))
  {
  }

  lemma {:induction false} CallKept(c: Setup, s: State, act: Act, id: Id)
    requires c.Valid() && Enabled(c, s, act) && id in Next(c, s, act).calls
    requires id in s.calls ==> CallInv(c, s.log, id, s.calls[id])
    ensures CallInv(c, Next(c, s, act).log, id, Next(c, s, act).calls[id])
  {
    if act.Execute? {
      CallKeptByScript(c, s, act.id, act.time, id);
    } else if act.Drop? && act.id == id {
      CallIsDropped(c, s.log, id, s.calls[id]);
    } else if (act.Gate? || act.Deliver? || act.Fail?) && act.id == id {
      CallMovesOn(c, s.log, id, s.calls[id]);
    }
  }

  lemma CallsKept(c: Setup, s: State, act: Act)
    requires c.Valid() && CallsInv(c, s) && Enabled(c, s, act)
    ensures CallsInv(c, Next(c, s, act))
  {
    forall id | id in Next(c, s, act).calls
      ensures CallInv(c, Next(c, s, act).log, id, Next(c, s, act).calls[id])
    {
      CallKept(c, s, act, id);
    }
  }

  lemma {:induction false} InvKept(c: Setup, s: State, act: Act)
    requires c.Valid() && Inv(c, s) && Enabled(c, s, act)
    ensures Inv(c, Next(c, s, act))
  {
    StoreKept(c, s, act);
    LogKept(c, s, act);
    CallsKept(c, s, act);
  }

  lemma InitialInv(c: Setup, clock: real)
    requires c.Valid()
    ensures Inv(c, Initial(c, clock))
  {
    forall key
      ensures KeyInv(c.Limit(), map[], [], key, clock)
    {
      R.TatIsPaidOff(c.Limit(), [], clock);
    }
  }

  lemma {:induction false} RunKeepsInv(c: Setup, s: State, acts: seq<Act>)
    requires c.Valid() && Inv(c, s)
    ensures After(c, s, acts).Some? ==> Inv(c, After(c, s, acts).value)
  {
    if acts != [] && After(c, s, acts).Some? {
      RunKeepsInv(c, s, acts[..|acts| - 1]);
      InvKept(c, After(c, s, acts[..|acts| - 1]).value, acts[|acts| - 1]);
    }
  }

  lemma ReachableInv(c: Setup, s: State)
    requires c.Valid() && Reachable(c, s)
    ensures Inv(c, s)
  {
    var clock: real, acts :| After(c, Initial(c, clock), acts) == Some(s);
    InitialInv(c, clock);
    RunKeepsInv(c, Initial(c, clock), acts);
  }

  // ------------------------------------------------ counting

  // What a window of a given length may be granted.
  function Allowance(l: Limit, length: real): real
    requires l.Valid()
  {
    l.burst as real + length * l.Rate()
  }

  // In the numbers that a middleware is configured with: the burst, and the average for
  // every period.
  lemma AllowanceInFields(p: Policy, length: real)
    requires p.Valid() && p.average > 0
    ensures Allowance(p.Limit(), length) == p.burst as real + length * (p.average as real / p.period as real)
  {
  }

  // The requests that a log charged to a key within a window.
  function ChargedIn(log: seq<Charge>, key: string, a: real, b: real): set<Id> {
    if log == [] then {}
    else
      var last := log[|log| - 1];
      ChargedIn(log[..|log| - 1], key, a, b) + if last.key == key && a <= last.time <= b then {last.id} else {}
  }

  lemma {:induction false} ChargesAreCounted(log: seq<Charge>, ch: Charge, a: real, b: real)
    requires ch in log && a <= ch.time <= b
    ensures ch.id in ChargedIn(log, ch.key, a, b)
  {
    var before, last := log[..|log| - 1], log[|log| - 1];
    assert log == before + [last];
    if ch != last {
      ChargesAreCounted(before, ch, a, b);
    }
  }

  lemma {:induction false} ChargesAreUsage(log: seq<Charge>, key: string, a: real, b: real)
    ensures |ChargedIn(log, key, a, b)| as real <= W.Usage(GrantsFor(log, key), a, b)
  {
    if log != [] {
      var before, last := log[..|log| - 1], log[|log| - 1];
      ChargesAreUsage(before, key, a, b);
      var gs := GrantsFor(log, key);
      if last.key == key {
        assert gs == GrantsFor(before, key) + [W.Grant(last.time, 1.0)];
        assert gs[..|gs| - 1] == GrantsFor(before, key);
      } else {
        assert gs == GrantsFor(before, key);
      }
    }
  }

  lemma {:induction false} GrantsForAreSorted(log: seq<Charge>, key: string)
    requires forall i, j :: 0 <= i < j < |log| ==> log[i].time <= log[j].time
    ensures W.Sorted(GrantsFor(log, key)) && W.Charges(GrantsFor(log, key))
    ensures log != [] ==> forall i :: 0 <= i < |GrantsFor(log, key)| ==> GrantsFor(log, key)[i].time <= log[|log| - 1].time
  {
    if log != [] {
      GrantsForAreSorted(log[..|log| - 1], key);
    }
  }

  // The requests for a key that the store granted, in a window of its clock, and that
  // went on to the backend.
  ghost function Passed(c: Setup, s: State, key: string, a: real, b: real): set<Id> {
    set id | id in s.calls && Admitted(s.calls[id]) && c.redisPrefix + s.calls[id].route.key == key
      && s.calls[id].command.Ran? && s.calls[id].command.reply.allowed > 0 && a <= s.calls[id].command.time <= b
  }

  lemma PassedAreCharged(c: Setup, s: State, key: string, a: real, b: real)
    requires c.Valid() && CallsInv(c, s)
    ensures Passed(c, s, key, a, b) <= ChargedIn(s.log, key, a, b)
  {
    forall id | id in Passed(c, s, key, a, b)
      ensures id in ChargedIn(s.log, key, a, b)
    {
      assert CallInv(c, s.log, id, s.calls[id]);
      ChargesAreCounted(s.log, Charge(id, key, s.calls[id].command.time), a, b);
    }
  }

  lemma FittingKeepsWindow(l: Limit, gs: seq<W.Grant>, a: real, b: real)
    requires l.Valid() && a <= b
    requires W.Sorted(gs) && W.Charges(gs) && W.AllFit(l.burst as real, R.OnTicks(l, gs))
    ensures W.Usage(gs, a, b) <= Allowance(l, b - a)
  {
    R.FittingKeepsWindows(l, gs);
  }

  lemma StoreFits(l: Limit, s: State, key: string)
    requires l.Valid() && StoreInv(l, s)
    ensures W.AllFit(l.burst as real, R.OnTicks(l, GrantsFor(s.log, key)))
  {
    assert KeyInv(l, s.db, s.log, key, s.clock);
  }

  lemma LogKeepsLimit(l: Limit, s: State, key: string, a: real, b: real)
    requires l.Valid() && StoreInv(l, s) && LogInv(s) && a <= b
    ensures |ChargedIn(s.log, key, a, b)| as real <= Allowance(l, b - a)
  {
    ChargesAreUsage(s.log, key, a, b);
    GrantsForAreSorted(s.log, key);
    StoreFits(l, s, key);
    FittingKeepsWindow(l, GrantsFor(s.log, key), a, b);
  }

  // In either mode, what the store granted and what went on because of it keeps the
  // limit in every window.
  lemma PassedKeepLimit(c: Setup, s: State, key: string, a: real, b: real)
    requires c.Valid() && Reachable(c, s) && a <= b
    ensures |Passed(c, s, key, a, b)| as real <= Allowance(c.Limit(), b - a)
  {
    ReachableInv(c, s);
    PassedAreCharged(c, s, key, a, b);
    LogKeepsLimit(c.Limit(), s, key, a, b);
    SubsetIsWithin(Passed(c, s, key, a, b), ChargedIn(s.log, key, a, b), Allowance(c.Limit(), b - a));
  }

  lemma SubsetIsWithin(a: set<Id>, b: set<Id>, bound: real)
    requires a <= b && |b| as real <= bound
    ensures |a| as real <= bound
  {
    assert b == a + (b - a);
  }

  lemma ClosedModeIsWithin(c: Setup, s: State)
    requires c.Valid() && Reachable(c, s) && c.policy.failureMode == FailClosed
    ensures forall id :: id in s.calls && Admitted(s.calls[id]) ==> s.calls[id].command.Ran?
    ensures forall key, a: real, b: real :: a <= b ==>
      |AdmittedIn(c, s, key, a, b)| as real <= Allowance(c.Limit(), b - a)
  {
    ReachableInv(c, s);
    forall id | id in s.calls && Admitted(s.calls[id])
      ensures s.calls[id].command.Ran? && s.calls[id].command.reply.allowed > 0
    {
      assert CallInv(c, s.log, id, s.calls[id]);
    }
    forall key, a: real, b: real | a <= b
      ensures |AdmittedIn(c, s, key, a, b)| as real <= Allowance(c.Limit(), b - a)
    {
      PassedKeepLimit(c, s, key, a, b);
      assert AdmittedIn(c, s, key, a, b) == Passed(c, s, key, a, b);
    }
  }

  // The closed mode: nothing that is counted goes on without a script run of its own,
  // and those whose script ran within a window number at most burst plus the window's
  // length times average per period -- whatever failed, was lost, or ran late.
  lemma ClosedModeKeepsLimit(c: Setup, s: State)
    requires c.Valid() && Reachable(c, s) && c.policy.failureMode == FailClosed
    ensures forall id :: id in s.calls && Admitted(s.calls[id]) ==> s.calls[id].command.Ran?
    ensures forall key, a: real, b: real :: a <= b ==>
      |AdmittedIn(c, s, key, a, b)| as real <=
        c.policy.burst as real + (b - a) * (c.policy.average as real / c.policy.period as real)
  {
    ClosedModeIsWithin(c, s);
    forall key, a: real, b: real | a <= b
      ensures |AdmittedIn(c, s, key, a, b)| as real <=
        c.policy.burst as real + (b - a) * (c.policy.average as real / c.policy.period as real)
    {
      InFields(c.policy, b - a, |AdmittedIn(c, s, key, a, b)| as real);
    }
  }

  lemma InFields(p: Policy, length: real, n: real)
    requires p.Valid() && p.average > 0 && n <= Allowance(p.Limit(), length)
    ensures n <= p.burst as real + length * (p.average as real / p.period as real)
  {
    AllowanceInFields(p, length);
  }

  // The requests for a key that went on, by the time of their script.
  ghost function AdmittedIn(c: Setup, s: State, key: string, a: real, b: real): set<Id> {
    set id | id in s.calls && Admitted(s.calls[id]) && c.redisPrefix + s.calls[id].route.key == key
      && s.calls[id].command.Ran? && a <= s.calls[id].command.time <= b
  }

  // The same for one client: one IPv6 network of the configured size, however net.ParseIP
  // reads its addresses written, or else one text -- an IPv4 address in one way of writing
  // it, an address with a zone -- whichever gateways its requests came through.
  ghost function AdmittedOf(c: Setup, s: State, addr: string, a: real, b: real): set<Id>
    requires c.Valid()
  {
    set id | id in s.calls && Admitted(s.calls[id])
      && SameClient(c.policy.lib, Derive(c.policy.lib, c.policy.strategy, s.calls[id].message), addr, c.policy.prefix)
      && s.calls[id].command.Ran? && a <= s.calls[id].command.time <= b
  }

  lemma ClientsKeepLimit(c: Setup, s: State, addr: string, a: real, b: real)
    requires c.Valid() && Reachable(c, s) && c.policy.failureMode == FailClosed && a <= b
    requires c.policy.lib.Lawful() && c.policy.matcher.Aggregate?
    ensures |AdmittedOf(c, s, addr, a, b)| as real <= Allowance(c.Limit(), b - a)
  {
    var p, key := c.policy, c.redisPrefix + Subnet(c.policy.lib, addr, c.policy.prefix);
    ReachableInv(c, s);
    ClosedModeIsWithin(c, s);
    forall id | id in AdmittedOf(c, s, addr, a, b)
      ensures id in AdmittedIn(c, s, key, a, b)
    {
      assert CallInv(c, s.log, id, s.calls[id]);
      PublishedAgreesWithBucket(p, s.calls[id].message);
      KeysExactly(p.lib, Derive(p.lib, p.strategy, s.calls[id].message), addr, p.prefix);
    }
    SubsetIsWithin(AdmittedOf(c, s, addr, a, b), AdmittedIn(c, s, key, a, b), Allowance(c.Limit(), b - a));
  }

  // The requests that resolved to one of several texts.
  ghost function AdmittedAs(c: Setup, s: State, texts: set<string>, a: real, b: real): set<Id>
    requires c.Valid()
  {
    set id | id in s.calls && Admitted(s.calls[id])
      && Derive(c.policy.lib, c.policy.strategy, s.calls[id].message) in texts
      && s.calls[id].command.Ran? && a <= s.calls[id].command.time <= b
  }

  // A bound, n times over.
  function Repeated(n: nat, bound: real): real {
    if n == 0 then 0.0 else Repeated(n - 1, bound) + bound
  }

  lemma {:induction false} RepeatedIsProduct(n: nat, bound: real)
    ensures Repeated(n, bound) == n as real * bound
  {
    if n > 0 {
      RepeatedIsProduct(n - 1, bound);
      assert n as real * bound == (n - 1) as real * bound + bound;
    }
  }

  lemma {:induction false} TextsAddUp(c: Setup, s: State, texts: set<string>, a: real, b: real, bound: real)
    requires c.Valid() && forall text :: |AdmittedOf(c, s, text, a, b)| as real <= bound
    ensures |AdmittedAs(c, s, texts, a, b)| as real <= Repeated(|texts|, bound)
    decreases texts
  {
    if texts == {} {
      assert AdmittedAs(c, s, texts, a, b) == {};
    } else {
      var text :| text in texts;
      var others := texts - {text};
      TextsAddUp(c, s, others, a, b, bound);
      OneTextLess(c, s, texts, text, a, b);
      BothAreWithin(AdmittedAs(c, s, texts, a, b), AdmittedAs(c, s, others, a, b), AdmittedOf(c, s, text, a, b),
                    Repeated(|others|, bound), bound);
    }
  }

  // An address that reaches the gateways as several texts has the limit at most once for
  // each, and so have the zoned neighbours of one network.
  lemma SpellingsKeepLimit(c: Setup, s: State, texts: set<string>, a: real, b: real)
    requires c.Valid() && Reachable(c, s) && c.policy.failureMode == FailClosed && a <= b
    requires c.policy.lib.Lawful() && c.policy.matcher.Aggregate?
    ensures |AdmittedAs(c, s, texts, a, b)| as real <= |texts| as real * Allowance(c.Limit(), b - a)
  {
    forall text
      ensures |AdmittedOf(c, s, text, a, b)| as real <= Allowance(c.Limit(), b - a)
    {
      ClientsKeepLimit(c, s, text, a, b);
    }
    TextsAddUp(c, s, texts, a, b, Allowance(c.Limit(), b - a));
    RepeatedIsProduct(|texts|, Allowance(c.Limit(), b - a));
  }

  lemma OneTextLess(c: Setup, s: State, texts: set<string>, text: string, a: real, b: real)
    requires c.Valid()
    ensures AdmittedAs(c, s, texts, a, b) <= AdmittedAs(c, s, texts - {text}, a, b) + AdmittedOf(c, s, text, a, b)
  {
    forall id | id in AdmittedAs(c, s, texts, a, b)
      ensures id in AdmittedAs(c, s, texts - {text}, a, b) || id in AdmittedOf(c, s, text, a, b)
    {
      var derived := Derive(c.policy.lib, c.policy.strategy, s.calls[id].message);
      assert derived == text ==> SameClient(c.policy.lib, derived, text, c.policy.prefix);
    }
  }

  lemma BothAreWithin(all: set<Id>, x: set<Id>, y: set<Id>, most: real, bound: real)
    requires all <= x + y && |x| as real <= most && |y| as real <= bound
    ensures |all| as real <= most + bound
  {
    assert x + y == all + (x + y - all);
    assert |x + y| == |x| + |y| - |x * y|;
  }

  // Nor is less let through than the limit allows: wherever the cluster is, a script
  // grants its request exactly when every window still has room for it.
  lemma ScriptsAreExact(c: Setup, s: State, id: Id, time: real)
    requires c.Valid() && Reachable(c, s) && Enabled(c, s, Execute(id, time))
    ensures var key := c.redisPrefix + s.calls[id].route.key;
      VerdictOn(c.Limit(), Expire(s.db, key, time), key, time, AllowN(1)).Granted?
      <==> R.Fits(c.Limit(), GrantsFor(s.log, key), time, 1.0)
  {
    var l, key := c.Limit(), c.redisPrefix + s.calls[id].route.key;
    ReachableInv(c, s);
    KeyWaits(l, s.db, s.log, key, s.clock, time);
    KeyExpires(l, s.db, s.log, key, key, time);
    R.RoomIsFit(l, GrantsFor(s.log, key), Lookup(Expire(s.db, key, time), key), time, 1.0);
  }
}
