/** The limiter a middleware holds (rate.go): two guarded scripts over one key space,
    and what their replies become. */
module Limiting {
  import opened Wrappers
  import opened Gcra
  import opened Scripts
  import B = Breaker
  import R = Replies
  import Runs

  // Result; durations in nanoseconds.
  datatype Outcome = Outcome(limit: Limit, allowed: int, remaining: int, retryAfter: int, resetAfter: int)

  // dur
  function Dur(f: real): int {
    if f == -1.0 then -1 else Truncate(f * B.SECOND as real)
  }

  function ToOutcome(l: Limit, reply: Reply): Outcome {
    Outcome(l, reply.allowed, reply.remaining, Dur(reply.retryAfter), Dur(reply.resetAfter))
  }

  function Read(l: Limit, r: Result<Reply>): Result<Outcome> {
    match r
    case Ok(reply) => Ok(ToOutcome(l, reply))
    case Err => Err
  }

  class Limiter {
    const rdb: Redis
    const allowN: ScriptWithBreaker
    const allowAtMost: ScriptWithBreaker
    const redisPrefix: string

    ghost predicate Valid()
      reads this, allowN, allowAtMost, allowN.script, allowAtMost.script
    {
      && allowN != allowAtMost && allowN.script != allowAtMost.script
      && allowN.script.redis == rdb && allowAtMost.script.redis == rdb
      && allowN.script.script == AllowNLua && allowAtMost.script.script == AllowAtMostLua
      && allowN.Valid() && allowAtMost.Valid()
    }

    // NewLimiter
    constructor (rdb: Redis, prefix: string, settings: B.Settings, now: int)
      ensures Valid() && this.rdb == rdb && redisPrefix == "rate_" + prefix
      ensures fresh(allowN) && fresh(allowAtMost) && fresh(allowN.script) && fresh(allowAtMost.script)
      ensures allowN.settings == settings && allowAtMost.settings == settings
      ensures allowN.created == now && allowAtMost.created == now && allowN.calls == [] && allowAtMost.calls == []
      ensures allowN.State() == allowAtMost.State() == Backend(rdb.db, B.State(0, now), false)
    {
      var all := new ScriptImpl(rdb, AllowNLua);
      var most := new ScriptImpl(rdb, AllowAtMostLua);
      this.rdb := rdb;
      this.allowN := new ScriptWithBreaker(all, settings, now);
      this.allowAtMost := new ScriptWithBreaker(most, settings, now);
      this.redisPrefix := "rate_" + prefix;
    }

    method AllowN(key: string, l: Limit, n: nat, start: int, link: Link, end: int) returns (r: Result<Outcome>)
      requires Valid() && l.Valid() && allowN.Ready(start, end)
      modifies allowN, allowN.script, rdb
      ensures Valid() && allowN.calls == old(allowN.calls) + [B.Call(start, r.Err?, end)]
      ensures var (reply, after) := Guarded(allowN.settings, old(allowN.State()), redisPrefix + key, l, Op.AllowN(n), start, link, end);
        r == Read(l, reply) && allowN.State() == after
      ensures old(allowN.Resting(start)) <==> B.Open(old(allowN.State()).breaker, start)
    {
      var v := allowN.Run(redisPrefix + key, l, n, start, link, end);
      if v.Err? {
        return Err;
      }
      return Ok(Outcome(l, v.value.allowed, v.value.remaining, Dur(v.value.retryAfter), Dur(v.value.resetAfter)));
    }

    method AllowAtMost(key: string, l: Limit, n: nat, start: int, link: Link, end: int) returns (r: Result<Outcome>)
      requires Valid() && l.Valid() && allowAtMost.Ready(start, end)
      modifies allowAtMost, allowAtMost.script, rdb
      ensures Valid() && allowAtMost.calls == old(allowAtMost.calls) + [B.Call(start, r.Err?, end)]
      ensures var (reply, after) := Guarded(allowAtMost.settings, old(allowAtMost.State()), redisPrefix + key, l, Op.AllowAtMost(n), start, link, end);
        r == Read(l, reply) && allowAtMost.State() == after
      ensures old(allowAtMost.Resting(start)) <==> B.Open(old(allowAtMost.State()).breaker, start)
    {
      var v := allowAtMost.Run(redisPrefix + key, l, n, start, link, end);
      if v.Err? {
        return Err;
      }
      return Ok(Outcome(l, v.value.allowed, v.value.remaining, Dur(v.value.retryAfter), Dur(v.value.resetAfter)));
    }

    method Allow(key: string, l: Limit, start: int, link: Link, end: int) returns (r: Result<Outcome>)
      requires Valid() && l.Valid() && allowN.Ready(start, end)
      modifies allowN, allowN.script, rdb
      ensures Valid() && allowN.calls == old(allowN.calls) + [B.Call(start, r.Err?, end)]
      ensures var (reply, after) := Guarded(allowN.settings, old(allowN.State()), redisPrefix + key, l, Op.AllowN(1), start, link, end);
        r == Read(l, reply) && allowN.State() == after
      ensures old(allowN.Resting(start)) <==> B.Open(old(allowN.State()).breaker, start)
    {
      r := AllowN(key, l, 1, start, link, end);
    }
  }

  // ------------------------------------------------ keys

  // Limiters share one key space without a separator between name and key: one
  // limiter's keys are all different, and two limiters meet exactly where the longer
  // name continues the shorter one by the start of its key.
  lemma KeysMeetExactly(a: string, x: string, b: string, y: string)
    requires |a| <= |b|
    ensures "rate_" + a + x == "rate_" + b + y <==> b[..|a|] == a && x == b[|a|..] + y
  {
    var p, q := "rate_" + a + x, "rate_" + b + y;
    assert p[5..] == a + x && q[5..] == b + y;
    if p == q {
      assert (a + x)[..|a|] == a && (b + y)[..|a|] == b[..|a|];
      assert (a + x)[|a|..] == x && (b + y)[|a|..] == b[|a|..] + y;
    }
    if b[..|a|] == a && x == b[|a|..] + y {
      assert a + x == b + y;
      assert p == "rate_" + (a + x) && q == "rate_" + (b + y);
    }
  }

  // ------------------------------------------------ durations

  // A duration is the store's number of seconds, cut off below the nanosecond.
  lemma DurCutsOff(f: real)
    requires f >= 0.0
    ensures Dur(f) as real <= f * B.SECOND as real < Dur(f) as real + 1.0
    ensures Dur(f) >= 0
  {
  }

  // The -1 that stands for "admitted" is never the rounding of a real waiting time.
  lemma SentinelSurvives(l: Limit, slot: Slot, now: real, op: Op)
    requires l.Valid()
    ensures var v := Decide(Room(l, slot, now), op);
      var o := ToOutcome(l, ToReply(l, v));
      && (o.retryAfter == -1 <==> v.Granted?)
      && (v.Denied? ==> o.retryAfter >= 0 && o.allowed == 0)
      && o.resetAfter >= 0
  {
    var v := Decide(Room(l, slot, now), op);
    R.ResetAfterIsExact(l, slot, now, op, now);
    DurCutsOff(ResetAfter(l, v));
    if v.Denied? {
      Positive(l.Interval(), v.lack);
      DurCutsOff(RetryAfter(l, v));
    }
  }

  // Whether an operation can be granted at all.
  predicate Attainable(l: Limit, op: Op) {
    op.AllowN? ==> op.n <= l.burst
  }

  // A duration cut off to d nanoseconds is over after k of them, if the exact time is.
  predicate Over(d: int, exact: real, k: int) {
    k > d || (k == d && d as real == exact * B.SECOND as real)
  }

  lemma OverExactly(f: real, k: nat)
    requires f >= 0.0
    ensures k as real / B.SECOND as real >= f <==> Over(Dur(f), f, k)
  {
    DurCutsOff(f);
  }

  // Result.RetryAfter, which is the store's waiting time cut off: after k nanoseconds,
  // the same call is granted exactly if it can be at all and k exceeds RetryAfter, or
  // equals it and nothing was cut off.
  lemma {:induction false} RetryAfterInNanoseconds(l: Limit, slot: Slot, now: real, op: Op, k: nat)
    requires l.Valid() && Decide(Room(l, slot, now), op).Denied?
    ensures var v := Decide(Room(l, slot, now), op);
      var later := now + k as real / B.SECOND as real;
      Decide(Room(l, slot, later), op).Granted? <==>
        Attainable(l, op) && Over(ToOutcome(l, ToReply(l, v)).retryAfter, RetryAfter(l, v), k)
  {
    var v := Decide(Room(l, slot, now), op);
    var later := now + k as real / B.SECOND as real;
    Positive(l.Interval(), v.lack);
    OverExactly(RetryAfter(l, v), k);
    match op {
      case AllowN(n) => R.RetryAfterIsExact(l, slot, now, n, later);
      case AllowAtMost(n) => R.AtMostRetryAfterIsExact(l, slot, now, n, later);
    }
  }

  // And Result.ResetAfter: after k nanoseconds with nothing granted the key is as good as
  // new exactly if k exceeds it, or equals it and nothing was cut off.
  lemma {:induction false} ResetAfterInNanoseconds(l: Limit, slot: Slot, now: real, op: Op, k: nat)
    requires l.Valid()
    ensures var v := Decide(Room(l, slot, now), op);
      var later := now + k as real / B.SECOND as real;
      Effective(Save(l, slot, now, v), later) == later <==> Over(ToOutcome(l, ToReply(l, v)).resetAfter, ResetAfter(l, v), k)
  {
    var v := Decide(Room(l, slot, now), op);
    var later := now + k as real / B.SECOND as real;
    R.ResetAfterIsExact(l, slot, now, op, later);
    OverExactly(ResetAfter(l, v), k);
  }

  // What an admitted caller is told of the room left: Remaining more unit requests at
  // the same instant are granted, and no more; and the limit is the one it asked with.
  lemma RemainingInTheOutcome(l: Limit, slot: Slot, now: real, op: Op)
    requires l.Valid() && Decide(Room(l, slot, now), op).Granted?
    ensures var v := Decide(Room(l, slot, now), op);
      var o := ToOutcome(l, ToReply(l, v));
      && o.limit == l && o.remaining >= 0
      && var vs := Runs.Verdicts(l, Save(l, slot, now, v), R.Units(now, o.remaining + 1));
         forall i :: 0 <= i <= o.remaining ==> (vs[i].Granted? <==> i < o.remaining)
  {
    R.RemainingIsExact(l, slot, now, op);
  }

  // And of what it was granted: all of n; or for AllowAtMost the largest whole number up to
  // n that there was room for.
  lemma AllowedInTheOutcome(l: Limit, slot: Slot, now: real, op: Op)
    requires l.Valid() && Decide(Room(l, slot, now), op).Granted?
    ensures var room := Room(l, slot, now);
      var o := ToOutcome(l, ToReply(l, Decide(room, op)));
      match op
      case AllowN(n) => o.allowed == n
      case AllowAtMost(n) =>
        && 0 <= o.allowed <= n && o.allowed as real <= room
        && (o.allowed == n || room < (o.allowed + 1) as real)
  {
    var room := Room(l, slot, now);
    match op {
      case AllowN(n) => assert (n as real).Floor == n;
      case AllowAtMost(n) =>
        var cost := Min(n as real, room);
        assert cost >= 0.0 && cost.Floor as real <= cost < cost.Floor as real + 1.0;
    }
  }

  // Go's division of a duration by a second, which truncates.
  function Seconds(d: int): int {
    if d >= 0 then d / B.SECOND else -(-d / B.SECOND)
  }

  lemma WholeSeconds(f: real)
    requires f >= 0.0
    ensures f < (Seconds(Dur(f)) + 1) as real <= f + 1.0
  {
    DurCutsOff(f);
    var d := Dur(f);
    assert d / B.SECOND * B.SECOND <= d < (d / B.SECOND + 1) * B.SECOND;
    assert d + 1 <= (d / B.SECOND + 1) * B.SECOND;
    Scale(f, d / B.SECOND, d);
  }

  lemma Scale(f: real, q: int, d: int)
    requires q * B.SECOND <= d && d + 1 <= (q + 1) * B.SECOND
    requires d as real <= f * B.SECOND as real < d as real + 1.0
    ensures q as real <= f < (q + 1) as real
  {
  }

  // The seconds a rejected client is told to wait exceed what it has to wait, by at
  // most one second; having waited that long, it is admitted.
  lemma AdvertisedWaitIsEnough(l: Limit, slot: Slot, now: real, later: real)
    requires l.Valid() && Decide(Room(l, slot, now), Op.AllowN(1)).Denied?
    ensures var v := Decide(Room(l, slot, now), Op.AllowN(1));
      var wait := Seconds(ToOutcome(l, ToReply(l, v)).retryAfter) + 1;
      && RetryAfter(l, v) < wait as real <= RetryAfter(l, v) + 1.0
      && (later >= now + wait as real ==> Decide(Room(l, slot, later), Op.AllowN(1)).Granted?)
  {
    var v := Decide(Room(l, slot, now), Op.AllowN(1));
    Positive(l.Interval(), v.lack);
    WholeSeconds(RetryAfter(l, v));
    if later >= now {
      R.RetryAfterIsExact(l, slot, now, 1, later);
    }
  }
}
