/** The two Redis scripts of lua.go: one number per key, the theoretical arrival
    time (tat), from which admission, remaining quota, retry time, reset time and
    time-to-live are computed. Times are exact reals, in seconds, on the clock of
    the store. */
module Gcra {
  import opened Wrappers

  datatype Limit = Limit(rate: int, burst: int, period: real) {
    predicate Valid() {
      rate > 0 && burst >= 1 && period > 0.0
    }

    // Seconds between two requests at the sustained rate (emission_interval).
    function Interval(): (i: real)
      requires Valid()
      ensures i > 0.0
    {
      period / rate as real
    }

    // Requests per second at the sustained rate.
    function Rate(): (r: real)
      requires Valid()
      ensures r > 0.0
    {
      rate as real / period
    }
  }

  // What the store keeps for one key, without its time-to-live.
  type Slot = Option<real>

  // The tat a script works with: a missing key counts as "now".
  function Effective(slot: Slot, now: real): (tat: real)
    ensures tat >= now
  {
    match slot
    case None => now
    case Some(t) => if t > now then t else now
  }

  // How many requests still fit at this instant, as an exact number.
  function Room(l: Limit, slot: Slot, now: real): real
    requires l.Valid()
  {
    l.burst as real - (Effective(slot, now) - now) / l.Interval()
  }

  datatype Op = AllowN(n: nat) | AllowAtMost(n: nat)

  // The exact outcome of a script, counted in requests: a denial with what was
  // missing and the room there was, or a grant with its cost and the room left.
  datatype Verdict =
    | Denied(lack: real, room: real)
    | Granted(cost: real, left: real)
  {
    function RoomAfter(): real {
      if Denied? then room else left
    }
  }

  function Min(a: real, b: real): real {
    if a < b then a else b
  }

  // allowNLua grants all of n or nothing; allowAtMostLua as much of n as there is
  // room for, provided there is room for one.
  function Decide(room: real, op: Op): Verdict {
    match op
    case AllowN(n) =>
      if room < n as real then Denied(n as real - room, room)
      else Granted(n as real, room - n as real)
    case AllowAtMost(n) =>
      if room < 1.0 then Denied(1.0 - room, room)
      else Granted(Min(n as real, room), room - Min(n as real, room))
  }

  // The same, in seconds.
  function RetryAfter(l: Limit, v: Verdict): real
    requires l.Valid() && v.Denied?
  {
    l.Interval() * v.lack
  }

  function ResetAfter(l: Limit, v: Verdict): real
    requires l.Valid()
  {
    l.Interval() * (l.burst as real - v.RoomAfter())
  }

  // The slot after a verdict: only a grant with something to wait for is stored.
  function Save(l: Limit, slot: Slot, now: real, v: Verdict): Slot
    requires l.Valid()
  {
    if v.Granted? && ResetAfter(l, v) > 0.0 then Some(now + ResetAfter(l, v)) else slot
  }

  // ---------------------------------------------------------------- replies

  datatype Reply = Reply(allowed: int, remaining: int, retryAfter: real, resetAfter: real)

  // Redis converts a Lua number to an integer reply by truncating toward zero.
  function Truncate(x: real): int {
    if x >= 0.0 then x.Floor else -((-x).Floor)
  }

  function ToReply(l: Limit, v: Verdict): Reply
    requires l.Valid()
  {
    match v
    case Denied(_, _) => Reply(0, 0, RetryAfter(l, v), ResetAfter(l, v))
    case Granted(cost, left) => Reply(Truncate(cost), Truncate(left), -1.0, ResetAfter(l, v))
  }

  lemma Positive(i: real, x: real)
    requires i > 0.0
    ensures i * x > 0.0 <==> x > 0.0
    ensures i * x < 0.0 <==> x < 0.0
  {
  }

  // ---------------------------------------------------------------- the store

  // A key with the moment Redis stops returning it (SET ... EX).
  datatype Entry = Entry(tat: real, expiresAt: real)

  function Ceiling(x: real): int {
    -((-x).Floor)
  }

  // A key whose time-to-live has run out is removed.
  function Expire(db: map<string, Entry>, key: string, now: real): map<string, Entry> {
    if key in db && db[key].expiresAt <= now then db - {key} else db
  }

  // GET
  function Lookup(db: map<string, Entry>, key: string): Slot {
    if key in db then Some(db[key].tat) else None
  }

  // What a script leaves behind for its key, given its verdict.
  function Stored(l: Limit, db: map<string, Entry>, key: string, now: real, v: Verdict): map<string, Entry>
    requires l.Valid()
  {
    if v.Granted? && ResetAfter(l, v) > 0.0 then
      db[key := Entry(now + ResetAfter(l, v), now + Ceiling(ResetAfter(l, v)) as real)]
    else
      db
  }

  // The verdict of a script on what is stored for its key.
  function VerdictOn(l: Limit, db: map<string, Entry>, key: string, now: real, op: Op): Verdict
    requires l.Valid()
  {
    Decide(Room(l, Lookup(db, key), now), op)
  }

  class Redis {
    var db: map<string, Entry>

    constructor ()
      ensures db == map[]
    {
      db := map[];
    }

    // allowNLua
    method EvalAllowN(key: string, l: Limit, time: real, n: nat) returns (reply: Reply)
      requires l.Valid()
      modifies this
      ensures reply == ToReply(l, VerdictOn(l, Expire(old(db), key, time), key, time, AllowN(n)))
      ensures db == Stored(l, Expire(old(db), key, time), key, time, VerdictOn(l, Expire(old(db), key, time), key, time, AllowN(n)))
    {
      var emissionInterval := l.period / l.rate as real;
      var increment := emissionInterval * n as real;
      var burstOffset := emissionInterval * l.burst as real;
      var now := time;

      db := Expire(db, key, now);
      var stored := Lookup(db, key);
      var tat := if stored.None? then now else stored.value;
      tat := if tat > now then tat else now;

      var newTat := tat + increment;
      var allowAt := newTat - burstOffset;
      var diff := now - allowAt;
      var remaining := diff / emissionInterval;
      AllowNArithmetic(l, stored, now, tat, n, emissionInterval, increment, burstOffset, remaining);

      if remaining < 0.0 {
        var resetAfter := tat - now;
        var retryAfter := diff * -1.0;
        return Reply(0, 0, retryAfter, resetAfter);
      }

      var resetAfter := newTat - now;
      if resetAfter > 0.0 {
        db := db[key := Entry(newTat, now + Ceiling(resetAfter) as real)];
      }
      return Reply(n, Truncate(remaining), -1.0, resetAfter);
    }

    // allowAtMostLua
    method EvalAllowAtMost(key: string, l: Limit, time: real, n: nat) returns (reply: Reply)
      requires l.Valid()
      modifies this
      ensures reply == ToReply(l, VerdictOn(l, Expire(old(db), key, time), key, time, AllowAtMost(n)))
      ensures db == Stored(l, Expire(old(db), key, time), key, time, VerdictOn(l, Expire(old(db), key, time), key, time, AllowAtMost(n)))
    {
      var emissionInterval := l.period / l.rate as real;
      var burstOffset := emissionInterval * l.burst as real;
      var cost := n as real;
      var now := time;

      db := Expire(db, key, now);
      var stored := Lookup(db, key);
      var tat := if stored.None? then now else stored.value;
      tat := if tat > now then tat else now;

      var diff := now - (tat - burstOffset);
      var remaining := diff / emissionInterval;

      if remaining < 1.0 {
        var resetAfter := tat - now;
        var retryAfter := emissionInterval - diff;
        AllowAtMostDenial(l, stored, now, tat, n, emissionInterval, burstOffset, diff, remaining);
        return Reply(0, 0, retryAfter, resetAfter);
      }

      ghost var room := remaining;
      if remaining < cost {
        cost := remaining;
        remaining := 0.0;
      } else {
        remaining := remaining - cost;
      }

      var increment := emissionInterval * cost;
      var newTat := tat + increment;
      AllowAtMostGrant(l, stored, now, tat, n, emissionInterval, burstOffset, room, cost, remaining, newTat);
      var resetAfter := newTat - now;
      if resetAfter > 0.0 {
        db := db[key := Entry(newTat, now + Ceiling(resetAfter) as real)];
      }
      return Reply(Truncate(cost), Truncate(remaining), -1.0, resetAfter);
    }
  }

  // The scripts' arithmetic on the tat, in terms of the room there is.
  lemma RoomArithmetic(i: real, b: real, now: real, tat: real, c: real)
    requires i > 0.0
    ensures var room := b - (tat - now) / i;
      && (now - (tat + i * c - i * b)) / i == room - c
      && (now - (tat - i * b)) / i == room
      && i * (c - room) == tat + i * c - i * b - now
      && i * (b - room) == tat - now
      && i * (b - (room - c)) == tat + i * c - now
  {
    var q := (tat - now) / i;
    assert i * q == tat - now;
    assert now - (tat + i * c - i * b) == i * (b - q - c);
    assert (i * (b - q - c)) / i == b - q - c;
    assert now - (tat - i * b) == i * (b - q);
    assert (i * (b - q)) / i == b - q;
  }

  // allowNLua's arithmetic, step by step, yields the verdict.
  lemma AllowNArithmetic(l: Limit, slot: Slot, now: real, tat: real, n: nat, i: real, increment: real, offset: real, remaining: real)
    requires l.Valid() && i == l.Interval() && tat == Effective(slot, now)
    requires increment == i * n as real && offset == i * l.burst as real
    requires remaining == (now - (tat + increment - offset)) / i
    ensures var v := Decide(Room(l, slot, now), AllowN(n));
      && (v.Denied? <==> remaining < 0.0)
      && (v.Denied? ==> RetryAfter(l, v) == (now - (tat + increment - offset)) * -1.0 && ResetAfter(l, v) == tat - now)
      && (v.Granted? ==> v == Granted(n as real, remaining) && ResetAfter(l, v) == tat + increment - now)
    ensures Truncate(n as real) == n
  {
    RoomArithmetic(i, l.burst as real, now, tat, n as real);
  }

  // allowAtMostLua's arithmetic, step by step, yields the verdict: the denial ...
  lemma AllowAtMostDenial(l: Limit, slot: Slot, now: real, tat: real, n: nat, i: real, offset: real, diff: real, room: real)
    requires l.Valid() && i == l.Interval() && tat == Effective(slot, now)
    requires offset == i * l.burst as real && diff == now - (tat - offset)
    requires room == diff / i && room < 1.0
    ensures var v := Decide(Room(l, slot, now), AllowAtMost(n));
      v.Denied? && RetryAfter(l, v) == i - diff && ResetAfter(l, v) == tat - now
  {
    RoomArithmetic(i, l.burst as real, now, tat, 1.0);
  }

  // ... and the grant.
  lemma AllowAtMostGrant(l: Limit, slot: Slot, now: real, tat: real, n: nat, i: real, offset: real,
                         room: real, cost: real, remaining: real, newTat: real)
    requires l.Valid() && i == l.Interval() && tat == Effective(slot, now)
    requires offset == i * l.burst as real
    requires room == (now - (tat - offset)) / i && room >= 1.0
    requires cost == Min(n as real, room) && remaining == room - cost
    requires newTat == tat + i * cost
    ensures var v := Decide(Room(l, slot, now), AllowAtMost(n));
      v == Granted(cost, remaining) && ResetAfter(l, v) == newTat - now
  {
    RoomArithmetic(i, l.burst as real, now, tat, cost);
  }
}
