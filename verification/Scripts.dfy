/** Running a script from a gateway (internal/redis/script.go) and the breaker around
    it (internal/redis/script_breaker.go), as the objects that a limiter holds. What
    the network does to one call is a parameter. */
module Scripts {
  import opened Wrappers
  import opened Gcra
  import B = Breaker

  // How far EVALSHA gets: not run at all, run without the reply coming back, or run
  // and answered, at a time on the store's clock.
  datatype Fate = NotRun | Lost(time: real) | Answered(time: real)

  // One call's luck: whether a connection is had, whether SCRIPT LOAD would succeed,
  // and the fate of EVALSHA.
  datatype Link = Link(connected: bool, loads: bool, fate: Fate)

  // Whether the script runs in the store, given that its SHA is known or not.
  predicate Executes(loaded: bool, link: Link) {
    link.connected && (loaded || link.loads) && !link.fate.NotRun?
  }

  // The store after a call; a lost reply leaves the script's effects behind.
  function DbAfter(db: map<string, Entry>, key: string, l: Limit, op: Op, loaded: bool, link: Link): map<string, Entry>
    requires l.Valid()
  {
    if !Executes(loaded, link) then db
    else
      var time, live := link.fate.time, Expire(db, key, link.fate.time);
      Stored(l, live, key, time, VerdictOn(l, live, key, time, op))
  }

  // What the caller gets to see.
  function Answer(db: map<string, Entry>, key: string, l: Limit, op: Op, loaded: bool, link: Link): Result<Reply>
    requires l.Valid()
  {
    if Executes(loaded, link) && link.fate.Answered? then
      Ok(ToReply(l, VerdictOn(l, Expire(db, key, link.fate.time), key, link.fate.time, op)))
    else Err
  }

  datatype Source = AllowNLua | AllowAtMostLua

  function Request(source: Source, n: nat): Op {
    match source
    case AllowNLua => AllowN(n)
    case AllowAtMostLua => AllowAtMost(n)
  }

  class ScriptImpl {
    const redis: Redis
    const script: Source
    var loaded: bool // scriptSha is not empty

    constructor (redis: Redis, script: Source)
      ensures this.redis == redis && this.script == script && !loaded
    {
      this.redis := redis;
      this.script := script;
      this.loaded := false;
    }

    method Run(key: string, l: Limit, n: nat, link: Link) returns (r: Result<Reply>)
      requires l.Valid()
      modifies this, redis
      ensures r == Answer(old(redis.db), key, l, Request(script, n), old(loaded), link)
      ensures redis.db == DbAfter(old(redis.db), key, l, Request(script, n), old(loaded), link)
      ensures loaded == (old(loaded) || (link.connected && link.loads))
    {
      if !link.connected {
        return Err;
      }
      if !loaded {
        if !link.loads {
          return Err;
        }
        loaded := true;
      }
      if link.fate.NotRun? {
        return Err;
      }
      var reply;
      match script {
        case AllowNLua => reply := redis.EvalAllowN(key, l, link.fate.time, n);
        case AllowAtMostLua => reply := redis.EvalAllowAtMost(key, l, link.fate.time, n);
      }
      return if link.fate.Answered? then Ok(reply) else Err;
    }
  }

  // Everything a guarded call starts from: the store, the breaker's fields, and whether
  // the script's SHA is known.
  datatype Backend = Backend(db: map<string, Entry>, breaker: B.State, loaded: bool)

  // Whether a call is answered at all.
  predicate Heard(s: Backend, start: int, link: Link) {
    !B.Open(s.breaker, start) && Executes(s.loaded, link) && link.fate.Answered?
  }

  // What a guarded call answers, and what it leaves behind.
  function Guarded(settings: B.Settings, s: Backend, key: string, l: Limit, op: Op, start: int, link: Link, end: int)
    : (result: (Result<Reply>, Backend))
    requires l.Valid()
    ensures result.0.Ok? <==> Heard(s, start, link)
  {
    if B.Open(s.breaker, start) then (Err, s)
    else
      var r := Answer(s.db, key, l, op, s.loaded, link);
      (r, Backend(DbAfter(s.db, key, l, op, s.loaded, link),
                  B.Finish(settings, s.breaker, r.Err?, end),
                  s.loaded || (link.connected && link.loads)))
  }

  class ScriptWithBreaker {
    const script: ScriptImpl
    const settings: B.Settings
    var errorCount: int
    var nextAttempt: int
    ghost const created: int
    ghost var calls: seq<B.Call>

    // The two fields are the ones that the calls so far lead to.
    ghost predicate Valid()
      reads this
    {
      && B.Timely(created, calls)
      && B.State(errorCount, nextAttempt) == B.StateAfter(settings, created, calls)
    }

    function State(): Backend
      reads this, script, script.redis
    {
      Backend(script.redis.db, B.State(errorCount, nextAttempt), script.loaded)
    }

    // A call may start once the ones before it are over.
    ghost predicate Free(now: int)
      reads this
    {
      && created < now
      && forall i :: 0 <= i < |calls| ==> calls[i].end <= now
    }

    ghost predicate Ready(start: int, end: int)
      reads this
    {
      Free(start) && start <= end
    }

    // Whether a call would be turned away, going by what happened so far.
    ghost predicate Resting(now: int)
      reads this
    {
      B.Resting(settings, B.Reached(settings, created, calls), now)
    }

    // NewScriptWithBreaker
    constructor (script: ScriptImpl, settings: B.Settings, now: int)
      ensures Valid() && this.script == script && this.settings == settings
      ensures created == now && calls == []
      ensures State() == Backend(script.redis.db, B.State(0, now), script.loaded)
    {
      this.script := script;
      this.settings := settings;
      this.errorCount := 0;
      this.nextAttempt := now;
      this.created := now;
      this.calls := [];
    }

    method Run(key: string, l: Limit, n: nat, start: int, link: Link, end: int) returns (r: Result<Reply>)
      requires Valid() && Ready(start, end) && l.Valid()
      modifies this, script, script.redis
      ensures Valid() && calls == old(calls) + [B.Call(start, r.Err?, end)]
      ensures (r, State()) == Guarded(settings, old(State()), key, l, Request(script.script, n), start, link, end)
      ensures old(Resting(start)) <==> B.Open(old(State()).breaker, start)
    {
      forall failed {
        B.OneMoreCall(settings, created, calls, B.Call(start, failed, end));
      }
      if errorCount < 3 || start > nextAttempt {
        r := script.Run(key, l, n, link);
        if r.Err? {
          errorCount := errorCount + 1;
          if errorCount >= settings.threshold {
            nextAttempt := end + settings.reattempt * B.SECOND;
          }
        } else {
          errorCount := 0;
        }
      } else {
        r := Err;
      }
      calls := calls + [B.Call(start, r.Err?, end)];
    }
  }
}
