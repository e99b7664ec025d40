/** The store keeps many keys, each with a time-to-live, and removes a key at some
    moment after that has run out. Neither the removals nor the other keys can be
    noticed: every script answers as it would on a key of its own that is kept for
    ever. */
module Expiry {
  import opened Wrappers
  import opened Gcra
  import opened Runs

  // Evict is the store's own doing: it removes the key if its time has come, and is
  // otherwise nothing. A script sees whatever is stored.
  datatype Action =
    | Evict(key: string, now: real)
    | Script(key: string, now: real, op: Op)

  ghost predicate Ordered(acts: seq<Action>) {
    forall i, j :: 0 <= i < j < |acts| ==> acts[i].now <= acts[j].now
  }

  function Perform(l: Limit, db: map<string, Entry>, act: Action): map<string, Entry>
    requires l.Valid()
  {
    match act
    case Evict(key, now) => Expire(db, key, now)
    case Script(key, now, op) => Stored(l, db, key, now, VerdictOn(l, db, key, now, op))
  }

  function DbAfter(l: Limit, acts: seq<Action>): map<string, Entry>
    requires l.Valid()
  {
    if acts == [] then map[] else Perform(l, DbAfter(l, acts[..|acts| - 1]), acts[|acts| - 1])
  }

  // The scripts run for one key, without the store's removals.
  function ScriptsFor(acts: seq<Action>, key: string): seq<Event> {
    if acts == [] then []
    else
      var act := acts[|acts| - 1];
      ScriptsFor(acts[..|acts| - 1], key) + if act.Script? && act.key == key then [Event(act.now, act.op)] else []
  }

  lemma {:induction false} ScriptsAreMonotone(acts: seq<Action>, key: string)
    requires Ordered(acts)
    ensures Monotone(ScriptsFor(acts, key))
    ensures acts != [] ==> forall i :: 0 <= i < |ScriptsFor(acts, key)| ==> ScriptsFor(acts, key)[i].now <= acts[|acts| - 1].now
  {
    if acts != [] {
      ScriptsAreMonotone(acts[..|acts| - 1], key);
    }
  }

  // Every entry outlives its tat, and gives the tat the key's own run would give.
  ghost predicate Faithful(l: Limit, db: map<string, Entry>, key: string, slot: Slot, now: real) {
    && (key in db ==> db[key].tat <= db[key].expiresAt)
    && Effective(Lookup(db, key), now) == Effective(slot, now)
  }

  lemma EvictionKeepsFaith(l: Limit, db: map<string, Entry>, victim: string, key: string, slot: Slot, now: real)
    requires Faithful(l, db, key, slot, now)
    ensures Faithful(l, Expire(db, victim, now), key, slot, now)
  {
  }

  lemma ScriptKeepsFaith(l: Limit, db: map<string, Entry>, key: string, slot: Slot, now: real, op: Op)
    requires l.Valid() && Faithful(l, db, key, slot, now)
    ensures var v := VerdictOn(l, db, key, now, op);
      && v == Decide(Room(l, slot, now), op)
      && Faithful(l, Stored(l, db, key, now, v), key, Save(l, slot, now, v), now)
  {
    var v := VerdictOn(l, db, key, now, op);
    LivesLongEnough(ResetAfter(l, v));
  }

  // EX math.ceil(reset_after) never ends before the tat is reached.
  lemma LivesLongEnough(reset: real)
    ensures reset <= Ceiling(reset) as real < reset + 1.0
  {
  }

  // A key that a script writes is kept for a whole number of seconds, the least that
  // reaches the tat, and is gone from then on.
  lemma TimeToLiveExactly(l: Limit, db: map<string, Entry>, key: string, now: real, v: Verdict, later: real)
    requires l.Valid() && v.Granted? && ResetAfter(l, v) > 0.0
    ensures var after, ttl := Stored(l, db, key, now, v), Ceiling(ResetAfter(l, v));
      && key in after && after[key].tat == now + ResetAfter(l, v)
      && ttl as real - 1.0 < ResetAfter(l, v) <= ttl as real
      && (key in Expire(after, key, later) <==> later < now + ttl as real)
  {
    LivesLongEnough(ResetAfter(l, v));
  }

  lemma FaithLasts(l: Limit, db: map<string, Entry>, key: string, slot: Slot, now: real, later: real)
    requires now <= later && Faithful(l, db, key, slot, now)
    ensures Faithful(l, db, key, slot, later)
  {
  }

  lemma OtherScriptKeepsFaith(l: Limit, db: map<string, Entry>, other: string, key: string, slot: Slot, now: real, v: Verdict)
    requires l.Valid() && Faithful(l, db, key, slot, now) && other != key
    ensures Faithful(l, Stored(l, db, other, now, v), key, slot, now)
  {
  }

  lemma OneMoreScript(l: Limit, acts: seq<Action>, key: string)
    requires l.Valid() && acts != []
    ensures var before, act := ScriptsFor(acts[..|acts| - 1], key), acts[|acts| - 1];
      var slot := SlotAfter(l, None, before);
      SlotAfter(l, None, ScriptsFor(acts, key)) ==
        if act.Script? && act.key == key then Save(l, slot, act.now, Decide(Room(l, slot, act.now), act.op)) else slot
  {
    var before, act := ScriptsFor(acts[..|acts| - 1], key), acts[|acts| - 1];
    if act.Script? && act.key == key {
      var es := ScriptsFor(acts, key);
      assert es == before + [Event(act.now, act.op)];
      assert es[..|es| - 1] == before;
    } else {
      assert ScriptsFor(acts, key) == before;
    }
  }

  lemma {:induction false} StoreIsFaithful(l: Limit, acts: seq<Action>, key: string, now: real)
    requires l.Valid() && Ordered(acts)
    requires forall i :: 0 <= i < |acts| ==> acts[i].now <= now
    ensures Faithful(l, DbAfter(l, acts), key, SlotAfter(l, None, ScriptsFor(acts, key)), now)
  {
    if acts != [] {
      var before, act := acts[..|acts| - 1], acts[|acts| - 1];
      var db, slot := DbAfter(l, before), SlotAfter(l, None, ScriptsFor(before, key));
      StoreIsFaithful(l, before, key, act.now);
      OneMoreScript(l, acts, key);
      match act {
        case Evict(victim, _) => EvictionKeepsFaith(l, db, victim, key, slot, act.now);
        case Script(other, _, op) =>
          if other == key {
            ScriptKeepsFaith(l, db, key, slot, act.now, op);
          } else {
            OtherScriptKeepsFaith(l, db, other, key, slot, act.now, VerdictOn(l, db, other, act.now, op));
          }
      }
      FaithLasts(l, DbAfter(l, acts), key, SlotAfter(l, None, ScriptsFor(acts, key)), act.now, now);
    }
  }

  // Whatever the other keys do and whenever expired keys are removed, each script
  // answers as on a never-expiring key that saw only its own calls.
  lemma {:induction false} ExpiryIsInvisible(l: Limit, acts: seq<Action>)
    requires l.Valid() && Ordered(acts) && acts != [] && acts[|acts| - 1].Script?
    ensures var act := acts[|acts| - 1];
      VerdictOn(l, DbAfter(l, acts[..|acts| - 1]), act.key, act.now, act.op)
        == LastVerdict(l, None, ScriptsFor(acts, act.key))
  {
    var before, act := acts[..|acts| - 1], acts[|acts| - 1];
    StoreIsFaithful(l, before, act.key, act.now);
    var es := ScriptsFor(acts, act.key);
    assert es[..|es| - 1] == ScriptsFor(before, act.key);
    ScriptKeepsFaith(l, DbAfter(l, before), act.key, SlotAfter(l, None, es[..|es| - 1]), act.now, act.op);
  }

  // On the store of many keys that expire, every script of every mixed run answers by
  // its own key's log alone: exactly as the reference limiter of Windows demands.
  lemma {:induction false} ExactOnTheStore(l: Limit, acts: seq<Action>)
    requires l.Valid() && Ordered(acts) && acts != [] && acts[|acts| - 1].Script?
    ensures var before, act := acts[..|acts| - 1], acts[|acts| - 1];
      Exact(l, Grants(l, ScriptsFor(before, act.key)), Event(act.now, act.op),
            VerdictOn(l, DbAfter(l, before), act.key, act.now, act.op))
  {
    var act, es := acts[|acts| - 1], ScriptsFor(acts, acts[|acts| - 1].key);
    var n := |es| - 1;
    assert es[..n] == ScriptsFor(acts[..|acts| - 1], act.key) && es[n] == Event(act.now, act.op);
    ExpiryIsInvisible(l, acts);
    ScriptsAreMonotone(acts, act.key);
    ExactAdmission(l, es);
    assert Verdicts(l, None, es)[n] == LastVerdict(l, None, es);
  }

  // A script of the Redis class removes its key if the key's time has come, and then
  // looks it up: what the class stores and answers is the run of these two actions.
  lemma {:induction false} CallIsEvictThenScript(l: Limit, acts: seq<Action>, key: string, now: real, op: Op)
    requires l.Valid() && Ordered(acts)
    requires forall i :: 0 <= i < |acts| ==> acts[i].now <= now
    ensures var db := Expire(DbAfter(l, acts), key, now);
      var v := VerdictOn(l, db, key, now, op);
      var later := acts + [Evict(key, now), Script(key, now, op)];
      && Stored(l, db, key, now, v) == DbAfter(l, later)
      && v == LastVerdict(l, None, ScriptsFor(later, key))
  {
    var later := acts + [Evict(key, now), Script(key, now, op)];
    TwoMore(l, acts, Evict(key, now), Script(key, now, op));
    ExpiryIsInvisible(l, later);
  }

  lemma TwoMore(l: Limit, acts: seq<Action>, first: Action, second: Action)
    requires l.Valid()
    ensures var later := acts + [first, second];
      && later[|later| - 1] == second
      && DbAfter(l, later[..|later| - 1]) == Perform(l, DbAfter(l, acts), first)
      && DbAfter(l, later) == Perform(l, Perform(l, DbAfter(l, acts), first), second)
  {
    var mid, later := acts + [first], acts + [first, second];
    assert mid[..|mid| - 1] == acts;
    assert later[..|later| - 1] == mid;
  }
}
