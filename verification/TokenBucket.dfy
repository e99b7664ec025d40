/** The token bucket the README promises, as a data type of its own: a number of
    tokens refilled continuously up to a capacity. The scripts refine it. */
module TokenBucket {
  import opened Wrappers
  import opened Gcra
  import opened Runs

  datatype Bucket = Bucket(tokens: real, at: real)

  datatype Draw = Refused | Drawn(cost: real, left: real)

  // The tokens in the bucket once it has been refilled up to now.
  function Refilled(l: Limit, b: Bucket, now: real): real
    requires l.Valid()
  {
    Min(l.burst as real, b.tokens + (now - b.at) * l.Rate())
  }

  function Serve(tokens: real, op: Op): Draw {
    match op
    case AllowN(n) =>
      if n as real <= tokens then Drawn(n as real, tokens - n as real) else Refused
    case AllowAtMost(n) =>
      if tokens < 1.0 then Refused
      else Drawn(Min(n as real, tokens), tokens - Min(n as real, tokens))
  }

  function BucketAfter(l: Limit, b: Bucket, es: seq<Event>): Bucket
    requires l.Valid()
    decreases |es|, 0
  {
    if es == [] then b
    else
      var e := es[|es| - 1];
      Drained(Refilled(l, BucketAfter(l, b, es[..|es| - 1]), e.now), e.now, LastDraw(l, b, es))
  }

  function Drained(tokens: real, now: real, d: Draw): Bucket {
    Bucket(if d.Drawn? then d.left else tokens, now)
  }

  function LastDraw(l: Limit, b: Bucket, es: seq<Event>): Draw
    requires l.Valid() && es != []
    decreases |es| - 1, 1
  {
    var e := es[|es| - 1];
    Serve(Refilled(l, BucketAfter(l, b, es[..|es| - 1]), e.now), e.op)
  }

  // The script's verdict and the bucket's draw: same decision, charge and rest.
  predicate Agree(v: Verdict, d: Draw) {
    match d
    case Refused => v.Denied?
    case Drawn(cost, left) => v.Granted? && v.cost == cost && v.left == left
  }

  // The bucket seen through the stored tat, at a given time.
  ghost predicate Tracks(l: Limit, slot: Slot, b: Bucket, now: real)
    requires l.Valid()
  {
    && Room(l, slot, now) == Refilled(l, b, now)
    && 0.0 <= b.tokens <= l.burst as real && b.at <= now
  }

  // Refilling in two stages is refilling once.
  lemma Later(l: Limit, slot: Slot, b: Bucket, now: real, later: real)
    requires l.Valid() && now <= later && Tracks(l, slot, b, now)
    ensures Tracks(l, slot, b, later)
  {
    RoomLater(l, slot, now, later);
    RefilledInTicks(l, b, now);
    RefilledInTicks(l, b, later);
  }

  lemma Step(l: Limit, slot: Slot, b: Bucket, e: Event)
    requires l.Valid() && Tracks(l, slot, b, e.now)
    ensures var v, d := Decide(Room(l, slot, e.now), e.op), Serve(Refilled(l, b, e.now), e.op);
      && Agree(v, d)
      && Tracks(l, Save(l, slot, e.now, v), Drained(Refilled(l, b, e.now), e.now, d), e.now)
  {
    var tokens := Refilled(l, b, e.now);
    var b' := Drained(tokens, e.now, Serve(tokens, e.op));
    RoomSaved(l, slot, e.now, e.op);
    RefilledInTicks(l, b, e.now);
    RefilledInTicks(l, b', e.now);
  }

  lemma RefilledInTicks(l: Limit, b: Bucket, now: real)
    requires l.Valid()
    ensures Refilled(l, b, now) == Min(l.burst as real, b.tokens + Tick(l, now) - Tick(l, b.at))
    ensures b.at <= now ==> Tick(l, b.at) <= Tick(l, now)
  {
    TickOrder(l, b.at, now);
  }

  lemma {:induction false} BucketFollows(l: Limit, full: Bucket, es: seq<Event>, now: real)
    requires l.Valid() && Monotone(es) && full.tokens == l.burst as real && full.at <= now
    requires forall i :: 0 <= i < |es| ==> full.at <= es[i].now <= now
    ensures Tracks(l, SlotAfter(l, None, es), BucketAfter(l, full, es), now)
    ensures es != [] ==> Agree(LastVerdict(l, None, es), LastDraw(l, full, es))
  {
    if es == [] {
      RefilledInTicks(l, full, now);
      RoomInTicks(l, None, now);
    } else {
      var before, e := es[..|es| - 1], es[|es| - 1];
      BucketFollows(l, full, before, e.now);
      Step(l, SlotAfter(l, None, before), BucketAfter(l, full, before), e);
      Unfold(l, full, es);
      Later(l, SlotAfter(l, None, es), BucketAfter(l, full, es), e.now, now);
    }
  }

  // One step of both runs.
  lemma Unfold(l: Limit, full: Bucket, es: seq<Event>)
    requires l.Valid() && es != []
    ensures var before, e := es[..|es| - 1], es[|es| - 1];
      var slot, b := SlotAfter(l, None, before), BucketAfter(l, full, before);
      && LastVerdict(l, None, es) == Decide(Room(l, slot, e.now), e.op)
      && SlotAfter(l, None, es) == Save(l, slot, e.now, LastVerdict(l, None, es))
      && LastDraw(l, full, es) == Serve(Refilled(l, b, e.now), e.op)
      && BucketAfter(l, full, es) == Drained(Refilled(l, b, e.now), e.now, LastDraw(l, full, es))
  {
  }

  // Every mixed run decides, charges and reports exactly as a bucket that starts
  // full and refills at the rate; its tokens stay between empty and full.
  lemma {:induction false} ScriptsAreATokenBucket(l: Limit, start: real, es: seq<Event>)
    requires l.Valid() && Monotone(es)
    requires forall i :: 0 <= i < |es| ==> start <= es[i].now
    ensures forall k :: 0 <= k < |es| ==>
      var full := Bucket(l.burst as real, start);
      && Agree(Verdicts(l, None, es)[k], LastDraw(l, full, es[..k + 1]))
      && 0.0 <= BucketAfter(l, full, es[..k + 1]).tokens <= l.burst as real
  {
    forall k | 0 <= k < |es|
      ensures Agree(Verdicts(l, None, es)[k], LastDraw(l, Bucket(l.burst as real, start), es[..k + 1]))
      ensures 0.0 <= BucketAfter(l, Bucket(l.burst as real, start), es[..k + 1]).tokens <= l.burst as real
    {
      var upTo := es[..k + 1];
      assert upTo[..|upTo| - 1] == es[..k];
      VerdictAt(l, None, es, k);
      BucketFollows(l, Bucket(l.burst as real, start), upTo, es[k].now);
    }
  }
}
