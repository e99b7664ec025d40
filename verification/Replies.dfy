/** What the numbers in a reply promise a caller. */
module Replies {
  import opened Wrappers
  import opened Gcra
  import opened Runs
  import W = Windows

  // ------------------------------------------------ RetryAfter

  // Room for a cost that does not fit now returns after exactly this long, unless
  // the cost is beyond the burst.
  lemma RoomReturns(l: Limit, slot: Slot, now: real, cost: real, later: real)
    requires l.Valid() && now <= later && Room(l, slot, now) < cost
    ensures var wait := l.Interval() * (cost - Room(l, slot, now));
      && wait > 0.0
      && (cost <= Room(l, slot, later) <==> cost <= l.burst as real && later >= now + wait)
  {
    var lack := cost - Room(l, slot, now);
    Positive(l.Interval(), lack);
    RoomLater(l, slot, now, later);
    TickAdds(l, now, lack);
    TickOrder(l, now + l.Interval() * lack, later);
  }

  // A denied AllowN(n) leaves the key as it was, and from there the same call is
  // admitted exactly from now + RetryAfter on -- if n is within the burst. Beyond
  // the burst it is never admitted, whatever RetryAfter says.
  lemma {:induction false} RetryAfterIsExact(l: Limit, slot: Slot, now: real, n: nat, later: real)
    requires l.Valid() && now <= later
    requires Decide(Room(l, slot, now), AllowN(n)).Denied?
    ensures var v := Decide(Room(l, slot, now), AllowN(n));
      && Save(l, slot, now, v) == slot
      && RetryAfter(l, v) > 0.0
      && (Decide(Room(l, slot, later), AllowN(n)).Granted? <==> n <= l.burst && later >= now + RetryAfter(l, v))
  {
    RoomReturns(l, slot, now, n as real, later);
  }

  // The same for AllowAtMost, which asks for room for one request only.
  lemma {:induction false} AtMostRetryAfterIsExact(l: Limit, slot: Slot, now: real, n: nat, later: real)
    requires l.Valid() && now <= later
    requires Decide(Room(l, slot, now), AllowAtMost(n)).Denied?
    ensures var v := Decide(Room(l, slot, now), AllowAtMost(n));
      && Save(l, slot, now, v) == slot
      && RetryAfter(l, v) > 0.0
      && (Decide(Room(l, slot, later), AllowAtMost(n)).Granted? <==> later >= now + RetryAfter(l, v))
  {
    RoomReturns(l, slot, now, 1.0, later);
  }

  // A reply's retry_after is the sentinel -1 exactly when the call was admitted.
  lemma SentinelMeansAdmitted(l: Limit, slot: Slot, now: real, op: Op)
    requires l.Valid()
    ensures var v := Decide(Room(l, slot, now), op);
      ToReply(l, v).retryAfter == -1.0 <==> v.Granted?
  {
    var v := Decide(Room(l, slot, now), op);
    if v.Denied? {
      Positive(l.Interval(), v.lack);
    }
  }

  // ------------------------------------------------ ResetAfter

  // Two slots that give the same tat at t are indistinguishable from t on.
  lemma {:induction false} SameTatSameRun(l: Limit, a: Slot, b: Slot, t: real, es: seq<Event>)
    requires l.Valid() && Monotone(es)
    requires Effective(a, t) == Effective(b, t)
    requires forall i :: 0 <= i < |es| ==> t <= es[i].now
    ensures Verdicts(l, a, es) == Verdicts(l, b, es)
    ensures var now := if es == [] then t else es[|es| - 1].now;
      Effective(SlotAfter(l, a, es), now) == Effective(SlotAfter(l, b, es), now)
  {
    if es != [] {
      var before, e := es[..|es| - 1], es[|es| - 1];
      SameTatSameRun(l, a, b, t, before);
      var x, y := SlotAfter(l, a, before), SlotAfter(l, b, before);
      assert Effective(x, e.now) == Effective(y, e.now);
      assert LastVerdict(l, a, es) == LastVerdict(l, b, es);
    }
  }

  // The key is as good as new exactly from now + ResetAfter on, whatever the verdict.
  lemma {:induction false} ResetAfterIsExact(l: Limit, slot: Slot, now: real, op: Op, later: real)
    requires l.Valid() && now <= later
    ensures var v := Decide(Room(l, slot, now), op);
      && ResetAfter(l, v) >= 0.0
      && (Effective(Save(l, slot, now, v), later) == later <==> later >= now + ResetAfter(l, v))
  {
    var v := Decide(Room(l, slot, now), op);
    var debt := l.burst as real - v.RoomAfter();
    RoomLater(l, slot, now, now);
    RoomSaved(l, slot, now, op);
    Positive(l.Interval(), debt);
    RoomLater(l, Save(l, slot, now, v), now, later);
    RoomInTicks(l, Save(l, slot, now, v), later);
    TickOrder(l, Effective(Save(l, slot, now, v), later), later);
    TickAdds(l, now, debt);
    TickOrder(l, now + l.Interval() * debt, later);
  }

  // Once ResetAfter has elapsed with nothing admitted, a run goes on as on a key
  // that was never used.
  lemma {:induction false} ForgottenAfterReset(l: Limit, slot: Slot, e: Event, later: seq<Event>)
    requires l.Valid() && Monotone(later)
    requires var v := Decide(Room(l, slot, e.now), e.op);
      forall i :: 0 <= i < |later| ==> e.now + ResetAfter(l, v) <= later[i].now
    ensures var v := Decide(Room(l, slot, e.now), e.op);
      Verdicts(l, Save(l, slot, e.now, v), later) == Verdicts(l, None, later)
  {
    var v := Decide(Room(l, slot, e.now), e.op);
    var t := e.now + ResetAfter(l, v);
    ResetAfterIsExact(l, slot, e.now, e.op, e.now);
    ResetAfterIsExact(l, slot, e.now, e.op, t);
    SameTatSameRun(l, Save(l, slot, e.now, v), None, t, later);
  }

  // ------------------------------------------------ Remaining

  function Units(now: real, k: nat): (es: seq<Event>)
    ensures |es| == k && forall i :: 0 <= i < k ==> es[i] == Event(now, AllowN(1))
  {
    seq(k, i => Event(now, AllowN(1)))
  }

  // As long as there is room, unit requests at one instant take one each.
  lemma {:induction false} UnitsTakeRoom(l: Limit, slot: Slot, now: real, k: nat)
    requires l.Valid() && k as real <= Room(l, slot, now)
    ensures forall i :: 0 <= i < k ==> Verdicts(l, slot, Units(now, k))[i].Granted?
    ensures Room(l, SlotAfter(l, slot, Units(now, k)), now) == Room(l, slot, now) - k as real
  {
    if k > 0 {
      var es := Units(now, k);
      assert es[..|es| - 1] == Units(now, k - 1);
      UnitsTakeRoom(l, slot, now, k - 1);
      RoomSaved(l, SlotAfter(l, slot, Units(now, k - 1)), now, AllowN(1));
    }
  }

  // After an admitted call that reported m remaining, exactly m more unit requests
  // at the same instant are admitted, and the next one is denied.
  lemma RemainingIsExact(l: Limit, slot: Slot, now: real, op: Op)
    requires l.Valid() && Decide(Room(l, slot, now), op).Granted?
    ensures var v := Decide(Room(l, slot, now), op);
      var m := ToReply(l, v).remaining;
      && m >= 0
      && var vs := Verdicts(l, Save(l, slot, now, v), Units(now, m + 1));
         forall i :: 0 <= i <= m ==> (vs[i].Granted? <==> i < m)
  {
    var v := Decide(Room(l, slot, now), op);
    RoomSaved(l, slot, now, op);
    var after, m := Save(l, slot, now, v), v.left.Floor;
    UnitsTakeRoom(l, after, now, m);
    var es := Units(now, m + 1);
    assert es[..|es| - 1] == Units(now, m);
  }

  // A denial reports 0 remaining. That is exact -- the next unit request at the same
  // instant is denied as well -- exactly if there was no room for one.
  lemma RemainingOnDenialExactly(l: Limit, slot: Slot, now: real, op: Op)
    requires l.Valid() && Decide(Room(l, slot, now), op).Denied?
    ensures var v := Decide(Room(l, slot, now), op);
      && ToReply(l, v).remaining == 0
      && (Decide(Room(l, Save(l, slot, now, v), now), AllowN(1)).Denied? <==> Room(l, slot, now) < 1.0)
      && (op.AllowAtMost? || op.n <= 1 ==> Room(l, slot, now) < 1.0)
  {
  }

  // ------------------------------------------------ AllowAtMost

  // AllowAtMost(n), n >= 1, is AllowN(n) when that would be admitted. Otherwise it
  // either has no room for one request and changes nothing, or takes all the room
  // there is and leaves the tat exactly one burst ahead of now. It never reports
  // more than it charges.
  lemma AllowAtMostIsMaximal(l: Limit, slot: Slot, now: real, n: nat)
    requires l.Valid() && n >= 1
    ensures var room := Room(l, slot, now);
      var all, most := Decide(room, AllowN(n)), Decide(room, AllowAtMost(n));
      && (all.Granted? ==> most == all)
      && (all.Denied? ==>
            if most.Denied? then room < 1.0 && Save(l, slot, now, most) == slot
            else most.left == 0.0 && Save(l, slot, now, most) == Some(now + l.Interval() * l.burst as real))
      && (most.Granted? ==> 0 <= ToReply(l, most).allowed <= n && ToReply(l, most).allowed as real <= most.cost)
  {
    var most := Decide(Room(l, slot, now), AllowAtMost(n));
    if most.Granted? {
      ReportedIsCharged(most.cost, n);
      if most.left == 0.0 {
        NothingLeft(l, slot, now, most);
      }
    }
  }

  lemma NothingLeft(l: Limit, slot: Slot, now: real, v: Verdict)
    requires l.Valid() && v.Granted? && v.left == 0.0
    ensures Save(l, slot, now, v) == Some(now + l.Interval() * l.burst as real)
  {
    Positive(l.Interval(), l.burst as real);
    assert l.burst as real - v.RoomAfter() == l.burst as real;
  }

  lemma ReportedIsCharged(cost: real, n: nat)
    requires 0.0 <= cost <= n as real
    ensures 0 <= Truncate(cost) <= n && Truncate(cost) as real <= cost
  {
  }

  // What the replies of a fresh key's run reported as allowed within [a, b].
  function Reported(l: Limit, es: seq<Event>, a: real, b: real): int
    requires l.Valid()
  {
    if es == [] then 0
    else
      var e := es[|es| - 1];
      Reported(l, es[..|es| - 1], a, b) + if a <= e.now <= b then ToReply(l, LastVerdict(l, None, es)).allowed else 0
  }

  lemma {:induction false} ReportedIsWithinUsage(l: Limit, es: seq<Event>, a: real, b: real)
    requires l.Valid() && Monotone(es)
    ensures Reported(l, es, a, b) as real <= W.Usage(Grants(l, es), a, b)
  {
    if es != [] {
      var before, e, v := es[..|es| - 1], es[|es| - 1], LastVerdict(l, None, es);
      ReportedIsWithinUsage(l, before, a, b);
      if v.Granted? {
        var gs := Grants(l, es);
        assert gs == Grants(l, before) + [W.Grant(e.now, v.cost)];
        assert gs[..|gs| - 1] == Grants(l, before);
        assert v.cost >= 0.0;
      } else {
        assert Grants(l, es) == Grants(l, before);
      }
    }
  }

  // In every window of every mixed run, the counts reported as allowed add up to no
  // more than the limit.
  lemma {:induction false} ReportedKeepsLimit(l: Limit, es: seq<Event>, a: real, b: real)
    requires l.Valid() && Monotone(es) && a <= b
    ensures Reported(l, es, a, b) as real <= l.burst as real + (b - a) * l.Rate()
  {
    ReportedIsWithinUsage(l, es, a, b);
    WindowBound(l, es);
  }

  // ------------------------------------------------ denials and batches

  // The elements of xs that are marked to be kept.
  function Kept<T>(xs: seq<T>, keep: seq<bool>): seq<T>
    requires |xs| == |keep|
  {
    if xs == [] then []
    else Kept(xs[..|xs| - 1], keep[..|keep| - 1]) + if keep[|keep| - 1] then [xs[|xs| - 1]] else []
  }

  // Deleting any denied calls from a run changes no other verdict and no state.
  lemma {:induction false} DenialsLeaveNoTrace(l: Limit, slot: Slot, es: seq<Event>, keep: seq<bool>)
    requires l.Valid() && |keep| == |es|
    requires forall k :: 0 <= k < |es| && !keep[k] ==> Verdicts(l, slot, es)[k].Denied?
    ensures Verdicts(l, slot, Kept(es, keep)) == Kept(Verdicts(l, slot, es), keep)
    ensures SlotAfter(l, slot, Kept(es, keep)) == SlotAfter(l, slot, es)
  {
    if es != [] {
      var n := |es| - 1;
      var vs, before := Verdicts(l, slot, es), Verdicts(l, slot, es[..n]);
      assert vs[..n] == before && vs[n] == LastVerdict(l, slot, es);
      forall k | 0 <= k < n && !keep[..n][k]
        ensures before[k].Denied?
      {
        assert vs[k] == before[k] && keep[k] == keep[..n][k];
      }
      DenialsLeaveNoTrace(l, slot, es[..n], keep[..n]);
      if keep[n] {
        KeptLast(l, slot, es, Kept(es[..n], keep[..n]));
      } else {
        assert vs[n].Denied?;
        assert Kept(es, keep) == Kept(es[..n], keep[..n]);
        assert Kept(vs, keep) == Kept(before, keep[..n]);
      }
    }
  }

  // Runs that lead to the same slot go on alike.
  lemma KeptLast(l: Limit, slot: Slot, es: seq<Event>, other: seq<Event>)
    requires l.Valid() && es != []
    requires SlotAfter(l, slot, other) == SlotAfter(l, slot, es[..|es| - 1])
    ensures var e := es[|es| - 1];
      && Verdicts(l, slot, other + [e]) == Verdicts(l, slot, other) + [LastVerdict(l, slot, es)]
      && SlotAfter(l, slot, other + [e]) == SlotAfter(l, slot, es)
  {
    var longer := other + [es[|es| - 1]];
    assert longer[..|longer| - 1] == other;
  }

  // A batch is admitted exactly when its two parts are, one after the other at the
  // same instant; and then it leaves the same tat behind.
  lemma BatchesSplit(l: Limit, slot: Slot, now: real, a: nat, b: nat)
    requires l.Valid()
    ensures var whole, first := Decide(Room(l, slot, now), AllowN(a + b)), Decide(Room(l, slot, now), AllowN(a));
      var mid := Save(l, slot, now, first);
      var second := Decide(Room(l, mid, now), AllowN(b));
      && (whole.Granted? <==> first.Granted? && second.Granted?)
      && (whole.Granted? ==> Save(l, slot, now, whole) == Save(l, mid, now, second))
  {
    var first := Decide(Room(l, slot, now), AllowN(a));
    var mid := Save(l, slot, now, first);
    RoomSaved(l, slot, now, AllowN(a));
    RoomLater(l, slot, now, now);
    if first.Granted? && first.left >= b as real {
      SavedTwice(l, slot, now, first, Granted(b as real, first.left - b as real), Granted((a + b) as real, first.left - b as real));
    }
  }

  // A first grant that was stored leaves a debt, and a second one only adds to it.
  lemma SavedTwice(l: Limit, slot: Slot, now: real, first: Verdict, second: Verdict, whole: Verdict)
    requires l.Valid() && first.Granted? && second.Granted? && whole.Granted?
    requires second.left <= first.left <= l.burst as real && whole.left == second.left
    ensures Save(l, slot, now, whole) == Save(l, Save(l, slot, now, first), now, second)
  {
    Positive(l.Interval(), l.burst as real - first.left);
    Positive(l.Interval(), l.burst as real - second.left);
    assert ResetAfter(l, whole) == ResetAfter(l, second);
    assert ResetAfter(l, first) > 0.0 ==> ResetAfter(l, second) > 0.0;
  }
}
