/** Whole runs of the two scripts on one key under one limit, measured against the
    reference limiter of Windows. */
module Runs {
  import opened Wrappers
  import opened Gcra
  import W = Windows

  datatype Event = Event(now: real, op: Op)

  // The store's clock never runs backwards.
  ghost predicate Monotone(es: seq<Event>) {
    forall i, j :: 0 <= i < j < |es| ==> es[i].now <= es[j].now
  }

  // What is stored after running es from a given slot.
  function SlotAfter(l: Limit, slot: Slot, es: seq<Event>): Slot
    requires l.Valid()
    decreases |es|, 0
  {
    if es == [] then slot
    else Save(l, SlotAfter(l, slot, es[..|es| - 1]), es[|es| - 1].now, LastVerdict(l, slot, es))
  }

  // The verdict on the last event of a run.
  function LastVerdict(l: Limit, slot: Slot, es: seq<Event>): Verdict
    requires l.Valid() && es != []
    decreases |es| - 1, 1
  {
    var e := es[|es| - 1];
    Decide(Room(l, SlotAfter(l, slot, es[..|es| - 1]), e.now), e.op)
  }

  // All verdicts of a run, in order.
  function Verdicts(l: Limit, slot: Slot, es: seq<Event>): (vs: seq<Verdict>)
    requires l.Valid()
    ensures |vs| == |es|
  {
    if es == [] then [] else Verdicts(l, slot, es[..|es| - 1]) + [LastVerdict(l, slot, es)]
  }

  lemma {:induction false} VerdictAt(l: Limit, slot: Slot, es: seq<Event>, k: nat)
    requires l.Valid() && k < |es|
    ensures Verdicts(l, slot, es)[k] == Decide(Room(l, SlotAfter(l, slot, es[..k]), es[k].now), es[k].op)
  {
    if k < |es| - 1 {
      VerdictAt(l, slot, es[..|es| - 1], k);
      assert es[..|es| - 1][..k] == es[..k];
    }
  }

  // What a fresh key's run has granted so far.
  function Grants(l: Limit, es: seq<Event>): seq<W.Grant>
    requires l.Valid()
  {
    if es == [] then []
    else
      var v := LastVerdict(l, None, es);
      Grants(l, es[..|es| - 1]) + if v.Granted? then [W.Grant(es[|es| - 1].now, v.cost)] else []
  }

  // ------------------------------------------------ the limit, in seconds

  // A cost fits if every window that began with an earlier grant still has room
  // for it, and so does an empty window.
  ghost predicate Fits(l: Limit, gs: seq<W.Grant>, now: real, cost: real)
    requires l.Valid()
  {
    && cost <= l.burst as real
    && forall i :: 0 <= i < |gs| ==> W.CostFrom(gs, i) + cost <= l.burst as real + (now - gs[i].time) * l.Rate()
  }

  // No window of time is granted more than burst plus its length at the rate.
  ghost predicate RespectsWindows(l: Limit, gs: seq<W.Grant>)
    requires l.Valid()
  {
    forall a: real, b: real :: a <= b ==> W.Usage(gs, a, b) <= l.burst as real + (b - a) * l.Rate()
  }

  // ------------------------------------------------ seconds and ticks

  // A time counted in emission intervals.
  function Tick(l: Limit, t: real): real
    requires l.Valid()
  {
    t * l.Rate()
  }

  function OnTicks(l: Limit, gs: seq<W.Grant>): (ts: seq<W.Grant>)
    requires l.Valid()
    ensures |ts| == |gs|
    ensures forall i :: 0 <= i < |gs| ==> ts[i] == W.Grant(Tick(l, gs[i].time), gs[i].cost)
  {
    seq(|gs|, i requires 0 <= i < |gs| => W.Grant(Tick(l, gs[i].time), gs[i].cost))
  }

  lemma UnitRate(l: Limit)
    requires l.Valid()
    ensures l.Interval() * l.Rate() == 1.0
  {
    Reciprocal(l.Interval(), l.Rate(), l.period, l.rate as real);
  }

  lemma Reciprocal(x: real, y: real, p: real, r: real)
    requires p > 0.0 && x * r == p && y * p == r
    ensures x * y == 1.0
  {
    assert p * (x * y - 1.0) == x * (y * p) - p;
    assert x * (y * p) - x * r == 0.0;
    NoZeroDivisor(p, x * y - 1.0);
  }

  lemma NoZeroDivisor(p: real, d: real)
    requires p > 0.0 && p * d == 0.0
    ensures d == 0.0
  {
  }

  lemma Substitute(x: real, a: real, b: real)
    requires a == b
    ensures x * a == x * b
  {
  }

  lemma TickAdds(l: Limit, t: real, c: real)
    requires l.Valid()
    ensures Tick(l, t + l.Interval() * c) == Tick(l, t) + c
  {
    var i, r := l.Interval(), l.Rate();
    UnitRate(l);
    Distribute(t, i * c, r);
    assert (i * c) * r == c * (i * r);
  }

  lemma Distribute(x: real, y: real, r: real)
    ensures (x + y) * r == x * r + y * r && (x - y) * r == x * r - y * r
  {
  }

  lemma TickOrder(l: Limit, a: real, b: real)
    requires l.Valid()
    ensures a <= b <==> Tick(l, a) <= Tick(l, b)
    ensures (b - a) * l.Rate() == Tick(l, b) - Tick(l, a)
  {
    Ordered(a, b, l.Rate());
    Distribute(b, a, l.Rate());
  }

  lemma Ordered(a: real, b: real, r: real)
    requires r > 0.0
    ensures a <= b <==> a * r <= b * r
  {
    if a < b {
      assert (b - a) * r > 0.0;
    } else if b < a {
      assert (a - b) * r > 0.0;
    }
  }

  lemma Divided(d: real, l: Limit)
    requires l.Valid()
    ensures d / l.Interval() == d * l.Rate()
  {
    var i, r := l.Interval(), l.Rate();
    var q := d / i;
    UnitRate(l);
    Substitute(r, q * i, d);
    Substitute(q, i * r, 1.0);
  }

  lemma RoomInTicks(l: Limit, slot: Slot, now: real)
    requires l.Valid()
    ensures Room(l, slot, now) == l.burst as real - (Tick(l, Effective(slot, now)) - Tick(l, now))
    ensures Room(l, slot, now) <= l.burst as real
  {
    Divided(Effective(slot, now) - now, l);
    TickOrder(l, now, Effective(slot, now));
  }

  lemma {:induction false} CostOnTicks(l: Limit, gs: seq<W.Grant>, i: nat)
    requires l.Valid() && i <= |gs|
    ensures W.CostFrom(OnTicks(l, gs), i) == W.CostFrom(gs, i)
    decreases |gs| - i
  {
    if i < |gs| {
      CostOnTicks(l, gs, i + 1);
    }
  }

  lemma {:induction false} UsageOnTicks(l: Limit, gs: seq<W.Grant>, a: real, b: real)
    requires l.Valid()
    ensures W.Usage(OnTicks(l, gs), Tick(l, a), Tick(l, b)) == W.Usage(gs, a, b)
  {
    if gs != [] {
      var before, g := gs[..|gs| - 1], gs[|gs| - 1];
      var ts := OnTicks(l, gs);
      assert ts[..|ts| - 1] == OnTicks(l, before);
      UsageOnTicks(l, before, a, b);
      TickOrder(l, a, g.time);
      TickOrder(l, g.time, b);
    }
  }

  lemma FitsOnTicks(l: Limit, gs: seq<W.Grant>, now: real, cost: real)
    requires l.Valid()
    ensures Fits(l, gs, now, cost) <==> W.Fits(l.burst as real, OnTicks(l, gs), Tick(l, now), cost)
  {
    forall i | 0 <= i < |gs|
      ensures W.CostFrom(OnTicks(l, gs), i) == W.CostFrom(gs, i)
      ensures (now - gs[i].time) * l.Rate() == Tick(l, now) - OnTicks(l, gs)[i].time
    {
      CostOnTicks(l, gs, i);
      TickOrder(l, gs[i].time, now);
    }
    var ts := OnTicks(l, gs);
    if Fits(l, gs, now, cost) {
      forall i | 0 <= i < |ts|
        ensures W.CostFrom(ts, i) + cost <= l.burst as real + (Tick(l, now) - ts[i].time)
      {
        assert W.CostFrom(gs, i) + cost <= l.burst as real + (now - gs[i].time) * l.Rate();
      }
    }
  }

  // The window bound carries over from the tick clock.
  lemma RespectsOnTicks(l: Limit, gs: seq<W.Grant>)
    requires l.Valid()
    requires W.RespectsWindows(l.burst as real, OnTicks(l, gs))
    ensures RespectsWindows(l, gs)
  {
    forall a: real, b: real | a <= b
      ensures W.Usage(gs, a, b) <= l.burst as real + (b - a) * l.Rate()
    {
      TickOrder(l, a, b);
      UsageOnTicks(l, gs, a, b);
    }
  }

  // And back: every tick is a time.
  lemma RespectsFromTicks(l: Limit, gs: seq<W.Grant>)
    requires l.Valid() && RespectsWindows(l, gs)
    ensures W.RespectsWindows(l.burst as real, OnTicks(l, gs))
  {
    forall x: real, y: real | x <= y
      ensures W.Usage(OnTicks(l, gs), x, y) <= l.burst as real + (y - x)
    {
      var a, b := x * l.Interval(), y * l.Interval();
      TickAdds(l, 0.0, x);
      TickAdds(l, 0.0, y);
      assert Tick(l, a) == x && Tick(l, b) == y;
      TickOrder(l, a, b);
      UsageOnTicks(l, gs, a, b);
    }
  }

  // ------------------------------------------------ how the room changes

  // Left alone, the room grows at the rate, up to the burst.
  lemma RoomLater(l: Limit, slot: Slot, now: real, later: real)
    requires l.Valid() && now <= later
    ensures Room(l, slot, later) == Min(l.burst as real, Room(l, slot, now) + Tick(l, later) - Tick(l, now))
    ensures Room(l, slot, now) <= l.burst as real && Tick(l, now) <= Tick(l, later)
  {
    RoomInTicks(l, slot, now);
    RoomInTicks(l, slot, later);
    TickOrder(l, now, later);
    TickOrder(l, Effective(slot, now), later);
  }

  // What Save leaves behind has, at that instant, exactly the room the verdict left.
  lemma RoomSaved(l: Limit, slot: Slot, now: real, op: Op)
    requires l.Valid()
    ensures var v := Decide(Room(l, slot, now), op);
      Room(l, Save(l, slot, now, v), now) == v.RoomAfter()
  {
    var v := Decide(Room(l, slot, now), op);
    RoomInTicks(l, slot, now);
    if v.Granted? {
      RoomStored(l, slot, now, v);
    }
  }

  lemma RoomStored(l: Limit, slot: Slot, now: real, v: Verdict)
    requires l.Valid() && v.Granted? && v.left <= Room(l, slot, now) <= l.burst as real
    ensures Room(l, Save(l, slot, now, v), now) == v.left
  {
    var debt := l.burst as real - v.left;
    Positive(l.Interval(), debt);
    if debt > 0.0 {
      TickAdds(l, now, debt);
      RoomInTicks(l, Some(now + l.Interval() * debt), now);
    }
  }

  // ------------------------------------------------ exact admission

  // The stored tat, counted in emission intervals, is where the log says it is.
  ghost predicate PaidOff(l: Limit, gs: seq<W.Grant>, slot: Slot, now: real)
    requires l.Valid()
  {
    W.PaidOff(OnTicks(l, gs), Tick(l, now), Tick(l, now) + l.burst as real - Room(l, slot, now))
  }

  // What a verdict adds to the log.
  function Logged(gs: seq<W.Grant>, now: real, v: Verdict): seq<W.Grant> {
    gs + if v.Granted? then [W.Grant(now, v.cost)] else []
  }

  lemma PaidOffStep(l: Limit, gs: seq<W.Grant>, slot: Slot, now: real, op: Op)
    requires l.Valid() && PaidOff(l, gs, slot, now)
    ensures var v := Decide(Room(l, slot, now), op);
      PaidOff(l, Logged(gs, now, v), Save(l, slot, now, v), now)
  {
    var v := Decide(Room(l, slot, now), op);
    RoomSaved(l, slot, now, op);
    if v.Granted? {
      W.PaidOffGrant(OnTicks(l, gs), Tick(l, now), Tick(l, now) + l.burst as real - Room(l, slot, now), v.cost);
      assert OnTicks(l, gs + [W.Grant(now, v.cost)]) == OnTicks(l, gs) + [W.Grant(Tick(l, now), v.cost)];
    } else {
      assert Logged(gs, now, v) == gs;
    }
  }

  lemma PaidOffLater(l: Limit, gs: seq<W.Grant>, slot: Slot, now: real, later: real)
    requires l.Valid() && now <= later && PaidOff(l, gs, slot, now)
    ensures PaidOff(l, gs, slot, later)
  {
    RoomLater(l, slot, now, later);
  }

  lemma {:induction false} TatIsPaidOff(l: Limit, es: seq<Event>, now: real)
    requires l.Valid() && Monotone(es)
    requires forall i :: 0 <= i < |es| ==> es[i].now <= now
    ensures PaidOff(l, Grants(l, es), SlotAfter(l, None, es), now)
  {
    if es != [] {
      var before, e := es[..|es| - 1], es[|es| - 1];
      TatIsPaidOff(l, before, e.now);
      PaidOffStep(l, Grants(l, before), SlotAfter(l, None, before), e.now, e.op);
      PaidOffLater(l, Grants(l, es), SlotAfter(l, None, es), e.now, now);
    } else {
      TickOrder(l, now, now);
    }
  }

  // A cost is within the room exactly when the reference limiter lets it in.
  lemma RoomIsFit(l: Limit, gs: seq<W.Grant>, slot: Slot, now: real, cost: real)
    requires l.Valid() && PaidOff(l, gs, slot, now)
    ensures cost <= Room(l, slot, now) <==> Fits(l, gs, now, cost)
  {
    FitsOnTicks(l, gs, now, cost);
    W.RoomIsFit(l.burst as real, OnTicks(l, gs), Tick(l, now), Tick(l, now) + l.burst as real - Room(l, slot, now), cost);
  }

  // What one verdict means in terms of the log: AllowN(n) is all or nothing;
  // AllowAtMost takes the largest cost that fits, provided one whole request does.
  ghost predicate Exact(l: Limit, gs: seq<W.Grant>, e: Event, v: Verdict)
    requires l.Valid()
  {
    match e.op
    case AllowN(n) =>
      && (v.Granted? <==> Fits(l, gs, e.now, n as real))
      && (v.Granted? ==> v.cost == n as real)
    case AllowAtMost(n) =>
      && (v.Granted? <==> Fits(l, gs, e.now, 1.0))
      && (v.Granted? ==> v.cost <= n as real && Fits(l, gs, e.now, v.cost))
      && (v.Granted? ==> forall c: real :: c <= n as real && Fits(l, gs, e.now, c) ==> c <= v.cost)
  }

  lemma ExactStep(l: Limit, gs: seq<W.Grant>, slot: Slot, e: Event)
    requires l.Valid() && PaidOff(l, gs, slot, e.now)
    ensures Exact(l, gs, e, Decide(Room(l, slot, e.now), e.op))
  {
    forall c: real
      ensures c <= Room(l, slot, e.now) <==> Fits(l, gs, e.now, c)
    {
      RoomIsFit(l, gs, slot, e.now, c);
    }
  }

  // Every verdict of every run on a fresh key is the reference limiter's.
  lemma {:induction false} ExactAdmission(l: Limit, es: seq<Event>)
    requires l.Valid() && Monotone(es)
    ensures forall k :: 0 <= k < |es| ==> Exact(l, Grants(l, es[..k]), es[k], Verdicts(l, None, es)[k])
  {
    forall k | 0 <= k < |es|
      ensures Exact(l, Grants(l, es[..k]), es[k], Verdicts(l, None, es)[k])
    {
      TatIsPaidOff(l, es[..k], es[k].now);
      ExactStep(l, Grants(l, es[..k]), SlotAfter(l, None, es[..k]), es[k]);
      VerdictAt(l, None, es, k);
    }
  }

  // ------------------------------------------------ the stored number itself

  // When the cost granted from the i-th grant onward is paid off, in seconds.
  function PayoffTime(l: Limit, gs: seq<W.Grant>, i: nat): real
    requires l.Valid() && i < |gs|
  {
    gs[i].time + l.Interval() * W.CostFrom(gs, i)
  }

  ghost predicate IsMaximum(l: Limit, gs: seq<W.Grant>, now: real, tat: real)
    requires l.Valid()
  {
    && tat >= now
    && (forall i :: 0 <= i < |gs| ==> PayoffTime(l, gs, i) <= tat)
    && (tat == now || exists i :: 0 <= i < |gs| && tat == PayoffTime(l, gs, i))
  }

  // The effective tat is the larger of now and every grant's payoff time.
  lemma {:induction false} TatFormula(l: Limit, es: seq<Event>, now: real)
    requires l.Valid() && Monotone(es)
    requires forall i :: 0 <= i < |es| ==> es[i].now <= now
    ensures IsMaximum(l, Grants(l, es), now, Effective(SlotAfter(l, None, es), now))
  {
    TatIsPaidOff(l, es, now);
    PaidOffInSeconds(l, Grants(l, es), SlotAfter(l, None, es), now);
  }

  lemma PaidOffInSeconds(l: Limit, gs: seq<W.Grant>, slot: Slot, now: real)
    requires l.Valid() && PaidOff(l, gs, slot, now)
    ensures IsMaximum(l, gs, now, Effective(slot, now))
  {
    var tat := Effective(slot, now);
    forall i | 0 <= i < |gs|
      ensures PayoffTime(l, gs, i) <= tat
    {
      RoomInTicks(l, slot, now);
      PayoffInTicks(l, gs, i, tat);
    }
    if tat != now {
      var i := LatestPayoff(l, gs, slot, now);
    }
  }

  lemma LatestPayoff(l: Limit, gs: seq<W.Grant>, slot: Slot, now: real) returns (i: nat)
    requires l.Valid() && PaidOff(l, gs, slot, now) && Effective(slot, now) != now
    ensures i < |gs| && Effective(slot, now) == PayoffTime(l, gs, i)
  {
    var ts, tat := OnTicks(l, gs), Effective(slot, now);
    RoomInTicks(l, slot, now);
    TickOrder(l, tat, now);
    i :| 0 <= i < |ts| && Tick(l, tat) == ts[i].time + W.CostFrom(ts, i);
    PayoffInTicks(l, gs, i, tat);
  }

  lemma PayoffInTicks(l: Limit, gs: seq<W.Grant>, i: nat, tat: real)
    requires l.Valid() && i < |gs|
    ensures PayoffTime(l, gs, i) <= tat
       <==> OnTicks(l, gs)[i].time + W.CostFrom(OnTicks(l, gs), i) <= Tick(l, tat)
    ensures PayoffTime(l, gs, i) >= tat
       <==> OnTicks(l, gs)[i].time + W.CostFrom(OnTicks(l, gs), i) >= Tick(l, tat)
  {
    var paid := PayoffTime(l, gs, i);
    CostOnTicks(l, gs, i);
    TickAdds(l, gs[i].time, W.CostFrom(gs, i));
    TickOrder(l, paid, tat);
    TickOrder(l, tat, paid);
  }

  // ------------------------------------------------ every window

  lemma {:induction false} GrantsAreSorted(l: Limit, es: seq<Event>)
    requires l.Valid() && Monotone(es)
    ensures W.Sorted(Grants(l, es)) && W.Charges(Grants(l, es))
    ensures es != [] ==> forall i :: 0 <= i < |Grants(l, es)| ==> Grants(l, es)[i].time <= es[|es| - 1].now
  {
    if es != [] {
      GrantsAreSorted(l, es[..|es| - 1]);
    }
  }

  lemma TicksAreSorted(l: Limit, gs: seq<W.Grant>)
    requires l.Valid() && W.Sorted(gs) && W.Charges(gs)
    ensures W.Sorted(OnTicks(l, gs)) && W.Charges(OnTicks(l, gs))
  {
    forall i, j | 0 <= i < j < |gs|
      ensures OnTicks(l, gs)[i].time <= OnTicks(l, gs)[j].time
    {
      TickOrder(l, gs[i].time, gs[j].time);
    }
  }

  // Appending a grant that fits keeps every grant fitting.
  lemma AllFitSnoc(l: Limit, gs: seq<W.Grant>, g: W.Grant)
    requires l.Valid() && W.AllFit(l.burst as real, OnTicks(l, gs)) && Fits(l, gs, g.time, g.cost)
    ensures W.AllFit(l.burst as real, OnTicks(l, gs + [g]))
  {
    var ts, ts' := OnTicks(l, gs), OnTicks(l, gs + [g]);
    FitsOnTicks(l, gs, g.time, g.cost);
    forall k | 0 <= k < |ts'|
      ensures W.Fits(l.burst as real, ts'[..k], ts'[k].time, ts'[k].cost)
    {
      assert ts'[..k] == ts[..k];
      assert k == |ts| ==> ts[..k] == ts;
      assert k < |ts| ==> ts'[k] == ts[k];
    }
  }

  lemma {:induction false} GrantsFit(l: Limit, es: seq<Event>)
    requires l.Valid() && Monotone(es)
    ensures W.AllFit(l.burst as real, OnTicks(l, Grants(l, es)))
  {
    if es != [] {
      var before, e := es[..|es| - 1], es[|es| - 1];
      GrantsFit(l, before);
      TatIsPaidOff(l, before, e.now);
      ExactStep(l, Grants(l, before), SlotAfter(l, None, before), e);
      var v := LastVerdict(l, None, es);
      if v.Granted? {
        AllFitSnoc(l, Grants(l, before), W.Grant(e.now, v.cost));
      } else {
        assert Grants(l, es) == Grants(l, before);
      }
    }
  }

  // A log whose grants all fitted keeps the limit in every window.
  lemma FittingKeepsWindows(l: Limit, gs: seq<W.Grant>)
    requires l.Valid() && W.Sorted(gs) && W.Charges(gs)
    requires W.AllFit(l.burst as real, OnTicks(l, gs))
    ensures RespectsWindows(l, gs)
  {
    TicksAreSorted(l, gs);
    W.WindowsExactly(l.burst as real, OnTicks(l, gs));
    RespectsOnTicks(l, gs);
  }

  // Every mixed run of AllowN and AllowAtMost keeps the limit in every window.
  lemma {:induction false} WindowBound(l: Limit, es: seq<Event>)
    requires l.Valid() && Monotone(es)
    ensures RespectsWindows(l, Grants(l, es))
  {
    GrantsAreSorted(l, es);
    GrantsFit(l, es);
    FittingKeepsWindows(l, Grants(l, es));
  }
}
