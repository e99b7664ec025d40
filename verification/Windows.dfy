/** The reference limiter: a log of everything granted so far, no arrival time in
    it. The clock of this module counts emission intervals, so that one request is
    paid off in one unit of time and all arithmetic is linear. */
module Windows {

  datatype Grant = Grant(time: real, cost: real)

  ghost predicate Sorted(gs: seq<Grant>) {
    forall i, j :: 0 <= i < j < |gs| ==> gs[i].time <= gs[j].time
  }

  ghost predicate Charges(gs: seq<Grant>) {
    forall i :: 0 <= i < |gs| ==> gs[i].cost >= 0.0
  }

  // The cost granted from the i-th grant onward.
  function CostFrom(gs: seq<Grant>, i: nat): real
    requires i <= |gs|
    decreases |gs| - i
  {
    if i == |gs| then 0.0 else gs[i].cost + CostFrom(gs, i + 1)
  }

  // The cost granted within [a, b].
  function Usage(gs: seq<Grant>, a: real, b: real): real {
    if gs == [] then 0.0
    else
      var g := gs[|gs| - 1];
      Usage(gs[..|gs| - 1], a, b) + if a <= g.time <= b then g.cost else 0.0
  }

  // A cost fits if every window that began with an earlier grant still has room
  // for it, and so does an empty window.
  ghost predicate Fits(burst: real, gs: seq<Grant>, now: real, cost: real) {
    && cost <= burst
    && forall i :: 0 <= i < |gs| ==> CostFrom(gs, i) + cost <= burst + (now - gs[i].time)
  }

  // Each grant fitted when it was made.
  ghost predicate AllFit(burst: real, gs: seq<Grant>) {
    forall k :: 0 <= k < |gs| ==> Fits(burst, gs[..k], gs[k].time, gs[k].cost)
  }

  // The limit as an outside observer states it: no window is overdrawn.
  ghost predicate RespectsWindows(burst: real, gs: seq<Grant>) {
    forall a: real, b: real :: a <= b ==> Usage(gs, a, b) <= burst + (b - a)
  }

  // ------------------------------------------------ arrival times and the log

  // The effective tat is the maximum of now and, over all grants, the time at
  // which the cost granted from there onward is paid off.
  ghost predicate PaidOff(gs: seq<Grant>, now: real, tat: real) {
    && tat >= now
    && (forall i :: 0 <= i < |gs| ==> gs[i].time + CostFrom(gs, i) <= tat)
    && (tat == now || exists i :: 0 <= i < |gs| && tat == gs[i].time + CostFrom(gs, i))
  }

  lemma {:induction false} CostFromSnoc(gs: seq<Grant>, g: Grant, i: nat)
    requires i <= |gs|
    ensures CostFrom(gs + [g], i) == CostFrom(gs, i) + g.cost
    decreases |gs| - i
  {
    if i < |gs| {
      CostFromSnoc(gs, g, i + 1);
    } else {
      assert CostFrom(gs + [g], i + 1) == 0.0;
    }
  }

  lemma PaidOffGrant(gs: seq<Grant>, now: real, tat: real, cost: real)
    requires cost >= 0.0
    requires PaidOff(gs, now, tat)
    ensures PaidOff(gs + [Grant(now, cost)], now, tat + cost)
  {
    var gs' := gs + [Grant(now, cost)];
    forall k | 0 <= k <= |gs|
      ensures CostFrom(gs', k) == CostFrom(gs, k) + cost
    {
      CostFromSnoc(gs, Grant(now, cost), k);
    }
    if tat == now {
      assert gs'[|gs|].time + CostFrom(gs', |gs|) == tat + cost;
    } else {
      var k :| 0 <= k < |gs| && tat == gs[k].time + CostFrom(gs, k);
      assert gs'[k].time + CostFrom(gs', k) == tat + cost;
    }
  }

  // A cost is within the room exactly when it fits.
  lemma RoomIsFit(burst: real, gs: seq<Grant>, now: real, tat: real, cost: real)
    requires PaidOff(gs, now, tat)
    ensures cost <= burst - (tat - now) <==> Fits(burst, gs, now, cost)
  {
    if cost > burst - (tat - now) && tat != now {
      var k :| 0 <= k < |gs| && tat == gs[k].time + CostFrom(gs, k);
      assert CostFrom(gs, k) + cost > burst + (now - gs[k].time);
    }
  }

  // ------------------------------------------------ every window

  // In a sorted log, a window that reaches past the end is a tail of the log.
  lemma {:induction false} UsageIsTail(gs: seq<Grant>, a: real, b: real) returns (i: nat)
    requires Sorted(gs)
    requires forall k :: 0 <= k < |gs| ==> gs[k].time <= b
    ensures i <= |gs| && Usage(gs, a, b) == CostFrom(gs, i)
    ensures forall k :: 0 <= k < i ==> gs[k].time < a
    ensures forall k :: i <= k < |gs| ==> a <= gs[k].time
  {
    if gs == [] {
      i := 0;
    } else {
      var before, g := gs[..|gs| - 1], gs[|gs| - 1];
      assert gs == before + [g];
      if g.time < a {
        i := |gs|;
        UsageOutside(before, a, b);
      } else {
        i := UsageIsTail(before, a, b);
        CostFromSnoc(before, g, i);
      }
    }
  }

  lemma {:induction false} UsageOutside(gs: seq<Grant>, a: real, b: real)
    requires forall k :: 0 <= k < |gs| ==> gs[k].time < a
    ensures Usage(gs, a, b) == 0.0
  {
    if gs != [] {
      UsageOutside(gs[..|gs| - 1], a, b);
    }
  }

  lemma {:induction false} AllFitRespectsWindow(burst: real, gs: seq<Grant>, a: real, b: real)
    requires burst >= 0.0 && Sorted(gs) && AllFit(burst, gs) && a <= b
    ensures Usage(gs, a, b) <= burst + (b - a)
  {
    if gs != [] {
      var before, g := gs[..|gs| - 1], gs[|gs| - 1];
      assert forall k :: 0 <= k < |before| ==> gs[..k] == before[..k];
      AllFitRespectsWindow(burst, before, a, b);
      if a <= g.time <= b {
        var i := UsageIsTail(before, a, b);
        assert Fits(burst, before, g.time, g.cost);
        if i < |before| {
          assert CostFrom(before, i) + g.cost <= burst + (g.time - before[i].time);
        }
      }
    }
  }

  lemma {:induction false} CostFromMonotone(gs: seq<Grant>, j: nat, i: nat)
    requires j <= i <= |gs| && Charges(gs)
    ensures CostFrom(gs, i) <= CostFrom(gs, j)
    decreases i - j
  {
    if j < i {
      CostFromMonotone(gs, j + 1, i);
    }
  }

  lemma {:induction false} UsageOfPrefix(gs: seq<Grant>, k: nat, a: real, b: real)
    requires k <= |gs| && Charges(gs)
    ensures Usage(gs[..k], a, b) <= Usage(gs, a, b)
  {
    if k < |gs| {
      assert gs[..|gs| - 1][..k] == gs[..k];
      UsageOfPrefix(gs[..|gs| - 1], k, a, b);
    } else {
      assert gs[..k] == gs;
    }
  }

  lemma RespectedFits(burst: real, gs: seq<Grant>, k: nat)
    requires Sorted(gs) && Charges(gs) && RespectsWindows(burst, gs) && k < |gs|
    ensures Fits(burst, gs[..k], gs[k].time, gs[k].cost)
  {
    var upTo := gs[..k + 1];
    assert upTo == gs[..k] + [gs[k]];
    forall i | 0 <= i <= k
      ensures CostFrom(gs[..k], i) + gs[k].cost <= burst + (gs[k].time - gs[i].time)
    {
      CostFromSnoc(gs[..k], gs[k], i);
      assert upTo[i] == gs[i];
      var j := UsageIsTail(upTo, gs[i].time, gs[k].time);
      CostFromMonotone(upTo, j, i);
      UsageOfPrefix(gs, k + 1, gs[i].time, gs[k].time);
    }
    assert CostFrom(gs[..k], k) == 0.0;
  }

  // Fitting one at a time and respecting every window are the same thing.
  lemma WindowsExactly(burst: real, gs: seq<Grant>)
    requires burst >= 0.0 && Sorted(gs) && Charges(gs)
    ensures AllFit(burst, gs) <==> RespectsWindows(burst, gs)
  {
    if AllFit(burst, gs) {
      forall a: real, b: real | a <= b
        ensures Usage(gs, a, b) <= burst + (b - a)
      {
        AllFitRespectsWindow(burst, gs, a, b);
      }
    }
    if RespectsWindows(burst, gs) {
      forall k | 0 <= k < |gs|
        ensures Fits(burst, gs[..k], gs[k].time, gs[k].cost)
      {
        RespectedFits(burst, gs, k);
      }
    }
  }
}
