/** The middleware spends one unit per request. No other way of picking requests
    from the same arrivals that keeps the limit in every window lets more of them
    through, at any point of the run. */
module Optimality {
  import opened Wrappers
  import opened Gcra
  import opened Runs
  import W = Windows

  ghost predicate Ordered(arrivals: seq<real>) {
    forall i, j :: 0 <= i < j < |arrivals| ==> arrivals[i] <= arrivals[j]
  }

  // Each arrival asks for one unit.
  function Requests(arrivals: seq<real>): (es: seq<Event>)
    ensures |es| == |arrivals|
    ensures forall i :: 0 <= i < |es| ==> es[i] == Event(arrivals[i], AllowN(1))
  {
    seq(|arrivals|, i requires 0 <= i < |arrivals| => Event(arrivals[i], AllowN(1)))
  }

  // The log of an arbitrary choice of arrivals.
  function Accepted(arrivals: seq<real>, picks: seq<bool>): seq<W.Grant>
    requires |picks| == |arrivals|
  {
    if arrivals == [] then []
    else
      var before := Accepted(arrivals[..|arrivals| - 1], picks[..|picks| - 1]);
      if picks[|picks| - 1] then before + [W.Grant(arrivals[|arrivals| - 1], 1.0)] else before
  }

  lemma {:induction false} AcceptedIsSorted(arrivals: seq<real>, picks: seq<bool>)
    requires |picks| == |arrivals| && Ordered(arrivals)
    ensures var gs := Accepted(arrivals, picks);
      && W.Sorted(gs) && W.Charges(gs)
      && (arrivals != [] ==> forall i :: 0 <= i < |gs| ==> gs[i].time <= arrivals[|arrivals| - 1])
  {
    if arrivals != [] {
      AcceptedIsSorted(arrivals[..|arrivals| - 1], picks[..|picks| - 1]);
    }
  }

  lemma {:induction false} AcceptedPrefix(arrivals: seq<real>, picks: seq<bool>, k: nat)
    requires |picks| == |arrivals| && k <= |arrivals|
    ensures Accepted(arrivals[..k], picks[..k]) <= Accepted(arrivals, picks)
  {
    if k < |arrivals| {
      assert arrivals[..|arrivals| - 1][..k] == arrivals[..k];
      assert picks[..|picks| - 1][..k] == picks[..k];
      AcceptedPrefix(arrivals[..|arrivals| - 1], picks[..|picks| - 1], k);
    } else {
      assert arrivals[..k] == arrivals && picks[..k] == picks;
    }
  }

  lemma PrefixFits(burst: real, gs: seq<W.Grant>, ps: seq<W.Grant>)
    requires ps <= gs && W.AllFit(burst, gs)
    ensures W.AllFit(burst, ps)
  {
    forall k | 0 <= k < |ps|
      ensures W.Fits(burst, ps[..k], ps[k].time, ps[k].cost)
    {
      assert ps[..k] == gs[..k];
    }
  }

  // The simulation: the scripts have never let through fewer requests, and each one
  // they are ahead by is worth a unit of room to the other policy. Other is the tat
  // the scripts would store for the other policy, counted in emission intervals.
  lemma {:induction false} Simulation(l: Limit, arrivals: seq<real>, picks: seq<bool>, now: real) returns (other: real)
    requires l.Valid() && |picks| == |arrivals| && Ordered(arrivals)
    requires forall i :: 0 <= i < |arrivals| ==> arrivals[i] <= now
    requires W.AllFit(l.burst as real, OnTicks(l, Accepted(arrivals, picks)))
    ensures var mine, theirs := |Grants(l, Requests(arrivals))|, |Accepted(arrivals, picks)|;
      && W.PaidOff(OnTicks(l, Accepted(arrivals, picks)), Tick(l, now), other)
      && theirs <= mine
      && l.burst as real - (other - Tick(l, now))
           <= Room(l, SlotAfter(l, None, Requests(arrivals)), now) + (mine - theirs) as real
  {
    if arrivals == [] {
      other := Tick(l, now);
      RoomInTicks(l, None, now);
    } else {
      var before, t := arrivals[..|arrivals| - 1], arrivals[|arrivals| - 1];
      var picksBefore, pick := picks[..|picks| - 1], picks[|picks| - 1];
      var es := Requests(arrivals);
      assert es[..|es| - 1] == Requests(before);
      var theirsBefore := Accepted(before, picksBefore);
      var theirs := Accepted(arrivals, picks);
      PrefixFits(l.burst as real, OnTicks(l, theirs), OnTicks(l, theirsBefore));
      other := Simulation(l, before, picksBefore, t);

      if pick {
        var ts := OnTicks(l, theirs);
        assert ts[..|ts| - 1] == OnTicks(l, theirsBefore);
        assert W.Fits(l.burst as real, OnTicks(l, theirsBefore), Tick(l, t), 1.0);
        W.RoomIsFit(l.burst as real, OnTicks(l, theirsBefore), Tick(l, t), other, 1.0);
        W.PaidOffGrant(OnTicks(l, theirsBefore), Tick(l, t), other, 1.0);
        assert ts == OnTicks(l, theirsBefore) + [W.Grant(Tick(l, t), 1.0)];
        other := other + 1.0;
      }
      RoomSaved(l, SlotAfter(l, None, Requests(before)), t, AllowN(1));
      RoomLater(l, SlotAfter(l, None, es), t, now);
      other := if other > Tick(l, now) then other else Tick(l, now);
    }
  }

  lemma {:induction false} GreedyIsOptimal(l: Limit, arrivals: seq<real>, picks: seq<bool>, k: nat)
    requires l.Valid() && |picks| == |arrivals| && Ordered(arrivals) && k <= |arrivals|
    requires RespectsWindows(l, Accepted(arrivals, picks))
    ensures |Accepted(arrivals[..k], picks[..k])| <= |Grants(l, Requests(arrivals[..k]))|
  {
    var gs := Accepted(arrivals, picks);
    AcceptedIsSorted(arrivals, picks);
    TicksAreSorted(l, gs);
    RespectsFromTicks(l, gs);
    W.WindowsExactly(l.burst as real, OnTicks(l, gs));
    AcceptedPrefix(arrivals, picks, k);
    PrefixFits(l.burst as real, OnTicks(l, gs), OnTicks(l, Accepted(arrivals[..k], picks[..k])));
    if k > 0 {
      var _ := Simulation(l, arrivals[..k], picks[..k], arrivals[k - 1]);
    }
  }
}
