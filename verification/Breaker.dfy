/** The circuit breaker around a script (internal/redis/script_breaker.go): two
    fields and a clock, against the history of the calls it let through. Times are
    nanoseconds on the gateway's own clock. */
module Breaker {

  const SECOND := 1_000_000_000

  // The literal in the gate; the configured threshold only decides when to arm.
  const GATE := 3

  datatype Settings = Settings(threshold: int, reattempt: int) {
    function Period(): int {
      reattempt * SECOND
    }

    // How many failures in a row it takes to open.
    function Opening(): (m: int)
      ensures m >= 3
    {
      if threshold > GATE then threshold else GATE
    }
  }

  datatype State = State(errorCount: int, nextAttempt: int)

  // Whether a call starting now is turned away.
  predicate Open(b: State, now: int) {
    !(b.errorCount < GATE || now > b.nextAttempt)
  }

  // The fields after a script call that ended at a given time.
  function Finish(s: Settings, b: State, failed: bool, end: int): State {
    if failed then
      State(b.errorCount + 1, if b.errorCount + 1 >= s.threshold then end + s.Period() else b.nextAttempt)
    else
      b.(errorCount := 0)
  }

  // ------------------------------------------------ runs of calls

  // A caller: when it starts, and how and when the script would end.
  datatype Call = Call(start: int, failed: bool, end: int)

  // One gateway's calls, one after the other, all after the breaker was made.
  ghost predicate Timely(created: int, calls: seq<Call>) {
    && (forall i :: 0 <= i < |calls| ==> created < calls[i].start <= calls[i].end)
    && (forall i, j :: 0 <= i < j < |calls| ==> calls[i].end <= calls[j].start)
  }

  function StateAfter(s: Settings, created: int, calls: seq<Call>): State {
    if calls == [] then State(0, created)
    else
      var b, c := StateAfter(s, created, calls[..|calls| - 1]), calls[|calls| - 1];
      if Open(b, c.start) then b else Finish(s, b, c.failed, c.end)
  }

  // The calls that reached the script.
  function Reached(s: Settings, created: int, calls: seq<Call>): seq<Call> {
    if calls == [] then []
    else
      var b, c := StateAfter(s, created, calls[..|calls| - 1]), calls[|calls| - 1];
      Reached(s, created, calls[..|calls| - 1]) + if Open(b, c.start) then [] else [c]
  }

  lemma OneMoreCall(s: Settings, created: int, calls: seq<Call>, c: Call)
    requires Timely(created, calls) && created < c.start <= c.end
    requires forall i :: 0 <= i < |calls| ==> calls[i].end <= c.start
    ensures var b := StateAfter(s, created, calls);
      && Timely(created, calls + [c])
      && StateAfter(s, created, calls + [c]) == (if Open(b, c.start) then b else Finish(s, b, c.failed, c.end))
      && (Open(b, c.start) <==> Resting(s, Reached(s, created, calls), c.start))
  {
    assert (calls + [c])[..|calls|] == calls;
    GateFollowsHistory(s, created, calls, c.start);
  }

  // ------------------------------------------------ the history it stands for

  // The failures since the last success.
  function Streak(history: seq<Call>): nat {
    if history == [] || !history[|history| - 1].failed then 0
    else 1 + Streak(history[..|history| - 1])
  }

  lemma {:induction false} StreakWithin(history: seq<Call>)
    ensures Streak(history) <= |history|
  {
    if history != [] {
      StreakWithin(history[..|history| - 1]);
    }
  }

  // The breaker as one would describe it: closed to callers for one period after
  // the latest of enough failures in a row.
  predicate Resting(s: Settings, history: seq<Call>, now: int) {
    && Streak(history) >= s.Opening()
    && history != []
    && now <= history[|history| - 1].end + s.Period()
  }

  // What the two fields mean at a time after everything that happened.
  ghost predicate Means(s: Settings, b: State, history: seq<Call>, now: int) {
    && b.errorCount == Streak(history)
    && (b.errorCount > 0 && b.errorCount >= s.threshold ==>
          history != [] && b.nextAttempt == history[|history| - 1].end + s.Period())
    && (b.errorCount < s.threshold && GATE < s.threshold ==> b.nextAttempt < now)
  }

  lemma {:induction false} FieldsMeanHistory(s: Settings, created: int, calls: seq<Call>, now: int)
    requires Timely(created, calls) && created < now
    requires forall i :: 0 <= i < |calls| ==> calls[i].end <= now
    ensures Means(s, StateAfter(s, created, calls), Reached(s, created, calls), now)
  {
    if calls != [] {
      var before, c := calls[..|calls| - 1], calls[|calls| - 1];
      FieldsMeanHistory(s, created, before, c.start);
      var b, history := StateAfter(s, created, before), Reached(s, created, before);
      if !Open(b, c.start) {
        var longer := Reached(s, created, calls);
        assert longer == history + [c] && longer[..|longer| - 1] == history;
      } else {
        assert Reached(s, created, calls) == history;
      }
    }
  }

  // On any run, the gate turns a call away exactly when the history says so: after
  // max(3, threshold) failures in a row, for one period after the latest of them.
  lemma {:induction false} GateFollowsHistory(s: Settings, created: int, calls: seq<Call>, now: int)
    requires Timely(created, calls) && created < now
    requires forall i :: 0 <= i < |calls| ==> calls[i].end <= now
    ensures Open(StateAfter(s, created, calls), now) <==> Resting(s, Reached(s, created, calls), now)
  {
    FieldsMeanHistory(s, created, calls, now);
  }

  // In the numbers themselves: three failures or the threshold, whichever is more, and
  // the reattempt in seconds on a clock of nanoseconds.
  lemma GateInNanoseconds(s: Settings, created: int, calls: seq<Call>, now: int)
    requires Timely(created, calls) && created < now
    requires forall i :: 0 <= i < |calls| ==> calls[i].end <= now
    ensures var h := Reached(s, created, calls);
      Open(StateAfter(s, created, calls), now) <==>
        && h != [] && Streak(h) >= 3 && Streak(h) >= s.threshold
        && now <= h[|h| - 1].end + s.reattempt * 1_000_000_000
  {
    GateFollowsHistory(s, created, calls, now);
  }

  // The documented threshold is not the opening one when it is 1 or 2: then it
  // takes three failures in a row, as this run shows.
  lemma SmallThresholdsOpenAtThree(threshold: int, reattempt: int)
    requires 1 <= threshold <= 2 && reattempt >= 1
    ensures var s, fail := Settings(threshold, reattempt), (t: int) => Call(t, true, t);
      && !Open(StateAfter(s, 0, [fail(1)]), 1)
      && !Open(StateAfter(s, 0, [fail(1), fail(1)]), 1)
      && Open(StateAfter(s, 0, [fail(1), fail(1), fail(1)]), 1)
  {
    var s, c := Settings(threshold, reattempt), Call(1, true, 1);
    assert [c][..0] == [] && [c, c][..1] == [c] && [c, c, c][..2] == [c, c];
  }

  // The breaker as documented: the threshold alone is what opens it.
  predicate RestingAsDocumented(s: Settings, history: seq<Call>, now: int) {
    && Streak(history) >= s.threshold
    && history != []
    && now <= history[|history| - 1].end + s.Period()
  }

  ghost predicate AsDocumented(s: Settings, created: int, calls: seq<Call>, now: int) {
    Timely(created, calls) && created < now && (forall i :: 0 <= i < |calls| ==> calls[i].end <= now) ==>
      (Open(StateAfter(s, created, calls), now) <==> RestingAsDocumented(s, Reached(s, created, calls), now))
  }

  // On all runs the gate is the documented one exactly if the threshold is at least 3.
  lemma ThresholdHoldsExactly(s: Settings)
    requires s.threshold >= 1 && s.reattempt >= 1
    ensures (forall created, calls, now :: AsDocumented(s, created, calls, now)) <==> s.threshold >= 3
  {
    if s.threshold >= 3 {
      forall created, calls: seq<Call>, now
        ensures AsDocumented(s, created, calls, now)
      {
        if Timely(created, calls) && created < now && forall i :: 0 <= i < |calls| ==> calls[i].end <= now {
          GateFollowsHistory(s, created, calls, now);
        }
      }
    } else {
      TwoFailures(s);
    }
  }

  lemma TwoFailures(s: Settings)
    requires 1 <= s.threshold <= 2 && s.reattempt >= 1
    ensures !AsDocumented(s, 0, [Call(1, true, 1), Call(1, true, 1)], 1)
  {
    var c := Call(1, true, 1);
    FailOnce(s, [], c);
    assert [] + [c] == [c];
    FailOnce(s, [c], c);
    assert [c] + [c] == [c, c];
  }

  // A failing call that gets through, at the end of a run.
  lemma FailOnce(s: Settings, calls: seq<Call>, c: Call)
    requires c.failed && !Open(StateAfter(s, 0, calls), c.start)
    ensures StateAfter(s, 0, calls + [c]).errorCount == StateAfter(s, 0, calls).errorCount + 1
    ensures Reached(s, 0, calls + [c]) == Reached(s, 0, calls) + [c]
    ensures Streak(Reached(s, 0, calls + [c])) == Streak(Reached(s, 0, calls)) + 1
  {
    assert (calls + [c])[..|calls|] == calls;
    var longer := Reached(s, 0, calls) + [c];
    assert longer[..|longer| - 1] == Reached(s, 0, calls);
  }

  // ------------------------------------------------ how often it probes

  lemma {:induction false} ReachedAreCalls(s: Settings, created: int, calls: seq<Call>)
    requires Timely(created, calls)
    ensures Timely(created, Reached(s, created, calls))
    ensures calls != [] ==> forall i :: 0 <= i < |Reached(s, created, calls)| ==>
      Reached(s, created, calls)[i].end <= calls[|calls| - 1].end
  {
    if calls != [] {
      ReachedAreCalls(s, created, calls[..|calls| - 1]);
    }
  }

  // The call after a resting history starts more than a period after its last one.
  ghost predicate Spaced(opening: int, period: int, history: seq<Call>) {
    forall k :: 1 <= k < |history| && Streak(history[..k]) >= opening ==>
      history[k].start > history[k - 1].end + period
  }

  lemma {:induction false} ProbesAreSpaced(s: Settings, created: int, calls: seq<Call>)
    requires Timely(created, calls)
    ensures Spaced(s.Opening(), s.Period(), Reached(s, created, calls))
  {
    if calls != [] {
      var before, c := calls[..|calls| - 1], calls[|calls| - 1];
      ProbesAreSpaced(s, created, before);
      GateFollowsHistory(s, created, before, c.start);
      var history, longer := Reached(s, created, before), Reached(s, created, calls);
      if Open(StateAfter(s, created, before), c.start) {
        assert longer == history;
      } else {
        assert longer == history + [c];
        SpacedAfter(s, history, c);
      }
    }
  }

  lemma SpacedAfter(s: Settings, history: seq<Call>, c: Call)
    requires Spaced(s.Opening(), s.Period(), history) && !Resting(s, history, c.start)
    ensures Spaced(s.Opening(), s.Period(), history + [c])
  {
    var longer := history + [c];
    forall k | 1 <= k < |longer| && Streak(longer[..k]) >= s.Opening()
      ensures longer[k].start > longer[k - 1].end + s.Period()
    {
      assert longer[..k] == history[..k];
      if k == |history| {
        assert history[..k] == history && longer[k] == c;
      } else {
        assert longer[k] == history[k] && longer[k - 1] == history[k - 1];
      }
    }
  }

  // n periods, one after the other.
  function Times(n: nat, period: int): int {
    if n == 0 then 0 else Times(n - 1, period) + period
  }

  lemma {:induction false} TimesIsProduct(n: nat, period: int)
    ensures Times(n, period) == n * period
  {
    if n > 0 {
      TimesIsProduct(n - 1, period);
    }
  }

  lemma SpacedBefore(opening: int, period: int, history: seq<Call>)
    requires Spaced(opening, period, history) && history != []
    ensures Spaced(opening, period, history[..|history| - 1])
  {
    var before := history[..|history| - 1];
    assert forall k :: 1 <= k < |before| ==> before[..k] == history[..k];
  }

  // Beyond the opening one, n more failures in a row take more than n periods.
  lemma {:induction false} FailuresTakeTime(opening: int, period: int, created: int, history: seq<Call>)
    requires Timely(created, history) && Spaced(opening, period, history)
    requires Streak(history) > opening >= 1
    ensures var n, extra := |history|, Streak(history) - opening;
      && 0 <= n - 1 - extra
      && history[n - 1].start > history[n - 1 - extra].end + Times(extra, period)
    decreases |history|
  {
    StreakWithin(history);
    var n, before := |history|, history[..|history| - 1];
    var extra := Streak(history) - opening;
    assert Streak(before) == Streak(history) - 1;
    assert history[n - 1].start > history[n - 2].end + period;
    if extra > 1 {
      SpacedBefore(opening, period, history);
      FailuresTakeTime(opening, period, created, before);
    } else {
      assert Times(extra, period) == period + Times(0, period);
    }
  }

  // The current failures in a row all start within a stretch of time.
  ghost predicate FailingWithin(history: seq<Call>, from: int, length: int) {
    forall i :: 0 <= i < |history| && |history| - Streak(history) <= i ==> from <= history[i].start <= from + length
  }

  lemma StretchIsLong(opening: int, period: int, created: int, history: seq<Call>, from: int, length: int)
    requires Timely(created, history) && Spaced(opening, period, history)
    requires Streak(history) > opening >= 1 && FailingWithin(history, from, length)
    ensures Times(Streak(history) - opening, period) <= length
  {
    var n, extra := |history|, Streak(history) - opening;
    FailuresTakeTime(opening, period, created, history);
    var first := history[n - 1 - extra];
    assert from <= first.start <= first.end;
    assert history[n - 1].start <= from + length;
  }

  lemma PeriodsWithin(n: nat, extra: int, period: int, length: int)
    requires n == extra && Times(n, period) <= length
    ensures extra * period <= length
  {
    TimesIsProduct(n, period);
  }

  // The periods beyond the opening failures, as a number by itself.
  lemma PeriodsIn(opening: int, period: int, created: int, history: seq<Call>, from: int, length: int) returns (extra: nat)
    requires Timely(created, history) && Spaced(opening, period, history)
    requires Streak(history) > opening >= 1 && FailingWithin(history, from, length)
    ensures extra == Streak(history) - opening && Times(extra, period) <= length
  {
    extra := Streak(history) - opening;
    StretchIsLong(opening, period, created, history, from, length);
  }

  lemma HistoryStretch(opening: int, period: int, created: int, history: seq<Call>, from: int, length: int) returns (extra: int)
    requires Timely(created, history) && Spaced(opening, period, history)
    requires Streak(history) > opening >= 1 && FailingWithin(history, from, length)
    ensures extra == Streak(history) - opening && extra * period <= length
  {
    var n := PeriodsIn(opening, period, created, history, from, length);
    extra := n;
    PeriodsWithin(n, extra, period, length);
  }

  // However callers behave, a stretch of time in which the script keeps failing sees
  // the opening failures and then at most one probe per whole period in it.
  lemma {:induction false} FailingStretch(s: Settings, created: int, calls: seq<Call>, from: int, length: int)
    requires Timely(created, calls) && FailingWithin(Reached(s, created, calls), from, length)
    ensures var n := Streak(Reached(s, created, calls));
      n > s.Opening() ==> (n - s.Opening()) * s.Period() <= length
  {
    var opening, period, history := SpacedHistory(s, created, calls);
    if Streak(history) > opening {
      var extra := HistoryStretch(opening, period, created, history, from, length);
    }
  }

  lemma SpacedHistory(s: Settings, created: int, calls: seq<Call>) returns (opening: int, period: int, history: seq<Call>)
    requires Timely(created, calls)
    ensures opening == s.Opening() && period == s.Period() && history == Reached(s, created, calls)
    ensures Timely(created, history) && Spaced(opening, period, history)
  {
    opening, period, history := s.Opening(), s.Period(), Reached(s, created, calls);
    ReachedAreCalls(s, created, calls);
    ProbesAreSpaced(s, created, calls);
  }

  // ------------------------------------------------ how it closes again

  // If nobody else calls, a call more than one period after a rejection gets through.
  lemma {:induction false} WaitingGetsThrough(s: Settings, created: int, calls: seq<Call>, rejected: int, later: int)
    requires Timely(created, calls) && created < rejected
    requires forall i :: 0 <= i < |calls| ==> calls[i].end <= rejected
    requires Open(StateAfter(s, created, calls), rejected) && later > rejected + s.Period()
    ensures !Open(StateAfter(s, created, calls), later)
  {
    FieldsMeanHistory(s, created, calls, rejected);
    ReachedAreCalls(s, created, calls);
  }

  // A refusal advertises one period, as the earliest moment at which the answer could
  // change. If nobody else calls, that is so exactly if it answers the very call whose
  // failure keeps the breaker open: sooner in a row of failures the next call is let
  // through at once, and later in the rest there is less than a period to go.
  lemma AdvertisedIsEarliestExactly(s: Settings, created: int, calls: seq<Call>, now: int)
    requires s.reattempt >= 1 && Timely(created, calls) && created < now
    requires forall i :: 0 <= i < |calls| ==> calls[i].end <= now
    ensures var history := Reached(s, created, calls);
      (forall later :: later >= now ==> (Open(StateAfter(s, created, calls), later) <==> later <= now + s.Period()))
      <==> Streak(history) >= s.Opening() && history != [] && history[|history| - 1].end == now
  {
    var b, history := StateAfter(s, created, calls), Reached(s, created, calls);
    ReachedAreCalls(s, created, calls);
    if Streak(history) >= s.Opening() && history != [] && history[|history| - 1].end == now {
      forall later | later >= now
        ensures Open(b, later) <==> later <= now + s.Period()
      {
        GateFollowsHistory(s, created, calls, later);
      }
    } else {
      var edge := now + s.Period();
      GateFollowsHistory(s, created, calls, edge);
      assert !Resting(s, history, edge);
      assert !Open(b, edge);
    }
  }

  // A call that gets through and succeeds closes the breaker: whatever the next
  // calls do, the first of them that is turned away comes after enough new failures.
  lemma {:induction false} SuccessCloses(s: Settings, created: int, calls: seq<Call>, more: seq<Call>)
    requires calls != [] && Timely(created, calls + more)
    requires var c := calls[|calls| - 1];
      !c.failed && !Open(StateAfter(s, created, calls[..|calls| - 1]), c.start)
    requires |more| < s.Opening()
    ensures forall now :: now > created && (forall i :: 0 <= i < |calls + more| ==> (calls + more)[i].end <= now) ==>
      !Open(StateAfter(s, created, calls + more), now)
    decreases |more|
  {
    StreakAfterSuccess(s, created, calls, more);
    forall now | now > created && (forall i :: 0 <= i < |calls + more| ==> (calls + more)[i].end <= now)
      ensures !Open(StateAfter(s, created, calls + more), now)
    {
      GateFollowsHistory(s, created, calls + more, now);
    }
  }

  lemma StreakGrows(s: Settings, created: int, calls: seq<Call>, c: Call)
    ensures var before, after := Streak(Reached(s, created, calls)), Streak(Reached(s, created, calls + [c]));
      after == if Open(StateAfter(s, created, calls), c.start) then before else if c.failed then before + 1 else 0
  {
    assert (calls + [c])[..|calls|] == calls;
    var history, longer := Reached(s, created, calls), Reached(s, created, calls + [c]);
    if Open(StateAfter(s, created, calls), c.start) {
      assert longer == history;
    } else {
      assert longer == history + [c];
      assert longer[..|longer| - 1] == history;
    }
  }

  lemma {:induction false} StreakAfterSuccess(s: Settings, created: int, calls: seq<Call>, more: seq<Call>)
    requires calls != []
    requires var c := calls[|calls| - 1];
      !c.failed && !Open(StateAfter(s, created, calls[..|calls| - 1]), c.start)
    ensures Streak(Reached(s, created, calls + more)) <= |more|
    decreases |more|
  {
    if more == [] {
      StreakGrows(s, created, calls[..|calls| - 1], calls[|calls| - 1]);
      assert calls + more == calls[..|calls| - 1] + [calls[|calls| - 1]];
    } else {
      var before, last := more[..|more| - 1], more[|more| - 1];
      StreakAfterSuccess(s, created, calls, before);
      StreakGrows(s, created, calls + before, last);
      assert calls + more == calls + before + [last];
    }
  }
}
