/**
 The phase timer of the demo script: phases opened and closed in place, the timing
 report, and what holds over every run with a clock that never goes back.
 */
module PhaseTimer {
  import opened Wrappers

  datatype Phase = Phase(name: string, startedAtMs: int, endedAtMs: Option<int>)

  // ----- one step, as a function of the phases -----

  function Closed(phases: seq<Phase>, now: int): seq<Phase> {
    if phases == [] || phases[|phases| - 1].endedAtMs.Some? then phases
    else phases[|phases| - 1 := phases[|phases| - 1].(endedAtMs := Some(now))]
  }

  function Started(phases: seq<Phase>, name: string, now: int): seq<Phase> {
    Closed(phases, now) + [Phase(name, now, None)]
  }

  function Duration(p: Phase, now: int): int {
    p.endedAtMs.GetOr(now) - p.startedAtMs
  }

  function Durations(phases: seq<Phase>, now: int): seq<int> {
    seq(|phases|, i requires 0 <= i < |phases| => Duration(phases[i], now))
  }

  datatype Report = Report(totalMs: int, withinBudget: Option<bool>, durations: seq<int>)

  /** Closing gives the last phase an end if it has none, and changes nothing else; starting appends. */
  lemma StepsMean(phases: seq<Phase>, name: string, now: int)
    ensures Closed([], now) == []
    ensures |Closed(phases, now)| == |phases|
    ensures forall i :: 0 <= i < |phases| - 1 ==> Closed(phases, now)[i] == phases[i]
    ensures phases != [] ==>
              var last := phases[|phases| - 1];
              Closed(phases, now)[|phases| - 1]
              == Phase(last.name, last.startedAtMs, Some(if last.endedAtMs.Some? then last.endedAtMs.value else now))
    ensures Started(phases, name, now) == Closed(phases, now) + [Phase(name, now, None)]
  {
  }

  /** Each phase, in order, lasts from its start to its end, or until now. */
  lemma DurationsMean(phases: seq<Phase>, i: nat, now: int)
    requires i < |phases|
    ensures |Durations(phases, now)| == |phases|
    ensures Durations(phases, now)[i] == (if phases[i].endedAtMs.Some? then phases[i].endedAtMs.value else now)
                                         - phases[i].startedAtMs
  {
  }

  /** Phases in time order up to `clock`, only the last of which can be open. */
  ghost predicate InOrder(phases: seq<Phase>, startedAt: int, clock: int) {
    && startedAt <= clock
    && (forall i :: 0 <= i < |phases| ==> startedAt <= phases[i].startedAtMs <= clock)
    && (forall i :: 0 <= i < |phases| - 1 ==> phases[i].endedAtMs.Some?)
    && (forall i :: 0 <= i < |phases| && phases[i].endedAtMs.Some? ==>
          phases[i].startedAtMs <= phases[i].endedAtMs.value <= clock)
    && (forall i :: 0 <= i < |phases| - 1 ==> phases[i].endedAtMs.value <= phases[i + 1].startedAtMs)
  }

  /** The timer's module state. Each call reads the clock, here its argument. */
  class Timer {
    const startedAt: int
    var phases: seq<Phase>
    ghost var clock: int

    ghost predicate Valid()
      reads this
    {
      InOrder(phases, startedAt, clock)
    }

    constructor (now: int)
      ensures Valid() && phases == [] && startedAt == now && clock == now
    {
      startedAt, phases, clock := now, [], now;
    }

    /** `startPhase` */
    method StartPhase(name: string, now: int)
      requires Valid() && clock <= now
      modifies this
      ensures Valid() && clock == now
      ensures phases == Started(old(phases), name, now)
    {
      if |phases| > 0 {
        var prev := phases[|phases| - 1];
        if prev.endedAtMs == None {
          phases := phases[|phases| - 1 := prev.(endedAtMs := Some(now))];
        }
      }
      phases := phases + [Phase(name, now, None)];
      clock := now;
    }

    /** `closeLastPhase` */
    method CloseLastPhase(now: int)
      requires Valid() && clock <= now
      modifies this
      ensures Valid() && clock == now
      ensures phases == Closed(old(phases), now)
    {
      clock := now;
      if |phases| == 0 {
        return;
      }
      var prev := phases[|phases| - 1];
      if prev.endedAtMs == None {
        phases := phases[|phases| - 1 := prev.(endedAtMs := Some(now))];
      }
    }

    /** `buildReport`: closes the last phase, then reads the clock again for the total. */
    method BuildReport(now: int, later: int, budgetMs: Option<int>) returns (report: Report)
      requires Valid() && clock <= now <= later
      modifies this
      ensures Valid() && clock == later
      ensures phases == Closed(old(phases), now)
      ensures report.totalMs == later - startedAt
      ensures report.withinBudget == match budgetMs case None => None case Some(b) => Some(report.totalMs <= b)
      ensures report.durations == Durations(phases, later)
      ensures Sum(report.durations) <= report.totalMs
      ensures forall d <- report.durations :: 0 <= d
    {
      CloseLastPhase(now);
      clock := later;
      var total := later - startedAt;
      var durations := Durations(phases, later);
      report := Report(total, match budgetMs case None => None case Some(b) => Some(total <= b), durations);
      DurationsFitTotal(phases, startedAt, later);
    }
  }

  // ----- durations -----

  function Sum(xs: seq<int>): int {
    if xs == [] then 0 else Sum(xs[..|xs| - 1]) + xs[|xs| - 1]
  }

  /** The time between phases: from the end of each to the start of the next. */
  function Gaps(phases: seq<Phase>, now: int): int {
    if |phases| <= 1 then 0
    else
      Gaps(phases[..|phases| - 1], now)
      + phases[|phases| - 1].startedAtMs - phases[|phases| - 2].endedAtMs.GetOr(now)
  }

  /** Durations and gaps telescope to the time from the first start to the last end. */
  lemma {:induction false} DurationsTelescope(phases: seq<Phase>, now: int)
    requires phases != []
    ensures Sum(Durations(phases, now)) + Gaps(phases, now)
            == phases[|phases| - 1].endedAtMs.GetOr(now) - phases[0].startedAtMs
  {
    var n := |phases| - 1;
    assert Durations(phases, now)[..n] == Durations(phases[..n], now);
    if n > 0 {
      DurationsTelescope(phases[..n], now);
    } else {
      assert Durations(phases[..0], now) == [];
    }
  }

  lemma {:induction false} GapsNotNegative(phases: seq<Phase>, startedAt: int, clock: int, now: int)
    requires InOrder(phases, startedAt, clock)
    ensures Gaps(phases, now) >= 0
  {
    if |phases| > 1 {
      var n := |phases| - 1;
      assert phases[n - 1].endedAtMs.value <= phases[n - 1 + 1].startedAtMs;
      GapsNotNegative(phases[..n], startedAt, clock, now);
    }
  }

  /** Durations are not negative and add up to no more than the total. */
  lemma DurationsFitTotal(phases: seq<Phase>, startedAt: int, clock: int)
    requires InOrder(phases, startedAt, clock)
    ensures Sum(Durations(phases, clock)) <= clock - startedAt
    ensures forall d <- Durations(phases, clock) :: 0 <= d
  {
    if phases != [] {
      DurationsTelescope(phases, clock);
      GapsNotNegative(phases, startedAt, clock, clock);
    }
  }

  // ----- runs -----

  datatype Call = Start(name: string, now: int) | Close(now: int)

  function Step(phases: seq<Phase>, call: Call): seq<Phase> {
    match call
    case Start(name, now) => Started(phases, name, now)
    case Close(now) => Closed(phases, now)
  }

  /** The phases after a run of calls from an empty timer. */
  function Run(calls: seq<Call>): seq<Phase> {
    if calls == [] then [] else Step(Run(calls[..|calls| - 1]), calls[|calls| - 1])
  }

  /** Clock readings never go back. */
  ghost predicate Timely(calls: seq<Call>, startedAt: int) {
    && (forall i :: 0 <= i < |calls| ==> startedAt <= calls[i].now)
    && (forall i, j :: 0 <= i < j < |calls| ==> calls[i].now <= calls[j].now)
  }

  function LastClock(calls: seq<Call>, startedAt: int): int {
    if calls == [] then startedAt else calls[|calls| - 1].now
  }

  /** Every run keeps phases in order with at most the last one open. */
  lemma {:induction false} RunInOrder(calls: seq<Call>, startedAt: int)
    requires Timely(calls, startedAt)
    ensures InOrder(Run(calls), startedAt, LastClock(calls, startedAt))
  {
    if calls != [] {
      var n := |calls| - 1;
      RunInOrder(calls[..n], startedAt);
      assert LastClock(calls[..n], startedAt) <= calls[n].now by {
        if n > 0 { assert calls[n - 1].now <= calls[n].now; }
      }
      StepInOrder(Run(calls[..n]), startedAt, LastClock(calls[..n], startedAt), calls[n]);
    }
  }

  lemma StepInOrder(phases: seq<Phase>, startedAt: int, clock: int, call: Call)
    requires InOrder(phases, startedAt, clock) && clock <= call.now
    ensures InOrder(Step(phases, call), startedAt, call.now)
  {
    var closed := Closed(phases, call.now);
    assert InOrder(closed, startedAt, call.now);
    if call.Start? {
      var after := closed + [Phase(call.name, call.now, None)];
      forall i | 0 <= i < |after| - 1
        ensures after[i].endedAtMs.Some? && after[i].endedAtMs.value <= after[i + 1].startedAtMs
      {
        assert closed[i].endedAtMs.Some?;
        if i < |closed| - 1 { assert closed[i].endedAtMs.value <= closed[i + 1].startedAtMs; }
      }
    }
  }

  /** A run of starts only leaves no gap: each phase ends as the next one starts. */
  lemma {:induction false} StartsContiguous(calls: seq<Call>)
    requires forall i :: 0 <= i < |calls| ==> calls[i].Start?
    ensures var phases := Run(calls);
            && |phases| == |calls|
            && (forall i :: 0 <= i < |calls| ==>
                  phases[i].name == calls[i].name && phases[i].startedAtMs == calls[i].now)
            && (forall i :: 0 <= i < |phases| - 1 ==> phases[i].endedAtMs == Some(phases[i + 1].startedAtMs))
            && (phases != [] ==> phases[|phases| - 1].endedAtMs.None?)
  {
    if calls != [] {
      StartsContiguous(calls[..|calls| - 1]);
    }
  }

  lemma {:induction false} ContiguousHasNoGaps(phases: seq<Phase>, now: int)
    requires forall i :: 0 <= i < |phases| - 1 ==> phases[i].endedAtMs == Some(phases[i + 1].startedAtMs)
    ensures Gaps(phases, now) == 0
  {
    if |phases| > 1 {
      var n := |phases| - 1;
      assert phases[n - 1].endedAtMs == Some(phases[n - 1 + 1].startedAtMs);
      ContiguousHasNoGaps(phases[..n], now);
    }
  }

  /** A run of starts closed once at the end: the durations are exactly the time from the
      first start to the final close. */
  lemma ClosedRunTelescopes(calls: seq<Call>, end: int, now: int)
    requires calls != [] && forall i :: 0 <= i < |calls| ==> calls[i].Start?
    ensures Sum(Durations(Run(calls + [Close(end)]), now)) == end - calls[0].now
  {
    StartsContiguous(calls);
    assert (calls + [Close(end)])[..|calls|] == calls;
    var phases := Run(calls + [Close(end)]);
    assert phases == Closed(Run(calls), end);
    forall i | 0 <= i < |phases| - 1 ensures phases[i].endedAtMs == Some(phases[i + 1].startedAtMs) {
      assert phases[i] == Run(calls)[i];
    }
    ContiguousHasNoGaps(phases, now);
    DurationsTelescope(phases, now);
  }
}
