/** Driving the simulator, and the loop that takes checkpoints at regular ticks. What the
    simulator answers is left open: any oracle will do. */
module SimulationControl {

  datatype Cause = LimitReached | CheckpointExit | OtherExit | Refused

  /** The answer to one request to simulate, and the time a drain before it takes. */
  datatype Answer = Answer(cause: Cause, ticks: nat, drain: nat)

  /** The cause that a request which is carried out ends with. */
  function Reported(a: Answer): Cause {
    if a.cause == Refused then OtherExit else a.cause
  }

  /** The time it takes when n ticks were asked for. */
  function Elapsed(a: Answer, n: nat): nat {
    if a.cause == LimitReached || a.ticks > n then n else a.ticks
  }

  /** Request k is the first from the given one on that does not end with a checkpoint exit. */
  ghost predicate SkipsTo(oracle: nat -> Answer, from: nat, k: nat) {
    from <= k && oracle(k).cause != CheckpointExit && forall j :: from <= j < k ==> oracle(j).cause == CheckpointExit
  }

  /** Checkpoint exits from the given request on are followed by the limit. */
  ghost predicate ThenTheLimit(oracle: nat -> Answer, from: nat) {
    exists k: nat :: SkipsTo(oracle, from, k) && oracle(k).cause == LimitReached
  }

  lemma {:induction false} LimitDecided(oracle: nat -> Answer, from: nat, k: nat)
    requires SkipsTo(oracle, from, k)
    ensures ThenTheLimit(oracle, from) <==> oracle(k).cause == LimitReached
  {
    if k': nat :| SkipsTo(oracle, from, k') && oracle(k').cause == LimitReached {
      assert k' == k;
    }
  }

  class Simulator {
    const oracle: nat -> Answer
    var time: int
    var calls: nat
    /** The time spent draining so far. */
    var drained: nat

    constructor (oracle: nat -> Answer, time: int)
      ensures this.oracle == oracle && this.time == time && calls == 0 && drained == 0
    {
      this.oracle, this.time, calls, drained := oracle, time, 0, 0;
    }

    /** Advances by n when the limit is reached, by at most n otherwise; a negative n is refused. */
    method Simulate(n: int) returns (cause: Cause)
      modifies this`time, this`calls
      ensures calls == old(calls) + 1
      ensures n < 0 ==> cause == Refused && time == old(time)
      ensures n >= 0 ==> cause == Reported(oracle(old(calls))) && time == old(time) + Elapsed(oracle(old(calls)), n)
    {
      var answer := oracle(calls);
      calls := calls + 1;
      if n < 0 {
        return Refused;
      }
      cause := Reported(answer);
      time := time + Elapsed(answer, n);
    }

    /** Runs until nothing is in flight. */
    method Drain()
      modifies this`time, this`drained
      ensures drained == old(drained) + oracle(calls).drain && time == old(time) + oracle(calls).drain
    {
      time, drained := time + oracle(calls).drain, drained + oracle(calls).drain;
    }

    /** Goes on to tick `until`, stepping over checkpoint instructions, to the first exit that
        is none. If that tick has passed, there is no going on. */
    method SkipCheckpoints(first: Cause, until: int, ghost last: nat) returns (cause: Cause)
      requires forall k :: k >= last ==> oracle(k).cause != CheckpointExit
      requires first == LimitReached ==> time == until
      modifies this`time, this`calls
      ensures cause != CheckpointExit && calls >= old(calls)
      ensures cause == LimitReached ==> time == until
      ensures first != CheckpointExit ==> cause == first && calls == old(calls) && time == old(time)
      ensures first == CheckpointExit && old(time) > until ==> cause == Refused && calls == old(calls) + 1 && time == old(time)
      ensures first == CheckpointExit && old(time) <= until ==>
                && calls > old(calls) && SkipsTo(oracle, old(calls), calls - 1)
                && cause == Reported(oracle(calls - 1)) && time <= until
    {
      cause := first;
      while cause == CheckpointExit
        invariant calls >= old(calls)
        invariant cause == LimitReached ==> time == until
        invariant calls == old(calls) ==> cause == first && time == old(time)
        invariant first != CheckpointExit ==> calls == old(calls)
        invariant old(time) > until && calls > old(calls) ==> cause == Refused && calls == old(calls) + 1 && time == old(time)
        invariant old(time) <= until ==> time <= until && forall k :: old(calls) <= k < calls - 1 ==> oracle(k).cause == CheckpointExit
        invariant old(time) <= until && calls > old(calls) ==> cause == Reported(oracle(calls - 1))
        decreases cause == CheckpointExit, if last > calls then last - calls else 0
      {
        cause := Simulate(until - time);
      }
    }

    /** From wherever the simulator is to tick `when`, for the first checkpoint. */
    method FirstStretch(when: int, ghost last: nat) returns (first: Cause, cause: Cause)
      requires forall k :: k >= last ==> oracle(k).cause != CheckpointExit
      modifies this`time, this`calls
      ensures calls > old(calls)
      ensures first == LimitReached ==> cause == LimitReached && calls == old(calls) + 1
      ensures first != LimitReached && old(time) <= when ==> oracle(old(calls)).cause != LimitReached
      ensures cause == LimitReached ==> time == when
      ensures cause == LimitReached <==> old(time) <= when && ThenTheLimit(oracle, old(calls))
    {
      ghost var from, start := calls, time;
      first := Simulate(when - time);
      cause := SkipCheckpoints(first, when, last);
      if start <= when {
        LimitDecided(oracle, from, calls - 1);
      }
    }

    /** One period on, to tick `until`. The first exit decides whether the caller goes on; a
        checkpoint is due when the last one is the limit. */
    method NextPeriod(period: nat, until: int, ghost last: nat) returns (first: Cause, cause: Cause)
      requires forall k :: k >= last ==> oracle(k).cause != CheckpointExit
      modifies this`time, this`calls
      ensures calls > old(calls) && first == Reported(oracle(old(calls)))
      ensures first == LimitReached ==> cause == LimitReached && time == old(time) + period && calls == old(calls) + 1
      ensures first != LimitReached && cause == LimitReached ==> time == until
      ensures cause == LimitReached <==> PeriodTaken(oracle, old(calls), old(time), period, until)
    {
      ghost var from := calls;
      first := Simulate(period);
      cause := first;
      if first == CheckpointExit {
        ghost var interrupted := time;
        cause := SkipCheckpoints(first, until, last);
        if interrupted <= until {
          LimitDecided(oracle, from + 1, calls - 1);
        }
      }
    }
  }

  /** Of a period that starts with request c at the given time, to end at tick `until`: it runs
      to its end, or checkpoint exits only interrupt it before that tick and the limit follows. */
  ghost predicate PeriodTaken(oracle: nat -> Answer, c: nat, time: int, period: nat, until: int) {
    || oracle(c).cause == LimitReached
    || (oracle(c).cause == CheckpointExit && time + Elapsed(oracle(c), period) <= until && ThenTheLimit(oracle, c + 1))
  }

  /** The tick at which checkpoint k is due. */
  ghost function Due(when: int, period: nat, k: nat): int {
    if k == 0 then when else Due(when, period, k - 1) + period
  }

  lemma {:induction false} DueAt(when: int, period: nat, k: nat)
    ensures Due(when, period, k) == when + k * period
  {
    if k > 0 {
      DueAt(when, period, k - 1);
      assert k * period == (k - 1) * period + period;
    }
  }

  /** Every checkpoint was written when it was due. */
  ghost predicate OnSchedule(written: seq<int>, when: int, period: nat) {
    forall k :: 0 <= k < |written| ==> written[k] == Due(when, period, k)
  }

  /** From the second on, the checkpoints are due by maxtick. */
  ghost predicate DueBy(n: nat, when: int, period: nat, maxtick: int) {
    forall k :: 1 <= k < n ==> Due(when, period, k) <= maxtick
  }

  /** The time all drains together take that come before the given requests. */
  ghost function Drains(oracle: nat -> Answer, stops: seq<nat>): nat {
    if stops == [] then 0 else Drains(oracle, stops[..|stops| - 1]) + oracle(stops[|stops| - 1]).drain
  }

  ghost predicate NoneTakesTime(oracle: nat -> Answer, stops: seq<nat>) {
    forall k :: 0 <= k < |stops| ==> oracle(stops[k]).drain == 0
  }

  lemma {:induction false} DrainsAreNone(oracle: nat -> Answer, stops: seq<nat>)
    ensures Drains(oracle, stops) == 0 <==> NoneTakesTime(oracle, stops)
  {
    if stops != [] {
      var rest, n := stops[..|stops| - 1], |stops| - 1;
      DrainsAreNone(oracle, rest);
      assert NoneTakesTime(oracle, stops) <==> NoneTakesTime(oracle, rest) && oracle(stops[n]).drain == 0 by {
        assert forall k :: 0 <= k < n ==> rest[k] == stops[k];
      }
    }
  }

  lemma {:induction false} DrainsGrow(oracle: nat -> Answer, stops: seq<nat>, k: nat)
    requires k <= |stops|
    ensures Drains(oracle, stops[..k]) <= Drains(oracle, stops)
  {
    if k < |stops| {
      DrainsGrow(oracle, stops[..|stops| - 1], k);
      assert stops[..|stops| - 1][..k] == stops[..k];
    } else {
      assert stops[..k] == stops;
    }
  }

  /** Checkpoint k was written after its drain, which came before request stops[k], and late by
      all drains up to then. */
  ghost predicate LateByDrains(oracle: nat -> Answer, stops: seq<nat>, written: seq<int>, when: int, period: nat) {
    && |stops| == |written|
    && forall k :: 0 <= k < |written| ==> written[k] == Due(when, period, k) + Drains(oracle, stops[..k + 1])
  }

  /** The same but for the last one: it was late by its own drain only, because the way there
      was interrupted and the rest of it measured anew. */
  ghost predicate LastCaughtUp(oracle: nat -> Answer, stops: seq<nat>, written: seq<int>, when: int, period: nat) {
    var n := |written| - 1;
    && |stops| == |written| && n >= 0
    && LateByDrains(oracle, stops[..n], written[..n], when, period)
    && written[n] == Due(when, period, n) + oracle(stops[n]).drain
  }

  lemma {:induction false} NextLate(oracle: nat -> Answer, stops: seq<nat>, written: seq<int>, when: int, period: nat, stop: nat, t: int)
    requires LateByDrains(oracle, stops, written, when, period)
    requires t == Due(when, period, |written|) + Drains(oracle, stops) + oracle(stop).drain
    ensures LateByDrains(oracle, stops + [stop], written + [t], when, period)
    ensures Drains(oracle, stops + [stop]) == Drains(oracle, stops) + oracle(stop).drain
  {
    var s, w, n := stops + [stop], written + [t], |stops|;
    assert s[..n] == stops && s[..n + 1] == s;
    forall k | 0 <= k < |w|
      ensures w[k] == Due(when, period, k) + Drains(oracle, s[..k + 1])
    {
      if k < n {
        assert s[..k + 1] == stops[..k + 1] && w[k] == written[k];
      }
    }
  }

  lemma {:induction false} NextCaughtUp(oracle: nat -> Answer, stops: seq<nat>, written: seq<int>, when: int, period: nat, stop: nat, t: int)
    requires LateByDrains(oracle, stops, written, when, period) && t == Due(when, period, |written|) + oracle(stop).drain
    ensures LastCaughtUp(oracle, stops + [stop], written + [t], when, period)
    ensures Drains(oracle, stops + [stop]) == Drains(oracle, stops) + oracle(stop).drain
  {
    assert (stops + [stop])[..|stops|] == stops && (written + [t])[..|written|] == written;
  }

  lemma {:induction false} OnScheduleIfNoDrain(oracle: nat -> Answer, stops: seq<nat>, written: seq<int>, when: int, period: nat)
    requires LateByDrains(oracle, stops, written, when, period)
    ensures OnSchedule(written, when, period) <==> NoneTakesTime(oracle, stops)
  {
    DrainsAreNone(oracle, stops);
    var n := |stops|;
    if NoneTakesTime(oracle, stops) {
      forall k | 0 <= k < n
        ensures written[k] == Due(when, period, k)
      {
        DrainsGrow(oracle, stops, k + 1);
      }
    } else {
      assert stops[..n] == stops;
      assert written[n - 1] != Due(when, period, n - 1);
    }
  }

  /** Checkpoints are on schedule if and only if none of the drains before them takes time. */
  lemma {:induction false} OnScheduleExactly(oracle: nat -> Answer, stops: seq<nat>, written: seq<int>, when: int, period: nat)
    requires LateByDrains(oracle, stops, written, when, period) || LastCaughtUp(oracle, stops, written, when, period)
    ensures OnSchedule(written, when, period) <==> NoneTakesTime(oracle, stops)
  {
    if LateByDrains(oracle, stops, written, when, period) {
      OnScheduleIfNoDrain(oracle, stops, written, when, period);
    } else {
      var n := |written| - 1;
      OnScheduleIfNoDrain(oracle, stops[..n], written[..n], when, period);
      assert OnSchedule(written, when, period)
        <==> OnSchedule(written[..n], when, period) && written[n] == Due(when, period, n);
      assert NoneTakesTime(oracle, stops) <==> NoneTakesTime(oracle, stops[..n]) && oracle(stops[n]).drain == 0;
    }
  }

  /** Every request from one call to another ran into its limit. */
  ghost predicate Uninterrupted(oracle: nat -> Answer, from: nat, to: nat) {
    forall k :: from <= k < to ==> oracle(k).cause == LimitReached
  }

  /** The drains before n requests from the given one take no time. */
  ghost predicate QuietFrom(oracle: nat -> Answer, first: nat, n: nat) {
    forall k :: first <= k < first + n ==> oracle(k).drain == 0
  }

  lemma {:induction false} QuietInARow(oracle: nat -> Answer, stops: seq<nat>, first: nat)
    requires InARow(stops, first)
    ensures NoneTakesTime(oracle, stops) <==> QuietFrom(oracle, first, |stops|)
  {
    if NoneTakesTime(oracle, stops) {
      forall k | first <= k < first + |stops|
        ensures oracle(k).drain == 0
      {
        assert stops[k - first] == k;
      }
    }
  }

  /** The requests that follow one another from the given one. */
  ghost predicate InARow(stops: seq<nat>, first: nat) {
    forall k :: 0 <= k < |stops| ==> stops[k] == first + k
  }

  /** The loop's state when it may go on: all checkpoints so far late by their drains. */
  ghost predicate Ahead(oracle: nat -> Answer, stops: seq<nat>, written: seq<int>, when: int, period: nat, simTicks: int, time: int) {
    && LateByDrains(oracle, stops, written, when, period)
    && |written| >= 1 && simTicks == Due(when, period, |written| - 1) && time == simTicks + Drains(oracle, stops)
  }

  lemma {:induction false} AheadNext(oracle: nat -> Answer, stops: seq<nat>, written: seq<int>, when: int, period: nat,
                                     simTicks: int, time: int, stop: nat)
    requires Ahead(oracle, stops, written, when, period, simTicks, time)
    ensures var t := time + period + oracle(stop).drain;
            Ahead(oracle, stops + [stop], written + [t], when, period, simTicks + period, t)
  {
    NextLate(oracle, stops, written, when, period, stop, time + period + oracle(stop).drain);
  }

  ghost predicate Closed(oracle: nat -> Answer, stops: seq<nat>, written: seq<int>, when: int, period: nat) {
    LateByDrains(oracle, stops, written, when, period) || LastCaughtUp(oracle, stops, written, when, period)
  }

  lemma {:induction false} DueByNext(n: nat, when: int, period: nat, maxtick: int)
    requires n >= 1 && DueBy(n, when, period, maxtick) && Due(when, period, n - 1) + period <= maxtick
    ensures DueBy(n + 1, when, period, maxtick)
  {
  }

  /** Where the calls stand: without an interruption one request per stop has been made. */
  ghost predicate Straight(oracle: nat -> Answer, from: nat, calls: nat, stops: seq<nat>, early: bool, interrupted: bool) {
    && from < calls
    && (interrupted ==> early || !Uninterrupted(oracle, from, calls))
    && (!interrupted ==> InARow(stops, from + 1) && calls == from + |stops|)
  }

  lemma {:induction false} InterruptionStays(oracle: nat -> Answer, from: nat, calls: nat, calls': nat)
    requires calls <= calls' && !Uninterrupted(oracle, from, calls)
    ensures !Uninterrupted(oracle, from, calls')
  {
    var k :| from <= k < calls && oracle(k).cause != LimitReached;
    assert from <= k < calls';
  }

  lemma {:induction false} StraightNext(oracle: nat -> Answer, from: nat, calls: nat, stops: seq<nat>, early: bool, interrupted: bool)
    requires Straight(oracle, from, calls, stops, early, interrupted)
    ensures Straight(oracle, from, calls + 1, stops + [calls + 1], early, interrupted)
  {
    if interrupted && !early {
      InterruptionStays(oracle, from, calls, calls + 1);
    }
  }

  lemma {:induction false} StraightBroken(oracle: nat -> Answer, from: nat, calls: nat, calls': nat, stops: seq<nat>, early: bool)
    requires from <= calls < calls' && oracle(calls).cause != LimitReached
    ensures Straight(oracle, from, calls', stops, early, true)
  {
  }

  /** What the loop keeps; `going` when the last exit lets it go on. */
  ghost predicate Taking(oracle: nat -> Answer, from: nat, early: bool, calls: nat, time: int, stops: seq<nat>, written: seq<int>,
                         when: int, period: nat, maxtick: int, simTicks: int, going: bool, interrupted: bool) {
    && DueBy(|written|, when, period, maxtick) && Closed(oracle, stops, written, when, period)
    && (going ==> Ahead(oracle, stops, written, when, period, simTicks, time))
    && (!going ==> interrupted)
    && (!interrupted ==> LateByDrains(oracle, stops, written, when, period) && |written| >= 1)
    && Straight(oracle, from, calls, stops, early, interrupted)
  }

  /** After checkpoint m the loop goes on: the period before it ran to its end. */
  ghost predicate GoesOn(oracle: nat -> Answer, stops: seq<nat>, m: nat)
    requires 1 <= m <= |stops|
  {
    m == 1 || oracle(stops[m - 2]).cause == LimitReached
  }

  /** After m checkpoints there is another one. */
  ghost predicate OneMoreTaken(oracle: nat -> Answer, stops: seq<nat>, written: seq<int>, when: int, period: nat, m: nat)
    requires 1 <= m <= |stops| == |written|
  {
    GoesOn(oracle, stops, m) && PeriodTaken(oracle, stops[m - 1], written[m - 1], period, Due(when, period, m))
  }

  ghost predicate OneMoreWanted(when: int, period: nat, maxCheckpoints: int, maxtick: int, m: nat) {
    m < maxCheckpoints && Due(when, period, m) <= maxtick
  }

  /** All the checkpoints written so far were wanted and their periods came to it. */
  ghost predicate TakenSoFar(oracle: nat -> Answer, stops: seq<nat>, written: seq<int>, when: int, period: nat,
                             maxCheckpoints: int, maxtick: int) {
    && |stops| == |written|
    && forall m :: 1 <= m < |written| ==>
         OneMoreWanted(when, period, maxCheckpoints, maxtick, m) && OneMoreTaken(oracle, stops, written, when, period, m)
  }

  /** From the first one on there are exactly the checkpoints that are wanted and come to it. */
  ghost predicate TakenExactly(oracle: nat -> Answer, stops: seq<nat>, written: seq<int>, when: int, period: nat,
                               maxCheckpoints: int, maxtick: int) {
    && TakenSoFar(oracle, stops, written, when, period, maxCheckpoints, maxtick)
    && (|written| >= 1 ==>
          !(OneMoreWanted(when, period, maxCheckpoints, maxtick, |written|)
            && OneMoreTaken(oracle, stops, written, when, period, |written|)))
  }

  /** Where the loop stands: at the last checkpoint, or unable to come to another one. */
  ghost predicate Standing(oracle: nat -> Answer, stops: seq<nat>, written: seq<int>, when: int, period: nat,
                           calls: nat, time: int, going: bool) {
    && |stops| == |written|
    && (going ==>
          && |written| >= 1 && calls == stops[|stops| - 1] && time == written[|written| - 1] && GoesOn(oracle, stops, |stops|))
    && (!going && |written| >= 1 ==> !OneMoreTaken(oracle, stops, written, when, period, |written|))
  }

  lemma {:induction false} SameBefore(oracle: nat -> Answer, stops: seq<nat>, written: seq<int>, when: int, period: nat, stop: nat, t: int, m: nat)
    requires 1 <= m <= |stops| == |written|
    ensures OneMoreTaken(oracle, stops + [stop], written + [t], when, period, m) <==> OneMoreTaken(oracle, stops, written, when, period, m)
  {
  }

  /** Another checkpoint was written. */
  lemma {:induction false} AnotherTaken(oracle: nat -> Answer, stops: seq<nat>, written: seq<int>, when: int, period: nat,
                                        maxCheckpoints: int, maxtick: int, calls: nat, time: int, stop: nat, t: int)
    requires TakenSoFar(oracle, stops, written, when, period, maxCheckpoints, maxtick)
    requires Standing(oracle, stops, written, when, period, calls, time, true)
    requires OneMoreWanted(when, period, maxCheckpoints, maxtick, |written|)
    requires PeriodTaken(oracle, calls, time, period, Due(when, period, |written|))
    ensures TakenSoFar(oracle, stops + [stop], written + [t], when, period, maxCheckpoints, maxtick)
    ensures Standing(oracle, stops + [stop], written + [t], when, period, stop, t, oracle(calls).cause == LimitReached)
  {
    forall m | 1 <= m < |written| + 1
      ensures OneMoreTaken(oracle, stops + [stop], written + [t], when, period, m)
    {
      SameBefore(oracle, stops, written, when, period, stop, t, m);
    }
  }

  method TakeFirst(sim: Simulator, when: int, ghost period: nat, ghost maxtick: int, ghost last: nat)
    returns (exitCause: Cause, written: seq<int>, ghost stops: seq<nat>, ghost interrupted: bool)
    requires forall k :: k >= last ==> sim.oracle(k).cause != CheckpointExit
    modifies sim
    ensures Taking(sim.oracle, old(sim.calls), old(sim.time) > when, sim.calls, sim.time, stops, written,
                   when, period, maxtick, when, exitCause == LimitReached, interrupted)
    ensures Standing(sim.oracle, stops, written, when, period, sim.calls, sim.time, exitCause == LimitReached)
    ensures |written| <= 1
    ensures |written| == 1 <==> old(sim.time) <= when && ThenTheLimit(sim.oracle, old(sim.calls))
  {
    ghost var from, early := sim.calls, sim.time > when;
    var first;
    written, stops := [], [];
    first, exitCause := sim.FirstStretch(when, last);
    interrupted := first != LimitReached;
    if exitCause == LimitReached {
      sim.Drain();
      written, stops := [sim.time], [sim.calls];
    }
    FirstTaken(sim.oracle, from, early, sim.calls, sim.time, stops, written, when, period, maxtick, exitCause == LimitReached, interrupted);
  }

  lemma {:induction false} FirstTaken(oracle: nat -> Answer, from: nat, early: bool, calls: nat, time: int, stops: seq<nat>, written: seq<int>,
                                      when: int, period: nat, maxtick: int, going: bool, interrupted: bool)
    requires from < calls && (if going then stops == [calls] && written == [time] else stops == [] && written == [])
    requires going ==> time == when + oracle(calls).drain
    requires interrupted && !early ==> oracle(from).cause != LimitReached
    requires !interrupted ==> going && calls == from + 1
    ensures Taking(oracle, from, early, calls, time, stops, written, when, period, maxtick, when, going, interrupted)
  {
    assert Drains(oracle, []) == 0;
    if going {
      NextLate(oracle, [], [], when, period, calls, time);
      assert [] + stops == stops && [] + written == written;
    }
    if interrupted && !early {
      StraightBroken(oracle, from, from, calls, stops, early);
    }
  }

  /** The stretch ran to its end: the checkpoint is late by one more drain. */
  lemma {:induction false} TakenNext(oracle: nat -> Answer, from: nat, early: bool, calls: nat, time: int, stops: seq<nat>, written: seq<int>,
                                     when: int, period: nat, maxtick: int, simTicks: int, interrupted: bool)
    requires Taking(oracle, from, early, calls, time, stops, written, when, period, maxtick, simTicks, true, interrupted)
    requires simTicks + period <= maxtick
    ensures var stop, t := calls + 1, time + period + oracle(calls + 1).drain;
            Taking(oracle, from, early, stop, t, stops + [stop], written + [t], when, period, maxtick, simTicks + period, true, interrupted)
  {
    DueByNext(|written|, when, period, maxtick);
    StraightNext(oracle, from, calls, stops, early, interrupted);
    AheadNext(oracle, stops, written, when, period, simTicks, time, calls + 1);
  }

  /** The stretch was interrupted and then caught up. */
  lemma {:induction false} TakenAfterAll(oracle: nat -> Answer, from: nat, early: bool, calls: nat, time: int, stops: seq<nat>, written: seq<int>,
                                         when: int, period: nat, maxtick: int, simTicks: int, interrupted: bool, stop: nat, t: int)
    requires Taking(oracle, from, early, calls, time, stops, written, when, period, maxtick, simTicks, true, interrupted)
    requires simTicks + period <= maxtick && calls < stop && oracle(calls).cause != LimitReached
    requires t == simTicks + period + oracle(stop).drain
    ensures Taking(oracle, from, early, stop, t, stops + [stop], written + [t], when, period, maxtick, simTicks + period, false, true)
  {
    DueByNext(|written|, when, period, maxtick);
    StraightBroken(oracle, from, calls, stop, stops + [stop], early);
    NextCaughtUp(oracle, stops, written, when, period, stop, t);
  }

  /** The stretch was interrupted for good. */
  lemma {:induction false} NoneTaken(oracle: nat -> Answer, from: nat, early: bool, calls: nat, time: int, stops: seq<nat>, written: seq<int>,
                                     when: int, period: nat, maxtick: int, simTicks: int, interrupted: bool, calls': nat, time': int)
    requires Taking(oracle, from, early, calls, time, stops, written, when, period, maxtick, simTicks, true, interrupted)
    requires calls < calls' && oracle(calls).cause != LimitReached
    ensures Taking(oracle, from, early, calls', time', stops, written, when, period, maxtick, simTicks + period, false, true)
  {
    StraightBroken(oracle, from, calls, calls', stops, early);
  }

  method TakeNext(sim: Simulator, period: nat, simTicks: int, written: seq<int>, ghost from: nat, ghost early: bool,
                  ghost when: int, ghost maxtick: int, ghost last: nat, ghost stops: seq<nat>, ghost interrupted: bool)
    returns (exitCause: Cause, written': seq<int>, ghost stops': seq<nat>, ghost interrupted': bool)
    requires forall k :: k >= last ==> sim.oracle(k).cause != CheckpointExit
    requires Taking(sim.oracle, from, early, sim.calls, sim.time, stops, written, when, period, maxtick, simTicks, true, interrupted)
    requires simTicks + period <= maxtick
    modifies sim
    ensures Taking(sim.oracle, from, early, sim.calls, sim.time, stops', written',
                   when, period, maxtick, simTicks + period, exitCause == LimitReached, interrupted')
    ensures exitCause == LimitReached <==> sim.oracle(old(sim.calls)).cause == LimitReached
    ensures if PeriodTaken(sim.oracle, old(sim.calls), old(sim.time), period, simTicks + period)
            then written' == written + [sim.time] && stops' == stops + [sim.calls] else written' == written && stops' == stops
  {
    ghost var time, calls := sim.time, sim.calls;
    var cause;
    exitCause, cause := sim.NextPeriod(period, simTicks + period, last);
    interrupted' := interrupted || exitCause != LimitReached;
    if cause == LimitReached {
      sim.Drain();
      if exitCause == LimitReached {
        TakenNext(sim.oracle, from, early, calls, time, stops, written, when, period, maxtick, simTicks, interrupted);
      } else {
        TakenAfterAll(sim.oracle, from, early, calls, time, stops, written, when, period, maxtick, simTicks, interrupted, sim.calls, sim.time);
      }
      written', stops' := written + [sim.time], stops + [sim.calls];
    } else {
      NoneTaken(sim.oracle, from, early, calls, time, stops, written, when, period, maxtick, simTicks, interrupted, sim.calls, sim.time);
      written', stops' := written, stops;
    }
  }

  /** One turn of the loop. */
  method TakeOneMore(sim: Simulator, period: nat, simTicks: int, written: seq<int>, ghost from: nat, ghost early: bool,
                     ghost when: int, ghost maxCheckpoints: int, maxtick: int, ghost last: nat, ghost stops: seq<nat>, ghost interrupted: bool)
    returns (exitCause: Cause, written': seq<int>, ghost stops': seq<nat>, ghost interrupted': bool)
    requires forall k :: k >= last ==> sim.oracle(k).cause != CheckpointExit
    requires Taking(sim.oracle, from, early, sim.calls, sim.time, stops, written, when, period, maxtick, simTicks, true, interrupted)
    requires TakenSoFar(sim.oracle, stops, written, when, period, maxCheckpoints, maxtick)
    requires Standing(sim.oracle, stops, written, when, period, sim.calls, sim.time, true)
    requires simTicks + period <= maxtick && |written| < maxCheckpoints
    modifies sim
    ensures Taking(sim.oracle, from, early, sim.calls, sim.time, stops', written',
                   when, period, maxtick, simTicks + period, exitCause == LimitReached, interrupted')
    ensures TakenSoFar(sim.oracle, stops', written', when, period, maxCheckpoints, maxtick)
    ensures Standing(sim.oracle, stops', written', when, period, sim.calls, sim.time, exitCause == LimitReached)
    ensures |written| <= |written'| <= |written| + 1 && (exitCause == LimitReached ==> |written'| == |written| + 1)
  {
    ghost var calls, time := sim.calls, sim.time;
    exitCause, written', stops', interrupted' :=
      TakeNext(sim, period, simTicks, written, from, early, when, maxtick, last, stops, interrupted);
    assert Due(when, period, |written|) == simTicks + period;
    if PeriodTaken(sim.oracle, calls, time, period, simTicks + period) {
      AnotherTaken(sim.oracle, stops, written, when, period, maxCheckpoints, maxtick, calls, time, sim.calls, sim.time);
    }
  }

  /** Checkpoints at `when` and every `period` ticks after it. The first one is written if and
      only if its tick has not passed and the first exit that is no checkpoint exit is the
      limit; a later one if and only if it is wanted, the period before it ran to its end, and
      its own does, or is interrupted by checkpoint exits only. Draining before each one takes
      time, and nothing else makes one late: they are on schedule if and only if the drains
      before the requests `stops` take none. An uninterrupted run drains before every request
      but the first, writes all the checkpoints there are up to maxtick, and then runs on
      until maxtick, and as much longer as the drains took. */
  method ScriptCheckpoints(sim: Simulator, when: int, period: nat, maxCheckpoints: int, maxtick: int, ghost last: nat)
    returns (written: seq<int>, ghost stops: seq<nat>)
    requires forall k :: k >= last ==> sim.oracle(k).cause != CheckpointExit
    modifies sim
    ensures |written| >= 1 <==> old(sim.time) <= when && ThenTheLimit(sim.oracle, old(sim.calls))
    ensures TakenExactly(sim.oracle, stops, written, when, period, maxCheckpoints, maxtick)
    ensures LateByDrains(sim.oracle, stops, written, when, period) || LastCaughtUp(sim.oracle, stops, written, when, period)
    ensures OnSchedule(written, when, period) <==> NoneTakesTime(sim.oracle, stops)
    ensures DueBy(|written|, when, period, maxtick)
    ensures |written| <= if maxCheckpoints >= 1 then maxCheckpoints else 1
    ensures Uninterrupted(sim.oracle, old(sim.calls), sim.calls) && old(sim.time) <= when ==>
              && LateByDrains(sim.oracle, stops, written, when, period) && InARow(stops, old(sim.calls) + 1)
              && |written| >= 1
              && (|written| >= maxCheckpoints || Due(when, period, |written|) > maxtick)
              && (OnSchedule(written, when, period) <==> QuietFrom(sim.oracle, old(sim.calls) + 1, |written|))
              && (|written| < maxCheckpoints && when <= maxtick ==> sim.time == maxtick + Drains(sim.oracle, stops))
  {
    ghost var from, early := sim.calls, sim.time > when;
    ghost var interrupted;
    var exitCause;
    exitCause, written, stops, interrupted := TakeFirst(sim, when, period, maxtick, last);
    var simTicks := when;
    while |written| < maxCheckpoints && exitCause == LimitReached
      invariant |written| <= if maxCheckpoints >= 1 then maxCheckpoints else 1
      invariant |written| >= 1 <==> old(sim.time) <= when && ThenTheLimit(sim.oracle, old(sim.calls))
      invariant Taking(sim.oracle, from, early, sim.calls, sim.time, stops, written,
                       when, period, maxtick, simTicks, exitCause == LimitReached, interrupted)
      invariant TakenSoFar(sim.oracle, stops, written, when, period, maxCheckpoints, maxtick)
      invariant Standing(sim.oracle, stops, written, when, period, sim.calls, sim.time, exitCause == LimitReached)
      invariant when <= maxtick ==> simTicks <= maxtick
      decreases exitCause == LimitReached, maxCheckpoints - |written|
    {
      if simTicks + period > maxtick {
        ghost var calls := sim.calls;
        exitCause := sim.Simulate(maxtick - simTicks);
        if interrupted && !early {
          InterruptionStays(sim.oracle, from, calls, sim.calls);
        }
        break;
      }
      exitCause, written, stops, interrupted :=
        TakeOneMore(sim, period, simTicks, written, from, early, when, maxCheckpoints, maxtick, last, stops, interrupted);
      simTicks := simTicks + period;
    }
    OnScheduleExactly(sim.oracle, stops, written, when, period);
    if InARow(stops, from + 1) {
      QuietInARow(sim.oracle, stops, from + 1);
    }
  }

  /** A drain of one tick makes the only checkpoint one tick late. */
  method LateCheckpoint() returns (written: seq<int>)
    ensures written == [11] && Due(10, 5, 0) == 10
  {
    var sim := new Simulator(_ => Answer(LimitReached, 0, 1), 0);
    ghost var stops;
    written, stops := ScriptCheckpoints(sim, 10, 5, 1, 100, 0);
    assert |written| == 1;
    assert stops[..1] == stops && stops[..0] == [];
    assert Drains(sim.oracle, stops[..1]) == 1;
  }

  /** A checkpoint exit on the way does not keep the first checkpoint from being written. */
  method SkippedExit() returns (written: seq<int>)
    ensures written == [10]
  {
    var sim := new Simulator(k => if k == 0 then Answer(CheckpointExit, 3, 0) else Answer(LimitReached, 0, 0), 0);
    ghost var oracle := sim.oracle;
    assert SkipsTo(oracle, 0, 1);
    ghost var stops;
    written, stops := ScriptCheckpoints(sim, 10, 5, 1, 100, 1);
    assert |written| == 1;
    assert stops[..1] == stops && stops[..0] == [];
    assert Drains(oracle, stops[..1]) == 0 && Due(10, 5, 0) == 10;
  }
}
