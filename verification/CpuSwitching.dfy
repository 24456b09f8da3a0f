/** Switching back and forth between two sets of CPUs. */
module CpuSwitching {
  import opened SimulationControl

  ghost function Olds(pairs: seq<(nat, nat)>): set<nat> {
    set k | 0 <= k < |pairs| :: pairs[k].0
  }

  ghost function News(pairs: seq<(nat, nat)>): set<nat> {
    set k | 0 <= k < |pairs| :: pairs[k].1
  }

  /** What the list is checked for: every old CPU active, no new one. */
  ghost predicate Acceptable(pairs: seq<(nat, nat)>, active: set<nat>) {
    pairs != [] && forall k :: 0 <= k < |pairs| ==> pairs[k].0 in active && pairs[k].1 !in active
  }

  /** No CPU is to be switched out or to take over twice. */
  ghost predicate DistinctCpus(pairs: seq<(nat, nat)>) {
    forall j, k :: 0 <= j < k < |pairs| ==> pairs[j].0 != pairs[k].0 && pairs[j].1 != pairs[k].1
  }

  ghost predicate Switchable(pairs: seq<(nat, nat)>, active: set<nat>) {
    Acceptable(pairs, active) && DistinctCpus(pairs)
  }

  ghost predicate Handed(pairs: seq<(nat, nat)>, before: set<nat>, after: set<nat>) {
    after == before - Olds(pairs) + News(pairs)
  }

  /** Rejected by the checks, or aborted by an assertion of the simulator on the way. */
  datatype Outcome = Switched | Rejected | Aborted

  /** Checks the list, drains, and hands over. */
  method SwitchCpus(sim: Simulator, pairs: seq<(nat, nat)>, active: set<nat>) returns (r: Outcome, after: set<nat>)
    modifies sim`time, sim`drained
    ensures r == Rejected <==> !Acceptable(pairs, active)
    ensures r == Aborted <==> Acceptable(pairs, active) && !DistinctCpus(pairs)
    ensures r == Switched ==> Handed(pairs, active, after)
    ensures r == Rejected ==> after == active && sim.time == old(sim.time) && sim.drained == old(sim.drained)
    ensures r != Rejected ==> sim.time == old(sim.time) + sim.oracle(sim.calls).drain
    ensures sim.time - old(sim.time) == sim.drained - old(sim.drained)
  {
    after := active;
    if pairs == [] {
      return Rejected, active;
    }
    for k := 0 to |pairs|
      invariant forall j :: 0 <= j < k ==> pairs[j].0 in active && pairs[j].1 !in active
      invariant sim.time == old(sim.time) && sim.drained == old(sim.drained)
    {
      if pairs[k].1 in active || pairs[k].0 !in active {
        return Rejected, active;
      }
    }
    sim.Drain();
    var ok;
    ok, after := SwitchOut(pairs, active);
    if !ok {
      return Aborted, after;
    }
    OutAreOut(pairs, active);
    ok, after := TakeOver(pairs, after);
    r := if ok then Switched else Aborted;
  }

  lemma {:induction false} OutAreOut(pairs: seq<(nat, nat)>, active: set<nat>)
    requires Acceptable(pairs, active)
    ensures forall k :: 0 <= k < |pairs| ==> pairs[k].1 !in active - Olds(pairs)
  {
  }

  /** Fails at a CPU that is out already. */
  method SwitchOut(pairs: seq<(nat, nat)>, active: set<nat>) returns (ok: bool, after: set<nat>)
    requires forall k :: 0 <= k < |pairs| ==> pairs[k].0 in active
    ensures ok <==> forall j, k :: 0 <= j < k < |pairs| ==> pairs[j].0 != pairs[k].0
    ensures ok ==> after == active - Olds(pairs)
  {
    after := active;
    for k := 0 to |pairs|
      invariant after == active - Olds(pairs[..k])
      invariant forall i, j :: 0 <= i < j < k ==> pairs[i].0 != pairs[j].0
    {
      if pairs[k].0 !in after {
        assert pairs[k].0 in Olds(pairs[..k]);
        var j :| 0 <= j < k && pairs[..k][j].0 == pairs[k].0;
        return false, after;
      }
      assert forall j :: 0 <= j < k ==> pairs[..k][j].0 in Olds(pairs[..k]);
      assert forall j :: 0 <= j < k ==> pairs[j] == pairs[..k][j];
      after := after - {pairs[k].0};
      OldsNext(pairs, k);
    }
    assert pairs[..|pairs|] == pairs;
    ok := true;
  }

  lemma {:induction false} OldsNext(pairs: seq<(nat, nat)>, k: nat)
    requires k < |pairs|
    ensures Olds(pairs[..k + 1]) == Olds(pairs[..k]) + {pairs[k].0}
    ensures News(pairs[..k + 1]) == News(pairs[..k]) + {pairs[k].1}
  {
    assert pairs[..k + 1][k].0 in Olds(pairs[..k + 1]) && pairs[..k + 1][k].1 in News(pairs[..k + 1]);
    assert forall j :: 0 <= j < k ==> pairs[..k + 1][j] == pairs[..k][j];
  }

  /** Fails at a CPU that is in already. */
  method TakeOver(pairs: seq<(nat, nat)>, active: set<nat>) returns (ok: bool, after: set<nat>)
    requires forall k :: 0 <= k < |pairs| ==> pairs[k].1 !in active
    ensures ok <==> forall j, k :: 0 <= j < k < |pairs| ==> pairs[j].1 != pairs[k].1
    ensures ok ==> after == active + News(pairs)
  {
    after := active;
    for k := 0 to |pairs|
      invariant after == active + News(pairs[..k])
      invariant forall i, j :: 0 <= i < j < k ==> pairs[i].1 != pairs[j].1
    {
      if pairs[k].1 in after {
        assert pairs[k].1 in News(pairs[..k]);
        var j :| 0 <= j < k && pairs[..k][j].1 == pairs[k].1;
        return false, after;
      }
      assert forall j :: 0 <= j < k ==> pairs[..k][j].1 in News(pairs[..k]);
      assert forall j :: 0 <= j < k ==> pairs[j] == pairs[..k][j];
      after := after + {pairs[k].1};
      OldsNext(pairs, k);
    }
    assert pairs[..|pairs|] == pairs;
    ok := true;
  }

  function Swapped(pairs: seq<(nat, nat)>): (r: seq<(nat, nat)>)
    ensures |r| == |pairs|
  {
    seq(|pairs|, k requires 0 <= k < |pairs| => (pairs[k].1, pairs[k].0))
  }

  lemma {:induction false} SwappedSides(pairs: seq<(nat, nat)>)
    ensures Olds(Swapped(pairs)) == News(pairs) && News(Swapped(pairs)) == Olds(pairs)
    ensures Swapped(Swapped(pairs)) == pairs
  {
    var swapped := Swapped(pairs);
    assert forall k :: 0 <= k < |pairs| ==> swapped[k].0 == pairs[k].1 && swapped[k].1 == pairs[k].0;
    forall c
      ensures c in Olds(swapped) <==> c in News(pairs)
      ensures c in News(swapped) <==> c in Olds(pairs)
    {
    }
    assert forall k :: 0 <= k < |pairs| ==> Swapped(swapped)[k] == (pairs[k].0, pairs[k].1);
  }

  lemma {:induction false} SwitchableSides(pairs: seq<(nat, nat)>, active: set<nat>)
    ensures Acceptable(pairs, active) <==> pairs != [] && Olds(pairs) <= active && News(pairs) !! active
  {
    if pairs != [] && Olds(pairs) <= active && News(pairs) !! active {
      forall k | 0 <= k < |pairs|
        ensures pairs[k].0 in active && pairs[k].1 !in active
      {
        assert pairs[k].0 in Olds(pairs) && pairs[k].1 in News(pairs);
      }
    }
  }

  /** Handing over makes the swapped list switchable, and handing it over in turn restores
      the CPUs that were active. */
  lemma {:induction false} HandedBack(pairs: seq<(nat, nat)>, before: set<nat>, after: set<nat>)
    requires Switchable(pairs, before) && Handed(pairs, before, after)
    ensures Switchable(Swapped(pairs), after) && Handed(Swapped(pairs), after, before)
    ensures Swapped(Swapped(pairs)) == pairs
  {
    SwappedSides(pairs);
    SwitchableSides(pairs, before);
    SwitchableSides(Swapped(pairs), after);
  }

  /** After any number of switches: the first set is active, or it was handed over. */
  ghost predicate Alternates(pairs: seq<(nat, nat)>, active: set<nat>, swapped: bool, pairs': seq<(nat, nat)>, active': set<nat>) {
    && Switchable(pairs', active')
    && if swapped then pairs' == Swapped(pairs) && Handed(pairs, active, active')
       else pairs' == pairs && active' == active
  }

  /** Either the first CPUs of all pairs are active, or they were handed over. */
  ghost predicate TookTurns(pairs: seq<(nat, nat)>, active: set<nat>, swapped: bool, active': set<nat>) {
    exists now :: Alternates(pairs, active, swapped, now, active')
  }

  lemma {:induction false} AlternatesNext(pairs: seq<(nat, nat)>, active: set<nat>, swapped: bool,
                                          pairs': seq<(nat, nat)>, active': set<nat>, after: set<nat>)
    requires Switchable(pairs, active) && Alternates(pairs, active, swapped, pairs', active') && Handed(pairs', active', after)
    ensures Alternates(pairs, active, !swapped, Swapped(pairs'), after)
  {
    HandedBack(pairs', active', after);
    if swapped {
      TwiceIsNone(pairs, active, active', after);
    }
  }

  lemma {:induction false} TwiceIsNone(pairs: seq<(nat, nat)>, active: set<nat>, once: set<nat>, twice: set<nat>)
    requires Switchable(pairs, active) && Handed(pairs, active, once) && Handed(Swapped(pairs), once, twice)
    ensures twice == active && Swapped(Swapped(pairs)) == pairs
  {
    HandedBack(pairs, active, once);
  }

  /** At all times exactly one CPU of each pair is active. */
  lemma {:induction false} OneOfEachPair(pairs: seq<(nat, nat)>, active: set<nat>, swapped: bool, active': set<nat>, k: nat)
    requires TookTurns(pairs, active, swapped, active') && k < |pairs|
    ensures pairs[k].0 in active' <==> !swapped
    ensures pairs[k].1 in active' <==> swapped
  {
    var now: seq<(nat, nat)> :| Alternates(pairs, active, swapped, now, active');
    assert now[k].0 in active' && now[k].1 !in active';
  }

  /** When switch k is over, if every stretch was run to its end: the draining adds up. */
  ghost function SwitchTick(oracle: nat -> Answer, from: nat, start: int, switchFreq: nat, k: nat): int {
    if k == 0 then start
    else SwitchTick(oracle, from, start, switchFreq, k - 1) + switchFreq + oracle(from + k).drain
  }

  /** Before switch k there was a whole stretch left, for every k below n. */
  ghost predicate StretchLeft(oracle: nat -> Answer, from: nat, start: int, switchFreq: nat, maxtick: int, n: nat) {
    forall k: nat :: k < n ==> SwitchTick(oracle, from, start, switchFreq, k) + switchFreq <= maxtick
  }

  /** The stretch after switch n is the last one. */
  ghost predicate LastStretch(oracle: nat -> Answer, from: nat, start: int, switchFreq: nat, maxtick: int, n: nat) {
    && n >= 1 && SwitchTick(oracle, from, start, switchFreq, n) + switchFreq >= maxtick
    && forall k: nat :: 1 <= k < n ==> SwitchTick(oracle, from, start, switchFreq, k) + switchFreq < maxtick
  }

  /** The CPUs that were active after each number of switches. */
  ghost predicate TurnsTaken(pairs: seq<(nat, nat)>, active: set<nat>, history: seq<set<nat>>) {
    forall k :: 0 <= k < |history| ==> TookTurns(pairs, active, k % 2 == 1, history[k])
  }

  /** The list to switch with next, after as many switches as the history has. */
  ghost predicate Turning(pairs: seq<(nat, nat)>, active: set<nat>, history: seq<set<nat>>, list: seq<(nat, nat)>, now: set<nat>, n: nat) {
    && |history| == n + 1 && history[n] == now && TurnsTaken(pairs, active, history)
    && Alternates(pairs, active, n % 2 == 1, list, now)
  }

  lemma {:induction false} FirstTurn(pairs: seq<(nat, nat)>, active: set<nat>)
    requires Switchable(pairs, active)
    ensures Turning(pairs, active, [active], pairs, active, 0)
  {
    assert Alternates(pairs, active, false, pairs, active);
  }

  lemma {:induction false} NextTurn(pairs: seq<(nat, nat)>, active: set<nat>, history: seq<set<nat>>, list: seq<(nat, nat)>, now: set<nat>, n: nat,
                                    after: set<nat>)
    requires Switchable(pairs, active) && Turning(pairs, active, history, list, now, n) && Handed(list, now, after)
    ensures Turning(pairs, active, history + [after], Swapped(list), after, n + 1)
  {
    AlternatesNext(pairs, active, n % 2 == 1, list, now, after);
    var swapped := (n + 1) % 2 == 1;
    assert swapped == !(n % 2 == 1);
    TurnAdded(pairs, active, history, Swapped(list), after, swapped);
  }

  lemma {:induction false} TurnAdded(pairs: seq<(nat, nat)>, active: set<nat>, history: seq<set<nat>>, list: seq<(nat, nat)>, after: set<nat>, swapped: bool)
    requires TurnsTaken(pairs, active, history) && Alternates(pairs, active, swapped, list, after)
    requires swapped == (|history| % 2 == 1)
    ensures TurnsTaken(pairs, active, history + [after])
  {
    var all := history + [after];
    assert TookTurns(pairs, active, swapped, after);
    forall k | 0 <= k < |all|
      ensures TookTurns(pairs, active, k % 2 == 1, all[k])
    {
      if k < |history| {
        assert all[k] == history[k];
      }
    }
  }

  /** No request reaches beyond maxtick. */
  ghost predicate Within(requests: seq<(int, int)>, maxtick: int) {
    forall k :: 0 <= k < |requests| ==> requests[k].0 + requests[k].1 <= maxtick
  }

  /** The first stretch is asked for in any case; if it fits, so do all others. */
  ghost predicate Asked(requests: seq<(int, int)>, start: int, switchFreq: nat, maxtick: int) {
    && (requests != [] ==> requests[0] == (start, switchFreq))
    && (start + switchFreq <= maxtick ==> Within(requests, maxtick))
  }

  lemma {:induction false} AskedNext(requests: seq<(int, int)>, start: int, switchFreq: nat, maxtick: int, time: int, n: int)
    requires Asked(requests, start, switchFreq, maxtick)
    requires if requests == [] then (time, n) == (start, switchFreq) else time + n <= maxtick
    ensures Asked(requests + [(time, n)], start, switchFreq, maxtick)
    ensures Within(requests + [(time, n)], maxtick) <==> start + switchFreq <= maxtick
  {
    var all := requests + [(time, n)];
    assert all[0] == (start, switchFreq);
    assert start + switchFreq <= maxtick ==> time + n <= maxtick;
  }

  /** The n-th switch is over, and a whole stretch is left. */
  ghost predicate Between(oracle: nat -> Answer, from: nat, start: int, switchFreq: nat, maxtick: int, n: nat, time: int) {
    && time == SwitchTick(oracle, from, start, switchFreq, n)
    && (start + switchFreq <= maxtick ==> StretchLeft(oracle, from, start, switchFreq, maxtick, n))
    && forall k: nat :: 1 <= k <= n ==> SwitchTick(oracle, from, start, switchFreq, k) + switchFreq < maxtick
  }

  lemma {:induction false} AnotherSwitch(oracle: nat -> Answer, from: nat, start: int, switchFreq: nat, maxtick: int, n: nat, time: int, time': int)
    requires Between(oracle, from, start, switchFreq, maxtick, n, time)
    requires time' == time + switchFreq + oracle(from + n + 1).drain
    ensures time' == SwitchTick(oracle, from, start, switchFreq, n + 1)
    ensures start + switchFreq <= maxtick ==> StretchLeft(oracle, from, start, switchFreq, maxtick, n + 1)
    ensures if time' + switchFreq < maxtick then Between(oracle, from, start, switchFreq, maxtick, n + 1, time')
            else LastStretch(oracle, from, start, switchFreq, maxtick, n + 1)
  {
    assert SwitchTick(oracle, from, start, switchFreq, n) == time;
    assert SwitchTick(oracle, from, start, switchFreq, n + 1) == time';
  }

  /** Once there was room for the first stretch, time passes maxtick if and only if draining
      for the last switch takes it there. */
  ghost predicate PassesExactly(oracle: nat -> Answer, from: nat, start: int, switchFreq: nat, maxtick: int, n: nat, time: int) {
    start + switchFreq <= maxtick ==>
      && StretchLeft(oracle, from, start, switchFreq, maxtick, n)
      && (time > maxtick <==> SwitchTick(oracle, from, start, switchFreq, n) > maxtick)
  }

  lemma {:induction false} EndsEarly(oracle: nat -> Answer, from: nat, start: int, switchFreq: nat, maxtick: int, n: nat, time: int, end: int)
    requires Between(oracle, from, start, switchFreq, maxtick, n, time) && time <= end <= time + switchFreq
    ensures PassesExactly(oracle, from, start, switchFreq, maxtick, n, end)
  {
    if n > 0 {
      assert SwitchTick(oracle, from, start, switchFreq, n) + switchFreq < maxtick;
    } else {
      assert SwitchTick(oracle, from, start, switchFreq, 0) == start;
    }
  }

  function Later(a: int, b: int): int {
    if a < b then b else a
  }

  ghost predicate NeverInterrupted(oracle: nat -> Answer) {
    forall c: nat :: oracle(c).cause == LimitReached
  }

  /** An uninterrupted run ends at maxtick, or with the last switch when that is later. */
  ghost predicate EndsOnTime(oracle: nat -> Answer, from: nat, start: int, switchFreq: nat, maxtick: int, n: nat, time: int) {
    NeverInterrupted(oracle) ==>
      && LastStretch(oracle, from, start, switchFreq, maxtick, n)
      && time == Later(maxtick, SwitchTick(oracle, from, start, switchFreq, n))
  }

  lemma {:induction false} WasInterrupted(oracle: nat -> Answer, c: nat)
    requires oracle(c).cause != LimitReached
    ensures !NeverInterrupted(oracle)
  {
  }

  lemma {:induction false} EndsLast(oracle: nat -> Answer, from: nat, start: int, switchFreq: nat, maxtick: int, n: nat,
                                    calls: nat, time: int, end: int)
    requires time == SwitchTick(oracle, from, start, switchFreq, n) && LastStretch(oracle, from, start, switchFreq, maxtick, n)
    requires start + switchFreq <= maxtick ==> StretchLeft(oracle, from, start, switchFreq, maxtick, n)
    requires end == time + if maxtick < time then 0 else Elapsed(oracle(calls), maxtick - time)
    ensures PassesExactly(oracle, from, start, switchFreq, maxtick, n, end) && EndsOnTime(oracle, from, start, switchFreq, maxtick, n, end)
  {
  }

  /** Runs one stretch, and switches if nothing came in between. */
  method Stretch(sim: Simulator, list: seq<(nat, nat)>, active: set<nat>, switchFreq: nat) returns (cause: Cause, r: Outcome, after: set<nat>)
    requires Switchable(list, active)
    modifies sim
    ensures sim.calls == old(sim.calls) + 1
    ensures cause != LimitReached ==>
              sim.oracle(old(sim.calls)).cause != LimitReached && old(sim.time) <= sim.time <= old(sim.time) + switchFreq
    ensures cause == LimitReached ==>
              && r == Switched && Handed(list, active, after)
              && sim.time == old(sim.time) + switchFreq + sim.oracle(old(sim.calls) + 1).drain
  {
    cause := sim.Simulate(switchFreq);
    if cause != LimitReached {
      return cause, Switched, active;
    }
    r, after := SwitchCpus(sim, list, active);
  }

  /** Switches after every switchFreq ticks until the last stretch. No switch is ever
      rejected: the two CPUs of every pair take turns. The loop ends on every oracle, and it
      asks for no tick beyond maxtick if and only if there was room for the first stretch.
      Then time still passes maxtick if and only if draining for the last switch does. An
      uninterrupted run ends at maxtick, or with the last switch when that is later. */
  method RepeatSwitch(sim: Simulator, pairs: seq<(nat, nat)>, active: set<nat>, maxtick: int, switchFreq: nat)
    returns (switches: nat, after: set<nat>, rejected: bool, requests: seq<(int, int)>, ghost history: seq<set<nat>>)
    requires Switchable(pairs, active) && switchFreq >= 1
    modifies sim
    ensures !rejected && |history| == switches + 1 && history[switches] == after && TurnsTaken(pairs, active, history)
    ensures Within(requests, maxtick) <==> old(sim.time) + switchFreq <= maxtick
    ensures PassesExactly(sim.oracle, old(sim.calls), old(sim.time), switchFreq, maxtick, switches, sim.time)
    ensures EndsOnTime(sim.oracle, old(sim.calls), old(sim.time), switchFreq, maxtick, switches, sim.time)
  {
    var list := pairs;
    ghost var from, start := sim.calls, sim.time;
    switches, after, rejected, requests := 0, active, false, [];
    history := [active];
    FirstTurn(pairs, active);
    while true
      invariant Turning(pairs, active, history, list, after, switches)
      invariant requests == [] <==> switches == 0
      invariant Asked(requests, start, switchFreq, maxtick)
      invariant sim.calls == from + switches && Between(sim.oracle, from, start, switchFreq, maxtick, switches, sim.time)
      decreases if maxtick >= sim.time then maxtick - sim.time else 0, requests == []
    {
      ghost var time := sim.time;
      AskedNext(requests, start, switchFreq, maxtick, time, switchFreq);
      requests := requests + [(sim.time, switchFreq)];
      var cause, outcome, handed := Stretch(sim, list, after, switchFreq);
      if cause != LimitReached {
        EndsEarly(sim.oracle, from, start, switchFreq, maxtick, switches, time, sim.time);
        WasInterrupted(sim.oracle, sim.calls - 1);
        return;
      }
      if outcome != Switched {
        rejected := true;
        return;
      }
      NextTurn(pairs, active, history, list, after, switches, handed);
      AnotherSwitch(sim.oracle, from, start, switchFreq, maxtick, switches, time, sim.time);
      switches, after, list, history := switches + 1, handed, Swapped(list), history + [handed];
      if maxtick - sim.time <= switchFreq {
        AskedNext(requests, start, switchFreq, maxtick, sim.time, maxtick - sim.time);
        requests := requests + [(sim.time, maxtick - sim.time)];
        ghost var calls, before := sim.calls, sim.time;
        cause := sim.Simulate(maxtick - sim.time);
        EndsLast(sim.oracle, from, start, switchFreq, maxtick, switches, calls, before, sim.time);
        return;
      }
    }
  }

  /** A drain of five ticks takes a run that is to stop at tick 10 beyond it. */
  method PassesMaxtick() returns (end: int)
    ensures end > 10
  {
    var sim := new Simulator(_ => Answer(LimitReached, 0, 5), 0);
    ghost var oracle := sim.oracle;
    var switches, after, rejected, requests;
    ghost var history;
    assert SwitchTick(oracle, 0, 0, 10, 0) == 0 && SwitchTick(oracle, 0, 0, 10, 1) == 15;
    switches, after, rejected, requests, history := RepeatSwitch(sim, [(0, 1)], {0}, 10, 10);
    assert switches == 1;
    end := sim.time;
  }
}
