/** Packets moving through a network of bounded first-in first-out channels, one channel
    per link, as a state machine. Nothing here knows about meshes: a fabric is any set of
    channels with a routing relation, and the theorems hold for every fabric whose
    channels can be ranked so that routing only ever climbs. */
module Network {
  import opened Options
  import opened Arithmetic

  datatype Packet = Packet(id: nat, dest: nat)

  /** `entry(c)`: controllers inject into channel c; `exit(c)`: the controller that
      channel c leads to, if any; `route(c, d, c')`: a packet for controller d at the head
      of channel c may be sent into channel c'. */
  datatype Fabric = Fabric(
    channels: nat,
    nodes: nat,
    capacity: nat -> nat,
    entry: nat -> bool,
    exit: nat -> Option<nat>,
    route: (nat, nat, nat) -> bool)

  /** `delivered` lists the packets handed over, each with the controller that got it. */
  datatype State = State(buffers: seq<seq<Packet>>, delivered: seq<(nat, Packet)>)

  datatype Step =
    | Inject(c: nat, p: Packet)
    | Forward(c: nat, to: nat)
    | Eject(c: nat)

  ghost predicate Enabled(f: Fabric, s: State, step: Step) {
    && |s.buffers| == f.channels
    && step.c < f.channels
    && match step
       case Inject(c, p) => f.entry(c) && p.dest < f.nodes && |s.buffers[c]| < f.capacity(c)
       case Forward(c, to) =>
         && to < f.channels
         && s.buffers[c] != []
         && f.exit(c).None?
         && f.route(c, s.buffers[c][0].dest, to)
         && |s.buffers[to]| < f.capacity(to)
       case Eject(c) => s.buffers[c] != [] && f.exit(c).Some?
  }

  ghost function Apply(f: Fabric, s: State, step: Step): State
    requires Enabled(f, s, step)
  {
    match step
    case Inject(c, p) => s.(buffers := s.buffers[c := s.buffers[c] + [p]])
    case Forward(c, to) =>
      var rest := s.buffers[c := s.buffers[c][1..]];
      s.(buffers := rest[to := rest[to] + [s.buffers[c][0]]])
    case Eject(c) =>
      State(s.buffers[c := s.buffers[c][1..]], s.delivered + [(f.exit(c).value, s.buffers[c][0])])
  }

  /** The state after performing `steps` in order; every step must be enabled. */
  ghost predicate Runs(f: Fabric, s: State, steps: seq<Step>, t: State)
    decreases |steps|
  {
    if steps == [] then s == t
    else Enabled(f, s, steps[0]) && Runs(f, Apply(f, s, steps[0]), steps[1..], t)
  }

  ghost function Quiet(f: Fabric): State {
    State(seq(f.channels, _ => []), [])
  }

  ghost predicate Reachable(f: Fabric, s: State) {
    exists steps :: Runs(f, Quiet(f), steps, s)
  }

  /** A certificate that routing climbs: the packets `legal` in a channel always have a
      next channel, every next channel keeps them legal and has a higher rank, and a
      channel that leaves the network leaves it at the packet's own destination. */
  datatype Ranking = Ranking(legal: (nat, nat) -> bool, rank: nat -> nat, top: nat)

  ghost predicate Climbs(f: Fabric, k: Ranking) {
    && (forall c :: 0 <= c < f.channels ==> k.rank(c) <= k.top && 1 <= f.capacity(c))
    && (forall c, d :: 0 <= c < f.channels && 0 <= d < f.nodes && f.entry(c) ==> k.legal(c, d))
    && (forall c, d :: 0 <= c < f.channels && 0 <= d < f.nodes && k.legal(c, d) ==> LeadsOn(f, c, d))
    && (forall c, d, to {:trigger f.route(c, d, to)} ::
          0 <= c < f.channels && 0 <= d < f.nodes && 0 <= to < f.channels && k.legal(c, d) && f.exit(c).None? && f.route(c, d, to)
          ==> k.legal(to, d) && k.rank(c) < k.rank(to))
  }

  ghost predicate LeadsOn(f: Fabric, c: nat, d: nat) {
    match f.exit(c)
    case Some(n) => n == d
    case None => exists to :: 0 <= to < f.channels && f.route(c, d, to)
  }

  ghost predicate BufferOk(f: Fabric, k: Ranking, c: nat, b: seq<Packet>) {
    && |b| <= f.capacity(c)
    && forall i :: 0 <= i < |b| ==> b[i].dest < f.nodes && k.legal(c, b[i].dest)
  }

  ghost predicate Inv(f: Fabric, k: Ranking, s: State) {
    && |s.buffers| == f.channels
    && (forall c :: 0 <= c < f.channels ==> BufferOk(f, k, c, s.buffers[c]))
    && (forall i :: 0 <= i < |s.delivered| ==> s.delivered[i].0 == s.delivered[i].1.dest)
  }

  lemma {:induction false} StepKeepsInv(f: Fabric, k: Ranking, s: State, step: Step)
    requires Climbs(f, k) && Inv(f, k, s) && Enabled(f, s, step)
    ensures Inv(f, k, Apply(f, s, step))
  {
    var t := Apply(f, s, step);
    assert BufferOk(f, k, step.c, s.buffers[step.c]);
    if step.Eject? {
      assert LeadsOn(f, step.c, s.buffers[step.c][0].dest);
    }
    forall c | 0 <= c < f.channels
      ensures BufferOk(f, k, c, t.buffers[c])
    {
      assert BufferOk(f, k, c, s.buffers[c]);
    }
  }

  lemma {:induction false} RunKeepsInv(f: Fabric, k: Ranking, s: State, steps: seq<Step>, t: State)
    requires Climbs(f, k) && Inv(f, k, s) && Runs(f, s, steps, t)
    ensures Inv(f, k, t)
    decreases |steps|
  {
    if steps != [] {
      StepKeepsInv(f, k, s, steps[0]);
      RunKeepsInv(f, k, Apply(f, s, steps[0]), steps[1..], t);
    }
  }

  /** In every reachable state each buffered packet is legal where it is, no channel
      overflows, and whatever was delivered went to its own destination. */
  lemma {:induction false} ReachableInv(f: Fabric, k: Ranking, s: State)
    requires Climbs(f, k) && Reachable(f, s)
    ensures Inv(f, k, s)
  {
    var steps :| Runs(f, Quiet(f), steps, s);
    RunKeepsInv(f, k, Quiet(f), steps, s);
  }

  ghost predicate Empty(s: State) {
    forall c :: 0 <= c < |s.buffers| ==> s.buffers[c] == []
  }

  ghost predicate Drain(step: Step) {
    !step.Inject?
  }

  ghost predicate CanMove(f: Fabric, s: State) {
    exists step :: Drain(step) && Enabled(f, s, step)
  }

  /** The non-empty channel of highest rank among the first n. */
  lemma {:induction false} HighestBusy(f: Fabric, k: Ranking, s: State, n: nat) returns (best: nat)
    requires |s.buffers| == f.channels && n <= f.channels
    requires exists c :: 0 <= c < n && s.buffers[c] != []
    ensures best < n && s.buffers[best] != []
    ensures forall c :: 0 <= c < n && s.buffers[c] != [] ==> k.rank(c) <= k.rank(best)
  {
    if exists c :: 0 <= c < n - 1 && s.buffers[c] != [] {
      best := HighestBusy(f, k, s, n - 1);
      if s.buffers[n - 1] != [] && k.rank(n - 1) > k.rank(best) {
        best := n - 1;
      }
    } else {
      best := n - 1;
    }
  }

  /** No deadlock: wherever packets are left, one of them can advance or leave, without
      any new packet being injected. */
  lemma {:induction false} Progress(f: Fabric, k: Ranking, s: State)
    requires Climbs(f, k) && Inv(f, k, s) && !Empty(s)
    ensures CanMove(f, s)
  {
    var c := HighestBusy(f, k, s, f.channels);
    var p := s.buffers[c][0];
    assert BufferOk(f, k, c, s.buffers[c]);
    assert LeadsOn(f, c, p.dest);
    if f.exit(c).Some? {
      assert Drain(Eject(c)) && Enabled(f, s, Eject(c));
    } else {
      var to :| 0 <= to < f.channels && f.route(c, p.dest, to);
      assert s.buffers[to] == [];
      assert Drain(Forward(c, to)) && Enabled(f, s, Forward(c, to));
    }
  }

  lemma {:induction false} ReachableProgress(f: Fabric, k: Ranking, s: State)
    requires Climbs(f, k) && Reachable(f, s) && !Empty(s)
    ensures CanMove(f, s)
  {
    ReachableInv(f, k, s);
    Progress(f, k, s);
  }

  // How much is left to do: every packet may still climb from its channel's rank to the top.

  ghost function Climb(k: Ranking, c: nat): nat {
    if k.rank(c) <= k.top then k.top + 1 - k.rank(c) else 0
  }

  ghost function Work(k: Ranking, buffers: seq<seq<Packet>>): nat {
    if buffers == [] then 0
    else |buffers[|buffers| - 1]| * Climb(k, |buffers| - 1) + Work(k, buffers[..|buffers| - 1])
  }

  lemma {:induction false} WorkUpdate(k: Ranking, buffers: seq<seq<Packet>>, c: nat, b: seq<Packet>)
    requires c < |buffers|
    ensures Work(k, buffers[c := b]) == Work(k, buffers) - |buffers[c]| * Climb(k, c) + |b| * Climb(k, c)
  {
    var n := |buffers| - 1;
    if c == n {
      assert buffers[c := b][..n] == buffers[..n];
    } else {
      assert buffers[c := b][..n] == buffers[..n][c := b];
      WorkUpdate(k, buffers[..n], c, b);
    }
  }

  /** Every draining step takes some of the remaining work away. */
  lemma {:induction false} DrainReducesWork(f: Fabric, k: Ranking, s: State, step: Step)
    requires Climbs(f, k) && Inv(f, k, s) && Enabled(f, s, step) && Drain(step)
    ensures Work(k, Apply(f, s, step).buffers) < Work(k, s.buffers)
  {
    var b := s.buffers[step.c];
    assert BufferOk(f, k, step.c, b);
    var rest := s.buffers[step.c := b[1..]];
    WorkUpdate(k, s.buffers, step.c, b[1..]);
    OneMore(|b| - 1, Climb(k, step.c));
    if step.Forward? {
      assert k.rank(step.c) < k.rank(step.to);
      WorkUpdate(k, rest, step.to, rest[step.to] + [b[0]]);
      OneMore(|rest[step.to]|, Climb(k, step.to));
    }
  }

  ghost predicate Draining(steps: seq<Step>) {
    forall i :: 0 <= i < |steps| ==> Drain(steps[i])
  }

  /** No livelock: a run without injections is no longer than the work that was left, and
      where it cannot be continued every packet has left the network. */
  lemma {:induction false} DrainingRun(f: Fabric, k: Ranking, s: State, steps: seq<Step>, t: State)
    requires Climbs(f, k) && Inv(f, k, s) && Runs(f, s, steps, t) && Draining(steps)
    ensures |steps| + Work(k, t.buffers) <= Work(k, s.buffers)
    ensures !CanMove(f, t) ==> Empty(t)
    decreases |steps|
  {
    if steps == [] {
      if !Empty(t) {
        Progress(f, k, t);
      }
    } else {
      assert Drain(steps[0]);
      StepKeepsInv(f, k, s, steps[0]);
      DrainReducesWork(f, k, s, steps[0]);
      assert forall i :: 0 <= i < |steps[1..]| ==> steps[1..][i] == steps[i + 1];
      DrainingRun(f, k, Apply(f, s, steps[0]), steps[1..], t);
    }
  }

  // Conservation.

  ghost function Queued(buffers: seq<seq<Packet>>): multiset<Packet> {
    if buffers == [] then multiset{}
    else multiset(buffers[|buffers| - 1]) + Queued(buffers[..|buffers| - 1])
  }

  ghost function HandedOver(delivered: seq<(nat, Packet)>): multiset<Packet> {
    multiset(seq(|delivered|, i requires 0 <= i < |delivered| => delivered[i].1))
  }

  ghost function Injected(steps: seq<Step>): multiset<Packet> {
    if steps == [] then multiset{}
    else (if steps[0].Inject? then multiset{steps[0].p} else multiset{}) + Injected(steps[1..])
  }

  lemma {:induction false} QueuedUpdate(buffers: seq<seq<Packet>>, c: nat, b: seq<Packet>)
    requires c < |buffers|
    ensures Queued(buffers[c := b]) + multiset(buffers[c]) == Queued(buffers) + multiset(b)
  {
    var n := |buffers| - 1;
    if c == n {
      assert buffers[c := b][..n] == buffers[..n];
    } else {
      var most, last := buffers[..n], multiset(buffers[n]);
      assert buffers[c := b][..n] == most[c := b];
      QueuedUpdate(most, c, b);
      calc {
        Queued(buffers[c := b]) + multiset(buffers[c]);
        (last + Queued(most[c := b])) + multiset(buffers[c]);
        last + (Queued(most[c := b]) + multiset(buffers[c]));
        last + (Queued(most) + multiset(b));
        Queued(buffers) + multiset(b);
      }
    }
  }

  lemma {:induction false} Cancel(a: multiset<Packet>, b: multiset<Packet>, c: multiset<Packet>)
    requires a + c == b + c
    ensures a == b
  {
    assert a == (a + c) - c;
    assert b == (b + c) - c;
  }

  lemma {:induction false} QueuedAppend(buffers: seq<seq<Packet>>, c: nat, p: Packet)
    requires c < |buffers|
    ensures Queued(buffers[c := buffers[c] + [p]]) == Queued(buffers) + multiset{p}
  {
    QueuedUpdate(buffers, c, buffers[c] + [p]);
    Cancel(Queued(buffers[c := buffers[c] + [p]]), Queued(buffers) + multiset{p}, multiset(buffers[c]));
  }

  lemma {:induction false} QueuedPop(buffers: seq<seq<Packet>>, c: nat)
    requires c < |buffers| && buffers[c] != []
    ensures Queued(buffers[c := buffers[c][1..]]) + multiset{buffers[c][0]} == Queued(buffers)
  {
    var b := buffers[c];
    assert b == [b[0]] + b[1..];
    QueuedUpdate(buffers, c, b[1..]);
    Cancel(Queued(buffers[c := b[1..]]) + multiset{b[0]}, Queued(buffers), multiset(b[1..]));
  }

  lemma {:induction false} StepConserves(f: Fabric, s: State, step: Step)
    requires Enabled(f, s, step)
    ensures var t := Apply(f, s, step);
            Queued(t.buffers) + HandedOver(t.delivered)
            == Queued(s.buffers) + HandedOver(s.delivered) + Injected([step])
  {
    assert [step][1..] == [];
    match step
    case Inject(c, p) =>
      QueuedAppend(s.buffers, c, p);
    case Forward(c, to) =>
      QueuedPop(s.buffers, c);
      QueuedAppend(s.buffers[c := s.buffers[c][1..]], to, s.buffers[c][0]);
    case Eject(c) =>
      QueuedPop(s.buffers, c);
      HandedOverAppend(s.delivered, (f.exit(c).value, s.buffers[c][0]));
  }

  lemma {:induction false} HandedOverAppend(delivered: seq<(nat, Packet)>, last: (nat, Packet))
    ensures HandedOver(delivered + [last]) == HandedOver(delivered) + multiset{last.1}
  {
    var more := delivered + [last];
    assert seq(|more|, i requires 0 <= i < |more| => more[i].1)
        == seq(|delivered|, i requires 0 <= i < |delivered| => delivered[i].1) + [last.1];
  }

  /** Packets are neither lost nor invented: along every run, those buffered and those
      handed over are together exactly those there were plus those injected. */
  lemma {:induction false} RunConserves(f: Fabric, s: State, steps: seq<Step>, t: State)
    requires Runs(f, s, steps, t)
    ensures Queued(t.buffers) + HandedOver(t.delivered) == Queued(s.buffers) + HandedOver(s.delivered) + Injected(steps)
    decreases |steps|
  {
    if steps != [] {
      StepConserves(f, s, steps[0]);
      RunConserves(f, Apply(f, s, steps[0]), steps[1..], t);
      assert Injected([steps[0]][1..]) == multiset{};
    }
  }

  lemma {:induction false} EmptyQueued(buffers: seq<seq<Packet>>)
    requires forall c :: 0 <= c < |buffers| ==> buffers[c] == []
    ensures Queued(buffers) == multiset{}
  {
    if buffers != [] {
      EmptyQueued(buffers[..|buffers| - 1]);
    }
  }

  /** The whole guarantee: whatever was injected up to a reachable state, and however the
      network is then left to drain, it stops after boundedly many steps, and when it has
      stopped every packet injected was delivered, exactly once, to its own destination. */
  lemma {:induction false} EverythingArrives(f: Fabric, k: Ranking, past: seq<Step>, s: State, steps: seq<Step>, t: State)
    requires Climbs(f, k)
    requires Runs(f, Quiet(f), past, s) && Runs(f, s, steps, t) && Draining(steps)
    ensures |steps| <= Work(k, s.buffers)
    ensures !CanMove(f, t) ==> Empty(t) && HandedOver(t.delivered) == Injected(past)
    ensures forall i :: 0 <= i < |t.delivered| ==> t.delivered[i].0 == t.delivered[i].1.dest
  {
    RunKeepsInv(f, k, Quiet(f), past, s);
    RunKeepsInv(f, k, s, steps, t);
    DrainingRun(f, k, s, steps, t);
    if Empty(t) {
      DrainedIsDelivered(f, past, s, steps, t);
    }
  }

  lemma {:induction false} DrainedIsDelivered(f: Fabric, past: seq<Step>, s: State, steps: seq<Step>, t: State)
    requires Runs(f, Quiet(f), past, s) && Runs(f, s, steps, t) && Draining(steps) && Empty(t)
    ensures HandedOver(t.delivered) == Injected(past)
  {
    assert Queued(s.buffers) + HandedOver(s.delivered) == Injected(past) by {
      RunConserves(f, Quiet(f), past, s);
      EmptyQueued(Quiet(f).buffers);
    }
    assert Queued(t.buffers) + HandedOver(t.delivered) == Queued(s.buffers) + HandedOver(s.delivered) by {
      RunConserves(f, s, steps, t);
      DrainingInjectsNothing(steps);
    }
    EmptyQueued(t.buffers);
  }

  lemma {:induction false} DrainingInjectsNothing(steps: seq<Step>)
    requires Draining(steps)
    ensures Injected(steps) == multiset{}
  {
    if steps != [] {
      assert Drain(steps[0]);
      assert forall i :: 0 <= i < |steps[1..]| ==> steps[1..][i] == steps[i + 1];
      DrainingInjectsNothing(steps[1..]);
    }
  }

  /** A packet that cannot be routed on from where it is injected is stuck there at once. */
  lemma {:induction false} StuckAtOnce(f: Fabric, c: nat, p: Packet) returns (s: State)
    requires c < f.channels && f.entry(c) && f.capacity(c) >= 1 && f.exit(c).None? && p.dest < f.nodes
    requires forall to: nat :: to < f.channels ==> !f.route(c, p.dest, to)
    ensures Reachable(f, s) && !Empty(s) && !CanMove(f, s)
  {
    var step := Inject(c, p);
    assert Quiet(f).buffers[c] == [];
    s := Apply(f, Quiet(f), step);
    assert Runs(f, s, [step][1..], s);
    assert Runs(f, Quiet(f), [step], s);
    assert s.buffers[c] == [p];
    assert forall b :: 0 <= b < f.channels && b != c ==> s.buffers[b] == [];
  }
}
