/** The sequencers of a CPU and GPU system: the order in which they are listed when they are
    built, and the running index that a separate script uses to wire them up. */
module GpuWiring {
  import opened Arithmetic

  /** Two per pair of CPU cores, one per compute unit, shared instruction and scalar caches,
      and two per command processor. */
  datatype Sequencer =
    | Core(pair: nat, second: bool)
    | Tcp(unit: nat)
    | Sqc(index: nat)
    | Scalar(index: nat)
    | CommandTcp(processor: nat)
    | CommandSqc(processor: nat)

  datatype Counts = Counts(cpus: nat, units: nat, sqcs: nat, scalars: nat, processors: nat)

  function Pairs(n: Counts): nat {
    (n.cpus + 1) / 2
  }

  function Total(n: Counts): nat {
    2 * Pairs(n) + n.units + n.sqcs + n.scalars + 2 * n.processors
  }

  /** Which sequencer stands where. */
  ghost predicate Listed(list: seq<Sequencer>, n: Counts) {
    var cores := 2 * Pairs(n);
    && |list| == Total(n)
    && n.cpus <= cores <= n.cpus + 1
    && (forall k :: 0 <= k < cores ==> list[k] == Core(k / 2, k % 2 == 1))
    && (forall k :: 0 <= k < n.units ==> list[cores + k] == Tcp(k))
    && (forall k :: 0 <= k < n.sqcs ==> list[cores + n.units + k] == Sqc(k))
    && (forall k :: 0 <= k < n.scalars ==> list[cores + n.units + n.sqcs + k] == Scalar(k))
    && (forall k {:trigger CommandTcp(k)} {:trigger CommandSqc(k)} :: 0 <= k < n.processors ==>
          var first := cores + n.units + n.sqcs + n.scalars + 2 * k;
          list[first] == CommandTcp(k) && list[first + 1] == CommandSqc(k))
  }

  method ConstructCorepairs(n: Counts) returns (list: seq<Sequencer>)
    ensures |list| == 2 * Pairs(n) && forall k :: 0 <= k < |list| ==> list[k] == Core(k / 2, k % 2 == 1)
  {
    list := [];
    for i := 0 to Pairs(n)
      invariant |list| == 2 * i && forall k :: 0 <= k < |list| ==> list[k] == Core(k / 2, k % 2 == 1)
    {
      list := list + [Core(i, false), Core(i, true)];
    }
  }

  method ConstructTcps(units: nat) returns (list: seq<Sequencer>)
    ensures |list| == units && forall k :: 0 <= k < units ==> list[k] == Tcp(k)
  {
    list := [];
    for i := 0 to units
      invariant |list| == i && forall k :: 0 <= k < i ==> list[k] == Tcp(k)
    {
      list := list + [Tcp(i)];
    }
  }

  method ConstructSqcs(sqcs: nat) returns (list: seq<Sequencer>)
    ensures |list| == sqcs && forall k :: 0 <= k < sqcs ==> list[k] == Sqc(k)
  {
    list := [];
    for i := 0 to sqcs
      invariant |list| == i && forall k :: 0 <= k < i ==> list[k] == Sqc(k)
    {
      list := list + [Sqc(i)];
    }
  }

  method ConstructScalars(scalars: nat) returns (list: seq<Sequencer>)
    ensures |list| == scalars && forall k :: 0 <= k < scalars ==> list[k] == Scalar(k)
  {
    list := [];
    for i := 0 to scalars
      invariant |list| == i && forall k :: 0 <= k < i ==> list[k] == Scalar(k)
    {
      list := list + [Scalar(i)];
    }
  }

  ghost predicate Commands(list: seq<Sequencer>, processors: nat) {
    |list| == 2 * processors
    && forall k {:trigger CommandTcp(k)} {:trigger CommandSqc(k)} ::
         0 <= k < processors ==> list[2 * k] == CommandTcp(k) && list[2 * k + 1] == CommandSqc(k)
  }

  method ConstructCmdprocs(processors: nat) returns (list: seq<Sequencer>)
    ensures Commands(list, processors)
  {
    list := [];
    for i := 0 to processors
      invariant Commands(list, i)
    {
      list := list + [CommandTcp(i), CommandSqc(i)];
    }
  }

  method CreateSequencers(n: Counts) returns (list: seq<Sequencer>)
    ensures Listed(list, n)
  {
    var cores := ConstructCorepairs(n);
    var tcps := ConstructTcps(n.units);
    var sqcs := ConstructSqcs(n.sqcs);
    var scalars := ConstructScalars(n.scalars);
    var commands := ConstructCmdprocs(n.processors);
    list := cores + tcps + sqcs + scalars + commands;
    forall k | 0 <= k < n.processors
      ensures var first := 2 * Pairs(n) + n.units + n.sqcs + n.scalars + 2 * k;
              list[first] == CommandTcp(k) && list[first + 1] == CommandSqc(k)
    {
      assert list[2 * Pairs(n) + n.units + n.sqcs + n.scalars + 2 * k] == commands[2 * k];
    }
  }

  // ---- The script that wires them ----

  /** How many caches serve the units when each is shared by `share` of them. */
  function Shared(units: nat, share: nat): nat
    requires 1 <= share
  {
    (units + share - 1) / share
  }

  lemma {:induction false} NextShare(i: nat, share: nat)
    requires 1 <= share && 1 <= i
    ensures i / share == (i - 1) / share + (if i % share == 0 then 1 else 0)
  {
    var q, r := (i - 1) / share, (i - 1) % share;
    DivModParts(i - 1, share);
    if r + 1 < share {
      DivModUnique(i, share, q, r + 1);
    } else {
      assert (q + 1) * share == q * share + share;
      DivModUnique(i, share, q + 1, 0);
    }
  }

  lemma {:induction false} LastShare(units: nat, share: nat)
    requires 1 <= share && 1 <= units
    ensures (units - 1) / share == Shared(units, share) - 1
  {
    var q, r := (units - 1) / share, (units - 1) % share;
    DivModParts(units - 1, share);
    assert (q + 1) * share == q * share + share;
    DivModUnique(units + share - 1, share, q + 1, r);
  }

  /** The shared caches: the index moves on whenever a unit is the first of its group. */
  method WireShared(base: nat, units: nat, share: nat) returns (ports: seq<nat>, next: nat)
    requires 1 <= units && 1 <= share
    ensures |ports| == units && forall i :: 0 <= i < units ==> ports[i] == base + i / share < base + Shared(units, share)
    ensures next == base + Shared(units, share)
  {
    ports := [];
    next := base;
    LastShare(units, share);
    for i := 0 to units
      invariant |ports| == i && forall k :: 0 <= k < i ==> ports[k] == base + k / share <= next
      invariant i == 0 ==> next == base
      invariant i > 0 ==> next == base + (i - 1) / share
    {
      if i > 0 {
        NextShare(i, share);
      } else {
        DivModUnique(0, share, 0, 0);
      }
      if i > 0 && i % share == 0 {
        next := next + 1;
      }
      ports := ports + [next];
    }
    next := next + 1;
  }

  /** Token ports go to the compute units in the order in which coalescers turn up. */
  method WireTokens(list: seq<Sequencer>, n: Counts) returns (tokens: seq<nat>)
    requires Listed(list, n)
    ensures |tokens| == n.units && forall i :: 0 <= i < n.units ==> tokens[i] == 2 * Pairs(n) + i
  {
    tokens := [];
    var cores := 2 * Pairs(n);
    for k := 0 to |list|
      invariant |tokens| == if k <= cores then 0 else if k <= cores + n.units then k - cores else n.units
      invariant forall i :: 0 <= i < |tokens| ==> tokens[i] == cores + i
    {
      KindAt(list, n, k);
      if list[k].Tcp? {
        tokens := tokens + [k];
      }
    }
  }

  lemma {:induction false} KindAt(list: seq<Sequencer>, n: Counts, k: nat)
    requires Listed(list, n) && k < |list|
    ensures list[k].Tcp? <==> 2 * Pairs(n) <= k < 2 * Pairs(n) + n.units
  {
    var sqc := 2 * Pairs(n) + n.units;
    var scalar := sqc + n.sqcs;
    var command := scalar + n.scalars;
    if 2 * Pairs(n) <= k < sqc {
      assert list[2 * Pairs(n) + (k - 2 * Pairs(n))] == Tcp(k - 2 * Pairs(n));
    } else if sqc <= k < scalar {
      assert list[sqc + (k - sqc)] == Sqc(k - sqc);
    } else if scalar <= k < command {
      assert list[scalar + (k - scalar)] == Scalar(k - scalar);
    } else if command <= k {
      var p := (k - command) / 2;
      assert list[command + 2 * p] == CommandTcp(p) && list[command + 2 * p + 1] == CommandSqc(p);
    }
  }

  method WireMemory(base: nat, units: nat) returns (ports: seq<nat>, next: nat)
    ensures |ports| == units && forall i :: 0 <= i < units ==> ports[i] == base + i
    ensures next == base + units
  {
    ports, next := [], base;
    for i := 0 to units
      invariant |ports| == i && next == base + i
      invariant forall k :: 0 <= k < i ==> ports[k] == base + k
    {
      ports, next := ports + [next], next + 1;
    }
  }

  method WireProcessors(base: nat, processors: nat) returns (data: seq<nat>, instruction: seq<nat>)
    ensures |data| == |instruction| == processors
    ensures forall i :: 0 <= i < processors ==> data[i] == base + 2 * i
    ensures forall i :: 0 <= i < processors ==> instruction[i] == base + 2 * i + 1
  {
    data, instruction := [], [];
    for i := 0 to processors
      invariant |data| == |instruction| == i
      invariant forall k :: 0 <= k < i ==> data[k] == base + 2 * k
      invariant forall k :: 0 <= k < i ==> instruction[k] == base + 2 * k + 1
    {
      data := data + [base + i * 2];
      instruction := instruction + [base + i * 2 + 1];
    }
  }

  /** CPU i gets port i. */
  method WireCpus(cpus: nat) returns (ports: seq<nat>)
    ensures |ports| == cpus && forall i :: 0 <= i < cpus ==> ports[i] == i
  {
    ports := [];
    for i := 0 to cpus
      invariant |ports| == i && forall k :: 0 <= k < i ==> ports[k] == k
    {
      ports := ports + [i];
    }
  }

  /** The ports of CPU i, of compute unit i and of command processor i. */
  datatype Wiring = Wiring(
    cpu: seq<nat>, memory: seq<nat>, token: seq<nat>, sqc: seq<nat>, scalar: seq<nat>, data: seq<nat>, instruction: seq<nat>)

  ghost predicate At(list: seq<Sequencer>, port: nat, s: Sequencer) {
    port < |list| && list[port] == s
  }

  /** Every CPU gets its own one of the two sequencers of its pair; every compute unit its own
      coalescer, for memory and for tokens, and the caches of its group; every command processor
      its own two sequencers. */
  ghost predicate Agrees(w: Wiring, list: seq<Sequencer>, n: Counts, perSqc: nat, perScalar: nat)
    requires 1 <= perSqc && 1 <= perScalar
  {
    && |w.cpu| == n.cpus && (forall i :: 0 <= i < n.cpus ==> At(list, w.cpu[i], Core(i / 2, i % 2 == 1)))
    && |w.memory| == |w.token| == |w.sqc| == |w.scalar| == n.units
    && |w.data| == |w.instruction| == n.processors
    && (forall i :: 0 <= i < n.units ==> At(list, w.memory[i], Tcp(i)) && At(list, w.token[i], Tcp(i)))
    && (forall i :: 0 <= i < n.units ==> At(list, w.sqc[i], Sqc(i / perSqc)))
    && (forall i :: 0 <= i < n.units ==> At(list, w.scalar[i], Scalar(i / perScalar)))
    && (forall i :: 0 <= i < n.processors ==> At(list, w.data[i], CommandTcp(i)) && At(list, w.instruction[i], CommandSqc(i)))
  }

  method Wire(list: seq<Sequencer>, n: Counts, perSqc: nat, perScalar: nat) returns (w: Wiring)
    requires 1 <= n.units && 1 <= perSqc && 1 <= perScalar
    requires n.sqcs == Shared(n.units, perSqc) && n.scalars == Shared(n.units, perScalar)
    requires Listed(list, n)
    ensures Agrees(w, list, n, perSqc, perScalar)
  {
    var index := |list| - n.units - n.sqcs - n.scalars - 2 * n.processors;
    var cpu := WireCpus(n.cpus);
    var token := WireTokens(list, n);
    var memory, sqc, scalar, data, instruction;
    memory, index := WireMemory(index, n.units);
    sqc, index := WireShared(index, n.units, perSqc);
    scalar, index := WireShared(index, n.units, perScalar);
    data, instruction := WireProcessors(index, n.processors);
    w := Wiring(cpu, memory, token, sqc, scalar, data, instruction);
    UnitPorts(list, n, memory);
    UnitPorts(list, n, token);
    SqcPorts(list, n, sqc, perSqc);
    ScalarPorts(list, n, scalar, perScalar);
    ProcessorPorts(list, n, data, instruction);
  }

  lemma {:induction false} UnitPorts(list: seq<Sequencer>, n: Counts, ports: seq<nat>)
    requires Listed(list, n) && |ports| == n.units
    requires forall i :: 0 <= i < n.units ==> ports[i] == 2 * Pairs(n) + i
    ensures forall i :: 0 <= i < n.units ==> At(list, ports[i], Tcp(i))
  {
  }

  lemma {:induction false} SqcPorts(list: seq<Sequencer>, n: Counts, ports: seq<nat>, share: nat)
    requires Listed(list, n) && |ports| == n.units && 1 <= share
    requires var base := 2 * Pairs(n) + n.units;
             forall i :: 0 <= i < n.units ==> ports[i] == base + i / share < base + n.sqcs
    ensures forall i :: 0 <= i < n.units ==> At(list, ports[i], Sqc(i / share))
  {
  }

  lemma {:induction false} ScalarPorts(list: seq<Sequencer>, n: Counts, ports: seq<nat>, share: nat)
    requires Listed(list, n) && |ports| == n.units && 1 <= share
    requires var base := 2 * Pairs(n) + n.units + n.sqcs;
             forall i :: 0 <= i < n.units ==> ports[i] == base + i / share < base + n.scalars
    ensures forall i :: 0 <= i < n.units ==> At(list, ports[i], Scalar(i / share))
  {
  }

  lemma {:induction false} ProcessorPorts(list: seq<Sequencer>, n: Counts, data: seq<nat>, instruction: seq<nat>)
    requires Listed(list, n) && |data| == |instruction| == n.processors
    requires var base := 2 * Pairs(n) + n.units + n.sqcs + n.scalars;
             && (forall i :: 0 <= i < n.processors ==> data[i] == base + 2 * i)
             && (forall i :: 0 <= i < n.processors ==> instruction[i] == base + 2 * i + 1)
    ensures forall i :: 0 <= i < n.processors ==> At(list, data[i], CommandTcp(i)) && At(list, instruction[i], CommandSqc(i))
  {
  }
}
