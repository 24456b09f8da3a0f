/** From the matrices of the topology to the routes a mesh router takes. */
module MeshRouting {
  import opened ShortestPaths
  import opened Topology
  import opened MeshLayout

  /** The tables computed for layout g: its links, their weights and the distances. */
  ghost predicate Tables(g: Layout, edges: seq<Edge>, w: Matrix, d: Matrix) {
    && Valid(g)
    && Builds(g, edges)
    && WeightsOf(edges, w)
    && NonNegative(w)
    && |w| <= Size(g)
    && IsShortest(w, d)
  }

  ghost function Capped(x: nat): nat {
    if x <= INFINITE_LATENCY then x else INFINITE_LATENCY
  }

  ghost function Potential(g: Layout, f: nat, n: nat): (h: seq<nat>)
    requires Valid(g) && f < |g.homes| && n <= Size(g)
    ensures |h| == n
    ensures forall v :: 0 <= v < n ==> IsSwitch(g, Decode(g, v)) && h[v] == Capped(Far(g, f, Decode(g, v)))
  {
    assert forall v :: 0 <= v < n ==> IsSwitch(g, Decode(g, v)) by {
      forall v | 0 <= v < n ensures IsSwitch(g, Decode(g, v)) { DecodeNumber(g, v); }
    }
    seq(n, v requires 0 <= v < n => Capped(Far(g, f, Decode(g, v))))
  }

  /** The switches of a link are numbered below the matrix size. */
  lemma {:induction false} LinkInRange(g: Layout, edges: seq<Edge>, w: Matrix, x: Switch, y: Switch)
    requires Valid(g) && Builds(g, edges) && WeightsOf(edges, w)
    requires IsSwitch(g, x) && IsSwitch(g, y) && LinkWeight(g, x, y) > 0
    ensures Number(g, x) < |w| && Number(g, y) < |w|
    ensures w[Number(g, x)][Number(g, y)] == LinkWeight(g, x, y)
  {
    assert Linked(edges, Number(g, x), Number(g, y));
    var k :| 0 <= k < |edges| && edges[k].src == Number(g, x) && edges[k].dst == Number(g, y);
    assert EdgeFits(g, edges[k]);
    NumberDecode(g, x);
    NumberDecode(g, y);
  }

  lemma {:induction false} HomeInRange(g: Layout, edges: seq<Edge>, w: Matrix, f: nat)
    requires Valid(g) && Builds(g, edges) && WeightsOf(edges, w) && f < |g.homes|
    ensures Number(g, Out(f)) < |w| && Number(g, In(f)) < |w|
    ensures Decode(g, Number(g, Out(f))) == Out(f)
    ensures Number(g, Home(g, f)) < |w|
  {
    RouterInRange(g, g.homes[f]);
    LinkInRange(g, edges, w, Home(g, f), Out(f));
    LinkInRange(g, edges, w, In(f), Home(g, f));
    NumberDecode(g, Out(f));
  }

  lemma {:induction false} PotentialConsistent(g: Layout, edges: seq<Edge>, w: Matrix, f: nat, i: nat, j: nat)
    requires Valid(g) && Builds(g, edges) && WeightsOf(edges, w) && f < |g.homes| && |w| <= Size(g)
    requires i < |w| && j < |w|
    ensures var h := Potential(g, f, |w|); h[i] <= w[i][j] + h[j]
  {
    var h := Potential(g, f, |w|);
    if Linked(edges, i, j) {
      var k :| 0 <= k < |edges| && edges[k].src == i && edges[k].dst == j;
      assert EdgeFits(g, edges[k]);
      FarConsistent(g, f, Decode(g, i), Decode(g, j));
    } else {
      assert w[i][j] == if i == j then 0 else INFINITE_LATENCY;
    }
  }

  /** Switches without a link in the layout have none in the list. */
  lemma {:induction false} NotLinked(g: Layout, edges: seq<Edge>, x: Switch, y: Switch)
    requires Valid(g) && Builds(g, edges) && IsSwitch(g, x) && IsSwitch(g, y) && LinkWeight(g, x, y) == 0
    ensures !Linked(edges, Number(g, x), Number(g, y))
  {
    NumberDecode(g, x);
    NumberDecode(g, y);
    forall k | 0 <= k < |edges|
      ensures !(edges[k].src == Number(g, x) && edges[k].dst == Number(g, y))
    {
      assert EdgeFits(g, edges[k]);
    }
  }

  lemma {:induction false} PotentialDescendsNear(g: Layout, edges: seq<Edge>, w: Matrix, f: nat, x: Switch)
    requires Valid(g) && Builds(g, edges) && WeightsOf(edges, w) && f < |g.homes| && |w| <= Size(g)
    requires IsSwitch(g, x) && Number(g, x) < |w| && x != Out(f) && Far(g, f, x) < INFINITE_LATENCY
    ensures Descends(w, Potential(g, f, |w|), Number(g, x))
  {
    var h := Potential(g, f, |w|);
    var y := Toward(g, f, x);
    TowardDescends(g, f, x);
    LinkInRange(g, edges, w, x, y);
    NumberDecode(g, x);
    NumberDecode(g, y);
    assert h[Number(g, x)] == w[Number(g, x)][Number(g, y)] + h[Number(g, y)];
  }

  lemma {:induction false} PotentialDescendsFar(g: Layout, edges: seq<Edge>, w: Matrix, f: nat, x: Switch)
    requires Valid(g) && Builds(g, edges) && WeightsOf(edges, w) && f < |g.homes| && |w| <= Size(g)
    requires IsSwitch(g, x) && Number(g, x) < |w| && x != Out(f) && Far(g, f, x) >= INFINITE_LATENCY
    ensures Descends(w, Potential(g, f, |w|), Number(g, x))
  {
    var h := Potential(g, f, |w|);
    HomeInRange(g, edges, w, f);
    NumberDecode(g, x);
    var final := Number(g, Out(f));
    if LinkWeight(g, x, Out(f)) > 0 {
      FarConsistent(g, f, x, Out(f));
    }
    NotLinked(g, edges, x, Out(f));
    assert h[Number(g, x)] == w[Number(g, x)][final] + h[final];
  }

  /** The distances of a mesh are the weights of its column-and-row routes, as long as
      those stay below the number that stands for infinity; beyond, the table says infinity. */
  lemma {:induction false} MeshDistance(g: Layout, edges: seq<Edge>, w: Matrix, d: Matrix, f: nat, x: Switch)
    requires Tables(g, edges, w, d) && f < |g.homes| && IsSwitch(g, x) && Number(g, x) < |w|
    ensures Number(g, Out(f)) < |w|
    ensures d[Number(g, x)][Number(g, Out(f))] == Capped(Far(g, f, x))
  {
    HomeInRange(g, edges, w, f);
    NumberDecode(g, x);
    var h := Potential(g, f, |w|);
    var final := Number(g, Out(f));
    forall i, j | 0 <= i < |w| && 0 <= j < |w|
      ensures h[i] <= w[i][j] + h[j]
    {
      PotentialConsistent(g, edges, w, f, i, j);
    }
    forall i | 0 <= i < |w| && i != final
      ensures Descends(w, h, i)
    {
      DecodeNumber(g, i);
      if Far(g, f, Decode(g, i)) < INFINITE_LATENCY {
        PotentialDescendsNear(g, edges, w, f, Decode(g, i));
      } else {
        PotentialDescendsFar(g, edges, w, f, Decode(g, i));
      }
    }
    NotLinked(g, edges, Out(f), Out(f));
    PotentialIsDistance(w, d, h, final, Number(g, x));
  }

  /** Going from x to y brings a packet for f nearer by exactly the weight of the link. */
  ghost predicate Productive(g: Layout, f: nat, x: Switch, y: Switch)
    requires Valid(g) && f < |g.homes| && IsSwitch(g, x) && IsSwitch(g, y)
  {
    LinkWeight(g, x, y) > 0 && Far(g, f, x) == LinkWeight(g, x, y) + Far(g, f, y)
  }

  /** y is a productive neighbour of x over a link of least weight. */
  ghost predicate NextHop(g: Layout, f: nat, x: Switch, y: Switch)
    requires Valid(g) && f < |g.homes| && IsSwitch(g, x) && IsSwitch(g, y)
  {
    && Productive(g, f, x, y)
    && forall z :: IsSwitch(g, z) && Productive(g, f, x, z) ==> LinkWeight(g, x, y) <= LinkWeight(g, x, z)
  }

  lemma {:induction false} EligibleIsProductive(g: Layout, edges: seq<Edge>, w: Matrix, d: Matrix, f: nat, k: nat)
    requires Tables(g, edges, w, d) && f < |g.homes| && k < |edges|
    ensures EdgeFits(g, edges[k]) && Number(g, Out(f)) < |w|
    ensures Eligible(edges, d, edges[k].src, Number(g, Out(f)), k)
       <==> Far(g, f, Decode(g, edges[k].src)) <= INFINITE_LATENCY
            && Productive(g, f, Decode(g, edges[k].src), Decode(g, edges[k].dst))
  {
    assert EdgeFits(g, edges[k]);
    var x, y := Decode(g, edges[k].src), Decode(g, edges[k].dst);
    DistanceFrom(g, edges, w, d, f, edges[k].src);
    DistanceFrom(g, edges, w, d, f, edges[k].dst);
    FarConsistent(g, f, x, y);
    LinkIsLight(g, x, y);
    EligibleAt(edges, d, k, Number(g, Out(f)), Far(g, f, x), Far(g, f, y));
  }

  lemma {:induction false} DistanceFrom(g: Layout, edges: seq<Edge>, w: Matrix, d: Matrix, f: nat, v: nat)
    requires Tables(g, edges, w, d) && f < |g.homes| && v < |w|
    ensures IsSwitch(g, Decode(g, v)) && Number(g, Out(f)) < |w|
    ensures d[v][Number(g, Out(f))] == Capped(Far(g, f, Decode(g, v)))
  {
    DecodeNumber(g, v);
    MeshDistance(g, edges, w, d, f, Decode(g, v));
  }

  lemma {:induction false} LinkIsLight(g: Layout, x: Switch, y: Switch)
    requires Valid(g) && IsSwitch(g, x) && IsSwitch(g, y)
    ensures LinkWeight(g, x, y) <= 2
  {
  }

  /** The test for a shortest way, between distances cut off at infinity. */
  lemma {:induction false} EligibleAt(edges: seq<Edge>, d: Matrix, k: nat, final: nat, from: nat, to: nat)
    requires Square(d) && Within(edges, |d|) && final < |d| && k < |edges|
    requires 0 < edges[k].weight <= 2 && from <= edges[k].weight + to
    requires d[edges[k].src][final] == Capped(from) && d[edges[k].dst][final] == Capped(to)
    ensures Eligible(edges, d, edges[k].src, final, k) <==> from <= INFINITE_LATENCY && from == edges[k].weight + to
  {
  }

  /** The table lookup at router x for controller f offers exactly the least-weight
      productive links of x, and offers nothing when f is further than infinity. */
  lemma {:induction false} CandidateIsNextHop(g: Layout, edges: seq<Edge>, w: Matrix, d: Matrix, f: nat, k: nat)
    requires Tables(g, edges, w, d) && f < |g.homes| && k < |edges|
    ensures EdgeFits(g, edges[k]) && Number(g, Out(f)) < |w|
    ensures Candidate(edges, d, edges[k].src, Number(g, Out(f)), k)
       <==> Far(g, f, Decode(g, edges[k].src)) <= INFINITE_LATENCY
            && NextHop(g, f, Decode(g, edges[k].src), Decode(g, edges[k].dst))
  {
    EligibleIsProductive(g, edges, w, d, f, k);
    var x, y := Decode(g, edges[k].src), Decode(g, edges[k].dst);
    DecodeNumber(g, edges[k].src);
    var final := Number(g, Out(f));
    if Candidate(edges, d, edges[k].src, final, k) {
      forall z | IsSwitch(g, z) && Productive(g, f, x, z)
        ensures LinkWeight(g, x, y) <= LinkWeight(g, x, z)
      {
        var i := EdgeBetween(g, edges, x, z);
        EligibleIsProductive(g, edges, w, d, f, i);
      }
    } else if Eligible(edges, d, edges[k].src, final, k) {
      var i :| 0 <= i < |edges| && Eligible(edges, d, edges[k].src, final, i) && edges[i].weight < edges[k].weight;
      EligibleIsProductive(g, edges, w, d, f, i);
    }
  }

  lemma {:induction false} EdgeBetween(g: Layout, edges: seq<Edge>, x: Switch, y: Switch) returns (k: nat)
    requires Valid(g) && Builds(g, edges) && IsSwitch(g, x) && IsSwitch(g, y) && LinkWeight(g, x, y) > 0
    ensures k < |edges| && edges[k].src == Number(g, x) && edges[k].dst == Number(g, y)
    ensures Decode(g, edges[k].src) == x && Decode(g, edges[k].dst) == y
    ensures EdgeFits(g, edges[k])
  {
    assert Linked(edges, Number(g, x), Number(g, y));
    k :| 0 <= k < |edges| && edges[k].src == Number(g, x) && edges[k].dst == Number(g, y);
    NumberDecode(g, x);
    NumberDecode(g, y);
  }

  // Which neighbours the weights leave.

  /** With all horizontal links lighter than all vertical ones, the column is corrected
      before the row: one next hop, the XY one. */
  lemma {:induction false} XYRule(g: Layout, f: nat, x: Switch, y: Switch)
    requires Valid(g) && g.east == 1 && f < |g.homes| && IsSwitch(g, x) && IsSwitch(g, y) && !x.Out?
    ensures NextHop(g, f, x, y) <==> y == Toward(g, f, x)
  {
    TowardDescends(g, f, x);
    RouterInRange(g, g.homes[f]);
  }

  /** The west-first rule: a packet that has to go west does nothing else; any other packet
      takes whichever of east, north and south brings it nearer. */
  ghost predicate WestFirst(g: Layout, f: nat, x: Switch, y: Switch)
    requires Valid(g) && f < |g.homes| && IsSwitch(g, x) && !x.Out?
  {
    match x
    case Cross(r, c) =>
      var a := Anchor(g, f);
      if a.col < c then y == Cross(r, c - 1)
      else if x == a then y == Toward(g, f, x)
      else
        || (c < a.col && y == Cross(r, c + 1))
        || (r < a.row && y == Cross(r + 1, c))
        || (a.row < r && y == Cross(r - 1, c))
    case _ => y == Toward(g, f, x)
  }

  /** With west links lighter than all others, that is exactly what remains. */
  lemma {:induction false} WestFirstRule(g: Layout, f: nat, x: Switch, y: Switch)
    requires Valid(g) && g.east == 2 && f < |g.homes| && IsSwitch(g, x) && IsSwitch(g, y) && !x.Out?
    ensures NextHop(g, f, x, y) <==> WestFirst(g, f, x, y)
  {
    TowardDescends(g, f, x);
    RouterInRange(g, g.homes[f]);
  }
}
