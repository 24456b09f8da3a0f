/** How the Ruby topology turns the links a configuration script made into a weight
    matrix, a distance matrix and a routing table, and how a router looks a destination up. */
module Topology {
  import opened Options
  import opened ShortestPaths

  /** The weight that stands for "no link". */
  const INFINITE_LATENCY: nat := 10000

  datatype ExtLink = ExtLink(linkId: nat, node: nat, router: nat)

  datatype IntLink = IntLink(linkId: nat, src: nat, dst: nat, weight: nat)

  /** A directed link between switch numbers. With n controllers, switch c < n is where
      controller c enters the network, n + c is where it is reached, and router r is
      switch 2n + r. */
  datatype Edge = Edge(src: nat, dst: nat, weight: nat)

  /** An external link counts once in each direction, with the default weight. */
  function ExtEdges(nodes: nat, ext: seq<ExtLink>): (r: seq<Edge>) {
    if ext == [] then []
    else ExtEdges(nodes, ext[..|ext| - 1]) + TwoWay(nodes, ext[|ext| - 1])
  }

  function TwoWay(nodes: nat, l: ExtLink): (r: seq<Edge>) {
    [Edge(l.node, 2 * nodes + l.router, 1), Edge(2 * nodes + l.router, nodes + l.node, 1)]
  }

  function IntEdges(nodes: nat, ints: seq<IntLink>): (r: seq<Edge>) {
    seq(|ints|, i requires 0 <= i < |ints| =>
      Edge(2 * nodes + ints[i].src, 2 * nodes + ints[i].dst, ints[i].weight))
  }

  function Edges(nodes: nat, ext: seq<ExtLink>, ints: seq<IntLink>): (r: seq<Edge>) {
    ExtEdges(nodes, ext) + IntEdges(nodes, ints)
  }

  method CollectLinks(nodes: nat, ext: seq<ExtLink>, ints: seq<IntLink>) returns (edges: seq<Edge>)
    ensures edges == Edges(nodes, ext, ints)
  {
    edges := [];
    for i := 0 to |ext|
      invariant edges == ExtEdges(nodes, ext[..i])
    {
      assert ext[..i + 1][..i] == ext[..i];
      edges := edges + TwoWay(nodes, ext[i]);
    }
    assert ext[..|ext|] == ext;
    for i := 0 to |ints|
      invariant edges == ExtEdges(nodes, ext) + IntEdges(nodes, ints)[..i]
    {
      edges := edges + [Edge(2 * nodes + ints[i].src, 2 * nodes + ints[i].dst, ints[i].weight)];
    }
  }

  ghost predicate SamePair(e: Edge, f: Edge) {
    e.src == f.src && e.dst == f.dst
  }

  ghost predicate DistinctPairs(edges: seq<Edge>) {
    forall i, j :: 0 <= i < j < |edges| ==> !SamePair(edges[i], edges[j])
  }

  ghost predicate Within(edges: seq<Edge>, n: nat) {
    forall i :: 0 <= i < |edges| ==> edges[i].src < n && edges[i].dst < n
  }

  ghost predicate Linked(edges: seq<Edge>, i: nat, j: nat) {
    exists k :: 0 <= k < |edges| && edges[k].src == i && edges[k].dst == j
  }

  /** The weight matrix of a link list: link weights where there are links, zero on the
      rest of the diagonal, infinite elsewhere. */
  ghost predicate WeightsOf(edges: seq<Edge>, w: Matrix) {
    && Square(w)
    && Within(edges, |w|)
    && (forall k :: 0 <= k < |edges| ==> w[edges[k].src][edges[k].dst] == edges[k].weight)
    && (forall i, j {:trigger w[i][j]} :: 0 <= i < |w| && 0 <= j < |w| && !Linked(edges, i, j) ==>
          w[i][j] == if i == j then 0 else INFINITE_LATENCY)
  }

  /** Fails exactly when two links join the same pair of switches. */
  method FillWeights(edges: seq<Edge>) returns (r: Option<Matrix>)
    ensures r.None? <==> !DistinctPairs(edges)
    ensures r.Some? ==> WeightsOf(edges, r.value) && NonNegative(r.value)
    ensures r.Some? ==> forall n: nat :: Within(edges, n) ==> |r.value| <= n
  {
    var n: nat := 0;
    for k := 0 to |edges|
      invariant forall i :: 0 <= i < k ==> edges[i].src < n && edges[i].dst < n
      invariant forall n': nat :: Within(edges, n') ==> n <= n'
    {
      if n <= edges[k].src { n := edges[k].src + 1; }
      if n <= edges[k].dst { n := edges[k].dst + 1; }
    }
    var w: Matrix := seq(n, i => seq(n, j => if i == j then 0 else INFINITE_LATENCY));
    for k := 0 to |edges|
      invariant |w| == n && Square(w) && Within(edges, n) && NonNegative(w)
      invariant WeightsOf(edges[..k], w)
      invariant DistinctPairs(edges[..k])
    {
      var e := edges[k];
      for i := 0 to k
        invariant forall i' :: 0 <= i' < i ==> !SamePair(edges[i'], e)
      {
        if edges[i].src == e.src && edges[i].dst == e.dst {
          assert SamePair(edges[i], edges[k]);
          return None;
        }
      }
      FillOne(edges, k, w);
      w := w[e.src := w[e.src][e.dst := e.weight]];
    }
    assert edges[..|edges|] == edges;
    r := Some(w);
  }

  lemma {:induction false} FillOne(edges: seq<Edge>, k: nat, w: Matrix)
    requires k < |edges| && Within(edges, |w|)
    requires WeightsOf(edges[..k], w)
    requires forall i :: 0 <= i < k ==> !SamePair(edges[i], edges[k])
    ensures WeightsOf(edges[..k + 1], w[edges[k].src := w[edges[k].src][edges[k].dst := edges[k].weight]])
  {
    var e := edges[k];
    var w' := w[e.src := w[e.src][e.dst := e.weight]];
    forall i | 0 <= i < k + 1
      ensures w'[edges[i].src][edges[i].dst] == edges[i].weight
    {
      if i < k {
        assert edges[..k][i] == edges[i];
      }
    }
    forall i, j | 0 <= i < |w| && 0 <= j < |w| && !Linked(edges[..k + 1], i, j)
      ensures w'[i][j] == if i == j then 0 else INFINITE_LATENCY
    {
      assert edges[..k + 1][k] == e;
      assert forall m :: 0 <= m < k ==> edges[..k + 1][m] == edges[..k][m];
    }
  }

  /** Links of weight zero or of the infinite weight are not built. */
  predicate Real(e: Edge) {
    0 < e.weight && e.weight != INFINITE_LATENCY
  }

  /** Going over e is a shortest way from where e starts to switch `final`. */
  predicate OnShortest(d: Matrix, e: Edge, final: nat)
    requires e.src < |d| && e.dst < |d| && final < |d[e.src]| && final < |d[e.dst]|
  {
    e.weight + d[e.dst][final] == d[e.src][final]
  }

  ghost predicate Eligible(edges: seq<Edge>, d: Matrix, router: nat, final: nat, k: nat)
    requires Square(d) && Within(edges, |d|) && final < |d|
  {
    k < |edges| && edges[k].src == router && Real(edges[k]) && OnShortest(d, edges[k], final)
  }

  /** The output links a router may pick: of its links on shortest ways, those of least weight. */
  ghost predicate Candidate(edges: seq<Edge>, d: Matrix, router: nat, final: nat, k: nat)
    requires Square(d) && Within(edges, |d|) && final < |d|
  {
    && Eligible(edges, d, router, final, k)
    && edges[k].weight <= INFINITE_LATENCY
    && forall i :: 0 <= i < |edges| && Eligible(edges, d, router, final, i) ==> edges[k].weight <= edges[i].weight
  }

  /** The routing table lookup: one sweep for the least weight, one to collect. An empty
      result is where the router gives up with a fatal error. */
  method LookupRoutingTable(edges: seq<Edge>, d: Matrix, router: nat, final: nat) returns (candidates: seq<nat>)
    requires Square(d) && Within(edges, |d|) && final < |d|
    ensures forall k: nat :: k in candidates <==> Candidate(edges, d, router, final, k)
  {
    var least := INFINITE_LATENCY;
    for k := 0 to |edges|
      invariant forall i :: 0 <= i < k && Eligible(edges, d, router, final, i) ==> least <= edges[i].weight
      invariant least <= INFINITE_LATENCY
      invariant least == INFINITE_LATENCY || exists i :: 0 <= i < k && Eligible(edges, d, router, final, i) && edges[i].weight == least
    {
      if edges[k].src == router && Real(edges[k]) && OnShortest(d, edges[k], final) && edges[k].weight <= least {
        least := edges[k].weight;
        assert Eligible(edges, d, router, final, k);
      }
    }
    candidates := [];
    for k := 0 to |edges|
      invariant forall i: nat :: i in candidates <==> i < k && Eligible(edges, d, router, final, i) && edges[i].weight == least
    {
      if edges[k].src == router && Real(edges[k]) && OnShortest(d, edges[k], final) && edges[k].weight == least {
        candidates := candidates + [k];
      }
    }
    forall k: nat | Candidate(edges, d, router, final, k)
      ensures edges[k].weight == least
    {
    }
  }

  /** Everything the topology derives from the links: the link list, the weights and the
      distances. Fails exactly when two links join the same pair of switches. */
  method CreateLinks(nodes: nat, ext: seq<ExtLink>, ints: seq<IntLink>)
    returns (edges: seq<Edge>, weights: Option<Matrix>, dist: Matrix)
    ensures edges == Edges(nodes, ext, ints)
    ensures weights.None? <==> !DistinctPairs(edges)
    ensures weights.Some? ==>
              && WeightsOf(edges, weights.value) && NonNegative(weights.value)
              && (forall n: nat :: Within(edges, n) ==> |weights.value| <= n)
              && IsShortest(weights.value, dist)
  {
    edges := CollectLinks(nodes, ext, ints);
    weights := FillWeights(edges);
    dist := [];
    if weights.Some? {
      dist := ShortestPath(weights.value);
    }
  }

  lemma {:induction false} ExtEdgesAt(nodes: nat, ext: seq<ExtLink>, k: nat)
    requires k < |ext|
    ensures |ExtEdges(nodes, ext)| == 2 * |ext|
    ensures ExtEdges(nodes, ext)[2 * k] == TwoWay(nodes, ext[k])[0]
    ensures ExtEdges(nodes, ext)[2 * k + 1] == TwoWay(nodes, ext[k])[1]
  {
    if |ext| == 1 {
      assert ExtEdges(nodes, ext[..0]) == [];
    } else if k < |ext| - 1 {
      ExtEdgesAt(nodes, ext[..|ext| - 1], k);
    } else {
      ExtEdgesAt(nodes, ext[..|ext| - 1], 0);
    }
  }
}
