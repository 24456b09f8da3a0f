/** The mesh topologies are free of deadlock and livelock because of their link weights. */
module MeshDeadlock {
  import opened Options
  import opened ShortestPaths
  import opened Topology
  import opened MeshLayout
  import opened MeshRouting
  import N = Network

  /** The fabric of a mesh: a channel per link, routed by the table lookup at the router
      the channel ends in. Where the lookup offers several links, any of them may be taken. */
  ghost function MeshFabric(g: Layout, edges: seq<Edge>, d: Matrix, capacity: nat -> nat): N.Fabric
    requires Valid(g) && Square(d) && Within(edges, |d|)
    requires forall n :: 0 <= n < |g.homes| ==> Number(g, Out(n)) < |d|
  {
    N.Fabric(
      |edges|,
      |g.homes|,
      capacity,
      (c: nat) => c < |edges| && Decode(g, edges[c].src).In?,
      (c: nat) => if c < |edges| && Decode(g, edges[c].dst).Out? then Some(Decode(g, edges[c].dst).node) else None,
      (c: nat, n: nat, to: nat) =>
        c < |edges| && n < |g.homes| && Candidate(edges, d, edges[c].dst, Number(g, Out(n)), to))
  }

  /** Every controller is nearer to every other than the number that stands for infinity. */
  ghost predicate InReach(g: Layout)
    requires Valid(g)
  {
    forall n, f :: 0 <= n < |g.homes| && 0 <= f < |g.homes| ==> Reaches(g, n, f)
  }

  ghost predicate Reaches(g: Layout, n: nat, f: nat)
    requires Valid(g) && n < |g.homes| && f < |g.homes|
  {
    RouterInRange(g, g.homes[n]);
    Far(g, f, Home(g, n)) <= INFINITE_LATENCY
  }

  ghost predicate HasRoute(edges: seq<Edge>, d: Matrix, router: nat, final: nat)
    requires Square(d) && Within(edges, |d|) && final < |d|
  {
    exists k :: 0 <= k < |edges| && Candidate(edges, d, router, final, k)
  }

  lemma {:induction false} LeastProductive(g: Layout, f: nat, x: Switch) returns (y: Switch)
    requires Valid(g) && f < |g.homes| && IsSwitch(g, x) && !x.Out?
    ensures IsSwitch(g, y) && NextHop(g, f, x, y)
  {
    y := Toward(g, f, x);
    TowardDescends(g, f, x);
    if g.east == 1 {
      XYRule(g, f, x, y);
    } else {
      WestFirstRule(g, f, x, y);
    }
  }

  /** The lookup at a router finds a route to f if and only if f is within reach: on a
      mesh with a longer way the router gives up. */
  lemma {:induction false} RouteExists(g: Layout, edges: seq<Edge>, w: Matrix, d: Matrix, f: nat, x: Switch)
    requires Tables(g, edges, w, d) && f < |g.homes| && IsSwitch(g, x) && (x.Cross? || x.Leaf?)
    ensures Number(g, Out(f)) < |w|
    ensures HasRoute(edges, d, Number(g, x), Number(g, Out(f))) <==> Far(g, f, x) <= INFINITE_LATENCY
  {
    HomeInRange(g, edges, w, f);
    NumberDecode(g, x);
    if HasRoute(edges, d, Number(g, x), Number(g, Out(f))) {
      var k :| 0 <= k < |edges| && Candidate(edges, d, Number(g, x), Number(g, Out(f)), k);
      CandidateIsNextHop(g, edges, w, d, f, k);
    }
    if Far(g, f, x) <= INFINITE_LATENCY {
      var y := LeastProductive(g, f, x);
      var k := EdgeBetween(g, edges, x, y);
      CandidateIsNextHop(g, edges, w, d, f, k);
    }
  }

  // Hop counts.

  ghost function Apart(a: nat, b: nat): nat {
    if a <= b then b - a else a - b
  }

  /** The number of links between x and controller f on the mesh: Manhattan distance
      between the mesh routers, plus the leaf links and controller links at either end. */
  ghost function Hops(g: Layout, f: nat, x: Switch): nat
    requires Valid(g) && f < |g.homes| && IsSwitch(g, x) && (x.Out? ==> x.node == f)
  {
    match x
    case Out(_) => 0
    case Cross(_, _) => HopsFromCross(g, f, x)
    case Leaf(k) =>
      if Home(g, f) == x then 1
      else RouterInRange(g, g.parents[k]); 1 + HopsFromCross(g, f, Parent(g, k))
    case In(n) =>
      RouterInRange(g, g.homes[n]);
      match Home(g, n)
      case Cross(_, _) => 1 + HopsFromCross(g, f, Home(g, n))
      case Leaf(k) =>
        if Home(g, f) == Leaf(k) then 2
        else RouterInRange(g, g.parents[k]); 2 + HopsFromCross(g, f, Parent(g, k))
  }

  ghost function HopsFromCross(g: Layout, f: nat, x: Switch): nat
    requires Valid(g) && f < |g.homes| && IsSwitch(g, x) && x.Cross?
  {
    var a := Anchor(g, f);
    Apart(x.row, a.row) + Apart(x.col, a.col) + if Home(g, f).Leaf? then 2 else 1
  }

  /** Whatever the weights and however ties are broken, each hop is one link nearer. */
  lemma {:induction false} NextHopIsNearer(g: Layout, f: nat, x: Switch, y: Switch)
    requires Valid(g) && f < |g.homes| && IsSwitch(g, x) && IsSwitch(g, y) && !x.Out? && NextHop(g, f, x, y)
    ensures y.Out? ==> y.node == f
    ensures Hops(g, f, x) == Hops(g, f, y) + 1
  {
    if g.east == 1 {
      XYRule(g, f, x, y);
    } else {
      WestFirstRule(g, f, x, y);
    }
    RouterInRange(g, g.homes[f]);
  }

  ghost predicate FollowsTable(g: Layout, f: nat, path: seq<Switch>)
    requires Valid(g) && f < |g.homes|
  {
    && (forall i :: 0 <= i < |path| ==> IsSwitch(g, path[i]))
    && (forall i :: 0 <= i < |path| - 1 ==> !path[i].Out? && NextHop(g, f, path[i], path[i + 1]))
  }

  /** Every way a packet can take arrives after exactly the Manhattan number of hops. */
  lemma {:induction false} RouteLength(g: Layout, f: nat, path: seq<Switch>)
    requires Valid(g) && f < |g.homes| && FollowsTable(g, f, path)
    requires path != [] && path[|path| - 1] == Out(f)
    ensures path[0].Out? ==> path[0].node == f
    ensures |path| - 1 == Hops(g, f, path[0])
  {
    if |path| > 1 {
      assert NextHop(g, f, path[0], path[1]);
      NextHopIsNearer(g, f, path[0], path[1]);
      assert forall i :: 0 <= i < |path[1..]| ==> path[1..][i] == path[i + 1];
      RouteLength(g, f, path[1..]);
    }
  }

  /** And there is a way, from anywhere a packet can be. */
  lemma {:induction false} RouteArrives(g: Layout, f: nat, x: Switch) returns (path: seq<Switch>)
    requires Valid(g) && f < |g.homes| && IsSwitch(g, x) && (x.Out? ==> x.node == f)
    ensures FollowsTable(g, f, path)
    ensures path != [] && path[0] == x && path[|path| - 1] == Out(f)
    decreases Hops(g, f, x)
  {
    if x.Out? {
      path := [x];
    } else {
      var y := LeastProductive(g, f, x);
      NextHopIsNearer(g, f, x, y);
      var rest := RouteArrives(g, f, y);
      path := [x] + rest;
    }
  }

  // Ranks.

  /** XY: leaf routers, then columns in the direction of travel, then rows, then leaves. */
  ghost function XYRank(g: Layout, x: Switch, y: Switch): nat
    requires Valid(g) && IsSwitch(g, x) && IsSwitch(g, y)
  {
    match (x, y)
    case (In(_), _) => 0
    case (_, Out(_)) => 4 + g.cols + g.rows
    case (Leaf(_), _) => 1
    case (_, Leaf(_)) => 3 + g.cols + g.rows
    case (Cross(r, c), Cross(r', c')) =>
      if r == r' then (if c < c' then 2 + c else 2 + (g.cols - 1 - c))
      else (if r < r' then 2 + g.cols + r else 2 + g.cols + (g.rows - 1 - r))
    case _ => 0
  }

  ghost function ColumnBase(g: Layout, c: nat): nat {
    if c == 0 then 0 else ColumnBase(g, c - 1) + g.rows + 1
  }

  /** West-first: westward columns first, then column by column eastwards, the verticals of
      a column before its east links. */
  ghost function WestFirstRank(g: Layout, x: Switch, y: Switch): nat
    requires Valid(g) && IsSwitch(g, x) && IsSwitch(g, y)
  {
    match (x, y)
    case (In(_), _) => 0
    case (_, Out(_)) => 4 + g.cols + ColumnBase(g, g.cols)
    case (Leaf(_), _) => 1
    case (_, Leaf(_)) => 3 + g.cols + ColumnBase(g, g.cols)
    case (Cross(r, c), Cross(r', c')) =>
      if r == r' && c' < c then 2 + (g.cols - 1 - c)
      else 2 + g.cols + ColumnBase(g, c) + (if r == r' then g.rows else if r < r' then r else g.rows - 1 - r)
    case _ => 0
  }

  ghost function RankOf(g: Layout, x: Switch, y: Switch): nat
    requires Valid(g) && IsSwitch(g, x) && IsSwitch(g, y)
  {
    if g.east == 1 then XYRank(g, x, y) else WestFirstRank(g, x, y)
  }

  ghost function TopRank(g: Layout): nat {
    if g.east == 1 then 4 + g.cols + g.rows else 4 + g.cols + ColumnBase(g, g.cols)
  }

  /** One link can have to wait for another only if the other has a higher rank: packets
      never wait in a circle. */
  lemma {:induction false} XYDependencyClimbs(g: Layout, f: nat, x: Switch, y: Switch, z: Switch)
    requires Valid(g) && g.east == 1 && f < |g.homes|
    requires IsSwitch(g, x) && IsSwitch(g, y) && IsSwitch(g, z) && !x.Out? && !y.Out?
    requires LinkWeight(g, x, y) > 0 && (x.In? || NextHop(g, f, x, y)) && NextHop(g, f, y, z)
    ensures XYRank(g, x, y) < XYRank(g, y, z)
  {
    XYRule(g, f, x, y);
    XYRule(g, f, y, z);
    RouterInRange(g, g.homes[f]);
  }

  lemma {:induction false} WestFirstDependencyClimbs(g: Layout, f: nat, x: Switch, y: Switch, z: Switch)
    requires Valid(g) && g.east == 2 && f < |g.homes|
    requires IsSwitch(g, x) && IsSwitch(g, y) && IsSwitch(g, z) && !x.Out? && !y.Out?
    requires LinkWeight(g, x, y) > 0 && (x.In? || NextHop(g, f, x, y)) && NextHop(g, f, y, z)
    ensures WestFirstRank(g, x, y) < WestFirstRank(g, y, z)
  {
    WestFirstRule(g, f, y, z);
    if x.Cross? {
      WestFirstRule(g, f, x, y);
      if y.Cross? {
        WestFirstTurn(g, f, x, y, z);
      } else {
        WestFirstLeaves(g, f, x, y, z);
      }
    } else {
      FirstLinksAreLow(g, x, y, z);
    }
  }

  /** The way in comes before everything else. */
  lemma {:induction false} FirstLinksAreLow(g: Layout, x: Switch, y: Switch, z: Switch)
    requires Valid(g) && IsSwitch(g, x) && IsSwitch(g, y) && IsSwitch(g, z)
    requires (x.In? || x.Leaf?) && !y.Out? && LinkWeight(g, x, y) > 0 && LinkWeight(g, y, z) > 0
    ensures WestFirstRank(g, x, y) < WestFirstRank(g, y, z)
  {
  }

  /** From a mesh router to a leaf there is only the way out. */
  lemma {:induction false} WestFirstLeaves(g: Layout, f: nat, x: Switch, y: Switch, z: Switch)
    requires Valid(g) && f < |g.homes| && IsSwitch(g, x) && IsSwitch(g, y) && IsSwitch(g, z) && x.Cross? && y.Leaf?
    requires WestFirst(g, f, x, y) && WestFirst(g, f, y, z)
    ensures WestFirstRank(g, x, y) < WestFirstRank(g, y, z)
  {
    RouterInRange(g, g.homes[f]);
  }

  /** From one mesh link to whatever follows. */
  lemma {:induction false} WestFirstTurn(g: Layout, f: nat, x: Switch, y: Switch, z: Switch)
    requires Valid(g) && f < |g.homes| && IsSwitch(g, x) && IsSwitch(g, y) && IsSwitch(g, z) && x.Cross? && y.Cross?
    requires WestFirst(g, f, x, y) && WestFirst(g, f, y, z)
    ensures WestFirstRank(g, x, y) < WestFirstRank(g, y, z)
  {
    ColumnBases(g, x.col, g.cols);
    if z.Cross? {
      WestFirstMeshTurn(g, Anchor(g, f), x, y, z);
    }
  }

  /** y is where a packet for mesh router a may go from x, west first. */
  ghost predicate WestFirstOn(a: Switch, x: Switch, y: Switch)
    requires a.Cross? && x.Cross? && y.Cross?
  {
    if a.col < x.col then y.row == x.row && y.col == x.col - 1
    else
      || (x.col < a.col && y.row == x.row && y.col == x.col + 1)
      || (x.row < a.row && y.row == x.row + 1 && y.col == x.col)
      || (a.row < x.row && y.row == x.row - 1 && y.col == x.col)
  }

  lemma {:induction false} WestFirstMeshTurn(g: Layout, a: Switch, x: Switch, y: Switch, z: Switch)
    requires Valid(g) && IsSwitch(g, x) && IsSwitch(g, y) && IsSwitch(g, z) && a.Cross? && x.Cross? && y.Cross? && z.Cross?
    requires WestFirstOn(a, x, y) && WestFirstOn(a, y, z)
    ensures WestFirstRank(g, x, y) < WestFirstRank(g, y, z)
  {
    if x.col < y.col {
      ColumnBases(g, x.col, y.col);
    }
  }

  lemma {:induction false} ColumnBases(g: Layout, c: nat, c': nat)
    requires c < c'
    ensures ColumnBase(g, c) + g.rows + 1 <= ColumnBase(g, c')
  {
    if c + 1 < c' {
      ColumnBases(g, c, c' - 1);
    }
  }

  lemma {:induction false} RankBelowTop(g: Layout, x: Switch, y: Switch)
    requires Valid(g) && IsSwitch(g, x) && IsSwitch(g, y)
    ensures RankOf(g, x, y) <= TopRank(g)
  {
    if x.Cross? {
      ColumnBases(g, x.col, g.cols);
    }
  }

  /** A packet for f belongs on the link from x to y: it has just been injected there, or
      the table sent it there. */
  ghost predicate Belongs(g: Layout, f: nat, x: Switch, y: Switch)
    requires Valid(g) && f < |g.homes| && IsSwitch(g, x) && IsSwitch(g, y)
  {
    x.In? || (!x.Out? && Far(g, f, x) <= INFINITE_LATENCY && NextHop(g, f, x, y))
  }

  ghost function MeshRanking(g: Layout, edges: seq<Edge>): N.Ranking
    requires Valid(g)
  {
    N.Ranking(
      (c: nat, f: nat) =>
        c < |edges| && f < |g.homes| && EdgeFits(g, edges[c]) && Belongs(g, f, Decode(g, edges[c].src), Decode(g, edges[c].dst)),
      (c: nat) =>
        if c < |edges| && EdgeFits(g, edges[c]) then RankOf(g, Decode(g, edges[c].src), Decode(g, edges[c].dst)) else 0,
      TopRank(g))
  }

  ghost predicate MeshTables(g: Layout, edges: seq<Edge>, w: Matrix, d: Matrix) {
    && Tables(g, edges, w, d)
    && forall n :: 0 <= n < |g.homes| ==> Number(g, Out(n)) < |d|
  }

  /** A packet where it belongs is at its destination or has a route. */
  lemma {:induction false} BelongsHasRoute(g: Layout, edges: seq<Edge>, w: Matrix, d: Matrix, c: nat, f: nat)
    requires MeshTables(g, edges, w, d) && InReach(g) && c < |edges| && f < |g.homes|
    requires EdgeFits(g, edges[c]) && Belongs(g, f, Decode(g, edges[c].src), Decode(g, edges[c].dst))
    ensures var y := Decode(g, edges[c].dst);
            if y.Out? then y.node == f else HasRoute(edges, d, edges[c].dst, Number(g, Out(f)))
  {
    var x, y := Decode(g, edges[c].src), Decode(g, edges[c].dst);
    if y.Out? {
      NextHopIsNearer(g, f, x, y);
    } else {
      if x.In? {
        assert Reaches(g, x.node, f);
      }
      DecodeNumber(g, edges[c].dst);
      RouteExists(g, edges, w, d, f, y);
    }
  }

  lemma {:induction false} RouteClimbs(g: Layout, edges: seq<Edge>, w: Matrix, d: Matrix, c: nat, f: nat, to: nat)
    requires MeshTables(g, edges, w, d) && c < |edges| && f < |g.homes| && to < |edges|
    requires EdgeFits(g, edges[c]) && Belongs(g, f, Decode(g, edges[c].src), Decode(g, edges[c].dst))
    requires !Decode(g, edges[c].dst).Out?
    requires Candidate(edges, d, edges[c].dst, Number(g, Out(f)), to)
    ensures EdgeFits(g, edges[to]) && Belongs(g, f, Decode(g, edges[to].src), Decode(g, edges[to].dst))
    ensures RankOf(g, Decode(g, edges[c].src), Decode(g, edges[c].dst)) < RankOf(g, Decode(g, edges[to].src), Decode(g, edges[to].dst))
  {
    CandidateIsNextHop(g, edges, w, d, f, to);
    var x, y, z := Decode(g, edges[c].src), Decode(g, edges[c].dst), Decode(g, edges[to].dst);
    if g.east == 1 {
      XYDependencyClimbs(g, f, x, y, z);
    } else {
      WestFirstDependencyClimbs(g, f, x, y, z);
    }
  }

  /** In terms of the tables alone: a packet for f may sit on link c and want link c' next. */
  ghost predicate Waits(g: Layout, edges: seq<Edge>, d: Matrix, f: nat, c: nat, c': nat)
    requires Valid(g) && Square(d) && Within(edges, |d|)
    requires forall n :: 0 <= n < |g.homes| ==> Number(g, Out(n)) < |d|
  {
    && f < |g.homes| && c < |edges| && c' < |edges|
    && (edges[c].src < |g.homes| || Candidate(edges, d, edges[c].src, Number(g, Out(f)), c))
    && Candidate(edges, d, edges[c].dst, Number(g, Out(f)), c')
  }

  ghost function LinkRank(g: Layout, edges: seq<Edge>, c: nat): nat
    requires Valid(g) && c < |edges| && EdgeFits(g, edges[c])
  {
    RankOf(g, Decode(g, edges[c].src), Decode(g, edges[c].dst))
  }

  lemma {:induction false} WaitingClimbs(g: Layout, edges: seq<Edge>, w: Matrix, d: Matrix, f: nat, c: nat, c': nat)
    requires MeshTables(g, edges, w, d) && Waits(g, edges, d, f, c, c')
    ensures EdgeFits(g, edges[c]) && EdgeFits(g, edges[c'])
    ensures LinkRank(g, edges, c) < LinkRank(g, edges, c')
  {
    assert EdgeFits(g, edges[c]) && EdgeFits(g, edges[c']);
    CandidateIsNextHop(g, edges, w, d, f, c);
    CandidateIsNextHop(g, edges, w, d, f, c');
    NothingLeavesOut(g, edges[c]);
    NothingLeavesOut(g, edges[c']);
    RouteClimbs(g, edges, w, d, c, f, c');
  }

  lemma {:induction false} NothingLeavesOut(g: Layout, e: Edge)
    requires Valid(g) && EdgeFits(g, e)
    ensures !Decode(g, e.src).Out?
  {
  }

  /** Links never wait for each other in a circle: following the channel dependencies of the
      computed tables, whatever packets they are due to, never leads back, on every mesh and
      for every choice between links of equal weight. */
  lemma {:induction false} NoDependencyCycle(g: Layout, edges: seq<Edge>, w: Matrix, d: Matrix, dests: seq<nat>, chain: seq<nat>)
    requires MeshTables(g, edges, w, d)
    requires 2 <= |chain| == |dests| + 1
    requires forall i :: 0 <= i < |dests| ==> Waits(g, edges, d, dests[i], chain[i], chain[i + 1])
    ensures chain[0] != chain[|chain| - 1]
  {
    forall i | 0 <= i < |chain| - 1
      ensures MeshRanking(g, edges).rank(chain[i]) < MeshRanking(g, edges).rank(chain[i + 1])
    {
      assert Waits(g, edges, d, dests[i], chain[i], chain[i + 1]);
      WaitingClimbs(g, edges, w, d, dests[i], chain[i], chain[i + 1]);
    }
    RanksClimb(MeshRanking(g, edges), chain, |chain| - 1);
  }

  lemma {:induction false} RanksClimb(k: N.Ranking, chain: seq<nat>, n: nat)
    requires 1 <= n < |chain|
    requires forall i :: 0 <= i < |chain| - 1 ==> k.rank(chain[i]) < k.rank(chain[i + 1])
    ensures k.rank(chain[0]) < k.rank(chain[n])
  {
    if n > 1 {
      RanksClimb(k, chain, n - 1);
      assert k.rank(chain[n - 1]) < k.rank(chain[(n - 1) + 1]);
    }
  }

  /** The weights make routing climb: on every mesh whose controllers are in reach, with
      any leaf routers, any placement of controllers and any buffer sizes. */
  lemma {:induction false} MeshClimbs(g: Layout, edges: seq<Edge>, w: Matrix, d: Matrix, capacity: nat -> nat)
    requires MeshTables(g, edges, w, d) && InReach(g)
    requires forall c :: 0 <= c < |edges| ==> 1 <= capacity(c)
    ensures N.Climbs(MeshFabric(g, edges, d, capacity), MeshRanking(g, edges))
  {
    AllRanked(g, edges, w, d, capacity);
    AllLeadOn(g, edges, w, d, capacity);
    AllClimb(g, edges, w, d, capacity);
  }

  lemma {:induction false} AllRanked(g: Layout, edges: seq<Edge>, w: Matrix, d: Matrix, capacity: nat -> nat)
    requires MeshTables(g, edges, w, d)
    ensures var fab, k := MeshFabric(g, edges, d, capacity), MeshRanking(g, edges);
            && (forall c :: 0 <= c < fab.channels ==> k.rank(c) <= k.top)
            && (forall c, f :: 0 <= c < fab.channels && 0 <= f < fab.nodes && fab.entry(c) ==> k.legal(c, f))
  {
    var fab, k := MeshFabric(g, edges, d, capacity), MeshRanking(g, edges);
    forall c | 0 <= c < fab.channels
      ensures k.rank(c) <= k.top
    {
      assert EdgeFits(g, edges[c]);
      ChannelRanked(g, edges, d, capacity, c);
    }
    forall c, f | 0 <= c < fab.channels && 0 <= f < fab.nodes && fab.entry(c)
      ensures k.legal(c, f)
    {
      assert EdgeFits(g, edges[c]);
      ChannelRanked(g, edges, d, capacity, c);
    }
  }

  lemma {:induction false} AllLeadOn(g: Layout, edges: seq<Edge>, w: Matrix, d: Matrix, capacity: nat -> nat)
    requires MeshTables(g, edges, w, d) && InReach(g)
    ensures var fab, k := MeshFabric(g, edges, d, capacity), MeshRanking(g, edges);
            forall c, f :: 0 <= c < fab.channels && 0 <= f < fab.nodes && k.legal(c, f) ==> N.LeadsOn(fab, c, f)
  {
    var fab, k := MeshFabric(g, edges, d, capacity), MeshRanking(g, edges);
    forall c, f | 0 <= c < fab.channels && 0 <= f < fab.nodes && k.legal(c, f)
      ensures N.LeadsOn(fab, c, f)
    {
      LegalLeadsOn(g, edges, w, d, capacity, c, f);
    }
  }

  lemma {:induction false} AllClimb(g: Layout, edges: seq<Edge>, w: Matrix, d: Matrix, capacity: nat -> nat)
    requires MeshTables(g, edges, w, d)
    ensures var fab, k := MeshFabric(g, edges, d, capacity), MeshRanking(g, edges);
            forall c, f, to {:trigger fab.route(c, f, to)} ::
              0 <= c < fab.channels && 0 <= f < fab.nodes && 0 <= to < fab.channels && k.legal(c, f) && fab.exit(c).None? && fab.route(c, f, to)
              ==> k.legal(to, f) && k.rank(c) < k.rank(to)
  {
    var fab, k := MeshFabric(g, edges, d, capacity), MeshRanking(g, edges);
    forall c, f, to | 0 <= c < fab.channels && 0 <= f < fab.nodes && 0 <= to < fab.channels && k.legal(c, f) && fab.exit(c).None? && fab.route(c, f, to)
      ensures k.legal(to, f) && k.rank(c) < k.rank(to)
    {
      LegalClimbs(g, edges, w, d, capacity, c, f, to);
    }
  }

  lemma {:induction false} LegalLeadsOn(g: Layout, edges: seq<Edge>, w: Matrix, d: Matrix, capacity: nat -> nat, c: nat, f: nat)
    requires MeshTables(g, edges, w, d) && InReach(g) && c < |edges| && f < |g.homes|
    requires MeshRanking(g, edges).legal(c, f)
    ensures N.LeadsOn(MeshFabric(g, edges, d, capacity), c, f)
  {
    BelongsHasRoute(g, edges, w, d, c, f);
    ChannelLeadsOn(g, edges, d, capacity, c, f);
  }

  lemma {:induction false} LegalClimbs(g: Layout, edges: seq<Edge>, w: Matrix, d: Matrix, capacity: nat -> nat, c: nat, f: nat, to: nat)
    requires MeshTables(g, edges, w, d) && c < |edges| && f < |g.homes| && to < |edges|
    requires MeshRanking(g, edges).legal(c, f)
    requires var fab := MeshFabric(g, edges, d, capacity); fab.exit(c).None? && fab.route(c, f, to)
    ensures var k := MeshRanking(g, edges); k.legal(to, f) && k.rank(c) < k.rank(to)
  {
    RouteClimbs(g, edges, w, d, c, f, to);
  }

  lemma {:induction false} ChannelRanked(g: Layout, edges: seq<Edge>, d: Matrix, capacity: nat -> nat, c: nat)
    requires Valid(g) && Square(d) && Within(edges, |d|)
    requires forall n :: 0 <= n < |g.homes| ==> Number(g, Out(n)) < |d|
    requires c < |edges| && EdgeFits(g, edges[c])
    ensures MeshRanking(g, edges).rank(c) <= TopRank(g)
    ensures MeshFabric(g, edges, d, capacity).entry(c) ==> forall f :: 0 <= f < |g.homes| ==> MeshRanking(g, edges).legal(c, f)
  {
    RankBelowTop(g, Decode(g, edges[c].src), Decode(g, edges[c].dst));
  }

  lemma {:induction false} ChannelLeadsOn(g: Layout, edges: seq<Edge>, d: Matrix, capacity: nat -> nat, c: nat, f: nat)
    requires Valid(g) && Square(d) && Within(edges, |d|)
    requires forall n :: 0 <= n < |g.homes| ==> Number(g, Out(n)) < |d|
    requires c < |edges| && f < |g.homes|
    requires var y := Decode(g, edges[c].dst);
             if y.Out? then y.node == f else HasRoute(edges, d, edges[c].dst, Number(g, Out(f)))
    ensures N.LeadsOn(MeshFabric(g, edges, d, capacity), c, f)
  {
    var fab := MeshFabric(g, edges, d, capacity);
    if !Decode(g, edges[c].dst).Out? {
      var to :| 0 <= to < |edges| && Candidate(edges, d, edges[c].dst, Number(g, Out(f)), to);
      assert fab.exit(c).None?;
      assert fab.route(c, f, to);
    }
  }

  /** No deadlock on the mesh, in any state it can get into. */
  lemma {:induction false} MeshNeverDeadlocks(g: Layout, edges: seq<Edge>, w: Matrix, d: Matrix, capacity: nat -> nat, s: N.State)
    requires MeshTables(g, edges, w, d) && InReach(g)
    requires forall c :: 0 <= c < |edges| ==> 1 <= capacity(c)
    requires N.Reachable(MeshFabric(g, edges, d, capacity), s) && !N.Empty(s)
    ensures N.CanMove(MeshFabric(g, edges, d, capacity), s)
  {
    MeshClimbs(g, edges, w, d, capacity);
    N.ReachableProgress(MeshFabric(g, edges, d, capacity), MeshRanking(g, edges), s);
  }

  /** No livelock and no loss: once injection stops the mesh runs empty within boundedly
      many steps, whatever the order of the steps, and then every packet ever injected has
      been handed to the controller it was for. */
  lemma {:induction false} MeshDeliversEverything(g: Layout, edges: seq<Edge>, w: Matrix, d: Matrix, capacity: nat -> nat,
                               past: seq<N.Step>, s: N.State, steps: seq<N.Step>, t: N.State)
    requires MeshTables(g, edges, w, d) && InReach(g)
    requires forall c :: 0 <= c < |edges| ==> 1 <= capacity(c)
    requires var fab := MeshFabric(g, edges, d, capacity);
             N.Runs(fab, N.Quiet(fab), past, s) && N.Runs(fab, s, steps, t) && N.Draining(steps)
    ensures |steps| <= N.Work(MeshRanking(g, edges), s.buffers)
    ensures !N.CanMove(MeshFabric(g, edges, d, capacity), t) ==> N.Empty(t) && N.HandedOver(t.delivered) == N.Injected(past)
    ensures forall i :: 0 <= i < |t.delivered| ==> t.delivered[i].0 == t.delivered[i].1.dest
  {
    MeshClimbs(g, edges, w, d, capacity);
    N.EverythingArrives(MeshFabric(g, edges, d, capacity), MeshRanking(g, edges), past, s, steps, t);
  }

  /** Whatever the buffer sizes, no reachable state that holds a packet is stuck. */
  ghost predicate DeadlockFree(g: Layout, edges: seq<Edge>, w: Matrix, d: Matrix)
    requires MeshTables(g, edges, w, d)
  {
    forall capacity: nat -> nat, s: N.State {:trigger N.Reachable(MeshFabric(g, edges, d, capacity), s)} ::
      ((forall c :: 0 <= c < |edges| ==> 1 <= capacity(c))
        && N.Reachable(MeshFabric(g, edges, d, capacity), s) && !N.Empty(s))
      ==> N.CanMove(MeshFabric(g, edges, d, capacity), s)
  }

  lemma {:induction false} InReachIsDeadlockFree(g: Layout, edges: seq<Edge>, w: Matrix, d: Matrix)
    requires MeshTables(g, edges, w, d) && InReach(g)
    ensures DeadlockFree(g, edges, w, d)
  {
    forall capacity: nat -> nat, s: N.State |
      && (forall c :: 0 <= c < |edges| ==> 1 <= capacity(c))
      && N.Reachable(MeshFabric(g, edges, d, capacity), s) && !N.Empty(s)
      ensures N.CanMove(MeshFabric(g, edges, d, capacity), s)
    {
      MeshNeverDeadlocks(g, edges, w, d, capacity, s);
    }
  }

  /** Out of reach, a single packet is enough: it is stuck on the link it was injected into. */
  lemma {:induction false} OutOfReachSticks(g: Layout, edges: seq<Edge>, w: Matrix, d: Matrix, n: nat, f: nat)
    requires MeshTables(g, edges, w, d) && n < |g.homes| && f < |g.homes| && !Reaches(g, n, f)
    ensures !DeadlockFree(g, edges, w, d)
  {
    RouterInRange(g, g.homes[n]);
    var x := Home(g, n);
    var c := EdgeBetween(g, edges, In(n), x);
    NumberDecode(g, In(n));
    NumberDecode(g, x);
    RouteExists(g, edges, w, d, f, x);
    var capacity := (_: nat) => 1;
    NoWayOn(g, edges, d, capacity, c, f);
    var s := N.StuckAtOnce(MeshFabric(g, edges, d, capacity), c, N.Packet(0, f));
    assert N.Reachable(MeshFabric(g, edges, d, capacity), s);
  }

  lemma {:induction false} NoWayOn(g: Layout, edges: seq<Edge>, d: Matrix, capacity: nat -> nat, c: nat, f: nat)
    requires Valid(g) && Square(d) && Within(edges, |d|)
    requires forall n :: 0 <= n < |g.homes| ==> Number(g, Out(n)) < |d|
    requires c < |edges| && f < |g.homes| && Decode(g, edges[c].src).In? && !Decode(g, edges[c].dst).Out?
    requires !HasRoute(edges, d, edges[c].dst, Number(g, Out(f)))
    ensures var fab := MeshFabric(g, edges, d, capacity);
            fab.entry(c) && fab.exit(c).None? && forall to: nat :: to < fab.channels ==> !fab.route(c, f, to)
  {
  }

  /** The network is free of deadlock if and only if every controller is in reach of every
      other. */
  lemma {:induction false} DeadlockFreeExactly(g: Layout, edges: seq<Edge>, w: Matrix, d: Matrix)
    requires MeshTables(g, edges, w, d)
    ensures DeadlockFree(g, edges, w, d) <==> InReach(g)
  {
    if InReach(g) {
      InReachIsDeadlockFree(g, edges, w, d);
    } else {
      var n, f :| 0 <= n < |g.homes| && 0 <= f < |g.homes| && !Reaches(g, n, f);
      OutOfReachSticks(g, edges, w, d, n, f);
    }
  }
}
