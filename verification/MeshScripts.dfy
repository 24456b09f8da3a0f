/** The topology scripts: the loops that emit routers, links and link ids. */
module MeshScripts {
  import opened Options
  import opened Arithmetic
  import opened ShortestPaths
  import opened Topology
  import opened MeshLayout
  import opened MeshRouting
  import opened MeshBuild
  import opened MeshDeadlock
  import opened NodeShares

  // The four loop nests that all mesh scripts share.

  ghost predicate HorizontalsSoFar(links: seq<IntLink>, rows: nat, cols: nat, first: nat, eastward: bool, weight: nat)
    requires 1 <= cols
  {
    && |links| <= Horizontals(rows, cols)
    && forall k :: 0 <= k < |links| ==>
         links[k].linkId == first + k && SameLink(links[k], Horizontal(rows, cols, eastward, weight, k))
  }

  ghost predicate VerticalsSoFar(links: seq<IntLink>, rows: nat, cols: nat, first: nat, northward: bool, weight: nat)
    requires 1 <= rows
  {
    && |links| <= Verticals(rows, cols)
    && forall k :: 0 <= k < |links| ==>
         links[k].linkId == first + k && SameLink(links[k], Vertical(rows, cols, northward, weight, k))
  }

  method AddHorizontal(rows: nat, cols: nat, first: nat, eastward: bool, weight: nat) returns (links: seq<IntLink>)
    requires 1 <= cols
    ensures |links| == Horizontals(rows, cols)
    ensures HorizontalsSoFar(links, rows, cols, first, eastward, weight)
  {
    links := [];
    for row := 0 to rows
      invariant |links| == row * (cols - 1)
      invariant HorizontalsSoFar(links, rows, cols, first, eastward, weight)
    {
      TimesMonotone(row + 1, rows, cols - 1);
      for col := 0 to cols
        invariant |links| == row * (cols - 1) + (if col < cols then col else cols - 1)
        invariant HorizontalsSoFar(links, rows, cols, first, eastward, weight)
      {
        if col + 1 < cols {
          var west, east := Id(cols, row, col), Id(cols, row, col + 1);
          var link := if eastward then IntLink(first + |links|, west, east, weight)
                      else IntLink(first + |links|, east, west, weight);
          HorizontalCell(rows, cols, row, col, eastward, weight);
          links := links + [link];
        }
      }
    }
  }

  method AddVertical(rows: nat, cols: nat, first: nat, northward: bool, weight: nat) returns (links: seq<IntLink>)
    requires 1 <= rows
    ensures |links| == Verticals(rows, cols)
    ensures VerticalsSoFar(links, rows, cols, first, northward, weight)
  {
    links := [];
    for col := 0 to cols
      invariant |links| == col * (rows - 1)
      invariant VerticalsSoFar(links, rows, cols, first, northward, weight)
    {
      TimesMonotone(col + 1, cols, rows - 1);
      for row := 0 to rows
        invariant |links| == col * (rows - 1) + (if row < rows then row else rows - 1)
        invariant VerticalsSoFar(links, rows, cols, first, northward, weight)
      {
        if row + 1 < rows {
          var south, north := Id(cols, row, col), Id(cols, row + 1, col);
          var link := if northward then IntLink(first + |links|, south, north, weight)
                      else IntLink(first + |links|, north, south, weight);
          VerticalCell(rows, cols, row, col, northward, weight);
          links := links + [link];
        }
      }
    }
  }

  /** East, west, north and south links, numbered on from `first`. */
  method MakeMesh(rows: nat, cols: nat, first: nat, east: nat) returns (links: seq<IntLink>)
    requires 1 <= rows && 1 <= cols
    ensures |links| == MeshLinkCount(rows, cols)
    ensures forall k :: 0 <= k < |links| ==>
              links[k].linkId == first + k && SameLink(links[k], MeshLink(rows, cols, east, k))
  {
    var e := AddHorizontal(rows, cols, first, true, east);
    var w := AddHorizontal(rows, cols, first + |e|, false, 1);
    var n := AddVertical(rows, cols, first + |e| + |w|, true, 2);
    var s := AddVertical(rows, cols, first + |e| + |w| + |n|, false, 2);
    links := e + w + n + s;
    var h, v := |e|, |n|;
    forall k | 0 <= k < |links|
      ensures links[k].linkId == first + k && SameLink(links[k], MeshLink(rows, cols, east, k))
    {
      if k < h {
        assert links[k] == e[k];
      } else if k < 2 * h {
        assert links[k] == w[k - h];
      } else if k < 2 * h + v {
        assert links[k] == n[k - 2 * h];
      } else {
        assert links[k] == s[k - 2 * h - v];
      }
    }
  }

  // Mesh_XY and Mesh_westfirst.

  /** All a mesh script looks at in a controller. */
  datatype Controller = Controller(isDma: bool)

  /** What the scripts' assertions let through. */
  predicate Accepts(nodes: seq<Controller>, numRouters: nat, numRows: nat) {
    && 0 < numRows <= numRouters
    && (numRouters / numRows) * numRows == numRouters
    && forall i :: |nodes| - |nodes| % numRouters <= i < |nodes| ==> 0 <= i && nodes[i].isDma
  }

  /** Without controllers of the kind that may be left over, a mesh is built if and only if the
      rows make a full grid and every router gets equally many. */
  lemma {:induction false} AcceptsEvenOnly(nodes: seq<Controller>, numRouters: nat, numRows: nat)
    requires forall i :: 0 <= i < |nodes| ==> !nodes[i].isDma
    ensures Accepts(nodes, numRouters, numRows)
       <==> 0 < numRows <= numRouters && numRouters % numRows == 0 && |nodes| % numRouters == 0
  {
    if 0 < numRows <= numRouters {
      DivModParts(numRouters, numRows);
      DivModParts(|nodes|, numRouters);
      if |nodes| % numRouters > 0 {
        TimesMonotone(0, |nodes| / numRouters, numRouters);
        assert !nodes[|nodes| - 1].isDma;
      }
    }
  }

  /** With such controllers only, the grid is all that is asked for. */
  lemma {:induction false} AcceptsAnyDma(nodes: seq<Controller>, numRouters: nat, numRows: nat)
    requires forall i :: 0 <= i < |nodes| ==> nodes[i].isDma
    ensures Accepts(nodes, numRouters, numRows) <==> 0 < numRows <= numRouters && numRouters % numRows == 0
  {
    if 0 < numRows <= numRouters {
      DivModParts(numRouters, numRows);
      DivModParts(|nodes|, numRouters);
      TimesMonotone(0, |nodes| / numRouters, numRouters);
    }
  }

  /** Controllers are dealt out to the routers in turn; what is left over goes to router 0. */
  ghost function PlainLayout(count: nat, numRouters: nat, numRows: nat, east: nat): Layout
    requires 0 < numRows <= numRouters
  {
    Layout(numRows, numRouters / numRows, east, [],
      seq(count, i requires 0 <= i < count => HomeOf(count, numRouters, i)))
  }

  lemma {:induction false} PlainLayoutValid(count: nat, numRouters: nat, numRows: nat, east: nat)
    requires 0 < numRows <= numRouters && (numRouters / numRows) * numRows == numRouters && 1 <= east <= 2
    ensures Valid(PlainLayout(count, numRouters, numRows, east))
  {
    var cols := numRouters / numRows;
    assert cols == 0 ==> cols * numRows == 0;
    assert numRows * cols == cols * numRows;
  }

  /** Builds the mesh of Mesh_XY (east links of weight 1) or of Mesh_westfirst (weight 2).
      Link ids count the external links first, then the internal ones. */
  method MakeTopology(nodes: seq<Controller>, numRouters: nat, numRows: nat, east: nat)
    returns (r: Option<(seq<ExtLink>, seq<IntLink>)>)
    requires 1 <= east <= 2
    ensures r.Some? <==> Accepts(nodes, numRouters, numRows)
    ensures r.Some? ==>
              var g := PlainLayout(|nodes|, numRouters, numRows, east);
              && Valid(g)
              && BuiltAs(g, r.value.0, r.value.1)
              && (forall i :: 0 <= i < |r.value.0| ==> r.value.0[i].linkId == i)
              && (forall k :: 0 <= k < |r.value.1| ==> r.value.1[k].linkId == |nodes| + k)
  {
    if numRouters == 0 || !(0 < numRows <= numRouters) {
      return None;
    }
    var cols := numRouters / numRows;
    if cols * numRows != numRouters {
      return None;
    }
    PlainLayoutValid(|nodes|, numRouters, numRows, east);
    var dealt := DealOut(|nodes|, numRouters);
    var ext := AttachRemainder(nodes, numRouters, dealt);
    if ext.None? {
      return None;
    }
    var ints := MakeMesh(numRows, cols, |ext.value|, east);
    HomesAsLinked(ext.value, |nodes|, numRouters, numRows, east);
    r := Some((ext.value, ints));
  }

  /** The router for controller i: in turn, or router 0 for what is left over. */
  function HomeOf(count: nat, numRouters: nat, i: nat): nat
    requires 0 < numRouters
  {
    if i < count - count % numRouters then i % numRouters else 0
  }

  /** External links of the first controllers, with ids in order. */
  ghost predicate Attached(ext: seq<ExtLink>, count: nat, numRouters: nat)
    requires 0 < numRouters
  {
    forall j :: 0 <= j < |ext| ==> ext[j] == ExtLink(j, j, HomeOf(count, numRouters, j))
  }

  method DealOut(count: nat, numRouters: nat) returns (ext: seq<ExtLink>)
    requires 0 < numRouters
    ensures |ext| == count - count % numRouters && Attached(ext, count, numRouters)
  {
    var perRouter, remainder := count / numRouters, count % numRouters;
    DivModParts(count, numRouters);
    ext := [];
    for i := 0 to count - remainder
      invariant |ext| == i && Attached(ext, count, numRouters)
    {
      assert i / numRouters < perRouter by {
        GridIndex(i, perRouter, numRouters);
      }
      ext := ext + [ExtLink(|ext|, i, i % numRouters)];
    }
  }

  /** Fails exactly when a left-over controller is not a DMA one. */
  method AttachRemainder(nodes: seq<Controller>, numRouters: nat, dealt: seq<ExtLink>) returns (r: Option<seq<ExtLink>>)
    requires 0 < numRouters && |dealt| == |nodes| - |nodes| % numRouters && Attached(dealt, |nodes|, numRouters)
    ensures r.Some? <==> forall i :: |dealt| <= i < |nodes| ==> nodes[i].isDma
    ensures r.Some? ==> |r.value| == |nodes| && Attached(r.value, |nodes|, numRouters)
  {
    var ext := dealt;
    while |ext| < |nodes|
      invariant |dealt| <= |ext| <= |nodes| && Attached(ext, |nodes|, numRouters)
      invariant forall j :: |dealt| <= j < |ext| ==> nodes[j].isDma
    {
      if !nodes[|ext|].isDma {
        return None;
      }
      ext := ext + [ExtLink(|ext|, |ext|, 0)];
    }
    r := Some(ext);
  }

  lemma {:induction false} HomesAsLinked(ext: seq<ExtLink>, count: nat, numRouters: nat, numRows: nat, east: nat)
    requires 0 < numRows <= numRouters && |ext| == count && Attached(ext, count, numRouters)
    ensures var g := PlainLayout(count, numRouters, numRows, east);
            && |ext| == |g.homes|
            && forall n :: 0 <= n < |ext| ==> ext[n].linkId == n && ext[n].node == n && ext[n].router == g.homes[n]
  {
  }

  // How many controllers a router has.

  ghost function Homes(count: nat, numRouters: nat): (r: seq<nat>)
    requires 0 < numRouters
    ensures |r| == count && forall i :: 0 <= i < count ==> r[i] == HomeOf(count, numRouters, i)
  {
    seq(count, i requires 0 <= i < count => HomeOf(count, numRouters, i))
  }

  ghost function AllRouters(n: nat): (r: seq<nat>)
    ensures |r| == n && forall i :: 0 <= i < n ==> r[i] == i
  {
    seq(n, i requires 0 <= i < n => i)
  }

  lemma {:induction false} DealtPart(count: nat, numRouters: nat, r: nat)
    requires 0 < numRouters && r < numRouters
    ensures NodesOn(Homes(count, numRouters), count - count % numRouters, r) == Quotient(count, numRouters)
  {
    var dealt, all := count - count % numRouters, AllRouters(numRouters);
    var at := Homes(count, numRouters)[..dealt];
    DivModParts(count, numRouters);
    DivModUnique(dealt, numRouters, count / numRouters, 0);
    assert InTurn(all, at);
    TurnCount(all, at, dealt, r);
    assert at[..dealt] == at && all[r] == r;
  }

  lemma {:induction false} LeftOvers(count: nat, numRouters: nat, n: nat, r: nat)
    requires 0 < numRouters && count - count % numRouters <= n <= count
    ensures var homes, dealt := Homes(count, numRouters), count - count % numRouters;
            NodesOn(homes, n, r) == NodesOn(homes, dealt, r) + if r == 0 then n - dealt else 0
  {
    if n > count - count % numRouters {
      LeftOvers(count, numRouters, n - 1, r);
      NodesOnNext(Homes(count, numRouters), n - 1, r);
    }
  }

  /** Every router has this many controllers, but for router 0, which has the left-over ones
      too; all others are dealt out one each, round and round. */
  ghost predicate SharedOut(homes: seq<nat>, numRouters: nat, each: nat, left: nat) {
    && |homes| == each * numRouters + left
    && (forall r :: 0 <= r < numRouters ==> NodesOn(homes, |homes|, r) == each + if r == 0 then left else 0)
    && left <= |homes| && BalancedTurns(AllRouters(numRouters), homes[..|homes| - left])
  }

  lemma {:induction false} ControllersOn(count: nat, numRouters: nat, numRows: nat, east: nat)
    requires 0 < numRows <= numRouters
    ensures SharedOut(PlainLayout(count, numRouters, numRows, east).homes, numRouters, count / numRouters, count % numRouters)
  {
    var homes := PlainLayout(count, numRouters, numRows, east).homes;
    assert homes == Homes(count, numRouters);
    HomesShared(homes, numRouters, count / numRouters, count % numRouters);
  }

  lemma {:induction false} HomesShared(homes: seq<nat>, numRouters: nat, each: nat, left: nat)
    requires 0 < numRouters && homes == Homes(|homes|, numRouters) && each == |homes| / numRouters && left == |homes| % numRouters
    ensures SharedOut(homes, numRouters, each, left)
  {
    var count := |homes|;
    DivModParts(count, numRouters);
    forall r | 0 <= r < numRouters
      ensures NodesOn(homes, count, r) == each + if r == 0 then left else 0
    {
      DealtPart(count, numRouters, r);
      LeftOvers(count, numRouters, count, r);
    }
    TurnsAreBalanced(AllRouters(numRouters), homes[..count - left]);
  }

  // From the scripts to the guarantees.

  /** The links of a script never join the same two switches twice, so the topology accepts
      them, and the tables it computes are those of the layout. */
  method RouteTables(ghost g: Layout, nodes: nat, ext: seq<ExtLink>, ints: seq<IntLink>)
    returns (edges: seq<Edge>, w: Matrix, d: Matrix)
    requires Valid(g) && nodes == |g.homes| && BuiltAs(g, ext, ints)
    ensures edges == Edges(nodes, ext, ints)
    ensures MeshTables(g, edges, w, d)
  {
    ScriptsBuildLayout(g, ext, ints);
    var weights;
    edges, weights, d := CreateLinks(nodes, ext, ints);
    w := weights.value;
    forall n | 0 <= n < |g.homes|
      ensures Number(g, Out(n)) < |d|
    {
      HomeInRange(g, edges, w, n);
    }
  }

  /** The way from one corner of a mesh to the opposite one, in link weights. */
  ghost function Diagonal(g: Layout): nat
    requires Valid(g)
  {
    Across(g, 0, g.cols - 1) + Along(0, g.rows - 1)
  }

  /** No mesh router is further from another than the diagonal. */
  lemma {:induction false} DiagonalIsLongest(g: Layout, n: nat, f: nat)
    requires Valid(g) && n < |g.homes| && f < |g.homes|
    ensures IsSwitch(g, Home(g, n))
    ensures Far(g, f, Home(g, n)) <= Diagonal(g) + (if Home(g, n).Leaf? then 1 else 0) + (if Home(g, f).Leaf? then 2 else 1)
  {
    RouterInRange(g, g.homes[n]);
    RouterInRange(g, g.homes[f]);
    if Home(g, n).Leaf? {
      RouterInRange(g, g.parents[Home(g, n).index]);
    }
  }

  /** With a controller on every router, controller 0 sits in one corner and the last one of
      the first round in the opposite corner. */
  lemma {:induction false} Corners(count: nat, numRouters: nat, numRows: nat, east: nat)
    requires 0 < numRows <= numRouters && (numRouters / numRows) * numRows == numRouters && 1 <= east <= 2
    requires numRouters <= count
    ensures var g := PlainLayout(count, numRouters, numRows, east);
            && Valid(g)
            && Home(g, 0) == Cross(0, 0)
            && Home(g, numRouters - 1) == Cross(g.rows - 1, g.cols - 1)
  {
    PlainLayoutValid(count, numRouters, numRows, east);
    var g := PlainLayout(count, numRouters, numRows, east);
    FirstRound(count, numRouters);
    assert g.homes[0] == 0 && g.homes[numRouters - 1] == numRouters - 1;
    CellOf(g, 0, 0, 0);
    LastCell(g.rows, g.cols, numRouters);
    CellOf(g, numRouters - 1, g.rows - 1, g.cols - 1);
  }

  lemma {:induction false} CellOf(g: Layout, id: nat, row: nat, col: nat)
    requires Valid(g) && row < g.rows && col < g.cols && id == row * g.cols + col
    ensures Router(g, id) == Cross(row, col)
  {
    GridCell(row, col, g.rows, g.cols);
  }

  lemma {:induction false} FirstRound(count: nat, n: nat)
    requires 1 <= n <= count
    ensures n <= count - count % n && 0 % n == 0 && (n - 1) % n == n - 1
  {
    DivModParts(count, n);
    TimesMonotone(1, count / n, n);
    DivModUnique(0, n, 0, 0);
    DivModUnique(n - 1, n, 0, n - 1);
  }

  lemma {:induction false} LastCell(rows: nat, cols: nat, n: nat)
    requires n == cols * rows && 1 <= rows && 1 <= cols
    ensures n - 1 == (rows - 1) * cols + (cols - 1)
  {
  }

  /** The exact limit of the plain meshes: with a controller on every router, the table
      finds all routes if and only if the diagonal, and the controller link at its end,
      weigh no more than the number that stands for infinity. */
  lemma {:induction false} PlainReach(count: nat, numRouters: nat, numRows: nat, east: nat)
    requires 0 < numRows <= numRouters && (numRouters / numRows) * numRows == numRouters && 1 <= east <= 2
    requires numRouters <= count
    ensures Valid(PlainLayout(count, numRouters, numRows, east))
    ensures var g := PlainLayout(count, numRouters, numRows, east);
            InReach(g) <==> Diagonal(g) + 1 <= INFINITE_LATENCY
  {
    Corners(count, numRouters, numRows, east);
    var g := PlainLayout(count, numRouters, numRows, east);
    if InReach(g) {
      assert Reaches(g, 0, numRouters - 1);
    }
    if Diagonal(g) + 1 <= INFINITE_LATENCY {
      forall n, f | 0 <= n < |g.homes| && 0 <= f < |g.homes|
        ensures Reaches(g, n, f)
      {
        RouterInRange(g, g.homes[n]);
        RouterInRange(g, g.homes[f]);
        DiagonalIsLongest(g, n, f);
      }
    }
  }

  /** The same limit in numbers: each step east weighs `east`, each step north or south 2, and
      what stands for infinity is 10000. */
  lemma {:induction false} ReachInNumbers(count: nat, rows: nat, cols: nat, east: nat)
    requires 1 <= rows && 1 <= cols && rows * cols <= count && 1 <= east <= 2
    ensures rows * cols / rows == cols && rows <= rows * cols && Valid(PlainLayout(count, rows * cols, rows, east))
    ensures InReach(PlainLayout(count, rows * cols, rows, east)) <==> east * (cols - 1) + 2 * (rows - 1) < 10000
  {
    Commute(rows, cols);
    DivModUnique(rows * cols, rows, cols, 0);
    TimesMonotone(1, cols, rows);
    PlainReach(count, rows * cols, rows, east);
  }

  /** From the script's arguments to a network that, with all controllers in reach of each
      other and only then, never deadlocks. */
  method RoutedMesh(nodes: seq<Controller>, numRouters: nat, numRows: nat, east: nat)
    returns (r: Option<(seq<Edge>, Matrix, Matrix)>)
    requires 1 <= east <= 2
    ensures r.Some? <==> Accepts(nodes, numRouters, numRows)
    ensures r.Some? ==>
              var g := PlainLayout(|nodes|, numRouters, numRows, east);
              && MeshTables(g, r.value.0, r.value.1, r.value.2)
              && (DeadlockFree(g, r.value.0, r.value.1, r.value.2) <==> InReach(g))
  {
    var built := MakeTopology(nodes, numRouters, numRows, east);
    if built.None? {
      return None;
    }
    ghost var g := PlainLayout(|nodes|, numRouters, numRows, east);
    var edges, w, d := RouteTables(g, |nodes|, built.value.0, built.value.1);
    DeadlockFreeExactly(g, edges, w, d);
    r := Some((edges, w, d));
  }

  /** A mesh of one row that is too long: its corner routers have no route to each other. */
  lemma {:induction false} LongRowOutOfReach(edges: seq<Edge>, w: Matrix, d: Matrix)
    requires MeshTables(PlainLayout(10001, 10001, 1, 1), edges, w, d)
    ensures !InReach(PlainLayout(10001, 10001, 1, 1)) && !DeadlockFree(PlainLayout(10001, 10001, 1, 1), edges, w, d)
  {
    PlainReach(10001, 10001, 1, 1);
    DeadlockFreeExactly(PlainLayout(10001, 10001, 1, 1), edges, w, d);
  }

  /** One router less, and everything is in reach. */
  lemma {:induction false} LongestRowInReach(edges: seq<Edge>, w: Matrix, d: Matrix)
    requires MeshTables(PlainLayout(10000, 10000, 1, 1), edges, w, d)
    ensures InReach(PlainLayout(10000, 10000, 1, 1)) && DeadlockFree(PlainLayout(10000, 10000, 1, 1), edges, w, d)
  {
    PlainReach(10000, 10000, 1, 1);
    DeadlockFreeExactly(PlainLayout(10000, 10000, 1, 1), edges, w, d);
  }
}
