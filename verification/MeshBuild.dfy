/** What the topology scripts build: where each link stands in the list, and that the list
    is a link list of the intended layout. */
module MeshBuild {
  import opened Arithmetic
  import opened Topology
  import opened MeshLayout

  /** The number of links in each horizontal, and in each vertical, direction. */
  function Horizontals(rows: nat, cols: nat): nat
    requires 1 <= cols
  {
    rows * (cols - 1)
  }

  function Verticals(rows: nat, cols: nat): nat
    requires 1 <= rows
  {
    cols * (rows - 1)
  }

  /** The id of the router in a row and column. */
  function Id(cols: nat, row: nat, col: nat): nat {
    col + row * cols
  }

  /** The k-th link between horizontal neighbours, row by row: eastward or westward. */
  function Horizontal(rows: nat, cols: nat, eastward: bool, weight: nat, k: nat): Edge
    requires 1 <= cols && k < Horizontals(rows, cols)
  {
    GridIndex(k, rows, cols - 1);
    var row, col := k / (cols - 1), k % (cols - 1);
    var west, east := Id(cols, row, col), Id(cols, row, col + 1);
    if eastward then Edge(west, east, weight) else Edge(east, west, weight)
  }

  /** The k-th link between vertical neighbours, column by column: northward or southward. */
  function Vertical(rows: nat, cols: nat, northward: bool, weight: nat, k: nat): Edge
    requires 1 <= rows && k < Verticals(rows, cols)
  {
    GridIndex(k, cols, rows - 1);
    var col, row := k / (rows - 1), k % (rows - 1);
    var south, north := Id(cols, row, col), Id(cols, row + 1, col);
    if northward then Edge(south, north, weight) else Edge(north, south, weight)
  }

  lemma {:induction false} HorizontalCell(rows: nat, cols: nat, row: nat, col: nat, eastward: bool, weight: nat)
    requires row < rows && col + 1 < cols
    ensures var k := row * (cols - 1) + col;
            var west, east := Id(cols, row, col), Id(cols, row, col + 1);
            && k < Horizontals(rows, cols)
            && Horizontal(rows, cols, eastward, weight, k) == if eastward then Edge(west, east, weight) else Edge(east, west, weight)
  {
    GridCell(row, col, rows, cols - 1);
  }

  lemma {:induction false} VerticalCell(rows: nat, cols: nat, row: nat, col: nat, northward: bool, weight: nat)
    requires row + 1 < rows && col < cols
    ensures var k := col * (rows - 1) + row;
            var south, north := Id(cols, row, col), Id(cols, row + 1, col);
            && k < Verticals(rows, cols)
            && Vertical(rows, cols, northward, weight, k) == if northward then Edge(south, north, weight) else Edge(north, south, weight)
  {
    GridCell(col, row, cols, rows - 1);
  }

  function MeshLinkCount(rows: nat, cols: nat): nat
    requires 1 <= rows && 1 <= cols
  {
    2 * Horizontals(rows, cols) + 2 * Verticals(rows, cols)
  }

  /** The k-th link of the mesh, between router ids: east, west, north, south. */
  function MeshLink(rows: nat, cols: nat, east: nat, k: nat): Edge
    requires 1 <= rows && 1 <= cols && k < MeshLinkCount(rows, cols)
  {
    var h, v := Horizontals(rows, cols), Verticals(rows, cols);
    if k < h then Horizontal(rows, cols, true, east, k)
    else if k < 2 * h then Horizontal(rows, cols, false, 1, k - h)
    else if k < 2 * h + v then Vertical(rows, cols, true, 2, k - 2 * h)
    else Vertical(rows, cols, false, 2, k - 2 * h - v)
  }

  /** The link list of a layout: the mesh, then both directions of each leaf router's link. */
  ghost function LayoutLink(g: Layout, k: nat): Edge
    requires 1 <= g.rows && 1 <= g.cols && k < MeshLinkCount(g.rows, g.cols) + 2 * |g.parents|
  {
    var m := MeshLinkCount(g.rows, g.cols);
    if k < m then MeshLink(g.rows, g.cols, g.east, k)
    else
      var leaf := (k - m) / 2;
      var id := g.rows * g.cols + leaf;
      if (k - m) % 2 == 0 then Edge(id, g.parents[leaf], 1) else Edge(g.parents[leaf], id, 1)
  }

  ghost predicate SameLink(l: IntLink, e: Edge) {
    l.src == e.src && l.dst == e.dst && l.weight == e.weight
  }

  /** The scripts' lists: internal links in the order above, controller n on `homes[n]`. */
  ghost predicate BuiltAs(g: Layout, ext: seq<ExtLink>, ints: seq<IntLink>)
    requires Valid(g)
  {
    && |ext| == |g.homes|
    && (forall n :: 0 <= n < |ext| ==> ext[n].node == n && ext[n].router == g.homes[n])
    && |ints| == MeshLinkCount(g.rows, g.cols) + 2 * |g.parents|
    && (forall k :: 0 <= k < |ints| ==> SameLink(ints[k], LayoutLink(g, k)))
  }

  /** Where the link from x to y stands among the directed links. */
  ghost function Position(g: Layout, x: Switch, y: Switch): int
    requires Valid(g)
  {
    var h, v := Horizontals(g.rows, g.cols), Verticals(g.rows, g.cols);
    var mesh := 2 * |g.homes|;
    match (x, y)
    case (In(n), _) => 2 * n
    case (_, Out(n)) => 2 * n + 1
    case (Cross(r, c), Cross(r', c')) =>
      if r == r' then
        if c < c' then mesh + r * (g.cols - 1) + c
        else mesh + h + r * (g.cols - 1) + c'
      else
        if r < r' then mesh + 2 * h + c * (g.rows - 1) + r
        else mesh + 2 * h + v + c * (g.rows - 1) + r'
    case (Leaf(k), _) => mesh + 2 * h + 2 * v + 2 * k
    case (_, Leaf(k)) => mesh + 2 * h + 2 * v + 2 * k + 1
    case _ => -1
  }

  /** The edge from x to y of layout g. */
  ghost function EdgeFor(g: Layout, x: Switch, y: Switch): Edge
    requires Valid(g) && IsSwitch(g, x) && IsSwitch(g, y)
  {
    Edge(Number(g, x), Number(g, y), LinkWeight(g, x, y))
  }

  /** Every edge of the list joins two linked switches and stands at their position. */
  ghost predicate WellPlaced(g: Layout, e: Edge, k: nat)
    requires Valid(g)
  {
    exists x, y ::
      && IsSwitch(g, x) && IsSwitch(g, y) && LinkWeight(g, x, y) > 0
      && e == EdgeFor(g, x, y) && Position(g, x, y) == k
  }

  ghost function Shifted(g: Layout, e: Edge): Edge {
    Edge(2 * |g.homes| + e.src, 2 * |g.homes| + e.dst, e.weight)
  }

  lemma {:induction false} HorizontalPlaced(g: Layout, eastward: bool, k: nat)
    requires Valid(g) && k < Horizontals(g.rows, g.cols)
    ensures var e := Horizontal(g.rows, g.cols, eastward, if eastward then g.east else 1, k);
            WellPlaced(g, Shifted(g, e), 2 * |g.homes| + (if eastward then k else Horizontals(g.rows, g.cols) + k))
  {
    GridIndex(k, g.rows, g.cols - 1);
    var row, col := k / (g.cols - 1), k % (g.cols - 1);
    var w, e := Cross(row, col), Cross(row, col + 1);
    var edge := Shifted(g, Horizontal(g.rows, g.cols, eastward, if eastward then g.east else 1, k));
    if eastward {
      assert edge == EdgeFor(g, w, e);
    } else {
      assert edge == EdgeFor(g, e, w);
    }
  }

  lemma {:induction false} VerticalPlaced(g: Layout, northward: bool, k: nat)
    requires Valid(g) && k < Verticals(g.rows, g.cols)
    ensures var e := Vertical(g.rows, g.cols, northward, 2, k);
            WellPlaced(g, Shifted(g, e), 2 * |g.homes| + 2 * Horizontals(g.rows, g.cols) + (if northward then k else Verticals(g.rows, g.cols) + k))
  {
    GridIndex(k, g.cols, g.rows - 1);
    var col, row := k / (g.rows - 1), k % (g.rows - 1);
    var s, n := Cross(row, col), Cross(row + 1, col);
    var edge := Shifted(g, Vertical(g.rows, g.cols, northward, 2, k));
    if northward {
      assert edge == EdgeFor(g, s, n);
    } else {
      assert edge == EdgeFor(g, n, s);
    }
  }

  lemma {:induction false} PlacedAlike(g: Layout, e: Edge, k: nat, e': Edge, k': nat)
    requires Valid(g) && WellPlaced(g, e, k) && e == e' && k == k'
    ensures WellPlaced(g, e', k')
  {
  }

  lemma {:induction false} RowLinkPlaced(g: Layout, k: nat, e: Edge)
    requires Valid(g) && k < 2 * Horizontals(g.rows, g.cols)
    requires e == Shifted(g, MeshLink(g.rows, g.cols, g.east, k))
    ensures WellPlaced(g, e, 2 * |g.homes| + k)
  {
    var n, h := 2 * |g.homes|, Horizontals(g.rows, g.cols);
    if k < h {
      HorizontalPlaced(g, true, k);
    } else {
      HorizontalPlaced(g, false, k - h);
      PlacedAlike(g, Shifted(g, Horizontal(g.rows, g.cols, false, 1, k - h)), n + (h + (k - h)), e, n + k);
    }
  }

  lemma {:induction false} ColumnLinkPlaced(g: Layout, k: nat, northward: bool, e: Edge, j: nat)
    requires Valid(g) && k < Verticals(g.rows, g.cols) && e == Shifted(g, Vertical(g.rows, g.cols, northward, 2, k))
    requires j == 2 * |g.homes| + 2 * Horizontals(g.rows, g.cols) + (if northward then k else Verticals(g.rows, g.cols) + k)
    ensures WellPlaced(g, e, j)
  {
    VerticalPlaced(g, northward, k);
  }

  lemma {:induction false} MeshLinkPlaced(g: Layout, k: nat, e: Edge)
    requires Valid(g) && k < MeshLinkCount(g.rows, g.cols) && e == Shifted(g, MeshLink(g.rows, g.cols, g.east, k))
    ensures WellPlaced(g, e, 2 * |g.homes| + k)
  {
    var h, v := Horizontals(g.rows, g.cols), Verticals(g.rows, g.cols);
    if k < 2 * h {
      RowLinkPlaced(g, k, e);
    } else if k < 2 * h + v {
      ColumnLinkPlaced(g, k - 2 * h, true, e, 2 * |g.homes| + k);
    } else {
      ColumnLinkPlaced(g, k - 2 * h - v, false, e, 2 * |g.homes| + k);
    }
  }

  lemma {:induction false} LeafLinkPlaced(g: Layout, leaf: nat, k: nat)
    requires Valid(g) && leaf < |g.parents|
    requires var m := MeshLinkCount(g.rows, g.cols); k == m + 2 * leaf || k == m + 2 * leaf + 1
    ensures WellPlaced(g, Shifted(g, LayoutLink(g, k)), 2 * |g.homes| + k)
  {
    LeafLinkAt(g, leaf);
  }

  lemma {:induction false} LayoutLinkPlaced(g: Layout, k: nat)
    requires Valid(g) && k < MeshLinkCount(g.rows, g.cols) + 2 * |g.parents|
    ensures WellPlaced(g, Shifted(g, LayoutLink(g, k)), 2 * |g.homes| + k)
  {
    var m := MeshLinkCount(g.rows, g.cols);
    if k < m {
      MeshLinkPlaced(g, k, Shifted(g, LayoutLink(g, k)));
    } else {
      var leaf := (k - m) / 2;
      assert k == m + 2 * leaf || k == m + 2 * leaf + 1;
      LeafLinkPlaced(g, leaf, k);
    }
  }

  lemma {:induction false} ControllerEdgePlaced(g: Layout, ext: seq<ExtLink>, ints: seq<IntLink>, n: nat, k: nat)
    requires Valid(g) && BuiltAs(g, ext, ints) && n < |g.homes| && (k == 2 * n || k == 2 * n + 1)
    ensures k < |Edges(|g.homes|, ext, ints)| && WellPlaced(g, Edges(|g.homes|, ext, ints)[k], k)
  {
    var edges := Edges(|g.homes|, ext, ints);
    EdgeCount(g, ext, ints);
    ExtEdgesAt(|g.homes|, ext, n);
    RouterInRange(g, g.homes[n]);
    if k == 2 * n {
      assert edges[k] == EdgeFor(g, In(n), Home(g, n));
    } else {
      assert edges[k] == EdgeFor(g, Home(g, n), Out(n));
    }
  }

  lemma {:induction false} RouterEdgePlaced(g: Layout, ext: seq<ExtLink>, ints: seq<IntLink>, k: nat, e: Edge)
    requires Valid(g) && BuiltAs(g, ext, ints) && k < |ints|
    requires |Edges(|g.homes|, ext, ints)| == 2 * |g.homes| + |ints| && e == Edges(|g.homes|, ext, ints)[2 * |g.homes| + k]
    ensures WellPlaced(g, e, 2 * |g.homes| + k)
  {
    EdgeCount(g, ext, ints);
    assert SameLink(ints[k], LayoutLink(g, k));
    assert e == Shifted(g, LayoutLink(g, k));
    LayoutLinkPlaced(g, k);
  }

  lemma {:induction false} EdgePlaced(g: Layout, ext: seq<ExtLink>, ints: seq<IntLink>, k: nat)
    requires Valid(g) && BuiltAs(g, ext, ints)
    requires k < |Edges(|g.homes|, ext, ints)|
    ensures WellPlaced(g, Edges(|g.homes|, ext, ints)[k], k)
  {
    EdgeCount(g, ext, ints);
    if k < 2 * |g.homes| {
      ControllerEdgePlaced(g, ext, ints, k / 2, k);
    } else {
      RouterEdgePlaced(g, ext, ints, k - 2 * |g.homes|, Edges(|g.homes|, ext, ints)[k]);
    }
  }

  lemma {:induction false} EdgeCount(g: Layout, ext: seq<ExtLink>, ints: seq<IntLink>)
    requires Valid(g) && BuiltAs(g, ext, ints)
    ensures |ExtEdges(|g.homes|, ext)| == 2 * |g.homes|
    ensures |Edges(|g.homes|, ext, ints)| == 2 * |g.homes| + MeshLinkCount(g.rows, g.cols) + 2 * |g.parents|
  {
    if |ext| > 0 {
      ExtEdgesAt(|g.homes|, ext, 0);
    }
  }

  lemma {:induction false} HorizontalAt(g: Layout, row: nat, col: nat, eastward: bool)
    requires Valid(g) && row < g.rows && col + 1 < g.cols
    ensures var k := row * (g.cols - 1) + col;
            var w, e := Cross(row, col), Cross(row, col + 1);
            && k < Horizontals(g.rows, g.cols)
            && Shifted(g, Horizontal(g.rows, g.cols, eastward, if eastward then g.east else 1, k))
               == if eastward then EdgeFor(g, w, e) else EdgeFor(g, e, w)
  {
    HorizontalCell(g.rows, g.cols, row, col, eastward, if eastward then g.east else 1);
  }

  lemma {:induction false} VerticalAt(g: Layout, row: nat, col: nat, northward: bool)
    requires Valid(g) && row + 1 < g.rows && col < g.cols
    ensures var k := col * (g.rows - 1) + row;
            var s, n := Cross(row, col), Cross(row + 1, col);
            && k < Verticals(g.rows, g.cols)
            && Shifted(g, Vertical(g.rows, g.cols, northward, 2, k))
               == if northward then EdgeFor(g, s, n) else EdgeFor(g, n, s)
  {
    VerticalCell(g.rows, g.cols, row, col, northward, 2);
  }

  /** The layout's own order puts the link from x to y at their position. */
  ghost predicate AtPosition(g: Layout, x: Switch, y: Switch)
    requires Valid(g) && IsSwitch(g, x) && IsSwitch(g, y)
  {
    var k := Position(g, x, y) - 2 * |g.homes|;
    && 0 <= k < MeshLinkCount(g.rows, g.cols) + 2 * |g.parents|
    && Shifted(g, LayoutLink(g, k)) == EdgeFor(g, x, y)
  }

  lemma {:induction false} RowLinkAt(g: Layout, row: nat, col: nat)
    requires Valid(g) && row < g.rows && col + 1 < g.cols
    ensures AtPosition(g, Cross(row, col), Cross(row, col + 1))
    ensures AtPosition(g, Cross(row, col + 1), Cross(row, col))
  {
    HorizontalAt(g, row, col, true);
    HorizontalAt(g, row, col, false);
    var k, h := row * (g.cols - 1) + col, Horizontals(g.rows, g.cols);
    assert LayoutLink(g, k) == Horizontal(g.rows, g.cols, true, g.east, k);
    assert LayoutLink(g, h + k) == Horizontal(g.rows, g.cols, false, 1, k);
  }

  lemma {:induction false} PickVertical(g: Layout, k: nat)
    requires Valid(g) && k < Verticals(g.rows, g.cols)
    ensures var h, v := Horizontals(g.rows, g.cols), Verticals(g.rows, g.cols);
            && 2 * h + v + k < MeshLinkCount(g.rows, g.cols)
            && LayoutLink(g, 2 * h + k) == Vertical(g.rows, g.cols, true, 2, k)
            && LayoutLink(g, 2 * h + v + k) == Vertical(g.rows, g.cols, false, 2, k)
  {
  }

  lemma {:induction false} ColumnPositions(g: Layout, row: nat, col: nat, k: nat)
    requires Valid(g) && row + 1 < g.rows && col < g.cols && k == col * (g.rows - 1) + row
    ensures var h, v := Horizontals(g.rows, g.cols), Verticals(g.rows, g.cols);
            && Position(g, Cross(row, col), Cross(row + 1, col)) == 2 * |g.homes| + (2 * h + k)
            && Position(g, Cross(row + 1, col), Cross(row, col)) == 2 * |g.homes| + (2 * h + v + k)
  {
  }

  lemma {:induction false} ColumnEdges(g: Layout, row: nat, col: nat, k: nat)
    requires Valid(g) && row + 1 < g.rows && col < g.cols && k == col * (g.rows - 1) + row
    ensures var h, v := Horizontals(g.rows, g.cols), Verticals(g.rows, g.cols);
            && 2 * h + v + k < MeshLinkCount(g.rows, g.cols)
            && Shifted(g, LayoutLink(g, 2 * h + k)) == EdgeFor(g, Cross(row, col), Cross(row + 1, col))
            && Shifted(g, LayoutLink(g, 2 * h + v + k)) == EdgeFor(g, Cross(row + 1, col), Cross(row, col))
  {
    VerticalAt(g, row, col, true);
    VerticalAt(g, row, col, false);
    PickVertical(g, k);
  }

  lemma {:induction false} StandsAt(g: Layout, x: Switch, y: Switch, k: nat)
    requires Valid(g) && IsSwitch(g, x) && IsSwitch(g, y) && k < MeshLinkCount(g.rows, g.cols)
    requires Position(g, x, y) == 2 * |g.homes| + k && Shifted(g, LayoutLink(g, k)) == EdgeFor(g, x, y)
    ensures AtPosition(g, x, y)
  {
  }

  lemma {:induction false} ColumnLinkAt(g: Layout, row: nat, col: nat)
    requires Valid(g) && row + 1 < g.rows && col < g.cols
    ensures AtPosition(g, Cross(row, col), Cross(row + 1, col))
    ensures AtPosition(g, Cross(row + 1, col), Cross(row, col))
  {
    var k := col * (g.rows - 1) + row;
    var h, v := Horizontals(g.rows, g.cols), Verticals(g.rows, g.cols);
    ColumnPositions(g, row, col, k);
    ColumnEdges(g, row, col, k);
    StandsAt(g, Cross(row, col), Cross(row + 1, col), 2 * h + k);
    StandsAt(g, Cross(row + 1, col), Cross(row, col), 2 * h + v + k);
  }

  lemma {:induction false} CrossLinkAt(g: Layout, x: Switch, y: Switch)
    requires Valid(g) && IsSwitch(g, x) && IsSwitch(g, y) && LinkWeight(g, x, y) > 0 && x.Cross? && y.Cross?
    ensures AtPosition(g, x, y)
  {
    if x.row == y.row {
      RowLinkAt(g, x.row, if x.col < y.col then x.col else y.col);
    } else {
      ColumnLinkAt(g, if x.row < y.row then x.row else y.row, x.col);
    }
  }

  lemma {:induction false} LeafStandsAt(g: Layout, leaf: nat)
    requires Valid(g) && leaf < |g.parents|
    ensures IsSwitch(g, Parent(g, leaf))
    ensures AtPosition(g, Leaf(leaf), Parent(g, leaf)) && AtPosition(g, Parent(g, leaf), Leaf(leaf))
  {
    LeafLinkAt(g, leaf);
  }

  lemma {:induction false} RouterLinkAt(g: Layout, x: Switch, y: Switch)
    requires Valid(g) && IsSwitch(g, x) && IsSwitch(g, y) && LinkWeight(g, x, y) > 0 && !x.In? && !y.Out?
    ensures AtPosition(g, x, y)
  {
    if x.Leaf? {
      LeafStandsAt(g, x.index);
    } else if y.Leaf? {
      LeafStandsAt(g, y.index);
    } else {
      CrossLinkAt(g, x, y);
    }
  }

  lemma {:induction false} LeafLinkAt(g: Layout, leaf: nat)
    requires Valid(g) && leaf < |g.parents|
    ensures IsSwitch(g, Parent(g, leaf)) && Parent(g, leaf).Cross?
    ensures Shifted(g, LayoutLink(g, MeshLinkCount(g.rows, g.cols) + 2 * leaf)) == EdgeFor(g, Leaf(leaf), Parent(g, leaf))
    ensures Shifted(g, LayoutLink(g, MeshLinkCount(g.rows, g.cols) + 2 * leaf + 1)) == EdgeFor(g, Parent(g, leaf), Leaf(leaf))
  {
    RouterInRange(g, g.parents[leaf]);
  }

  lemma {:induction false} EdgeAt(g: Layout, ext: seq<ExtLink>, ints: seq<IntLink>, x: Switch, y: Switch)
    requires Valid(g) && BuiltAs(g, ext, ints)
    requires IsSwitch(g, x) && IsSwitch(g, y) && LinkWeight(g, x, y) > 0
    ensures Linked(Edges(|g.homes|, ext, ints), Number(g, x), Number(g, y))
  {
    if x.In? {
      ControllerEdgesAt(g, ext, ints, x.node);
    } else if y.Out? {
      ControllerEdgesAt(g, ext, ints, y.node);
    } else {
      RouterLinkAt(g, x, y);
      RouterEdgeAt(g, ext, ints, Position(g, x, y) - 2 * |g.homes|);
    }
  }

  lemma {:induction false} ControllerEdgesAt(g: Layout, ext: seq<ExtLink>, ints: seq<IntLink>, n: nat)
    requires Valid(g) && BuiltAs(g, ext, ints) && n < |g.homes|
    ensures Linked(Edges(|g.homes|, ext, ints), Number(g, In(n)), Number(g, Home(g, n)))
    ensures Linked(Edges(|g.homes|, ext, ints), Number(g, Home(g, n)), Number(g, Out(n)))
  {
    var edges := Edges(|g.homes|, ext, ints);
    EdgeCount(g, ext, ints);
    ExtEdgesAt(|g.homes|, ext, n);
    RouterInRange(g, g.homes[n]);
    assert edges[2 * n].src == Number(g, In(n)) && edges[2 * n].dst == Number(g, Home(g, n));
    assert edges[2 * n + 1].src == Number(g, Home(g, n)) && edges[2 * n + 1].dst == Number(g, Out(n));
  }

  lemma {:induction false} RouterEdgeAt(g: Layout, ext: seq<ExtLink>, ints: seq<IntLink>, k: nat)
    requires Valid(g) && BuiltAs(g, ext, ints) && k < |ints|
    ensures var e := Shifted(g, LayoutLink(g, k)); Linked(Edges(|g.homes|, ext, ints), e.src, e.dst)
  {
    var edges := Edges(|g.homes|, ext, ints);
    EdgeCount(g, ext, ints);
    assert SameLink(ints[k], LayoutLink(g, k));
    assert edges[2 * |g.homes| + k] == Shifted(g, LayoutLink(g, k));
  }

  /** The lists the scripts make are link lists of their layout: every link of the layout,
      none twice and nothing else. */
  lemma {:induction false} ScriptsBuildLayout(g: Layout, ext: seq<ExtLink>, ints: seq<IntLink>)
    requires Valid(g) && BuiltAs(g, ext, ints)
    ensures Builds(g, Edges(|g.homes|, ext, ints))
  {
    var edges := Edges(|g.homes|, ext, ints);
    forall k | 0 <= k < |edges|
      ensures EdgeFits(g, edges[k]) && edges[k].src < Size(g) && edges[k].dst < Size(g)
      ensures Position(g, Decode(g, edges[k].src), Decode(g, edges[k].dst)) == k
    {
      EdgePlaced(g, ext, ints, k);
      PlacedFits(g, edges[k], k);
    }
    forall x, y | IsSwitch(g, x) && IsSwitch(g, y) && LinkWeight(g, x, y) > 0
      ensures Linked(edges, Number(g, x), Number(g, y))
    {
      EdgeAt(g, ext, ints, x, y);
    }
  }

  lemma {:induction false} PlacedFits(g: Layout, e: Edge, k: nat)
    requires Valid(g) && WellPlaced(g, e, k)
    ensures EdgeFits(g, e) && e.src < Size(g) && e.dst < Size(g)
    ensures Position(g, Decode(g, e.src), Decode(g, e.dst)) == k
  {
    var x, y :| && IsSwitch(g, x) && IsSwitch(g, y) && LinkWeight(g, x, y) > 0
                && e == EdgeFor(g, x, y) && Position(g, x, y) == k;
    NumberDecode(g, x);
    NumberDecode(g, y);
  }
}
