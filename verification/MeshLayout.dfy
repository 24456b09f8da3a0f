/** The switch graph of a mesh with optional leaf routers, and the routes its link
    weights leave open. Rows count northwards: the North output of a router leads to the
    row above. */
module MeshLayout {
  import opened Arithmetic
  import opened Topology

  /** rows * cols mesh routers; one leaf router per entry of `parents`, hanging off that
      mesh router; controller n attached to router `homes[n]`. East links weigh `east`,
      west links 1, north and south links 2, and all other links 1. */
  datatype Layout = Layout(rows: nat, cols: nat, east: nat, parents: seq<nat>, homes: seq<nat>)

  datatype Switch = In(node: nat) | Out(node: nat) | Cross(row: nat, col: nat) | Leaf(index: nat)

  ghost predicate Valid(g: Layout) {
    && 1 <= g.rows && 1 <= g.cols
    && 1 <= g.east <= 2
    && (forall k :: 0 <= k < |g.parents| ==> g.parents[k] < g.rows * g.cols)
    && (forall n :: 0 <= n < |g.homes| ==> g.homes[n] < g.rows * g.cols + |g.parents|)
  }

  ghost predicate IsSwitch(g: Layout, x: Switch) {
    match x
    case In(n) => n < |g.homes|
    case Out(n) => n < |g.homes|
    case Cross(r, c) => r < g.rows && c < g.cols
    case Leaf(k) => k < |g.parents|
  }

  // Numbering.

  ghost function Size(g: Layout): nat {
    2 * |g.homes| + g.rows * g.cols + |g.parents|
  }

  ghost function Number(g: Layout, x: Switch): nat {
    match x
    case In(n) => n
    case Out(n) => |g.homes| + n
    case Cross(r, c) => 2 * |g.homes| + (c + r * g.cols)
    case Leaf(k) => 2 * |g.homes| + (g.rows * g.cols + k)
  }

  /** The router with a given router id. */
  ghost function Router(g: Layout, id: nat): Switch
    requires Valid(g)
  {
    if id < g.rows * g.cols then Cross(id / g.cols, id % g.cols) else Leaf(id - g.rows * g.cols)
  }

  ghost function Decode(g: Layout, v: nat): Switch
    requires Valid(g)
  {
    if v < |g.homes| then In(v)
    else if v < 2 * |g.homes| then Out(v - |g.homes|)
    else Router(g, v - 2 * |g.homes|)
  }

  lemma {:induction false} RouterInRange(g: Layout, id: nat)
    requires Valid(g) && id < g.rows * g.cols + |g.parents|
    ensures IsSwitch(g, Router(g, id))
    ensures Number(g, Router(g, id)) == 2 * |g.homes| + id
  {
    if id < g.rows * g.cols {
      GridIndex(id, g.rows, g.cols);
    }
  }

  lemma {:induction false} NumberDecode(g: Layout, x: Switch)
    requires Valid(g) && IsSwitch(g, x)
    ensures Number(g, x) < Size(g)
    ensures Decode(g, Number(g, x)) == x
  {
    if x.Cross? {
      GridCell(x.row, x.col, g.rows, g.cols);
    }
  }

  lemma {:induction false} DecodeNumber(g: Layout, v: nat)
    requires Valid(g) && v < Size(g)
    ensures IsSwitch(g, Decode(g, v)) && Number(g, Decode(g, v)) == v
  {
    if v >= 2 * |g.homes| {
      RouterInRange(g, v - 2 * |g.homes|);
    }
  }

  // Links.

  ghost function Home(g: Layout, n: nat): Switch
    requires Valid(g) && n < |g.homes|
  {
    Router(g, g.homes[n])
  }

  ghost function Parent(g: Layout, k: nat): Switch
    requires Valid(g) && k < |g.parents|
  {
    Router(g, g.parents[k])
  }

  /** The weight of the link from x to y, zero when there is none. */
  ghost function LinkWeight(g: Layout, x: Switch, y: Switch): nat
    requires Valid(g) && IsSwitch(g, x) && IsSwitch(g, y)
  {
    match (x, y)
    case (In(n), Cross(_, _)) => if y == Home(g, n) then 1 else 0
    case (In(n), Leaf(_)) => if y == Home(g, n) then 1 else 0
    case (Cross(_, _), Out(n)) => if x == Home(g, n) then 1 else 0
    case (Leaf(_), Out(n)) => if x == Home(g, n) then 1 else 0
    case (Leaf(k), Cross(_, _)) => if y == Parent(g, k) then 1 else 0
    case (Cross(_, _), Leaf(k)) => if x == Parent(g, k) then 1 else 0
    case (Cross(r, c), Cross(r', c')) =>
      if r == r' && c' == c + 1 then g.east
      else if r == r' && c == c' + 1 then 1
      else if c == c' && (r' == r + 1 || r == r' + 1) then 2
      else 0
    case _ => 0
  }

  /** `edges` is a link list of layout g: exactly its links, each once, with their weights. */
  ghost predicate Builds(g: Layout, edges: seq<Edge>)
    requires Valid(g)
  {
    && DistinctPairs(edges)
    && Within(edges, Size(g))
    && (forall k :: 0 <= k < |edges| ==> EdgeFits(g, edges[k]))
    && (forall x, y :: IsSwitch(g, x) && IsSwitch(g, y) && LinkWeight(g, x, y) > 0 ==> Linked(edges, Number(g, x), Number(g, y)))
  }

  ghost predicate EdgeFits(g: Layout, e: Edge)
    requires Valid(g)
  {
    && IsSwitch(g, Decode(g, e.src)) && IsSwitch(g, Decode(g, e.dst))
    && e.weight == LinkWeight(g, Decode(g, e.src), Decode(g, e.dst)) > 0
  }

  // Distances.

  ghost function Across(g: Layout, from: nat, to: nat): nat {
    if from <= to then (if g.east == 1 then to - from else 2 * (to - from)) else from - to
  }

  ghost function Along(from: nat, to: nat): nat {
    if from <= to then 2 * (to - from) else 2 * (from - to)
  }

  /** The mesh router a packet for controller f has to reach. */
  ghost function Anchor(g: Layout, f: nat): (a: Switch)
    requires Valid(g) && f < |g.homes|
    ensures a.Cross? && IsSwitch(g, a)
  {
    RouterInRange(g, g.homes[f]);
    match Home(g, f)
    case Cross(r, c) => Cross(r, c)
    case Leaf(k) => RouterInRange(g, g.parents[k]); Parent(g, k)
  }

  ghost function FarFromCross(g: Layout, f: nat, x: Switch): nat
    requires Valid(g) && f < |g.homes| && IsSwitch(g, x) && x.Cross?
  {
    var a := Anchor(g, f);
    Across(g, x.col, a.col) + Along(x.row, a.row) + if Home(g, f).Leaf? then 2 else 1
  }

  ghost function FarFromRouter(g: Layout, f: nat, x: Switch): nat
    requires Valid(g) && f < |g.homes| && IsSwitch(g, x) && (x.Cross? || x.Leaf?)
  {
    match x
    case Cross(_, _) => FarFromCross(g, f, x)
    case Leaf(k) =>
      if Home(g, f) == x then 1
      else RouterInRange(g, g.parents[k]); 1 + FarFromCross(g, f, Parent(g, k))
  }

  /** The weight of the lightest way from x to controller f. Other controllers are dead
      ends; they get a weight no route can make up for. */
  ghost function Far(g: Layout, f: nat, x: Switch): nat
    requires Valid(g) && f < |g.homes| && IsSwitch(g, x)
  {
    match x
    case In(n) => RouterInRange(g, g.homes[n]); 1 + FarFromRouter(g, f, Home(g, n))
    case Out(n) =>
      if n == f then 0
      else RouterInRange(g, g.homes[n]); INFINITE_LATENCY + FarFromRouter(g, f, Home(g, n))
    case _ => FarFromRouter(g, f, x)
  }

  /** Column first, then row, then the leaf and the controller: the XY route. */
  ghost function Toward(g: Layout, f: nat, x: Switch): (y: Switch)
    requires Valid(g) && f < |g.homes| && IsSwitch(g, x) && !x.Out?
    ensures IsSwitch(g, y)
  {
    match x
    case In(n) => RouterInRange(g, g.homes[n]); Home(g, n)
    case Leaf(k) => if Home(g, f) == x then Out(f) else RouterInRange(g, g.parents[k]); Parent(g, k)
    case Cross(r, c) =>
      var a := Anchor(g, f);
      if c < a.col then Cross(r, c + 1)
      else if a.col < c then Cross(r, c - 1)
      else if r < a.row then Cross(r + 1, c)
      else if a.row < r then Cross(r - 1, c)
      else RouterInRange(g, g.homes[f]); if Home(g, f).Leaf? then Home(g, f) else Out(f)
  }

  lemma {:induction false} FarConsistent(g: Layout, f: nat, x: Switch, y: Switch)
    requires Valid(g) && f < |g.homes| && IsSwitch(g, x) && IsSwitch(g, y)
    requires LinkWeight(g, x, y) > 0
    ensures Far(g, f, x) <= LinkWeight(g, x, y) + Far(g, f, y)
  {
  }

  lemma {:induction false} TowardDescends(g: Layout, f: nat, x: Switch)
    requires Valid(g) && f < |g.homes| && IsSwitch(g, x) && !x.Out?
    ensures LinkWeight(g, x, Toward(g, f, x)) > 0
    ensures Far(g, f, x) == LinkWeight(g, x, Toward(g, f, x)) + Far(g, f, Toward(g, f, x))
  {
    RouterInRange(g, g.homes[f]);
  }
}
