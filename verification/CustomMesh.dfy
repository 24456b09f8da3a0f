/** The CustomMesh script: an XY mesh onto which groups of nodes are placed, request nodes
    behind leaf routers of their own. */
module CustomMesh {
  import opened Arithmetic
  import opened ShortestPaths
  import opened Topology
  import opened MeshLayout
  import opened MeshBuild
  import opened MeshScripts
  import opened MeshDeadlock
  import opened NodeShares

  /** A node: whether it is a request node, and how many controllers face the network. */
  datatype Node = Node(isRnf: bool, controllers: nat)

  /** Which list, and where in it, the link with some id is. */
  datatype Slot = External(index: nat) | Internal(index: nat)

  /** Leaf routers and controller homes once a node has been put on mesh router `at`. */
  ghost function Placed(mesh: nat, parents: seq<nat>, homes: seq<nat>, at: nat, node: Node): (seq<nat>, seq<nat>) {
    if node.isRnf then
      (parents + [at], homes + seq(node.controllers, _ => mesh + |parents|))
    else
      (parents, homes + seq(node.controllers, _ => at))
  }

  ghost predicate HasRnf(nodes: seq<Node>) {
    exists i :: 0 <= i < |nodes| && nodes[i].isRnf
  }

  /** The same once the first n nodes have been put, each on its own mesh router. */
  ghost function AllPlaced(mesh: nat, parents: seq<nat>, homes: seq<nat>, at: seq<nat>, nodes: seq<Node>, n: nat): (seq<nat>, seq<nat>)
    requires n <= |nodes| && n <= |at|
  {
    if n == 0 then (parents, homes)
    else
      var (ps, hs) := AllPlaced(mesh, parents, homes, at, nodes, n - 1);
      Placed(mesh, ps, hs, at[n - 1], nodes[n - 1])
  }

  lemma {:induction false} SamePlaced(mesh: nat, parents: seq<nat>, homes: seq<nat>, at: seq<nat>, more: nat, nodes: seq<Node>, n: nat)
    requires n <= |nodes| && n <= |at|
    ensures AllPlaced(mesh, parents, homes, at + [more], nodes, n) == AllPlaced(mesh, parents, homes, at, nodes, n)
  {
    if n > 0 {
      SamePlaced(mesh, parents, homes, at, more, nodes, n - 1);
    }
  }

  // Where the controllers of each node are.

  ghost function ControllersBefore(nodes: seq<Node>, n: nat): nat
    requires n <= |nodes|
  {
    if n == 0 then 0 else ControllersBefore(nodes, n - 1) + nodes[n - 1].controllers
  }

  ghost function RnfsBefore(nodes: seq<Node>, n: nat): nat
    requires n <= |nodes|
  {
    if n == 0 then 0 else RnfsBefore(nodes, n - 1) + if nodes[n - 1].isRnf then 1 else 0
  }

  /** The controllers of node i all face this router. */
  ghost predicate ControllersAt(homes: seq<nat>, first: nat, nodes: seq<Node>, i: nat, router: nat)
    requires i < |nodes|
  {
    var from := first + ControllersBefore(nodes, i);
    from + nodes[i].controllers <= |homes| && forall c :: from <= c < from + nodes[i].controllers ==> homes[c] == router
  }

  /** A node that is no request node faces its mesh router; a request node has a leaf router to
      itself, which hangs off its mesh router. */
  ghost predicate AtItsRouter(mesh: nat, ps: seq<nat>, hs: seq<nat>, parents: seq<nat>, homes: seq<nat>,
                              at: seq<nat>, nodes: seq<Node>, i: nat)
    requires i < |nodes| && i < |at|
  {
    var leaf := |ps| + RnfsBefore(nodes, i);
    if nodes[i].isRnf then
      ControllersAt(homes, |hs|, nodes, i, mesh + leaf) && leaf < |parents| && parents[leaf] == at[i]
    else
      ControllersAt(homes, |hs|, nodes, i, at[i])
  }

  /** Nothing was there before but what is still there, and all nodes so far have been added. */
  ghost predicate Extends(ps: seq<nat>, hs: seq<nat>, parents: seq<nat>, homes: seq<nat>, nodes: seq<Node>, n: nat)
    requires n <= |nodes|
  {
    && |homes| == |hs| + ControllersBefore(nodes, n) && hs <= homes
    && |parents| == |ps| + RnfsBefore(nodes, n) && ps <= parents
  }

  ghost predicate EachAtItsRouter(mesh: nat, ps: seq<nat>, hs: seq<nat>, parents: seq<nat>, homes: seq<nat>,
                                  at: seq<nat>, nodes: seq<Node>, n: nat)
    requires n <= |nodes| && n <= |at|
  {
    && Extends(ps, hs, parents, homes, nodes, n)
    && forall i :: 0 <= i < n ==> AtItsRouter(mesh, ps, hs, parents, homes, at, nodes, i)
  }

  lemma {:induction false} BeforeGrows(nodes: seq<Node>, i: nat, n: nat)
    requires i < n <= |nodes|
    ensures ControllersBefore(nodes, i) + nodes[i].controllers <= ControllersBefore(nodes, n)
    ensures RnfsBefore(nodes, i) + (if nodes[i].isRnf then 1 else 0) <= RnfsBefore(nodes, n)
  {
    if i < n - 1 {
      BeforeGrows(nodes, i, n - 1);
    }
  }

  lemma {:induction false} StaysAtRouter(mesh: nat, ps: seq<nat>, hs: seq<nat>, ps': seq<nat>, hs': seq<nat>,
                                         parents: seq<nat>, homes: seq<nat>, at: seq<nat>, nodes: seq<Node>, i: nat)
    requires i < |nodes| && i < |at| && AtItsRouter(mesh, ps, hs, ps', hs', at, nodes, i) && ps' <= parents && hs' <= homes
    ensures AtItsRouter(mesh, ps, hs, parents, homes, at, nodes, i)
  {
  }

  lemma {:induction false} NewAtRouter(mesh: nat, ps: seq<nat>, hs: seq<nat>, ps': seq<nat>, hs': seq<nat>,
                                       parents: seq<nat>, homes: seq<nat>, at: seq<nat>, nodes: seq<Node>, n: nat)
    requires n < |nodes| && n < |at| && Extends(ps, hs, ps', hs', nodes, n)
    requires (parents, homes) == Placed(mesh, ps', hs', at[n], nodes[n])
    ensures Extends(ps, hs, parents, homes, nodes, n + 1) && ps' <= parents && hs' <= homes
    ensures AtItsRouter(mesh, ps, hs, parents, homes, at, nodes, n)
  {
  }

  lemma {:induction false} OneMoreAtRouter(mesh: nat, ps: seq<nat>, hs: seq<nat>, ps': seq<nat>, hs': seq<nat>,
                                           parents: seq<nat>, homes: seq<nat>, at: seq<nat>, nodes: seq<Node>, n: nat)
    requires n < |nodes| && n < |at| && EachAtItsRouter(mesh, ps, hs, ps', hs', at, nodes, n)
    requires (parents, homes) == Placed(mesh, ps', hs', at[n], nodes[n])
    ensures EachAtItsRouter(mesh, ps, hs, parents, homes, at, nodes, n + 1)
  {
    NewAtRouter(mesh, ps, hs, ps', hs', parents, homes, at, nodes, n);
    forall i | 0 <= i < n
      ensures AtItsRouter(mesh, ps, hs, parents, homes, at, nodes, i)
    {
      StaysAtRouter(mesh, ps, hs, ps', hs', parents, homes, at, nodes, i);
    }
  }

  lemma {:induction false} PlacedAtRouters(mesh: nat, ps: seq<nat>, hs: seq<nat>, at: seq<nat>, nodes: seq<Node>, n: nat)
    requires n <= |nodes| && n <= |at|
    ensures var placed := AllPlaced(mesh, ps, hs, at, nodes, n);
            EachAtItsRouter(mesh, ps, hs, placed.0, placed.1, at, nodes, n)
  {
    if n > 0 {
      PlacedAtRouters(mesh, ps, hs, at, nodes, n - 1);
      var before, placed := AllPlaced(mesh, ps, hs, at, nodes, n - 1), AllPlaced(mesh, ps, hs, at, nodes, n);
      OneMoreAtRouter(mesh, ps, hs, before.0, before.1, placed.0, placed.1, at, nodes, n - 1);
    }
  }

  /** No two request nodes share a leaf router, and no other node faces one. */
  lemma {:induction false} LeafToItself(ps: seq<nat>, nodes: seq<Node>, i: nat, j: nat)
    requires i < j < |nodes| && nodes[i].isRnf && nodes[j].isRnf
    ensures |ps| + RnfsBefore(nodes, i) < |ps| + RnfsBefore(nodes, j)
  {
    BeforeGrows(nodes, i, j);
  }

  /** The link ids are 0..|slots|-1, each held by exactly one link of the two lists. */
  ghost predicate IdsExact(ext: seq<ExtLink>, ints: seq<IntLink>, slots: seq<Slot>) {
    && (forall k :: 0 <= k < |ext| ==> ext[k].linkId < |slots| && slots[ext[k].linkId] == External(k))
    && (forall k :: 0 <= k < |ints| ==> ints[k].linkId < |slots| && slots[ints[k].linkId] == Internal(k))
    && (forall i :: 0 <= i < |slots| ==>
          match slots[i]
          case External(k) => k < |ext| && ext[k].linkId == i
          case Internal(k) => k < |ints| && ints[k].linkId == i)
  }

  lemma {:induction false} LeafAdded(g: Layout, ext: seq<ExtLink>, ints: seq<IntLink>, at: nat, up: IntLink, down: IntLink)
    requires MeshLayout.Valid(g) && BuiltAs(g, ext, ints) && at < g.rows * g.cols
    requires up.src == down.dst == g.rows * g.cols + |g.parents| && up.dst == down.src == at
    requires up.weight == down.weight == 1
    ensures var g' := g.(parents := g.parents + [at]);
            MeshLayout.Valid(g') && BuiltAs(g', ext, ints + [up] + [down])
  {
    var g', ints' := g.(parents := g.parents + [at]), ints + [up] + [down];
    var m := MeshLinkCount(g.rows, g.cols);
    forall k | 0 <= k < |ints'|
      ensures SameLink(ints'[k], LayoutLink(g', k))
    {
      if k < |ints| {
        assert SameLink(ints[k], LayoutLink(g, k));
        assert LayoutLink(g', k) == LayoutLink(g, k);
      } else {
        assert (k - m) / 2 == |g.parents|;
      }
    }
  }

  lemma {:induction false} ControllerAdded(g: Layout, ext: seq<ExtLink>, ints: seq<IntLink>, router: nat, l: ExtLink)
    requires MeshLayout.Valid(g) && BuiltAs(g, ext, ints) && router < g.rows * g.cols + |g.parents|
    requires l.node == |ext| && l.router == router
    ensures var g' := g.(homes := g.homes + [router]);
            MeshLayout.Valid(g') && BuiltAs(g', ext + [l], ints)
  {
    var g' := g.(homes := g.homes + [router]);
    forall k | 0 <= k < |ints|
      ensures SameLink(ints[k], LayoutLink(g', k))
    {
      assert SameLink(ints[k], LayoutLink(g, k));
    }
  }

  lemma {:induction false} IdTaken(ext: seq<ExtLink>, ints: seq<IntLink>, slots: seq<Slot>, l: IntLink)
    requires IdsExact(ext, ints, slots) && l.linkId == |slots|
    ensures IdsExact(ext, ints + [l], slots + [Internal(|ints|)])
  {
  }

  class Builder {
    const rows: nat
    const cols: nat
    var routers: seq<nat>
    var intLinks: seq<IntLink>
    var extLinks: seq<ExtLink>
    var linkCount: nat

    ghost var parents: seq<nat>
    ghost var homes: seq<nat>
    ghost var slots: seq<Slot>

    ghost function TheLayout(): Layout
      reads this
    {
      Layout(rows, cols, 1, parents, homes)
    }

    /** Router k has id k; the lists are those of the layout; every link id below the
        counter belongs to exactly one link. */
    ghost predicate Valid()
      reads this
    {
      && MeshLayout.Valid(TheLayout())
      && BuiltAs(TheLayout(), extLinks, intLinks)
      && |routers| == rows * cols + |parents|
      && (forall k :: 0 <= k < |routers| ==> routers[k] == k)
      && |slots| == linkCount
      && IdsExact(extLinks, intLinks, slots)
    }

    constructor (rows: nat, cols: nat)
      requires 1 <= rows && 1 <= cols
      ensures Valid() && this.rows == rows && this.cols == cols
      ensures parents == [] && homes == []
    {
      this.rows, this.cols := rows, cols;
      routers := seq(rows * cols, i => i);
      intLinks, extLinks, linkCount := [], [], 0;
      parents, homes, slots := [], [], [];
      new;
      intLinks := MakeMesh(rows, cols, 0, 1);
      linkCount := |intLinks|;
      var n := |intLinks|;
      slots := seq(n, i requires 0 <= i < n => Internal(i));
    }

    /** A leaf router between a mesh router and the controllers of a request node. */
    method CreateRNFRouter(meshRouter: nat) returns (id: nat)
      requires Valid() && meshRouter < rows * cols
      modifies this
      ensures Valid() && id == rows * cols + old(|parents|)
      ensures parents == old(parents) + [meshRouter] && homes == old(homes)
    {
      id := |routers|;
      ghost var g, ints := TheLayout(), intLinks;
      routers := routers + [id];
      var up := IntLink(linkCount, id, meshRouter, 1);
      IdTaken(extLinks, intLinks, slots, up);
      intLinks, slots := intLinks + [up], slots + [Internal(|intLinks|)];
      linkCount := linkCount + 1;
      var down := IntLink(linkCount, meshRouter, id, 1);
      IdTaken(extLinks, intLinks, slots, down);
      intLinks, slots := intLinks + [down], slots + [Internal(|intLinks|)];
      linkCount := linkCount + 1;
      LeafAdded(g, extLinks, ints, meshRouter, up, down);
      parents := parents + [meshRouter];
    }

    method PlaceNode(meshRouter: nat, node: Node)
      requires Valid() && meshRouter < |routers| && (node.isRnf ==> meshRouter < rows * cols)
      modifies this
      ensures Valid() && |routers| >= old(|routers|)
      ensures (parents, homes) == Placed(rows * cols, old(parents), old(homes), meshRouter, node)
    {
      var router := meshRouter;
      if node.isRnf {
        router := CreateRNFRouter(meshRouter);
      }
      ghost var before := homes;
      for c := 0 to node.controllers
        invariant Valid() && router < |routers|
        invariant parents == old(parents) + (if node.isRnf then [meshRouter] else [])
        invariant homes == before + seq(c, _ => router)
      {
        AddController(router);
      }
    }

    method AddController(router: nat)
      requires Valid() && router < |routers|
      modifies this
      ensures Valid() && parents == old(parents) && homes == old(homes) + [router]
    {
      ControllerAdded(TheLayout(), extLinks, intLinks, router, ExtLink(linkCount, |extLinks|, router));
      extLinks := extLinks + [ExtLink(linkCount, |extLinks|, router)];
      slots := slots + [External(|extLinks| - 1)];
      linkCount := linkCount + 1;
      homes := homes + [router];
    }

    /** One more node, put on the given mesh router. */
    method PlaceNext(meshRouter: nat, nodes: seq<Node>, i: nat, ghost at: seq<nat>, ghost ps: seq<nat>, ghost hs: seq<nat>)
      requires Valid() && i < |nodes| && |at| == i && (parents, homes) == AllPlaced(rows * cols, ps, hs, at, nodes, i)
      requires meshRouter < |routers| && (nodes[i].isRnf ==> meshRouter < rows * cols)
      modifies this
      ensures Valid() && |routers| >= old(|routers|)
      ensures (parents, homes) == AllPlaced(rows * cols, ps, hs, at + [meshRouter], nodes, i + 1)
    {
      PlaceNode(meshRouter, nodes[i]);
      SamePlaced(rows * cols, ps, hs, at, meshRouter, nodes, i);
    }

    /** Every router on the list takes its share, one router after the other. */
    method PlaceInShares(p: Placement, nodes: seq<Node>) returns (ghost at: seq<nat>)
      requires Valid() && p.nodesPerRouter > 0 && |p.routerList| * p.nodesPerRouter == |nodes|
      requires forall i :: 0 <= i < |p.routerList| ==> p.routerList[i] < |routers|
      requires HasRnf(nodes) ==> forall i :: 0 <= i < |p.routerList| ==> p.routerList[i] < rows * cols
      modifies this
      ensures Valid() && |at| == |nodes| && InShares(p.routerList, p.nodesPerRouter, at)
      ensures (parents, homes) == AllPlaced(rows * cols, old(parents), old(homes), at, nodes, |nodes|)
    {
      at := [];
      for i := 0 to |nodes|
        invariant Valid() && |routers| >= old(|routers|)
        invariant |at| == i && InShares(p.routerList, p.nodesPerRouter, at)
        invariant (parents, homes) == AllPlaced(rows * cols, old(parents), old(homes), at, nodes, i)
      {
        GridIndex(i, |p.routerList|, p.nodesPerRouter);
        var router := p.routerList[i / p.nodesPerRouter];
        PlaceNext(router, nodes, i, at, old(parents), old(homes));
        at := at + [router];
      }
    }

    /** The routers on the list take one node each, round and round. */
    method PlaceInTurn(p: Placement, nodes: seq<Node>) returns (ghost at: seq<nat>)
      requires Valid() && p.routerList != []
      requires forall i :: 0 <= i < |p.routerList| ==> p.routerList[i] < |routers|
      requires HasRnf(nodes) ==> forall i :: 0 <= i < |p.routerList| ==> p.routerList[i] < rows * cols
      modifies this
      ensures Valid() && |at| == |nodes| && InTurn(p.routerList, at)
      ensures (parents, homes) == AllPlaced(rows * cols, old(parents), old(homes), at, nodes, |nodes|)
    {
      at := [];
      var idx := 0;
      for i := 0 to |nodes|
        invariant Valid() && |routers| >= old(|routers|)
        invariant idx == i % |p.routerList| && |at| == i && InTurn(p.routerList, at)
        invariant (parents, homes) == AllPlaced(rows * cols, old(parents), old(homes), at, nodes, i)
      {
        PlaceNext(p.routerList[idx], nodes, i, at, old(parents), old(homes));
        at := at + [p.routerList[idx]];
        NextIndex(i, |p.routerList|);
        idx := (idx + 1) % |p.routerList|;
      }
    }

    /** Places a group of nodes, the i-th on mesh router at[i]. Fails, changing nothing, when
        the shares do not come out even or there is no router to place on. */
    method DistributeNodes(p: Placement, nodes: seq<Node>) returns (ok: bool, ghost at: seq<nat>)
      requires Valid()
      requires forall i :: 0 <= i < |p.routerList| ==> p.routerList[i] < |routers|
      requires HasRnf(nodes) ==> forall i :: 0 <= i < |p.routerList| ==> p.routerList[i] < rows * cols
      modifies this
      ensures Valid()
      ensures ok <==> nodes == [] || Feasible(p, |nodes|)
      ensures if ok && nodes != [] then
                && |at| == |nodes| && Dealt(p, at)
                && (parents, homes) == AllPlaced(rows * cols, old(parents), old(homes), at, nodes, |nodes|)
                && EachAtItsRouter(rows * cols, old(parents), old(homes), parents, homes, at, nodes, |nodes|)
                && (NoneTwice(p.routerList) ==> Even(p, at))
              else
                parents == old(parents) && homes == old(homes)
    {
      at := [];
      if nodes == [] {
        return true, at;
      }
      if p.nodesPerRouter > 0 {
        if |p.routerList| * p.nodesPerRouter != |nodes| {
          return false, at;
        }
        at := PlaceInShares(p, nodes);
      } else {
        if p.routerList == [] {
          return false, at;
        }
        at := PlaceInTurn(p, nodes);
      }
      PlacedAtRouters(rows * cols, old(parents), old(homes), at, nodes, |nodes|);
      if NoneTwice(p.routerList) {
        DealtEvenly(p, at);
      }
      ok := true;
    }

    /** Whatever was placed so far, the topology can be built from it; the network is free of
        deadlock if and only if all controllers are in reach of each other. */
    method Tables() returns (edges: seq<Edge>, w: Matrix, d: Matrix)
      requires Valid()
      ensures MeshTables(TheLayout(), edges, w, d)
      ensures DeadlockFree(TheLayout(), edges, w, d) <==> InReach(TheLayout())
    {
      edges, w, d := RouteTables(TheLayout(), |extLinks|, extLinks, intLinks);
      DeadlockFreeExactly(TheLayout(), edges, w, d);
    }
  }
}
