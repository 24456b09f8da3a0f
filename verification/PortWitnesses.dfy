/** Connection lists on which binding ports does not do what its comments say, each of them
    one that a configuration file can give rise to. */
module PortWitnesses {
  import opened Sorting
  import opened PortOrder
  import opened PortBinding

  /** Near ends as they are gathered: every port's are numbered from 0, each once. */
  ghost predicate Gathered(list: seq<Connection>) {
    && (forall i, j :: 0 <= i < j < |list| ==> list[i].from != list[j].from)
    && (forall c :: c in list && c.from.index > 0 ==> HasNearEnd(list, Port(c.from.objectName, c.from.portName, c.from.index - 1)))
  }

  ghost predicate HasNearEnd(list: seq<Connection>, p: Port) {
    exists c :: c in list && c.from == p
  }

  lemma {:induction false} AdjacentSorted(list: seq<Connection>)
    requires forall i :: 0 <= i < |list| - 1 ==> Leq(list[i], list[i + 1])
    ensures SortedBy(list, Leq)
  {
    forall i, j | 0 <= i < j < |list|
      ensures Leq(list[i], list[j])
    {
      Chained(list, i, j);
    }
  }

  lemma {:induction false} Chained(list: seq<Connection>, i: nat, j: nat)
    requires i < j < |list| && forall k :: 0 <= k < |list| - 1 ==> Leq(list[k], list[k + 1])
    ensures Leq(list[i], list[j])
    decreases j - i
  {
    assert Leq(list[j - 1], list[(j - 1) + 1]);
    if i < j - 1 {
      Chained(list, i, j - 1);
      ConnectionsOrdered();
      assert Leq(list[i], list[j - 1]) && Leq(list[j - 1], list[j]);
    }
  }

  /** A letter earlier, or the same port with a lower index. */
  lemma {:induction false} LinkBefore(a: char, i: nat, b: string, j: nat, c: char, k: nat, d: string, l: nat)
    requires a < c || (a == c && i < k)
    ensures Leq(Link([a], i, b, j), Link([c], k, d, l))
  {
    assert CompareStrings([a][1..], [c][1..]) == 0;
    StringsOrdered("p", "p", "p");
  }

  function Link(a: string, i: nat, b: string, j: nat): Connection {
    Connection(Port(a, "p", i), Port(b, "p", j))
  }

  lemma {:induction false} GreedyStep(list: seq<Connection>, c: Connection)
    ensures Greedy(list + [c]) == if Ready(Greedy(list), c) then Greedy(list) + [c] else Greedy(list)
  {
    assert (list + [c])[..|list|] == list;
  }

  lemma {:induction false} UsesStep(made: seq<Connection>, c: Connection, k: Key)
    ensures Uses([], k) == 0
    ensures Uses(made + [c], k)
         == Uses(made, k) + (if KeyOf(c.from) == k then 1 else 0) + (if KeyOf(c.to) == k then 1 else 0)
  {
    assert (made + [c])[..|made|] == made;
  }

  lemma {:induction false} Letters()
    ensures "a" != "b" && "a" != "c" && "a" != "d" && "b" != "c" && "b" != "d" && "c" != "d"
  {
    assert "a"[0] != "b"[0] && "a"[0] != "c"[0] && "a"[0] != "d"[0];
    assert "b"[0] != "c"[0] && "b"[0] != "d"[0] && "c"[0] != "d"[0];
  }

  /** Self-connections make up for an unmade connection: the count says that all is bound,
      but a's second connection is never made. */
  lemma {:induction false} SelfConnectionsHideAGap()
    ensures var list := [Link("a", 0, "a", 0), Link("a", 1, "c", 0), Link("b", 0, "b", 0), Link("c", 0, "a", 1)];
            && Gathered(list) && Symmetric(list) && SortedBy(list, Leq)
            && 2 * |Greedy(list)| == |list|
            && Link("a", 1, "c", 0) !in Greedy(list) && Link("c", 0, "a", 1) !in Greedy(list)
  {
    SelfConnectionsGathered();
    SelfConnectionsSorted();
    SelfConnectionsMade();
    Letters();
    assert Link("a", 1, "c", 0).from.index == 1 && Link("c", 0, "a", 1).from.objectName == "c";
  }

  lemma {:induction false} SelfConnectionsGathered()
    ensures var list := [Link("a", 0, "a", 0), Link("a", 1, "c", 0), Link("b", 0, "b", 0), Link("c", 0, "a", 1)];
            Gathered(list) && Symmetric(list)
  {
    var list := [Link("a", 0, "a", 0), Link("a", 1, "c", 0), Link("b", 0, "b", 0), Link("c", 0, "a", 1)];
    var ports := [Port("a", "p", 0), Port("a", "p", 1), Port("b", "p", 0), Port("c", "p", 0)];
    Letters();
    assert forall i :: 0 <= i < 4 ==> list[i].from == ports[i];
    assert HasNearEnd(list, ports[0]) by {
      assert list[0] in list;
    }
    assert Flip(list[0]) == list[0] && Flip(list[1]) == list[3] && Flip(list[2]) == list[2] && Flip(list[3]) == list[1];
  }

  lemma {:induction false} SelfConnectionsSorted()
    ensures SortedBy([Link("a", 0, "a", 0), Link("a", 1, "c", 0), Link("b", 0, "b", 0), Link("c", 0, "a", 1)], Leq)
  {
    LinkBefore('a', 0, "a", 0, 'a', 1, "c", 0);
    LinkBefore('a', 1, "c", 0, 'b', 0, "b", 0);
    LinkBefore('b', 0, "b", 0, 'c', 0, "a", 1);
    AdjacentSorted([Link("a", 0, "a", 0), Link("a", 1, "c", 0), Link("b", 0, "b", 0), Link("c", 0, "a", 1)]);
  }

  lemma {:induction false} SelfConnectionsMade()
    ensures Greedy([Link("a", 0, "a", 0), Link("a", 1, "c", 0), Link("b", 0, "b", 0), Link("c", 0, "a", 1)])
         == [Link("a", 0, "a", 0), Link("b", 0, "b", 0)]
  {
    Letters();
    var a, b, c, d := Link("a", 0, "a", 0), Link("a", 1, "c", 0), Link("b", 0, "b", 0), Link("c", 0, "a", 1);
    assert KeyOf(a.from) == KeyOf(a.to) == KeyOf(b.from) == KeyOf(d.to) == ("a", "p");
    assert KeyOf(c.from) == KeyOf(c.to) == ("b", "p");
    assert [] + [a] == [a] && [a] + [b] == [a, b] && [a, b] + [c] == [a, b, c] && [a, b, c] + [d] == [a, b, c, d];
    assert [a] + [c] == [a, c];
    UsesStep([], a, ("a", "p"));
    UsesStep([], a, ("b", "p"));
    UsesStep([a], c, ("a", "p"));
    GreedyStep([], a);
    GreedyStep([a], b);
    assert Greedy([a, b]) == [a];
    GreedyStep([a, b], c);
    GreedyStep([a, b, c], d);
  }

  lemma {:induction false} OthersOrder()
    ensures InOrder([Link("c", 0, "d", 0), Link("b", 0, "c", 1), Link("a", 0, "b", 1)])
  {
    var ab, bc, cd := Link("a", 0, "b", 1), Link("b", 0, "c", 1), Link("c", 0, "d", 0);
    var made := [cd, bc, ab];
    assert made[..0] == [] && made[..1] == [cd] && made[..2] == [cd, bc];
    assert Ready(made[..0], made[0]);
    SecondReady();
    ThirdReady();
  }

  lemma {:induction false} SecondReady()
    ensures Ready([Link("c", 0, "d", 0)], Link("b", 0, "c", 1))
  {
    Letters();
    var cd := Link("c", 0, "d", 0);
    assert [] + [cd] == [cd] && KeyOf(cd.from) == ("c", "p") && KeyOf(cd.to) == ("d", "p");
    UsesStep([], cd, ("b", "p"));
    UsesStep([], cd, ("c", "p"));
  }

  lemma {:induction false} ThirdReady()
    ensures Ready([Link("c", 0, "d", 0), Link("b", 0, "c", 1)], Link("a", 0, "b", 1))
  {
    Letters();
    var bc, cd := Link("b", 0, "c", 1), Link("c", 0, "d", 0);
    assert [] + [cd] == [cd] && [cd] + [bc] == [cd, bc];
    assert KeyOf(bc.from) == ("b", "p") && KeyOf(bc.to) == ("c", "p") == KeyOf(cd.from) && KeyOf(cd.to) == ("d", "p");
    UsesStep([], cd, ("a", "p"));
    UsesStep([cd], bc, ("a", "p"));
    UsesStep([], cd, ("b", "p"));
    UsesStep([cd], bc, ("b", "p"));
  }

  lemma {:induction false} FirstFour()
    ensures var ab, bc, cd := Link("a", 0, "b", 1), Link("b", 0, "c", 1), Link("c", 0, "d", 0);
            Greedy([ab, bc, Flip(ab), cd]) == [cd]
  {
    var ab, bc, cd := Link("a", 0, "b", 1), Link("b", 0, "c", 1), Link("c", 0, "d", 0);
    GreedyStep([], ab);
    assert [] + [ab] == [ab];
    GreedyStep([ab], bc);
    assert [ab] + [bc] == [ab, bc];
    GreedyStep([ab, bc], Flip(ab));
    assert [ab, bc] + [Flip(ab)] == [ab, bc, Flip(ab)];
    GreedyStep([ab, bc, Flip(ab)], cd);
    assert [ab, bc, Flip(ab)] + [cd] == [ab, bc, Flip(ab), cd];
  }

  lemma {:induction false} LastTwo()
    ensures var bc, cd := Link("b", 0, "c", 1), Link("c", 0, "d", 0);
            Ready([cd], Flip(bc)) && !Ready([cd, Flip(bc)], Flip(cd))
  {
    Letters();
    var bc, cd := Link("b", 0, "c", 1), Link("c", 0, "d", 0);
    assert [] + [cd] == [cd] && [cd] + [Flip(bc)] == [cd, Flip(bc)];
    assert KeyOf(bc.from) == ("b", "p") && KeyOf(bc.to) == ("c", "p") == KeyOf(cd.from) && KeyOf(cd.to) == ("d", "p");
    UsesStep([], cd, ("b", "p"));
    UsesStep([], cd, ("c", "p"));
    UsesStep([], cd, ("d", "p"));
    UsesStep([cd], Flip(bc), ("d", "p"));
  }

  /** The sorted pass does not find every order there is: these three connections could be
      made as c-d, b-c, a-b, but of their six listings the pass makes only two. */
  lemma {:induction false} SortedPassMissesAnOrder()
    ensures var ab, bc, cd := Link("a", 0, "b", 1), Link("b", 0, "c", 1), Link("c", 0, "d", 0);
            && THREE == [ab, bc, Flip(ab), cd, Flip(bc), Flip(cd)]
            && Gathered(THREE) && Symmetric(THREE) && SortedBy(THREE, Leq)
            && InOrder([cd, bc, ab])
            && |Greedy(THREE)| == 2
  {
    var ab, bc, cd := Link("a", 0, "b", 1), Link("b", 0, "c", 1), Link("c", 0, "d", 0);
    ThreeAreSorted();
    ThreeAreSymmetric();
    ThreeAreGathered();
    OthersOrder();
    FirstFour();
    LastTwo();
    GreedyStep([ab, bc, Flip(ab), cd], Flip(bc));
    assert [ab, bc, Flip(ab), cd] + [Flip(bc)] == [ab, bc, Flip(ab), cd, Flip(bc)];
    assert [cd] + [Flip(bc)] == [cd, Flip(bc)];
    GreedyStep([ab, bc, Flip(ab), cd, Flip(bc)], Flip(cd));
    assert [ab, bc, Flip(ab), cd, Flip(bc)] + [Flip(cd)] == [ab, bc, Flip(ab), cd, Flip(bc), Flip(cd)];
  }

  const THREE := [Link("a", 0, "b", 1), Link("b", 0, "c", 1), Link("b", 1, "a", 0),
                  Link("c", 0, "d", 0), Link("c", 1, "b", 0), Link("d", 0, "c", 0)]

  lemma {:induction false} ThreeAreSorted()
    ensures SortedBy(THREE, Leq)
  {
    LinkBefore('a', 0, "b", 1, 'b', 0, "c", 1);
    LinkBefore('b', 0, "c", 1, 'b', 1, "a", 0);
    LinkBefore('b', 1, "a", 0, 'c', 0, "d", 0);
    LinkBefore('c', 0, "d", 0, 'c', 1, "b", 0);
    LinkBefore('c', 1, "b", 0, 'd', 0, "c", 0);
    AdjacentSorted(THREE);
  }

  lemma {:induction false} ThreeAreSymmetric()
    ensures Symmetric(THREE)
  {
    forall i | 0 <= i < |THREE|
      ensures Flip(THREE[i]) in THREE
    {
      var j := if i == 0 then 2 else if i == 1 then 4 else if i == 2 then 0 else if i == 3 then 5 else if i == 4 then 1 else 3;
      assert Flip(THREE[i]) == THREE[j];
    }
  }

  lemma {:induction false} ThreeAreGathered()
    ensures Gathered(THREE)
  {
    Letters();
    var ports := [Port("a", "p", 0), Port("b", "p", 0), Port("b", "p", 1), Port("c", "p", 0), Port("c", "p", 1), Port("d", "p", 0)];
    assert forall i :: 0 <= i < 6 ==> THREE[i].from == ports[i];
    assert forall i, j :: 0 <= i < j < 6 ==> ports[i] != ports[j];
    assert HasNearEnd(THREE, ports[1]) by {
      assert THREE[1] in THREE;
    }
    assert HasNearEnd(THREE, ports[3]) by {
      assert THREE[3] in THREE;
    }
  }
}
