/** Binding the ports of a configuration: one pass over the sorted connections, making each
    connection whose two ends are next in line on their ports. */
module PortBinding {
  import opened Sets
  import opened Sorting
  import opened PortOrder

  /** An object's port, without an index. */
  type Key = (string, string)

  function KeyOf(p: Port): Key {
    (p.objectName, p.portName)
  }

  datatype Outcome = Bound(made: seq<Connection>) | CannotBeOrdered | UnknownPort

  /** How many ends of the connections made so far are on a port. */
  ghost function Uses(made: seq<Connection>, k: Key): nat {
    if made == [] then 0
    else
      var c := made[|made| - 1];
      Uses(made[..|made| - 1], k) + (if KeyOf(c.from) == k then 1 else 0) + (if KeyOf(c.to) == k then 1 else 0)
  }

  /** Both ends of c are next in line. */
  ghost predicate Ready(made: seq<Connection>, c: Connection) {
    Uses(made, KeyOf(c.from)) == c.from.index && Uses(made, KeyOf(c.to)) == c.to.index
  }

  /** What one pass over the given list makes. */
  ghost function Greedy(list: seq<Connection>): seq<Connection> {
    if list == [] then []
    else
      var made, c := Greedy(list[..|list| - 1]), list[|list| - 1];
      if Ready(made, c) then made + [c] else made
  }

  /** Every connection was made when both of its ends were next in line. */
  ghost predicate InOrder(made: seq<Connection>) {
    forall k :: 0 <= k < |made| ==> Ready(made[..k], made[k])
  }

  ghost predicate Counts(counters: map<Key, nat>, made: seq<Connection>) {
    forall k :: k in counters ==> counters[k] == Uses(made, k)
  }

  /** The ports a list mentions at its near ends, all counters at zero. */
  method StartCounters(connections: seq<Connection>) returns (counters: map<Key, nat>)
    ensures forall k :: k in counters <==> exists i :: 0 <= i < |connections| && KeyOf(connections[i].from) == k
    ensures Counts(counters, [])
  {
    counters := map[];
    for i := 0 to |connections|
      invariant forall k :: k in counters <==> exists j :: 0 <= j < i && KeyOf(connections[j].from) == k
      invariant Counts(counters, [])
    {
      counters := counters[KeyOf(connections[i].from) := 0];
    }
  }

  lemma {:induction false} CountsNext(counters: map<Key, nat>, made: seq<Connection>, c: Connection)
    requires Counts(counters, made) && KeyOf(c.from) in counters && KeyOf(c.to) in counters
    ensures var one := counters[KeyOf(c.from) := counters[KeyOf(c.from)] + 1];
            Counts(one[KeyOf(c.to) := one[KeyOf(c.to)] + 1], made + [c])
  {
    assert (made + [c])[..|made|] == made;
  }

  /** The pass itself; fails at a far end that has no counter. */
  method Pass(list: seq<Connection>, start: map<Key, nat>) returns (ok: bool, made: seq<Connection>)
    requires Counts(start, []) && forall i :: 0 <= i < |list| ==> KeyOf(list[i].from) in start
    ensures ok ==> made == Greedy(list)
    ensures !ok ==> exists i :: 0 <= i < |list| && KeyOf(list[i].to) !in start
  {
    made := [];
    var counters := start;
    for i := 0 to |list|
      invariant made == Greedy(list[..i])
      invariant counters.Keys == start.Keys && Counts(counters, made)
    {
      var c := list[i];
      assert list[..i + 1][..i] == list[..i];
      assert KeyOf(c.from) in counters;
      if counters[KeyOf(c.from)] == c.from.index {
        if KeyOf(c.to) !in counters {
          return false, made;
        }
        if counters[KeyOf(c.to)] == c.to.index {
          CountsNext(counters, made, c);
          made := made + [c];
          counters := counters[KeyOf(c.from) := counters[KeyOf(c.from)] + 1];
          counters := counters[KeyOf(c.to) := counters[KeyOf(c.to)] + 1];
        }
      }
    }
    assert list[..|list|] == list;
    ok := true;
  }

  // What a list that binds has bound.

  /** The list names every connection from both of its ends, and none twice. */
  ghost predicate Symmetric(connections: seq<Connection>) {
    forall c :: c in connections ==> Flip(c) in connections
  }

  ghost predicate NoDuplicates(connections: seq<Connection>) {
    forall i, j :: 0 <= i < j < |connections| ==> connections[i] != connections[j]
  }

  /** No port is connected to itself. */
  ghost predicate NoSelfConnection(connections: seq<Connection>) {
    forall c :: c in connections ==> c.from != c.to
  }

  /** Every connection listed was made, in exactly one orientation, and nothing else was. */
  ghost predicate OneOrientationEach(connections: seq<Connection>, made: seq<Connection>) {
    && NoDuplicates(made)
    && (forall c :: c in made ==> c in connections)
    && (forall c :: c in connections ==> c in made || Flip(c) in made)
    && (forall c :: c in made ==> Flip(c) in made ==> c.from == c.to)
  }

  lemma {:induction false} GreedyInOrder(list: seq<Connection>)
    ensures InOrder(Greedy(list))
    ensures forall c :: c in Greedy(list) ==> c in list
  {
    if list != [] {
      var rest := list[..|list| - 1];
      GreedyInOrder(rest);
      var made, all := Greedy(rest), Greedy(list);
      forall k | 0 <= k < |all|
        ensures Ready(all[..k], all[k])
      {
        assert all[..k] == if k < |made| then made[..k] else made;
      }
    }
  }

  lemma {:induction false} UsesGrow(made: seq<Connection>, k: nat, m: nat, key: Key)
    requires k <= m <= |made|
    ensures Uses(made[..k], key) <= Uses(made[..m], key)
  {
    if k < m {
      UsesGrow(made, k, m - 1, key);
      assert made[..m][..m - 1] == made[..m - 1];
    }
  }

  /** Once an end is taken its turn does not come again. */
  lemma {:induction false} EndTaken(made: seq<Connection>, k: nat, m: nat, p: Port)
    requires InOrder(made) && k < m < |made| && (made[k].from == p || made[k].to == p)
    ensures made[m].from != p && made[m].to != p
  {
    assert Ready(made[..k], made[k]) && Ready(made[..m], made[m]);
    assert made[..k + 1][..k] == made[..k];
    assert Uses(made[..k + 1], KeyOf(p)) > p.index;
    UsesGrow(made, k + 1, m, KeyOf(p));
  }

  /** The connections made are all different and no two are the two ends of the same. */
  lemma {:induction false} MadeOnce(made: seq<Connection>)
    requires InOrder(made)
    ensures NoDuplicates(made)
    ensures forall c :: c in made && Flip(c) in made ==> c.from == c.to
  {
    forall i, j | 0 <= i < j < |made|
      ensures made[i] != made[j] && made[i] != Flip(made[j])
    {
      EndTaken(made, i, j, made[i].from);
    }
    forall c | c in made && Flip(c) in made
      ensures c.from == c.to
    {
      var i :| 0 <= i < |made| && made[i] == c;
      var j :| 0 <= j < |made| && made[j] == Flip(c);
      assert Flip(made[j]) == c && Flip(made[i]) == made[j];
    }
  }

  ghost function SetOf(s: seq<Connection>): (r: set<Connection>)
    ensures forall c :: c in r <==> c in s
    ensures |r| <= |s|
  {
    if s == [] then {}
    else
      assert forall c :: c in s <==> c in s[..|s| - 1] || c == s[|s| - 1];
      SetOf(s[..|s| - 1]) + {s[|s| - 1]}
  }

  lemma {:induction false} SetOfSize(s: seq<Connection>)
    requires NoDuplicates(s)
    ensures |SetOf(s)| == |s|
  {
    if s != [] {
      SetOfSize(s[..|s| - 1]);
      assert s[|s| - 1] !in s[..|s| - 1];
    }
  }

  ghost function Flips(m: set<Connection>): set<Connection> {
    set c | c in m :: Flip(c)
  }

  lemma {:induction false} FlipsSize(m: set<Connection>)
    ensures |Flips(m)| == |m|
  {
    if m != {} {
      var c :| c in m;
      FlipsSize(m - {c});
      assert Flips(m) == Flips(m - {c}) + {Flip(c)};
      assert Flip(c) !in Flips(m - {c}) by {
        forall d | d in m - {c}
          ensures Flip(d) != Flip(c)
        {
          assert Flip(Flip(d)) == d && Flip(Flip(c)) == c;
        }
      }
    }
  }

  /** A list is bound in full if and only if it connects no port to itself. With such a
      connection the final count can come out right although others were left unmade. */
  lemma {:induction false} BoundMeans(connections: seq<Connection>, sorted: seq<Connection>, made: seq<Connection>)
    requires Symmetric(connections) && NoDuplicates(connections)
    requires multiset(sorted) == multiset(connections) && made == Greedy(sorted) && 2 * |made| == |connections|
    ensures InOrder(made)
    ensures OneOrientationEach(connections, made) <==> NoSelfConnection(connections)
  {
    GreedyInOrder(sorted);
    MadeOnce(made);
    forall c | c in made
      ensures c in connections && Flip(c) in connections
    {
      assert c in multiset(sorted);
    }
    var all, m := SetOf(connections), SetOf(made);
    SetOfSize(connections);
    SetOfSize(made);
    FlipsSize(m);
    if NoSelfConnection(connections) {
      HalvesCover(connections, made);
    } else {
      var c :| c in connections && c.from == c.to;
      assert Flip(c) == c;
      if c in made {
        assert c in m && Flip(c) in Flips(m);
        SelfLeavesGap(all, m, c);
      }
    }
  }

  lemma {:induction false} HalvesCover(connections: seq<Connection>, made: seq<Connection>)
    requires NoSelfConnection(connections) && NoDuplicates(made)
    requires forall c :: c in made ==> c in connections && Flip(c) in connections
    requires forall c :: c in made && Flip(c) in made ==> c.from == c.to
    requires |SetOf(connections)| == 2 * |SetOf(made)| && |Flips(SetOf(made))| == |SetOf(made)|
    ensures OneOrientationEach(connections, made)
  {
    var all, m := SetOf(connections), SetOf(made);
    assert m !! Flips(m);
    assert |m + Flips(m)| == |all|;
    SubsetSize(m + Flips(m), all);
    forall c | c in connections
      ensures c in made || Flip(c) in made
    {
      assert c in m + Flips(m);
    }
  }

  /** With a self-connection among those made, the made and their flips cannot be all. */
  lemma {:induction false} SelfLeavesGap(all: set<Connection>, m: set<Connection>, c: Connection)
    requires c in m && c in Flips(m) && |all| == 2 * |m| && |Flips(m)| == |m|
    ensures exists d :: d in all && d !in m && Flip(d) !in m
  {
    if forall d :: d in all ==> d in m || Flip(d) in m {
      forall d | d in all
        ensures d in m + Flips(m)
      {
        if Flip(d) in m {
          assert Flip(Flip(d)) == d;
        }
      }
      assert m + Flips(m) == m + (Flips(m) - {c});
      SubsetSize(all, m + (Flips(m) - {c}));
    }
  }

  /** A port is an end of at most one connection. */
  ghost predicate OnePeer(connections: seq<Connection>) {
    && (forall c, d :: c in connections && d in connections && c.from == d.from ==> c == d)
    && (forall c, d :: c in connections && d in connections && c.from == d.to ==> c == Flip(d))
    && (forall c, d :: c in connections && d in connections && c.to == d.to ==> c == d)
  }

  ghost predicate Subsequence(s: seq<Connection>, list: seq<Connection>) {
    if list == [] then s == []
    else
      var rest := list[..|list| - 1];
      Subsequence(s, rest) || (s != [] && s[|s| - 1] == list[|list| - 1] && Subsequence(s[..|s| - 1], rest))
  }

  ghost predicate EndOf(made: seq<Connection>, p: Port) {
    exists c :: c in made && (c.from == p || c.to == p)
  }

  lemma {:induction false} InOrderButLast(made: seq<Connection>)
    requires InOrder(made) && made != []
    ensures InOrder(made[..|made| - 1]) && Ready(made[..|made| - 1], made[|made| - 1])
  {
    var rest := made[..|made| - 1];
    forall k | 0 <= k < |rest|
      ensures Ready(rest[..k], rest[k])
    {
      assert rest[..k] == made[..k] && rest[k] == made[k];
      assert Ready(made[..k], made[k]);
    }
  }

  lemma {:induction false} EndOfLast(made: seq<Connection>, p: Port)
    requires made != []
    ensures EndOf(made, p)
       <==> EndOf(made[..|made| - 1], p) || made[|made| - 1].from == p || made[|made| - 1].to == p
  {
    var rest, c := made[..|made| - 1], made[|made| - 1];
    assert forall d :: d in made <==> d in rest || d == c by {
      assert made == rest + [c];
    }
  }

  /** A port's turns are taken in order, without a gap. */
  lemma {:induction false} TurnsTaken(made: seq<Connection>, p: Port)
    requires InOrder(made) && NoSelfConnection(made)
    ensures p.index < Uses(made, KeyOf(p)) <==> EndOf(made, p)
  {
    if made != [] {
      var rest, c := made[..|made| - 1], made[|made| - 1];
      InOrderButLast(made);
      assert c.from != c.to;
      TurnsTaken(rest, p);
      EndOfLast(made, p);
      assert Ready(rest, c);
    }
  }

  ghost predicate MadeEitherWay(c: Connection, made: seq<Connection>) {
    c in made || Flip(c) in made
  }

  /** If made covers another order s, then it is at least as far along as s on every port. */
  lemma {:induction false} AtLeastAsFar(s: seq<Connection>, made: seq<Connection>, p: Port)
    requires InOrder(s) && InOrder(made) && NoSelfConnection(s) && NoSelfConnection(made)
    requires forall c :: c in s ==> MadeEitherWay(c, made)
    ensures Uses(s, KeyOf(p)) <= Uses(made, KeyOf(p))
  {
    var next := Port(p.objectName, p.portName, Uses(made, KeyOf(p)));
    assert EndOf(s, next) ==> EndOf(made, next) by {
      if EndOf(s, next) {
        var c :| c in s && (c.from == next || c.to == next);
        assert MadeEitherWay(c, made);
      }
    }
    TurnsTaken(s, next);
    TurnsTaken(made, next);
  }

  /** The pass over the list makes all of s. */
  ghost predicate Covered(s: seq<Connection>, list: seq<Connection>) {
    forall c :: c in s ==> c in list && MadeEitherWay(c, Greedy(list))
  }

  lemma {:induction false} GreedyKeeps(list: seq<Connection>, c: Connection)
    requires list != [] && MadeEitherWay(c, Greedy(list[..|list| - 1]))
    ensures MadeEitherWay(c, Greedy(list))
  {
  }

  lemma {:induction false} StaysCovered(s: seq<Connection>, list: seq<Connection>)
    requires list != [] && Covered(s, list[..|list| - 1])
    ensures Covered(s, list)
  {
    forall c | c in s
      ensures c in list && MadeEitherWay(c, Greedy(list))
    {
      GreedyKeeps(list, c);
    }
  }

  lemma {:induction false} SubsequenceLast(s: seq<Connection>, list: seq<Connection>) returns (t: seq<Connection>)
    requires list != [] && Subsequence(s, list) && !Subsequence(s, list[..|list| - 1])
    ensures s != [] && t == s[..|s| - 1] && s[|s| - 1] == list[|list| - 1]
    ensures s == t + [list[|list| - 1]] && Subsequence(t, list[..|list| - 1])
  {
    t := s[..|s| - 1];
  }

  /** The pass never misses what some choice of listings, taken in sorted order, could make. */
  lemma {:induction false} PassKeepsUp(list: seq<Connection>, s: seq<Connection>)
    requires NoSelfConnection(list) && OnePeer(list)
    requires Subsequence(s, list) && InOrder(s)
    ensures Covered(s, list)
  {
    if list != [] {
      var rest := list[..|list| - 1];
      FewerPeers(list, rest);
      if Subsequence(s, rest) {
        PassKeepsUp(rest, s);
        StaysCovered(s, list);
      } else {
        var t := SubsequenceLast(s, list);
        InOrderButLast(s);
        PassKeepsUp(rest, t);
        NextCovered(list, t);
      }
    }
  }

  lemma {:induction false} FewerPeers(list: seq<Connection>, rest: seq<Connection>)
    requires NoSelfConnection(list) && OnePeer(list) && rest <= list
    ensures NoSelfConnection(rest) && OnePeer(rest)
  {
    assert forall c :: c in rest ==> c in list;
  }

  lemma {:induction false} OneMoreCovered(t: seq<Connection>, c: Connection, list: seq<Connection>)
    requires Covered(t, list) && c in list && MadeEitherWay(c, Greedy(list))
    ensures Covered(t + [c], list)
  {
  }

  lemma {:induction false} NextCovered(list: seq<Connection>, t: seq<Connection>)
    requires list != [] && NoSelfConnection(list) && OnePeer(list)
    requires InOrder(t) && Ready(t, list[|list| - 1]) && Covered(t, list[..|list| - 1])
    ensures Covered(t + [list[|list| - 1]], list)
  {
    var rest, c := list[..|list| - 1], list[|list| - 1];
    GreedyInOrder(rest);
    assert forall d :: d in rest ==> d in list;
    NextIsMade(list, t, Greedy(rest), c);
    if !Ready(Greedy(rest), c) {
      GreedyKeeps(list, c);
    }
    StaysCovered(t, list);
    OneMoreCovered(t, c, list);
  }

  lemma {:induction false} NextIsMade(list: seq<Connection>, t: seq<Connection>, before: seq<Connection>, c: Connection)
    requires NoSelfConnection(list) && OnePeer(list) && c in list
    requires forall d :: d in t || d in before ==> d in list
    requires InOrder(t) && InOrder(before) && Ready(t, c)
    requires forall d :: d in t ==> MadeEitherWay(d, before)
    ensures Ready(before, c) || MadeEitherWay(c, before)
  {
    AtLeastAsFar(t, before, c.from);
    AtLeastAsFar(t, before, c.to);
    TurnsTaken(before, c.from);
    TurnsTaken(before, c.to);
    if EndOf(before, c.from) {
      var d :| d in before && (d.from == c.from || d.to == c.from);
      assert d == c || d == Flip(c) by { assert Flip(Flip(d)) == d; }
    }
    if EndOf(before, c.to) {
      var d :| d in before && (d.from == c.to || d.to == c.to);
      assert d == c || d == Flip(c) by { assert Flip(Flip(d)) == d; }
    }
  }

  lemma {:induction false} GreedyIsSubsequence(list: seq<Connection>)
    ensures Subsequence(Greedy(list), list)
  {
    if list != [] {
      GreedyIsSubsequence(list[..|list| - 1]);
      var made := Greedy(list[..|list| - 1]);
      assert (made + [list[|list| - 1]])[..|made|] == made;
    }
  }

  ghost predicate CanBeOrdered(list: seq<Connection>, s: seq<Connection>) {
    Subsequence(s, list) && InOrder(s) && forall c :: c in list ==> MadeEitherWay(c, s)
  }

  /** The pass makes every connection if and only if some choice of listings, taken in sorted
      order, makes every connection with each port's turns in order. */
  lemma {:induction false} PassIsBest(list: seq<Connection>)
    requires NoSelfConnection(list) && OnePeer(list)
    ensures (forall c :: c in list ==> MadeEitherWay(c, Greedy(list))) <==> exists s :: CanBeOrdered(list, s)
  {
    GreedyIsSubsequence(list);
    GreedyInOrder(list);
    if forall c :: c in list ==> MadeEitherWay(c, Greedy(list)) {
      assert CanBeOrdered(list, Greedy(list));
    }
    if s :| CanBeOrdered(list, s) {
      PassKeepsUp(list, s);
      forall c | c in list
        ensures MadeEitherWay(c, Greedy(list))
      {
        assert Flip(Flip(c)) == c;
        assert MadeEitherWay(c, s);
        if c !in s {
          assert MadeEitherWay(Flip(c), Greedy(list));
        }
      }
    }
  }

  /** The list joins ports in pairs and names every pair from both ends, once each. */
  ghost predicate PortToPort(connections: seq<Connection>) {
    Symmetric(connections) && NoDuplicates(connections) && NoSelfConnection(connections) && OnePeer(connections)
  }

  ghost predicate SameMembers(sorted: seq<Connection>, connections: seq<Connection>) {
    forall c :: c in sorted <==> c in connections
  }

  lemma {:induction false} SortedMembers(sorted: seq<Connection>, connections: seq<Connection>)
    requires multiset(sorted) == multiset(connections)
    ensures SameMembers(sorted, connections)
  {
    forall c
      ensures c in sorted <==> c in connections
    {
      assert c in multiset(sorted) <==> c in multiset(connections);
    }
  }

  lemma {:induction false} HalfOf(all: set<Connection>, m: set<Connection>)
    requires m <= all && |Flips(m)| == |m| && forall c :: c in m ==> Flip(c) !in m && Flip(c) in all
    requires forall c :: c in all ==> c in m || Flip(c) in m
    ensures |all| == 2 * |m|
  {
    forall c | c in all
      ensures c in m + Flips(m)
    {
      assert Flip(Flip(c)) == c;
    }
    assert m !! Flips(m) && all == m + Flips(m);
  }

  /** All connections made, one way each, are half of the listings. */
  lemma {:induction false} AllIsHalf(connections: seq<Connection>, made: seq<Connection>)
    requires PortToPort(connections) && InOrder(made)
    requires forall c :: c in made ==> c in connections
    requires forall c :: c in connections ==> MadeEitherWay(c, made)
    ensures 2 * |made| == |connections|
  {
    MadeOnce(made);
    SetOfSize(made);
    SetOfSize(connections);
    var all, m := SetOf(connections), SetOf(made);
    FlipsSize(m);
    forall c | c in m
      ensures Flip(c) !in m && Flip(c) in all
    {
      assert c in connections && c.from != c.to;
    }
    assert forall c :: c in all ==> MadeEitherWay(c, made);
    HalfOf(all, m);
  }

  /** For such a list the final count comes out right if and only if there is an order. */
  lemma {:induction false} CountDecides(connections: seq<Connection>, sorted: seq<Connection>)
    requires PortToPort(connections) && multiset(sorted) == multiset(connections)
    ensures 2 * |Greedy(sorted)| == |connections| <==> exists s :: CanBeOrdered(sorted, s)
  {
    var made := Greedy(sorted);
    SortedMembers(sorted, connections);
    assert NoSelfConnection(sorted) && OnePeer(sorted);
    PassIsBest(sorted);
    GreedyInOrder(sorted);
    if 2 * |made| == |connections| {
      BoundMeans(connections, sorted, made);
      assert OneOrientationEach(connections, made);
    }
    if forall c :: c in sorted ==> MadeEitherWay(c, made) {
      AllIsHalf(connections, made);
    }
  }

  /** Some far end is on a port that is nowhere listed as a near end. */
  ghost predicate UnlistedFarEnd(connections: seq<Connection>) {
    exists c :: c in connections && Unlisted(connections, KeyOf(c.to))
  }

  ghost predicate Unlisted(connections: seq<Connection>, k: Key) {
    forall d :: d in connections ==> KeyOf(d.from) != k
  }

  /** A list that joins ports in pairs is bound exactly when some order works. */
  ghost predicate Decided(connections: seq<Connection>, sorted: seq<Connection>, bound: bool) {
    PortToPort(connections) ==> (bound <==> exists s :: CanBeOrdered(sorted, s))
  }

  lemma {:induction false} DecidedByCount(connections: seq<Connection>, sorted: seq<Connection>)
    requires multiset(sorted) == multiset(connections)
    ensures Decided(connections, sorted, 2 * |Greedy(sorted)| == |connections|)
  {
    if PortToPort(connections) {
      CountDecides(connections, sorted);
    }
  }

  lemma {:induction false} FarEndMissing(connections: seq<Connection>, sorted: seq<Connection>, counters: map<Key, nat>)
    requires multiset(sorted) == multiset(connections)
    requires forall i :: 0 <= i < |connections| ==> KeyOf(connections[i].from) in counters
    requires exists i :: 0 <= i < |sorted| && KeyOf(sorted[i].to) !in counters
    ensures UnlistedFarEnd(connections) && Decided(connections, sorted, false)
  {
    SortedMembers(sorted, connections);
    var i :| 0 <= i < |sorted| && KeyOf(sorted[i].to) !in counters;
    var c := sorted[i];
    assert c in connections && Unlisted(connections, KeyOf(c.to));
    assert Flip(c) !in connections;
  }

  /** Makes the connections. Every far end that is looked at must also be listed as a near
      end, and the connections made must be half of those listed. For a list that joins ports
      in pairs, that is so exactly when some order works. */
  method BindPorts(connections: seq<Connection>) returns (r: Outcome, ghost sorted: seq<Connection>)
    ensures multiset(sorted) == multiset(connections) && SortedBy(sorted, Leq)
    ensures r.Bound? ==> r.made == Greedy(sorted) && 2 * |r.made| == |connections|
    ensures r.CannotBeOrdered? ==> 2 * |Greedy(sorted)| != |connections|
    ensures r.UnknownPort? ==> UnlistedFarEnd(connections)
    ensures Decided(connections, sorted, r.Bound?)
  {
    var counters := StartCounters(connections);
    ConnectionsOrdered();
    var list := Sort(connections, Leq);
    sorted := list;
    forall i | 0 <= i < |list|
      ensures list[i] in connections
    {
      assert list[i] in multiset(list);
    }
    var ok, made := Pass(list, counters);
    if !ok {
      FarEndMissing(connections, list, counters);
      return UnknownPort, sorted;
    }
    DecidedByCount(connections, list);
    if 2 * |made| != |connections| {
      return CannotBeOrdered, sorted;
    }
    r := Bound(made);
  }
}
