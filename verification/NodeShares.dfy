/** Dealing nodes out to a list of routers: in equal shares, or round the list. */
module NodeShares {
  import opened Arithmetic

  /** `nodesPerRouter` is zero when the configuration gives none. */
  datatype Placement = Placement(nodesPerRouter: nat, routerList: seq<nat>)

  /** The placement is one the script carries out. */
  predicate Feasible(p: Placement, count: nat) {
    if p.nodesPerRouter > 0 then |p.routerList| * p.nodesPerRouter == count else p.routerList != []
  }

  ghost predicate NoneTwice(list: seq<nat>) {
    forall i, j :: 0 <= i < j < |list| ==> list[i] != list[j]
  }

  /** Node by node, the router it goes to: share by share along the list. */
  ghost predicate InShares(list: seq<nat>, share: nat, at: seq<nat>) {
    0 < share && forall i :: 0 <= i < |at| ==> Quotient(i, share) < |list| && at[i] == list[Quotient(i, share)]
  }

  /** ... or one each, round and round. */
  ghost predicate InTurn(list: seq<nat>, at: seq<nat>) {
    list != [] && forall i :: 0 <= i < |at| ==> at[i] == list[i % |list|]
  }

  ghost predicate Dealt(p: Placement, at: seq<nat>) {
    if p.nodesPerRouter > 0 then InShares(p.routerList, p.nodesPerRouter, at) else InTurn(p.routerList, at)
  }

  /** How many of the first n nodes a router has. */
  ghost function NodesOn(at: seq<nat>, n: nat, router: nat): nat
    requires n <= |at|
  {
    multiset(at[..n])[router]
  }

  lemma {:induction false} NodesOnNext(at: seq<nat>, n: nat, router: nat)
    requires n < |at|
    ensures NodesOn(at, n + 1, router) == NodesOn(at, n, router) + if at[n] == router then 1 else 0
  {
    assert at[..n + 1] == at[..n] + [at[n]];
  }

  // Equal shares.

  lemma {:induction false} ShareOf(i: nat, share: nat, j: nat)
    requires 0 < share
    ensures Quotient(i, share) == j <==> j * share <= i < j * share + share
  {
    if j * share <= i < j * share + share {
      DivModUnique(i, share, j, i - j * share);
    }
    DivModParts(i, share);
  }

  /** Router j of the list has exactly the nodes of share j. */
  lemma {:induction false} OwnShare(list: seq<nat>, share: nat, at: seq<nat>, i: nat, j: nat)
    requires NoneTwice(list) && InShares(list, share, at) && i < |at| && j < |list|
    ensures at[i] == list[j] <==> j * share <= i < j * share + share
  {
    ShareOf(i, share, j);
  }

  /** The part of the first n that falls into the given stretch. */
  function Overlap(n: nat, first: nat, len: nat): nat {
    if n <= first then 0 else if n >= first + len then len else n - first
  }

  lemma {:induction false} StretchCount(at: seq<nat>, n: nat, router: nat, first: nat, len: nat)
    requires n <= |at| && forall i :: 0 <= i < |at| ==> (at[i] == router <==> first <= i < first + len)
    ensures NodesOn(at, n, router) == Overlap(n, first, len)
  {
    if n > 0 {
      StretchCount(at, n - 1, router, first, len);
      NodesOnNext(at, n - 1, router);
    }
  }

  lemma {:induction false} ShareCount(list: seq<nat>, share: nat, at: seq<nat>, j: nat)
    requires NoneTwice(list) && InShares(list, share, at) && j < |list| && |at| == |list| * share
    ensures NodesOn(at, |at|, list[j]) == share
  {
    forall i | 0 <= i < |at|
      ensures at[i] == list[j] <==> j * share <= i < j * share + share
    {
      OwnShare(list, share, at, i, j);
    }
    StretchCount(at, |at|, list[j], j * share, share);
    TimesMonotone(j + 1, |list|, share);
    OneMore(j, share);
  }

  // Round the list.

  lemma {:induction false} TurnCount(list: seq<nat>, at: seq<nat>, n: nat, j: nat)
    requires NoneTwice(list) && InTurn(list, at) && n <= |at| && j < |list|
    ensures NodesOn(at, n, list[j]) == Quotient(n, |list|) + if j < n % |list| then 1 else 0
  {
    var len := |list|;
    if n == 0 {
      DivModUnique(0, len, 0, 0);
    } else {
      TurnCount(list, at, n - 1, j);
      NodesOnNext(at, n - 1, list[j]);
      NextTurn(n - 1, len);
    }
  }

  lemma {:induction false} NextTurn(n: nat, len: nat)
    requires 0 < len
    ensures n % len < len
    ensures n % len + 1 < len ==> Quotient(n + 1, len) == Quotient(n, len) && (n + 1) % len == n % len + 1
    ensures n % len + 1 == len ==> Quotient(n + 1, len) == Quotient(n, len) + 1 && (n + 1) % len == 0
  {
    DivModParts(n, len);
    NextTurnFrom(n, len, n / len, n % len);
  }

  lemma {:induction false} NextTurnFrom(n: nat, len: nat, q: nat, r: nat)
    requires r < len && n == q * len + r
    ensures r + 1 < len ==> Quotient(n + 1, len) == q && (n + 1) % len == r + 1
    ensures r + 1 == len ==> Quotient(n + 1, len) == q + 1 && (n + 1) % len == 0
  {
    if r + 1 < len {
      DivModUnique(n + 1, len, q, r + 1);
    } else {
      OneMore(q, len);
      DivModUnique(n + 1, len, q + 1, 0);
    }
  }

  lemma {:induction false} NextIndex(i: nat, len: nat)
    requires 0 < len
    ensures (i % len + 1) % len == (i + 1) % len
  {
    NextTurn(i, len);
    if i % len + 1 < len {
      DivModUnique(i % len + 1, len, 0, i % len + 1);
    } else {
      DivModUnique(len, len, 1, 0);
    }
  }

  // What both are for.

  /** Every listed router has exactly its share, and its nodes are consecutive ones. */
  ghost predicate EqualShares(list: seq<nat>, share: nat, at: seq<nat>) {
    && (forall j :: 0 <= j < |list| ==> NodesOn(at, |at|, list[j]) == share)
    && forall i, i', k :: 0 <= i < k < i' < |at| && at[i] == at[i'] ==> at[k] == at[i]
  }

  /** At no time has a router two nodes more than another; a router listed earlier never has
      fewer. */
  ghost predicate BalancedTurns(list: seq<nat>, at: seq<nat>) {
    forall n, j, k :: 0 <= n <= |at| && 0 <= j < k < |list| ==>
      NodesOn(at, n, list[k]) <= NodesOn(at, n, list[j]) <= NodesOn(at, n, list[k]) + 1
  }

  /** All nodes go to listed routers, and evenly. */
  ghost predicate Even(p: Placement, at: seq<nat>) {
    && (forall i :: 0 <= i < |at| ==> at[i] in p.routerList)
    && if p.nodesPerRouter > 0 then EqualShares(p.routerList, p.nodesPerRouter, at) else BalancedTurns(p.routerList, at)
  }

  lemma {:induction false} SharesAreEqual(list: seq<nat>, share: nat, at: seq<nat>)
    requires NoneTwice(list) && InShares(list, share, at) && |at| == |list| * share
    ensures EqualShares(list, share, at)
  {
    forall j | 0 <= j < |list|
      ensures NodesOn(at, |at|, list[j]) == share
    {
      ShareCount(list, share, at, j);
    }
    forall i, i', k | 0 <= i < k < i' < |at| && at[i] == at[i']
      ensures at[k] == at[i]
    {
      var j := Quotient(i, share);
      OwnShare(list, share, at, i, j);
      OwnShare(list, share, at, i', j);
      OwnShare(list, share, at, k, j);
    }
  }

  lemma {:induction false} TurnsAreBalanced(list: seq<nat>, at: seq<nat>)
    requires NoneTwice(list) && InTurn(list, at)
    ensures BalancedTurns(list, at)
  {
    forall n, j, k | 0 <= n <= |at| && 0 <= j < k < |list|
      ensures NodesOn(at, n, list[k]) <= NodesOn(at, n, list[j]) <= NodesOn(at, n, list[k]) + 1
    {
      TurnCount(list, at, n, j);
      TurnCount(list, at, n, k);
    }
  }

  lemma {:induction false} DealtEvenly(p: Placement, at: seq<nat>)
    requires NoneTwice(p.routerList) && Feasible(p, |at|) && Dealt(p, at)
    ensures Even(p, at)
  {
    if p.nodesPerRouter > 0 {
      SharesAreEqual(p.routerList, p.nodesPerRouter, at);
    } else {
      TurnsAreBalanced(p.routerList, at);
      forall i | 0 <= i < |at|
        ensures at[i] in p.routerList
      {
        DivModParts(i, |p.routerList|);
      }
    }
  }
}
