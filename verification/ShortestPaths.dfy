/** All-pairs shortest distances over a weight matrix, computed the way the Ruby
    topology does it: relax every pair through every intermediate switch, in place,
    and repeat whole passes until one of them changes nothing. */
module ShortestPaths {

  type Matrix = seq<seq<int>>

  ghost predicate Square(m: Matrix) {
    forall i :: 0 <= i < |m| ==> |m[i]| == |m|
  }

  ghost predicate NonNegative(m: Matrix)
    requires Square(m)
  {
    forall i, j :: 0 <= i < |m| && 0 <= j < |m| ==> 0 <= m[i][j]
  }

  /** A walk of at least one hop from `from` to `to` over the switches 0..n-1. */
  ghost predicate Walk(n: nat, p: seq<nat>, from: nat, to: nat) {
    && |p| >= 2
    && p[0] == from
    && p[|p| - 1] == to
    && forall k :: 0 <= k < |p| ==> p[k] < n
  }

  ghost function Cost(w: Matrix, p: seq<nat>): int
    requires Square(w)
    requires forall k :: 0 <= k < |p| ==> p[k] < |w|
  {
    if |p| < 2 then 0 else w[p[0]][p[1]] + Cost(w, p[1..])
  }

  /** Some walk from i to j costs exactly d. */
  ghost predicate Attained(w: Matrix, i: nat, j: nat, d: int)
    requires Square(w)
  {
    exists p :: Walk(|w|, p, i, j) && Cost(w, p) == d
  }

  /** No walk from i to j costs less than d. */
  ghost predicate LowerBound(w: Matrix, i: nat, j: nat, d: int)
    requires Square(w)
  {
    forall p :: Walk(|w|, p, i, j) ==> d <= Cost(w, p)
  }

  /** Every entry of d is the least cost of a walk in w. */
  ghost predicate IsShortest(w: Matrix, d: Matrix)
    requires Square(w)
  {
    && |d| == |w|
    && Square(d)
    && forall i, j :: 0 <= i < |w| && 0 <= j < |w| ==> Attained(w, i, j, d[i][j]) && LowerBound(w, i, j, d[i][j])
  }

  lemma {:induction false} CostConcat(w: Matrix, p: seq<nat>, q: seq<nat>)
    requires Square(w)
    requires |p| >= 1 && |q| >= 1 && p[|p| - 1] == q[0]
    requires forall k :: 0 <= k < |p| ==> p[k] < |w|
    requires forall k :: 0 <= k < |q| ==> q[k] < |w|
    ensures Cost(w, p + q[1..]) == Cost(w, p) + Cost(w, q)
  {
    if |p| == 1 {
      assert p + q[1..] == q;
    } else {
      CostConcat(w, p[1..], q);
      assert (p + q[1..])[1..] == p[1..] + q[1..];
    }
  }

  lemma {:induction false} AttainedJoin(w: Matrix, i: nat, k: nat, j: nat, a: int, b: int)
    requires Square(w)
    requires Attained(w, i, k, a) && Attained(w, k, j, b)
    ensures Attained(w, i, j, a + b)
  {
    var p :| Walk(|w|, p, i, k) && Cost(w, p) == a;
    var q :| Walk(|w|, q, k, j) && Cost(w, q) == b;
    CostConcat(w, p, q);
    assert Walk(|w|, p + q[1..], i, j);
  }

  lemma {:induction false} AttainedLink(w: Matrix, i: nat, j: nat)
    requires Square(w) && i < |w| && j < |w|
    ensures Attained(w, i, j, w[i][j])
  {
    var p := [i, j];
    assert p[1..] == [j];
    assert Walk(|w|, p, i, j) && Cost(w, p) == w[i][j];
  }

  /** What every relaxation keeps: entries lie between zero and the direct weight ... */
  ghost predicate Below(w: Matrix, d: Matrix)
    requires Square(w)
  {
    && |d| == |w|
    && Square(d)
    && forall i, j {:trigger d[i][j]} :: 0 <= i < |w| && 0 <= j < |w| ==> 0 <= d[i][j] <= w[i][j]
  }

  /** ... and each is the cost of some walk. */
  ghost predicate AllAttained(w: Matrix, d: Matrix)
    requires Square(w) && Square(d) && |d| == |w|
  {
    forall i, j {:trigger d[i][j]} :: 0 <= i < |w| && 0 <= j < |w| ==> Attained(w, i, j, d[i][j])
  }

  ghost predicate NoShortcut(d: Matrix, i: nat, j: nat)
    requires Square(d) && i < |d| && j < |d|
  {
    forall k :: 0 <= k < |d| ==> d[i][j] <= d[i][k] + d[k][j]
  }

  /** A matrix that no relaxation improves lies below every walk. */
  lemma {:induction false} StableIsBelowWalks(w: Matrix, d: Matrix, p: seq<nat>)
    requires Square(w) && Below(w, d)
    requires forall i, j :: 0 <= i < |d| && 0 <= j < |d| ==> NoShortcut(d, i, j)
    requires |p| >= 2 && forall k :: 0 <= k < |p| ==> p[k] < |w|
    ensures d[p[0]][p[|p| - 1]] <= Cost(w, p)
  {
    if |p| == 2 {
      assert Cost(w, p[1..]) == 0;
    } else {
      StableIsBelowWalks(w, d, p[1..]);
      assert NoShortcut(d, p[0], p[|p| - 1]);
      assert d[p[0]][p[|p| - 1]] <= d[p[0]][p[1]] + d[p[1]][p[|p| - 1]];
    }
  }

  ghost function RowTotal(row: seq<int>): int {
    if row == [] then 0 else row[0] + RowTotal(row[1..])
  }

  ghost function Total(m: Matrix): int {
    if m == [] then 0 else RowTotal(m[0]) + Total(m[1..])
  }

  lemma {:induction false} RowTotalUpdate(row: seq<int>, j: nat, v: int)
    requires j < |row|
    ensures RowTotal(row[j := v]) == RowTotal(row) - row[j] + v
  {
    if j == 0 {
      assert row[0 := v][1..] == row[1..];
    } else {
      assert row[j := v][1..] == row[1..][j - 1 := v];
      RowTotalUpdate(row[1..], j - 1, v);
    }
  }

  lemma {:induction false} TotalUpdate(m: Matrix, i: nat, row: seq<int>)
    requires i < |m|
    ensures Total(m[i := row]) == Total(m) - RowTotal(m[i]) + RowTotal(row)
  {
    if i == 0 {
      assert m[0 := row][1..] == m[1..];
    } else {
      assert m[i := row][1..] == m[1..][i - 1 := row];
      TotalUpdate(m[1..], i - 1, row);
    }
  }

  lemma {:induction false} TotalNonNegative(m: Matrix)
    requires forall i, j :: 0 <= i < |m| && 0 <= j < |m[i]| ==> 0 <= m[i][j]
    ensures 0 <= Total(m)
  {
    if m != [] {
      RowTotalNonNegative(m[0]);
      assert forall i, j :: 0 <= i < |m[1..]| && 0 <= j < |m[1..][i]| ==> m[1..][i][j] == m[i + 1][j];
      TotalNonNegative(m[1..]);
    }
  }

  lemma {:induction false} RowTotalNonNegative(row: seq<int>)
    requires forall j :: 0 <= j < |row| ==> 0 <= row[j]
    ensures 0 <= RowTotal(row)
  {
    if row != [] {
      RowTotalNonNegative(row[1..]);
    }
  }

  /** The least distance from i to j that one relaxation finds. */
  method RelaxPair(ghost w: Matrix, dist: Matrix, i: nat, j: nat) returns (minimum: int)
    requires Square(w) && Below(w, dist) && AllAttained(w, dist)
    requires i < |dist| && j < |dist|
    ensures 0 <= minimum <= dist[i][j]
    ensures Attained(w, i, j, minimum)
    ensures forall k :: 0 <= k < |dist| ==> minimum <= dist[i][k] + dist[k][j]
  {
    minimum := dist[i][j];
    for k := 0 to |dist|
      invariant 0 <= minimum <= dist[i][j]
      invariant Attained(w, i, j, minimum)
      invariant forall k' :: 0 <= k' < k ==> minimum <= dist[i][k'] + dist[k'][j]
    {
      if dist[i][k] + dist[k][j] < minimum {
        AttainedJoin(w, i, k, j, dist[i][k], dist[k][j]);
        minimum := dist[i][k] + dist[k][j];
      }
    }
  }

  /** Lowering one entry to the cost of a walk keeps what relaxation keeps. */
  lemma {:induction false} LowerEntry(w: Matrix, d: Matrix, i: nat, j: nat, v: int)
    requires Square(w) && Below(w, d) && AllAttained(w, d)
    requires i < |d| && j < |d| && 0 <= v < d[i][j] && Attained(w, i, j, v)
    ensures var d' := d[i := d[i][j := v]];
            Below(w, d') && AllAttained(w, d') && Total(d') < Total(d)
  {
    var d' := d[i := d[i][j := v]];
    assert Total(d') < Total(d) by {
      RowTotalUpdate(d[i], j, v);
      TotalUpdate(d, i, d[i][j := v]);
    }
    forall a, b | 0 <= a < |d| && 0 <= b < |d|
      ensures 0 <= d'[a][b] <= w[a][b] && Attained(w, a, b, d'[a][b])
    {
      assert d'[a][b] == if a == i && b == j then v else d[a][b];
    }
  }

  /** The pairs before (i, j) in the order of one pass cannot be improved. */
  ghost predicate StableUpTo(d: Matrix, i: nat, j: nat)
    requires Square(d)
  {
    forall a, b {:trigger NoShortcut(d, a, b)} ::
      0 <= a < |d| && 0 <= b < |d| && (a < i || (a == i && b < j)) ==> NoShortcut(d, a, b)
  }

  lemma {:induction false} StableNext(d: Matrix, i: nat, j: nat)
    requires Square(d) && i < |d| && j < |d| && StableUpTo(d, i, j) && NoShortcut(d, i, j)
    ensures StableUpTo(d, i, j + 1)
    ensures j + 1 == |d| ==> StableUpTo(d, i + 1, 0)
  {
  }

  /** One pass over all pairs, updating the matrix as it goes. */
  method Pass(ghost w: Matrix, dist: Matrix) returns (next: Matrix, change: bool)
    requires Square(w) && Below(w, dist) && AllAttained(w, dist)
    ensures Below(w, next) && AllAttained(w, next)
    ensures if change then Total(next) < Total(dist) else next == dist && StableUpTo(dist, |dist|, 0)
  {
    next, change := dist, false;
    for i := 0 to |dist|
      invariant Below(w, next) && AllAttained(w, next)
      invariant if change then Total(next) < Total(dist) else next == dist && StableUpTo(dist, i, 0)
    {
      for j := 0 to |dist|
        invariant Below(w, next) && AllAttained(w, next)
        invariant if change then Total(next) < Total(dist) else next == dist && StableUpTo(dist, i, j)
      {
        var minimum := RelaxPair(w, next, i, j);
        if next[i][j] != minimum {
          change := true;
          LowerEntry(w, next, i, j, minimum);
          next := next[i := next[i][j := minimum]];
        } else if !change {
          StableNext(dist, i, j);
        }
      }
    }
  }

  lemma {:induction false} StableIsShortest(w: Matrix, d: Matrix)
    requires Square(w) && Below(w, d) && AllAttained(w, d) && StableUpTo(d, |d|, 0)
    ensures IsShortest(w, d)
  {
    forall i, j | 0 <= i < |w| && 0 <= j < |w|
      ensures Attained(w, i, j, d[i][j]) && LowerBound(w, i, j, d[i][j])
    {
      forall p | Walk(|w|, p, i, j)
        ensures d[i][j] <= Cost(w, p)
      {
        StableIsBelowWalks(w, d, p);
      }
    }
  }

  /** Passes until nothing changes. The result is exact for every non-negative matrix,
      whatever the number of switches. */
  method ShortestPath(weights: Matrix) returns (dist: Matrix)
    requires Square(weights) && NonNegative(weights)
    ensures IsShortest(weights, dist)
  {
    dist := weights;
    forall i, j | 0 <= i < |weights| && 0 <= j < |weights|
      ensures Attained(weights, i, j, weights[i][j])
    {
      AttainedLink(weights, i, j);
    }
    var change := true;
    while change
      invariant Below(weights, dist) && AllAttained(weights, dist)
      invariant !change ==> StableUpTo(dist, |dist|, 0)
      decreases Total(dist), change
    {
      dist, change := Pass(weights, dist);
      TotalNonNegative(dist);
    }
    StableIsShortest(weights, dist);
  }

  /** A potential that no link descends faster than its weight, and that every switch
      but the destination can descend at exactly some link's weight, is the distance. */
  lemma {:induction false} PotentialIsDistance(w: Matrix, d: Matrix, h: seq<nat>, final: nat, u: nat)
    requires Square(w) && NonNegative(w) && IsShortest(w, d)
    requires |h| == |w| && final < |w| && u < |w|
    requires w[final][final] == 0 && h[final] == 0
    requires forall i, j :: 0 <= i < |w| && 0 <= j < |w| ==> h[i] <= w[i][j] + h[j]
    requires forall i :: 0 <= i < |w| && i != final ==> Descends(w, h, i)
    ensures d[u][final] == h[u]
  {
    assert Attained(w, u, final, d[u][final]) && LowerBound(w, u, final, d[u][final]);
    var p :| Walk(|w|, p, u, final) && Cost(w, p) == d[u][final];
    PotentialBelowWalk(w, h, p);
    if u == final {
      AttainedLink(w, u, u);
    } else {
      DescentAttained(w, h, final, u);
    }
    var q :| Walk(|w|, q, u, final) && Cost(w, q) == h[u];
    assert d[u][final] <= Cost(w, q);
  }

  ghost predicate Descends(w: Matrix, h: seq<nat>, i: nat)
    requires Square(w) && |h| == |w| && i < |w|
  {
    exists j :: 0 <= j < |w| && 0 < w[i][j] && h[i] == w[i][j] + h[j]
  }

  lemma {:induction false} PotentialBelowWalk(w: Matrix, h: seq<nat>, p: seq<nat>)
    requires Square(w) && |h| == |w|
    requires |p| >= 1 && forall k :: 0 <= k < |p| ==> p[k] < |w|
    requires forall i, j :: 0 <= i < |w| && 0 <= j < |w| ==> h[i] <= w[i][j] + h[j]
    ensures h[p[0]] <= Cost(w, p) + h[p[|p| - 1]]
  {
    if |p| > 1 {
      PotentialBelowWalk(w, h, p[1..]);
    }
  }

  lemma {:induction false} DescentAttained(w: Matrix, h: seq<nat>, final: nat, u: nat)
    requires Square(w) && |h| == |w| && final < |w| && u < |w| && u != final
    requires w[final][final] == 0 && h[final] == 0
    requires forall i :: 0 <= i < |w| && i != final ==> Descends(w, h, i)
    ensures Attained(w, u, final, h[u])
    decreases h[u]
  {
    assert Descends(w, h, u);
    var j :| 0 <= j < |w| && 0 < w[u][j] && h[u] == w[u][j] + h[j];
    AttainedLink(w, u, j);
    if j != final {
      DescentAttained(w, h, final, j);
      AttainedJoin(w, u, j, final, w[u][j], h[j]);
    }
  }
}
