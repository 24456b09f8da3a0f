/** Single bits of an address: which ones masks start with, taking them out, and opening them up. */
module BitPositions {
  import opened Bits
  import opened Sorting

  // Bits of numbers.

  function SetBit(z: nat, i: nat, v: nat): nat
    requires v < 2
  {
    if i == 0 then 2 * (z / 2) + v else 2 * SetBit(z / 2, i - 1, v) + z % 2
  }

  lemma {:induction false} BitOfSetBit(z: nat, i: nat, v: nat, k: nat)
    requires v < 2
    ensures Bit(SetBit(z, i, v), k) == if k == i then v else Bit(z, k)
  {
    var r := SetBit(z, i, v);
    if i == 0 {
      assert r % 2 == v && r / 2 == z / 2;
    } else {
      assert r % 2 == z % 2 && r / 2 == SetBit(z / 2, i - 1, v);
      if k > 0 {
        BitOfSetBit(z / 2, i - 1, v, k - 1);
      }
    }
  }

  lemma {:induction false} SameBits(a: nat, b: nat)
    requires forall k: nat :: Bit(a, k) == Bit(b, k)
    ensures a == b
    decreases a + b
  {
    assert Bit(a, 0) == Bit(b, 0);
    if a > 0 || b > 0 {
      forall k: nat
        ensures Bit(a / 2, k) == Bit(b / 2, k)
      {
        assert Bit(a, k + 1) == Bit(b, k + 1);
      }
      SameBits(a / 2, b / 2);
    }
  }

  /** The parity under a mask looks at nothing but the bits in the mask. */
  lemma {:induction false} ParityAgrees(a: nat, b: nat, m: nat)
    requires forall k: nat :: Bit(m, k) == 1 ==> Bit(a, k) == Bit(b, k)
    ensures Parity(a, m) == Parity(b, m)
    decreases m
  {
    if m == 0 {
      ParityZero(a);
      ParityZero(b);
    } else {
      ParityStep(a, m);
      ParityStep(b, m);
      assert Bit(m, 0) == 1 ==> Bit(a, 0) == Bit(b, 0);
      forall k: nat | Bit(m / 2, k) == 1
        ensures Bit(a / 2, k) == Bit(b / 2, k)
      {
        assert Bit(m, k + 1) == 1;
        assert Bit(a, k + 1) == Bit(b, k + 1);
      }
      ParityAgrees(a / 2, b / 2, m / 2);
    }
  }

  // Masks and the bits they start with.

  /** The lowest bit set. */
  function Ctz(m: nat): nat {
    if m == 0 || m % 2 == 1 then 0 else 1 + Ctz(m / 2)
  }

  lemma {:induction false} CtzOfLowest(m: nat, k: nat)
    requires LowestBit(m, k)
    ensures m != 0 && Ctz(m) == k
  {
    if k > 0 {
      CtzOfLowest(m / 2, k - 1);
    }
  }

  lemma {:induction false} CtzIsLowest(m: nat)
    requires m != 0
    ensures LowestBit(m, Ctz(m))
  {
    if m % 2 == 0 {
      CtzIsLowest(m / 2);
    }
  }

  ghost predicate Nonzero(masks: seq<nat>) {
    forall i :: 0 <= i < |masks| ==> masks[i] != 0
  }

  /** The bit a mask counts as starting with; a mask without bits counts as starting above all. */
  function StartOf(m: nat): nat {
    if m == 0 then 64 else Ctz(m)
  }

  function Starts(masks: seq<nat>): (r: seq<nat>)
    ensures |r| == |masks| && forall i :: 0 <= i < |masks| ==> r[i] == StartOf(masks[i])
  {
    seq(|masks|, i requires 0 <= i < |masks| => StartOf(masks[i]))
  }

  /** No two masks start with the same bit. */
  ghost predicate Proper(masks: seq<nat>) {
    forall i, j :: 0 <= i < j < |masks| ==> StartOf(masks[i]) != StartOf(masks[j])
  }

  ghost predicate IsStart(masks: seq<nat>, k: nat) {
    exists i :: 0 <= i < |masks| && StartOf(masks[i]) == k
  }

  ghost predicate Ascending(ps: seq<nat>) {
    forall i, j :: 0 <= i < j < |ps| ==> ps[i] <= ps[j]
  }

  /** The first n positions are all different. */
  ghost predicate IncreasingTo(ps: seq<nat>, n: nat)
    requires n <= |ps|
  {
    forall i, j :: 0 <= i < j < n ==> ps[i] < ps[j]
  }

  /** The bits that the masks start with, lowest first, each as often as it occurs. */
  ghost predicate Positions(masks: seq<nat>, ps: seq<nat>) {
    Ascending(ps) && multiset(ps) == multiset(Starts(masks))
  }

  method SortedStarts(masks: seq<nat>) returns (ps: seq<nat>)
    ensures Positions(masks, ps)
  {
    var starts: seq<nat> := [];
    for i := 0 to |masks|
      invariant starts == Starts(masks)[..i]
    {
      starts := starts + [StartOf(masks[i])];
    }
    assert starts == Starts(masks);
    ps := Sort(starts, (a: nat, b: nat) => a <= b);
  }

  lemma {:induction false} PositionsAreStarts(masks: seq<nat>, ps: seq<nat>)
    requires Positions(masks, ps)
    ensures |ps| == |masks| && forall k: nat :: k in ps <==> IsStart(masks, k)
  {
    assert |multiset(ps)| == |ps| && |multiset(Starts(masks))| == |masks|;
    forall k: nat
      ensures k in ps <==> IsStart(masks, k)
    {
      assert k in ps <==> k in multiset(ps);
      assert k in Starts(masks) <==> k in multiset(Starts(masks));
      if IsStart(masks, k) {
        var i :| 0 <= i < |masks| && StartOf(masks[i]) == k;
        assert Starts(masks)[i] == k;
      }
    }
  }

  lemma {:induction false} ProperIncreasing(masks: seq<nat>, ps: seq<nat>)
    requires Positions(masks, ps) && Proper(masks)
    ensures IncreasingTo(ps, |ps|)
  {
    forall i, j | 0 <= i < j < |ps|
      ensures ps[i] < ps[j]
    {
      if ps[i] == ps[j] {
        CountTwice(ps, i, j);
        CountOnce(Starts(masks), ps[i]);
      }
    }
  }

  /** Two masks with the same start leave two equal neighbours. */
  lemma {:induction false} EqualNeighbours(masks: seq<nat>, ps: seq<nat>) returns (t: nat)
    requires Positions(masks, ps) && !Proper(masks)
    ensures 1 <= t < |ps| && ps[t - 1] == ps[t] && IncreasingTo(ps, t)
  {
    if forall t :: 1 <= t < |ps| ==> ps[t - 1] < ps[t] {
      NeighboursIncrease(ps, |ps|);
      assert ps[..|ps|] == ps;
      var i, j :| 0 <= i < j < |masks| && StartOf(masks[i]) == StartOf(masks[j]);
      CountTwice(Starts(masks), i, j);
      CountOnce(ps, StartOf(masks[i]));
      assert false;
    }
    t := 1;
    while ps[t - 1] < ps[t]
      invariant 1 <= t < |ps| && forall u :: 1 <= u < t ==> ps[u - 1] < ps[u]
      invariant exists u :: t <= u < |ps| && ps[u - 1] >= ps[u]
      decreases |ps| - t
    {
      t := t + 1;
    }
    NeighboursIncrease(ps, t);
  }

  lemma {:induction false} NeighboursIncrease(ps: seq<nat>, n: nat)
    requires n <= |ps| && forall t :: 1 <= t < n ==> ps[t - 1] < ps[t]
    ensures IncreasingTo(ps, n)
  {
    if n > 0 {
      NeighboursIncrease(ps, n - 1);
      forall i, j | 0 <= i < j < n
        ensures ps[i] < ps[j]
      {
        if j == n - 1 && i < n - 2 {
          assert ps[i] < ps[n - 2] < ps[n - 1];
        }
      }
    }
  }

  lemma {:induction false} CountOnce(s: seq<nat>, x: nat)
    requires forall i, j :: 0 <= i < j < |s| ==> s[i] != s[j]
    ensures multiset(s)[x] <= 1
  {
    if s != [] {
      var n := |s| - 1;
      CountOnce(s[..n], x);
      assert s == s[..n] + [s[n]];
      if s[n] == x {
        assert x !in s[..n];
        assert x !in multiset(s[..n]);
      }
    }
  }

  // Taking bits out and opening them up again.

  /** v with its p lowest bits replaced by those of b. */
  function InsertLow(v: nat, p: nat, b: nat): nat {
    if p == 0 then v else 2 * InsertLow(v / 2, p - 1, b / 2) + b % 2
  }

  lemma {:induction false} BitOfInsertLow(v: nat, p: nat, b: nat, k: nat)
    ensures Bit(InsertLow(v, p, b), k) == if k < p then Bit(b, k) else Bit(v, k)
  {
    if p > 0 {
      var r := InsertLow(v / 2, p - 1, b / 2);
      assert (2 * r + b % 2) / 2 == r && (2 * r + b % 2) % 2 == b % 2;
      if k > 0 {
        BitOfInsertLow(v / 2, p - 1, b / 2, k - 1);
      }
    }
  }

  /** One bit out: shift right, and put the bits below back. */
  function RemoveBit(a: nat, p: nat): nat {
    InsertLow(a / 2, p, a)
  }

  /** One bit in: shift left, and put the bits below back. */
  function InsertBit(a: nat, p: nat): nat {
    InsertLow(2 * a, p, a)
  }

  lemma {:induction false} BitOfRemoveBit(a: nat, p: nat, k: nat)
    ensures Bit(RemoveBit(a, p), k) == if k < p then Bit(a, k) else Bit(a, k + 1)
  {
    BitOfInsertLow(a / 2, p, a, k);
  }

  lemma {:induction false} BitOfInsertBit(a: nat, p: nat, k: nat)
    ensures Bit(InsertBit(a, p), k) == if k < p then Bit(a, k) else if k == 0 then 0 else Bit(a, k - 1)
  {
    BitOfInsertLow(2 * a, p, a, k);
    assert (2 * a) / 2 == a && (2 * a) % 2 == 0;
  }

  /** How many of the first n positions lie below k. */
  ghost function Rank(ps: seq<nat>, n: nat, k: nat): (r: nat)
    requires n <= |ps|
    ensures r <= n
  {
    if n == 0 then 0 else Rank(ps, n - 1, k) + if ps[n - 1] < k then 1 else 0
  }

  lemma {:induction false} RankAbove(ps: seq<nat>, n: nat, k: nat)
    requires n <= |ps| && IncreasingTo(ps, n) && (n > 0 ==> ps[n - 1] < k)
    ensures Rank(ps, n, k) == n
  {
    if n > 1 {
      RankAbove(ps, n - 1, k);
    }
  }

  lemma {:induction false} AtLeastIndex(ps: seq<nat>, i: nat)
    requires i < |ps| && IncreasingTo(ps, i + 1)
    ensures ps[i] >= i
  {
    if i > 0 {
      AtLeastIndex(ps, i - 1);
    }
  }

  /** Below position i there is room for the earlier ones. */
  lemma {:induction false} RankGap(ps: seq<nat>, i: nat, k: nat)
    requires i < |ps| && IncreasingTo(ps, i + 1) && k < ps[i] && k !in ps[..i]
    ensures Rank(ps, i, k) <= k && k - Rank(ps, i, k) < ps[i] - i
  {
    if i > 0 {
      assert ps[..i][i - 1] == ps[i - 1];
      if k < ps[i - 1] {
        assert ps[..i - 1] == ps[..i][..i - 1];
        RankGap(ps, i - 1, k);
      } else {
        RankAbove(ps, i, k);
        AtLeastIndex(ps, i - 1);
      }
    }
  }

  /** The i-th removal, for a mask that starts with bit s: i bits are gone already. With more
      bits gone than there were below s, nothing is taken out. */
  function RemoveAt(a: nat, s: nat, i: nat): nat {
    if s == 0 then a / 2 else if i <= s then RemoveBit(a, s - i) else a
  }

  /** The address after the first n removals. */
  ghost function Dropped(a: nat, ps: seq<nat>, n: nat): nat
    requires n <= |ps|
  {
    if n == 0 then a else RemoveAt(Dropped(a, ps, n - 1), ps[n - 1], n - 1)
  }

  /** The address with the first n positions opened up, holding whatever comes. */
  ghost function Opened(r: nat, ps: seq<nat>, n: nat): nat
    requires n <= |ps|
  {
    if n == 0 then r else InsertBit(Opened(r, ps, n - 1), ps[n - 1])
  }

  /** As long as the positions increase, each removal takes out the bit it is meant for. */
  lemma {:induction false} RemovalStep(a: nat, ps: seq<nat>, i: nat)
    requires i < |ps| && IncreasingTo(ps, i + 1)
    ensures ps[i] >= i && RemoveAt(a, ps[i], i) == RemoveBit(a, ps[i] - i)
  {
    AtLeastIndex(ps, i);
  }

  /** Every other bit moves down past the positions below it. */
  lemma {:induction false} DroppedBit(a: nat, ps: seq<nat>, n: nat, k: nat)
    requires n <= |ps| && IncreasingTo(ps, n) && k !in ps[..n]
    ensures Rank(ps, n, k) <= k && Bit(Dropped(a, ps, n), k - Rank(ps, n, k)) == Bit(a, k)
  {
    if n > 0 {
      var i := n - 1;
      assert ps[..n][i] == ps[i] && ps[..i] == ps[..n][..i];
      DroppedBit(a, ps, i, k);
      var d := Dropped(a, ps, i);
      RemovalStep(d, ps, i);
      if k < ps[i] {
        RankGap(ps, i, k);
        BitOfRemoveBit(d, ps[i] - i, k - Rank(ps, i, k));
      } else {
        RankAbove(ps, i, k);
        BitOfRemoveBit(d, ps[i] - i, k - i - 1);
      }
    }
  }

  /** Opening moves it back up. */
  lemma {:induction false} OpenedBit(r: nat, ps: seq<nat>, n: nat, k: nat)
    requires n <= |ps| && IncreasingTo(ps, n) && k !in ps[..n]
    ensures Rank(ps, n, k) <= k && Bit(Opened(r, ps, n), k) == Bit(r, k - Rank(ps, n, k))
  {
    if n > 0 {
      var i := n - 1;
      assert ps[..n][i] == ps[i] && ps[..i] == ps[..n][..i];
      BitOfInsertBit(Opened(r, ps, i), ps[i], k);
      if k < ps[i] {
        OpenedBit(r, ps, i, k);
      } else {
        assert k - 1 !in ps[..i];
        OpenedBit(r, ps, i, k - 1);
        RankAbove(ps, i, k - 1);
        RankAbove(ps, i, k);
        AtLeastIndex(ps, i);
      }
    }
  }

  /** The bit that is moved down to place p past the first n positions. */
  ghost function Unrank(ps: seq<nat>, n: nat, p: nat): nat
    requires n <= |ps|
  {
    if n == 0 then p
    else
      var k := Unrank(ps, n - 1, p);
      if k < ps[n - 1] then k else k + 1
  }

  lemma {:induction false} UnrankIs(ps: seq<nat>, n: nat, p: nat)
    requires n <= |ps| && IncreasingTo(ps, n)
    ensures var k := Unrank(ps, n, p); k !in ps[..n] && k == p + Rank(ps, n, k)
  {
    if n > 0 {
      var i := n - 1;
      assert ps[..n][i] == ps[i] && ps[..i] == ps[..n][..i];
      UnrankIs(ps, i, p);
      var k := Unrank(ps, i, p);
      assert ps[..n] == ps[..i] + [ps[i]];
      if k >= ps[i] {
        RankAbove(ps, i, k);
        RankAbove(ps, i, k + 1);
        assert forall j :: 0 <= j < i ==> ps[j] < ps[i];
      }
    }
  }

  lemma {:induction false} SingleBit(b: nat)
    ensures forall k: nat :: Bit(Pow2(b), k) == if k == b then 1 else 0
  {
    forall k: nat
      ensures Bit(Pow2(b), k) == if k == b then 1 else 0
    {
      BitOfPow2(b, k);
    }
  }

  /** Past the first n positions, only a bit that is none of them is left of an address that
      has that bit and possibly some of the positions. */
  lemma {:induction false} OnlyOtherBit(a: nat, ps: seq<nat>, n: nat, b: nat)
    requires n <= |ps| && IncreasingTo(ps, n) && b !in ps[..n]
    requires forall k: nat :: k !in ps[..n] ==> Bit(a, k) == if k == b then 1 else 0
    ensures Rank(ps, n, b) <= b && Dropped(a, ps, n) == Pow2(b - Rank(ps, n, b))
  {
    DroppedBit(a, ps, n, b);
    var p := b - Rank(ps, n, b);
    forall q: nat
      ensures Bit(Dropped(a, ps, n), q) == Bit(Pow2(p), q)
    {
      var k := Unrank(ps, n, q);
      UnrankIs(ps, n, q);
      DroppedBit(a, ps, n, k);
      BitOfPow2(p, q);
      UnrankIs(ps, n, p);
      if q == p {
        SameRank(ps, n, k, b);
      }
    }
    SameBits(Dropped(a, ps, n), Pow2(p));
  }

  /** Different bits go to different places. */
  lemma {:induction false} SameRank(ps: seq<nat>, n: nat, j: nat, k: nat)
    requires n <= |ps| && IncreasingTo(ps, n) && j !in ps[..n] && k !in ps[..n]
    requires j - Rank(ps, n, j) == k - Rank(ps, n, k)
    ensures j == k
  {
    if j < k {
      RankLess(ps, n, j, k);
    } else if k < j {
      RankLess(ps, n, k, j);
    }
  }

  lemma {:induction false} RankLess(ps: seq<nat>, n: nat, j: nat, k: nat)
    requires n <= |ps| && IncreasingTo(ps, n) && j < k && j !in ps[..n]
    ensures Rank(ps, n, k) - Rank(ps, n, j) < k - j
  {
    if n > 0 {
      var i := n - 1;
      assert ps[..i] == ps[..n][..i] && ps[..n][i] == ps[i];
      if ps[i] < k && j < ps[i] {
        RankLess(ps, i, j, ps[i]);
        RankAbove(ps, i, ps[i]);
        RankAbove(ps, i, k);
      } else {
        RankLess(ps, i, j, k);
      }
    }
  }

  lemma {:induction false} DroppedZero(ps: seq<nat>, n: nat)
    requires n <= |ps|
    ensures Dropped(0, ps, n) == 0
  {
    if n > 0 {
      DroppedZero(ps, n - 1);
      NothingRemains(0, ps[n - 1], n - 1);
    }
  }

  lemma {:induction false} NothingRemains(a: nat, s: nat, i: nat)
    requires a == 0
    ensures RemoveAt(a, s, i) == 0
  {
    if 0 < s && i <= s {
      forall k: nat
        ensures Bit(RemoveBit(0, s - i), k) == Bit(0, k)
      {
        BitOfRemoveBit(0, s - i, k);
        BitOfZero(k);
        BitOfZero(k + 1);
      }
      SameBits(RemoveBit(0, s - i), 0);
    }
  }

  /** Once nothing is left, nothing comes back. */
  lemma {:induction false} StaysZero(a: nat, ps: seq<nat>, m: nat, n: nat)
    requires m <= n <= |ps| && Dropped(a, ps, m) == 0
    ensures Dropped(a, ps, n) == 0
  {
    if m < n {
      StaysZero(a, ps, m, n - 1);
      NothingRemains(Dropped(a, ps, n - 1), ps[n - 1], n - 1);
    }
  }

  lemma {:induction false} OpenedZero(ps: seq<nat>, n: nat)
    requires n <= |ps|
    ensures Opened(0, ps, n) == 0
  {
    if n > 0 {
      OpenedZero(ps, n - 1);
      forall k: nat
        ensures Bit(InsertBit(0, ps[n - 1]), k) == Bit(0, k)
      {
        BitOfInsertBit(0, ps[n - 1], k);
        BitOfZero(k);
        if k > 0 {
          BitOfZero(k - 1);
        }
      }
      SameBits(InsertBit(0, ps[n - 1]), 0);
    }
  }

  lemma {:induction false} RemoveOnlyBit(p: nat)
    ensures RemoveBit(Pow2(p), p) == 0
  {
    forall k: nat
      ensures Bit(RemoveBit(Pow2(p), p), k) == Bit(0, k)
    {
      BitOfRemoveBit(Pow2(p), p, k);
      BitOfZero(k);
      BitOfPow2(p, k);
      BitOfPow2(p, k + 1);
    }
    SameBits(RemoveBit(Pow2(p), p), 0);
  }
}
