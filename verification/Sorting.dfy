/** Sorting by a comparison, as the scripts' calls to the built-in sort. */
module Sorting {

  ghost predicate TotalOrder<T(!new)>(leq: (T, T) -> bool) {
    && (forall x, y :: leq(x, y) || leq(y, x))
    && (forall x, y, z :: leq(x, y) && leq(y, z) ==> leq(x, z))
  }

  ghost predicate SortedBy<T>(s: seq<T>, leq: (T, T) -> bool) {
    forall i, j :: 0 <= i < j < |s| ==> leq(s[i], s[j])
  }

  method Sort<T(!new)>(s: seq<T>, leq: (T, T) -> bool) returns (r: seq<T>)
    requires TotalOrder(leq)
    ensures SortedBy(r, leq)
    ensures multiset(r) == multiset(s)
    ensures |r| == |s|
  {
    r := [];
    for i := 0 to |s|
      invariant SortedBy(r, leq)
      invariant multiset(r) == multiset(s[..i]) && |r| == i
    {
      assert s[..i + 1] == s[..i] + [s[i]];
      r := Insert(r, s[i], leq);
    }
    assert s[..|s|] == s;
  }

  method Insert<T(!new)>(s: seq<T>, x: T, leq: (T, T) -> bool) returns (r: seq<T>)
    requires TotalOrder(leq) && SortedBy(s, leq)
    ensures SortedBy(r, leq) && multiset(r) == multiset(s) + multiset{x} && |r| == |s| + 1
  {
    var k := |s|;
    while 0 < k && !leq(s[k - 1], x)
      invariant 0 <= k <= |s|
      invariant forall m :: k <= m < |s| ==> leq(x, s[m])
    {
      k := k - 1;
    }
    Inserted(s, k, x, leq);
    assert s == s[..k] + s[k..];
    r := s[..k] + [x] + s[k..];
  }

  lemma {:induction false} Inserted<T(!new)>(r: seq<T>, k: nat, x: T, leq: (T, T) -> bool)
    requires TotalOrder(leq) && SortedBy(r, leq) && k <= |r|
    requires 0 < k ==> leq(r[k - 1], x)
    requires forall m :: k <= m < |r| ==> leq(x, r[m])
    ensures SortedBy(r[..k] + [x] + r[k..], leq)
  {
    var next := r[..k] + [x] + r[k..];
    forall i, j | 0 <= i < j < |next|
      ensures leq(next[i], next[j])
    {
      if i < k {
        assert next[i] == r[i];
        assert leq(r[i], r[k - 1]);
      }
    }
  }

  lemma {:induction false} CountTwice<T>(s: seq<T>, i: nat, j: nat)
    requires i < j < |s| && s[i] == s[j]
    ensures multiset(s)[s[i]] >= 2
  {
    assert s == s[..j] + [s[j]] + s[j + 1..];
    assert s[..j][i] == s[i];
  }
}
