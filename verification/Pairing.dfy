/** Pairing home nodes with memory controllers: the checks of the pairing table, and what
    tables that pass look like. */
module Pairing {
  import opened Options
  import opened Sets
  import opened Arithmetic

  /** All entries of the lists in order. */
  ghost function Flat(lists: seq<seq<nat>>): seq<nat> {
    if lists == [] then [] else Flat(lists[..|lists| - 1]) + lists[|lists| - 1]
  }

  /** The pairing table as the checks want it: one list per cache, of equal shares when there
      are at least as many memories as caches and of one memory each otherwise, and no memory
      left out. */
  ghost predicate Passes(pairing: seq<seq<nat>>, caches: nat, mems: nat) {
    && 0 < caches == |pairing|
    && (forall c :: 0 <= c < caches ==> ListOk(pairing[c], caches, mems))
    && (forall m :: 0 <= m < mems ==> m in Flat(pairing))
  }

  predicate ListOk(list: seq<nat>, caches: nat, mems: nat) {
    && (if caches <= mems then |list| * caches == mems else |list| == 1)
    && forall j :: 0 <= j < |list| ==> list[j] < mems
  }

  lemma {:induction false} FlatHolds(lists: seq<seq<nat>>, x: nat)
    ensures x in Flat(lists) <==> exists k :: 0 <= k < |lists| && x in lists[k]
  {
    if lists != [] {
      var n := |lists| - 1;
      FlatHolds(lists[..n], x);
      assert forall k :: 0 <= k < n ==> lists[..n][k] == lists[k];
    }
  }

  ghost predicate NoRepeat(s: seq<nat>) {
    forall i, j :: 0 <= i < j < |s| ==> s[i] != s[j]
  }

  /** Memory m lists exactly those of the first n caches that list m. */
  ghost predicate Mirrors(lists: seq<seq<nat>>, pairing: seq<seq<nat>>, n: nat)
    requires n <= |pairing|
  {
    forall m: nat, c: nat {:trigger c in lists[m]} ::
      m < |lists| ==> (c in lists[m] <==> c < n && m in pairing[c])
  }

  lemma {:induction false} Listed(lists: seq<seq<nat>>, pairing: seq<seq<nat>>, m: nat)
    requires Mirrors(lists, pairing, |pairing|) && m < |lists|
    ensures m in Flat(pairing) <==> lists[m] != []
  {
    FlatHolds(pairing, m);
    if lists[m] != [] {
      var c := lists[m][0];
      assert c in lists[m];
    }
    if m in Flat(pairing) {
      var c: nat :| c < |pairing| && m in pairing[c];
      assert c in lists[m] <==> c < |pairing| && m in pairing[c];
    }
  }

  /** The checks, in the script's order, building each memory's list of caches. */
  method CheckPairing(pairing: seq<seq<nat>>, caches: nat, mems: nat) returns (r: Option<seq<seq<nat>>>)
    ensures r.Some? <==> Passes(pairing, caches, mems)
    ensures r.Some? ==>
              && |r.value| == mems
              && (forall m :: 0 <= m < mems ==> NoRepeat(r.value[m]))
              && Mirrors(r.value, pairing, caches)
  {
    if |pairing| != caches || caches == 0 {
      return None;
    }
    var lists: seq<seq<nat>> := seq(mems, _ => []);
    for c := 0 to caches
      invariant |lists| == mems
      invariant forall i :: 0 <= i < c ==> ListOk(pairing[i], caches, mems)
      invariant forall m :: 0 <= m < mems ==> NoRepeat(lists[m])
      invariant Mirrors(lists, pairing, c)
    {
      for j := 0 to |pairing[c]|
        invariant |lists| == mems
        invariant forall i :: 0 <= i < j ==> pairing[c][i] < mems
        invariant forall m :: 0 <= m < mems ==> NoRepeat(lists[m])
        invariant forall m: nat, i: nat :: m < mems ==> (i in lists[m] <==> (i < c && m in pairing[i]) || (i == c && m in pairing[c][..j]))
      {
        var m := pairing[c][j];
        if m >= mems {
          assert !ListOk(pairing[c], caches, mems);
          return None;
        }
        assert pairing[c][..j + 1] == pairing[c][..j] + [m];
        if c !in lists[m] {
          lists := lists[m := lists[m] + [c]];
        }
      }
      assert pairing[c][..|pairing[c]|] == pairing[c];
      if !(if caches <= mems then |pairing[c]| * caches == mems else |pairing[c]| == 1) {
        assert !ListOk(pairing[c], caches, mems);
        return None;
      }
    }
    for m := 0 to mems
      invariant forall i :: 0 <= i < m ==> i in Flat(pairing)
    {
      Listed(lists, pairing, m);
      if lists[m] == [] {
        return None;
      }
    }
    r := Some(lists);
  }

  // The checks are strong enough.

  /** Where list k starts in the flattened sequence. */
  ghost function Start(lists: seq<seq<nat>>, k: nat): nat
    requires k <= |lists|
  {
    |Flat(lists[..k])|
  }

  lemma {:induction false} FlatAt(lists: seq<seq<nat>>, k: nat, j: nat)
    requires k < |lists| && j < |lists[k]|
    ensures Start(lists, k) + j < |Flat(lists)| && Flat(lists)[Start(lists, k) + j] == lists[k][j]
  {
    var n := |lists| - 1;
    if k < n {
      FlatAt(lists[..n], k, j);
      assert lists[..n][..k] == lists[..k];
    }
  }

  lemma {:induction false} StartNext(lists: seq<seq<nat>>, k: nat)
    requires k < |lists|
    ensures Start(lists, k + 1) == Start(lists, k) + |lists[k]|
  {
    assert lists[..k + 1][..k] == lists[..k];
  }

  lemma {:induction false} StartMonotone(lists: seq<seq<nat>>, k: nat, k': nat)
    requires k < k' <= |lists|
    ensures Start(lists, k) + |lists[k]| <= Start(lists, k')
  {
    StartNext(lists, k' - 1);
    if k < k' - 1 {
      StartMonotone(lists, k, k' - 1);
    }
  }

  lemma {:induction false} EqualShares(lists: seq<seq<nat>>, share: nat, k: nat)
    requires k <= |lists| && forall i :: 0 <= i < |lists| ==> |lists[i]| == share
    ensures Start(lists, k) == k * share
  {
    if k > 0 {
      EqualShares(lists, share, k - 1);
      StartNext(lists, k - 1);
      assert k * share == (k - 1) * share + share;
    }
  }

  ghost function Below(n: nat): (r: set<nat>)
    ensures |r| == n
    ensures forall x: nat :: x in r <==> x < n
  {
    if n == 0 then {} else Below(n - 1) + {n - 1}
  }

  ghost function Elements(s: seq<nat>): (r: set<nat>)
    ensures |r| <= |s|
    ensures forall x :: x in r <==> x in s
  {
    if s == [] then {}
    else
      assert forall x :: x in s <==> x in s[..|s| - 1] || x == s[|s| - 1];
      Elements(s[..|s| - 1]) + {s[|s| - 1]}
  }

  /** n places that hold all of n values hold none twice. */
  lemma {:induction false} CoveringHasNoRepeat(s: seq<nat>)
    requires forall m :: 0 <= m < |s| ==> m in s
    ensures NoRepeat(s)
  {
    forall i, j | 0 <= i < j < |s|
      ensures s[i] != s[j]
    {
      if s[i] == s[j] {
        RepeatUncovers(s, i, j);
      }
    }
  }

  lemma {:induction false} RepeatUncovers(s: seq<nat>, i: nat, j: nat)
    requires i < j < |s| && s[i] == s[j]
    ensures exists m :: 0 <= m < |s| && m !in s
  {
    if forall m :: 0 <= m < |s| ==> m in s {
      var rest := s[..j] + s[j + 1..];
      forall m: nat | m in Below(|s|)
        ensures m in Elements(rest)
      {
        assert m in s;
        var k :| 0 <= k < |s| && s[k] == m;
        assert m == (if k < j then rest[k] else if k == j then rest[i] else rest[k - 1]);
      }
      SubsetSize(Below(|s|), Elements(rest));
    }
  }

  /** With at least as many memories as caches: every memory stands exactly once in exactly
      one cache's list. */
  lemma {:induction false} EachMemoryOnce(pairing: seq<seq<nat>>, caches: nat, mems: nat)
    requires Passes(pairing, caches, mems) && caches <= mems
    ensures |Flat(pairing)| == mems && NoRepeat(Flat(pairing))
  {
    assert ListOk(pairing[0], caches, mems);
    var share := |pairing[0]|;
    forall c | 0 <= c < caches
      ensures |pairing[c]| == share
    {
      assert ListOk(pairing[c], caches, mems);
      SameFactor(|pairing[c]|, share, caches);
    }
    EqualShares(pairing, share, caches);
    assert pairing[..caches] == pairing;
    assert caches * share == share * caches;
    CoveringHasNoRepeat(Flat(pairing));
  }

  lemma {:induction false} SameFactor(a: nat, b: nat, d: nat)
    requires 0 < d && a * d == b * d
    ensures a == b
  {
    if a < b {
      TimesMonotone(a + 1, b, d);
    } else if b < a {
      TimesMonotone(b + 1, a, d);
    }
  }

  /** With fewer memories than caches: every cache stands exactly once in exactly one
      memory's list. */
  lemma {:induction false} EachCacheOnce(pairing: seq<seq<nat>>, caches: nat, mems: nat, lists: seq<seq<nat>>)
    requires Passes(pairing, caches, mems) && mems < caches
    requires |lists| == mems && (forall m :: 0 <= m < mems ==> NoRepeat(lists[m])) && Mirrors(lists, pairing, caches)
    ensures forall c :: 0 <= c < caches ==> c in Flat(lists)
    ensures NoRepeat(Flat(lists))
  {
    forall c: nat | c < caches
      ensures c in Flat(lists)
    {
      assert ListOk(pairing[c], caches, mems);
      var m := pairing[c][0];
      assert c in lists[m] <==> c < caches && m in pairing[c];
      FlatHolds(lists, c);
    }
    forall m: nat, m': nat, c: nat | m < m' < mems && c in lists[m]
      ensures c !in lists[m']
    {
      assert ListOk(pairing[c], caches, mems);
      assert pairing[c] == [m];
      assert c in lists[m'] <==> c < caches && m' in pairing[c];
    }
    FlatNoRepeat(lists);
  }

  lemma {:induction false} FlatNoRepeat(lists: seq<seq<nat>>)
    requires forall k :: 0 <= k < |lists| ==> NoRepeat(lists[k])
    requires forall k, k', x :: 0 <= k < k' < |lists| && x in lists[k] ==> x !in lists[k']
    ensures NoRepeat(Flat(lists))
  {
    if lists != [] {
      var n := |lists| - 1;
      FlatNoRepeat(lists[..n]);
      var most, last := Flat(lists[..n]), lists[n];
      assert NoRepeat(last);
      forall i, j | 0 <= i < |most| && 0 <= j < |last|
        ensures most[i] != last[j]
      {
        FlatHolds(lists[..n], most[i]);
        assert last[j] in last;
      }
    }
  }
}
