/** The cache and tester tree of the memory test: the closed form that counts its testers
    before it is built, and the recursion that builds it. */
module TesterTree {
  import opened Arithmetic

  /** The product of all numbers of a list. */
  ghost function Product(s: seq<nat>): nat {
    if s == [] then 1 else Product(s[..|s| - 1]) * s[|s| - 1]
  }

  lemma {:induction false} ProductFront(s: seq<nat>)
    requires s != []
    ensures Product(s) == s[0] * Product(s[1..])
  {
    if |s| == 1 {
      assert s[..0] == [] && s[1..] == [];
    } else {
      var n := |s| - 1;
      ProductFront(s[..n]);
      assert s[..n][1..] == s[1..][..n - 1];
      Associate(s[0], Product(s[1..][..n - 1]), s[n]);
    }
  }

  lemma {:induction false} Factored(t: nat, p: nat, c: nat, rest: nat)
    ensures t * p + (p * c) * rest == p * (t + c * rest)
  {
    Associate(p, c, rest);
  }

  /** Testers of the first n levels: each level's own number, as often as there are subsystems. */
  ghost function CountUpTo(caches: seq<nat>, testers: seq<nat>, n: nat): nat
    requires n <= |testers| && n <= |caches| + 1
  {
    if n == 0 then 0 else CountUpTo(caches, testers, n - 1) + testers[n - 1] * Product(caches[..n - 1])
  }

  function Levels(caches: seq<nat>, testers: seq<nat>): nat {
    if |testers| <= |caches| + 1 then |testers| else |caches| + 1
  }

  /** The script's count, level by level with a running multiplier. */
  method NumTesters(caches: seq<nat>, testers: seq<nat>) returns (total: nat)
    ensures total == CountUpTo(caches, testers, Levels(caches, testers))
  {
    var multiplier: seq<nat> := [1];
    for k := 0 to |caches|
      invariant |multiplier| == k + 1
      invariant forall j :: 0 <= j <= k ==> multiplier[j] == Product(caches[..j])
    {
      assert caches[..k + 1][..k] == caches[..k];
      multiplier := multiplier + [multiplier[k] * caches[k]];
    }
    total := 0;
    for k := 0 to Levels(caches, testers)
      invariant total == CountUpTo(caches, testers, k)
    {
      total := total + testers[k] * multiplier[k];
    }
  }

  /** The testers of a subtree: its own and those of every subtree behind one of its caches. */
  ghost function Subtree(caches: seq<nat>, testers: seq<nat>): nat
    requires |testers| == |caches| + 1
  {
    testers[0] + if caches == [] then 0 else caches[0] * Subtree(caches[1..], testers[1..])
  }

  lemma {:induction false} CountSplit(caches: seq<nat>, testers: seq<nat>, k: nat)
    requires k <= |caches| && |testers| == |caches| + 1
    ensures CountUpTo(caches, testers, |testers|)
         == CountUpTo(caches, testers, k) + Product(caches[..k]) * Subtree(caches[k..], testers[k..])
    decreases |caches| - k
  {
    var p, t := Product(caches[..k]), testers[k];
    if k < |caches| {
      CountSplit(caches, testers, k + 1);
      assert caches[..k + 1][..k] == caches[..k];
      assert caches[k..][1..] == caches[k + 1..] && testers[k..][1..] == testers[k + 1..];
      var rest := Subtree(caches[k + 1..], testers[k + 1..]);
      assert Subtree(caches[k..], testers[k..]) == t + caches[k] * rest;
      Factored(t, p, caches[k], rest);
    } else {
      assert caches[k..] == [] && Subtree(caches[k..], testers[k..]) == t;
    }
  }

  /** The closed form counts the testers of the whole tree. */
  lemma {:induction false} ClosedFormIsTree(caches: seq<nat>, testers: seq<nat>)
    requires |testers| == |caches| + 1
    ensures CountUpTo(caches, testers, Levels(caches, testers)) == Subtree(caches, testers)
  {
    CountSplit(caches, testers, 0);
    assert caches[..0] == [] && caches[0..] == caches && testers[0..] == testers;
  }

  /** The subsystems of each level are numbered from 0 without gap or repetition. */
  ghost predicate Numbered(made: seq<(nat, nat)>, next: seq<nat>) {
    && (forall j, k :: 0 <= j < k < |made| ==> made[j] != made[k])
    && (forall level: nat, index: nat :: (level, index) in made <==> level < |next| && index < next[level])
  }

  lemma {:induction false} NumberedNext(made: seq<(nat, nat)>, next: seq<nat>, level: nat)
    requires Numbered(made, next) && level < |next|
    ensures Numbered(made + [(level, next[level])], next[level := next[level] + 1])
  {
    assert (level, next[level]) !in made;
  }

  /** How many subsystems of level k a subtree with these caches holds. */
  ghost function Within(caches: seq<nat>, k: nat): nat {
    if k > |caches| then 0 else Product(caches[..|caches| - k])
  }

  lemma {:induction false} WithinStep(caches: seq<nat>, k: nat)
    ensures Within(caches, k)
         == (if k == |caches| then 1 else 0) + (if caches == [] then 0 else caches[0] * Within(caches[1..], k))
  {
    if k < |caches| {
      assert caches[..|caches| - k][1..] == caches[1..][..|caches| - 1 - k];
      ProductFront(caches[..|caches| - k]);
    }
  }

  /** Every level's counter went up by `times` subtrees with these caches, level `own` by one more. */
  ghost predicate Added(before: seq<nat>, after: seq<nat>, own: nat, times: nat, caches: seq<nat>) {
    && |after| == |before|
    && forall k :: 0 <= k < |after| ==> after[k] == before[k] + (if k == own then 1 else 0) + times * Within(caches, k)
  }

  ghost predicate Grown(before: seq<nat>, after: seq<nat>, caches: seq<nat>) {
    |after| == |before| && forall k :: 0 <= k < |after| ==> after[k] == before[k] + Within(caches, k)
  }

  lemma {:induction false} AddedNext(a: seq<nat>, b: seq<nat>, c: seq<nat>, own: nat, times: nat, caches: seq<nat>)
    requires Added(a, b, own, times, caches) && Grown(b, c, caches)
    ensures Added(a, c, own, times + 1, caches)
  {
    forall k | 0 <= k < |c|
      ensures c[k] == a[k] + (if k == own then 1 else 0) + (times + 1) * Within(caches, k)
    {
      OneMore(times, Within(caches, k));
      assert b[k] == a[k] + (if k == own then 1 else 0) + times * Within(caches, k);
    }
  }

  lemma {:induction false} AddedIsGrown(a: seq<nat>, b: seq<nat>, caches: seq<nat>)
    requires if caches == [] then Added(a, b, 0, 0, []) else Added(a, b, |caches|, caches[0], caches[1..])
    ensures Grown(a, b, caches)
  {
    forall k | 0 <= k < |b|
      ensures b[k] == a[k] + Within(caches, k)
    {
      WithinStep(caches, k);
    }
  }

  class Builder {
    const cachespec: seq<nat>
    const testerspec: seq<nat>
    var nextSubsysIndex: seq<nat>
    var subsystems: seq<(nat, nat)>
    var testers: nat

    ghost predicate Valid()
      reads this
    {
      && |testerspec| == |cachespec| + 1 == |nextSubsysIndex|
      && Numbered(subsystems, nextSubsysIndex)
    }

    /** Builds the whole tree. Level k gets exactly the subsystems 0 to the product of the
        cache counts on its memory side, and the testers number what was counted. */
    constructor (cachespec: seq<nat>, testerspec: seq<nat>)
      requires 1 <= |cachespec| == |testerspec| - 1
      ensures Valid() && this.cachespec == cachespec && this.testerspec == testerspec
      ensures forall k :: 0 <= k <= |cachespec| ==> nextSubsysIndex[k] == Product(cachespec[..|cachespec| - k])
      ensures testers == CountUpTo(cachespec, testerspec, Levels(cachespec, testerspec))
    {
      this.cachespec, this.testerspec := cachespec, testerspec;
      nextSubsysIndex := seq(|cachespec| + 1, _ => 0);
      subsystems, testers := [], 0;
      new;
      MakeCacheLevel(cachespec, |cachespec|);
      ClosedFormIsTree(cachespec, testerspec);
      assert testerspec[0..] == testerspec;
    }

    method MakeCacheLevel(ncaches: seq<nat>, level: nat)
      requires Valid() && level <= |cachespec| && ncaches == cachespec[|cachespec| - level..]
      modifies this
      ensures Valid() && Grown(old(nextSubsysIndex), nextSubsysIndex, ncaches)
      ensures testers == old(testers) + Subtree(ncaches, testerspec[|cachespec| - level..])
      decreases level
    {
      var index := nextSubsysIndex[level];
      NumberedNext(subsystems, nextSubsysIndex, level);
      nextSubsysIndex := nextSubsysIndex[level := index + 1];
      subsystems := subsystems + [(level, index)];
      var own := testerspec[|cachespec| - level];
      testers := testers + own;
      if level != 0 {
        ghost var rest := testerspec[|cachespec| - level..][1..];
        assert rest == testerspec[|cachespec| - (level - 1)..];
        for c := 0 to ncaches[0]
          invariant Valid()
          invariant Added(old(nextSubsysIndex), nextSubsysIndex, level, c, ncaches[1..])
          invariant testers == old(testers) + own + c * Subtree(ncaches[1..], rest)
        {
          ghost var before := nextSubsysIndex;
          MakeCacheLevel(ncaches[1..], level - 1);
          AddedNext(old(nextSubsysIndex), before, nextSubsysIndex, level, c, ncaches[1..]);
          OneMore(c, Subtree(ncaches[1..], rest));
        }
      }
      AddedIsGrown(old(nextSubsysIndex), nextSubsysIndex, ncaches);
    }
  }
}
