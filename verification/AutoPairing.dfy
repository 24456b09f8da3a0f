/** Pairing home nodes with memory controllers as a whole: when it is refused, and what the
    ranges of both sides are afterwards. */
module AutoPairing {
  import opened Bits
  import opened Interleaving
  import opened Remasking
  import opened Pairing
  import opened Reranging

  // What holds of the ranges once they have been rewritten.

  predicate Comparable(target: Range, source: Range, f: nat) {
    |target.masks| == |source.masks| + f && target.start == source.start && target.end == source.end
  }

  /** Sources numbered from zero, all at the given start, each over the same addresses as its
      targets, which have f more masks. */
  ghost predicate Aligned(src: seq<Range>, tgt: seq<Range>, groups: seq<seq<nat>>, start: nat, f: nat) {
    && |groups| == |src| && Within(groups, |tgt|)
    && NoRepeat(Matches(src)) && (forall i :: 0 <= i < |src| ==> src[i].intlvMatch < |src| && src[i].start == start)
    && (forall i, j :: 0 <= i < |groups| && 0 <= j < |groups[i]| ==> Comparable(tgt[groups[i][j]], src[i], f))
  }

  ghost predicate EqualShared(groups: seq<seq<nat>>, share: nat) {
    forall i :: 0 <= i < |groups| ==> |groups[i]| == share
  }

  /** Every controller below n stands in exactly one place. */
  ghost predicate EachOnce(groups: seq<seq<nat>>, n: nat) {
    Within(groups, n) && Distinct(groups) && forall t: nat :: t < n ==> Grouped(groups, t)
  }

  /** Whatever number a target is given, there is an address for it. */
  ghost predicate EveryNumberUsed(src: seq<Range>, tgt: seq<Range>, groups: seq<seq<nat>>)
    requires |groups| == |src| && Within(groups, |tgt|)
  {
    forall i, j, q :: 0 <= i < |groups| && 0 <= j < |groups[i]| && 0 <= q < |tgt| ==>
      OwnsSomething(Paired(tgt[groups[i][j]], src[i], q))
  }

  ghost predicate AllNest(src: seq<Range>, tgt: seq<Range>, groups: seq<seq<nat>>) {
    && |groups| == |src| && Within(groups, |tgt|)
    && forall i, j :: 0 <= i < |groups| && 0 <= j < |groups[i]| ==> Nests(tgt[groups[i][j]], src[i])
  }

  /** Source and target number k, j after the rewriting. */
  lemma {:induction false} RerangedPair(src: seq<Range>, tgt: seq<Range>, groups: seq<seq<nat>>, start: nat, order: seq<nat>,
                                        src': seq<Range>, tgt': seq<Range>, f: nat, k: nat, j: nat)
    requires Aligned(src, tgt, groups, start, f) && Reranged(src, tgt, groups, start, order, src', tgt')
    requires k < |order| && j < |groups[order[k]]|
    ensures src'[order[k]] == src[order[k]].(masks := SpreadAll(src[order[k]].masks), intlvMatch := k)
    ensures tgt'[groups[order[k]][j]]
         == Paired(tgt[groups[order[k]][j]], src[order[k]], Start(Ordered(order, groups), k) + j)
    ensures Comparable(tgt[groups[order[k]][j]], src[order[k]], f)
  {
    NumberingSorts(order, Matches(src), k);
    var i := order[k];
    assert src[i].start == start && src[i].intlvMatch == k;
  }

  lemma {:induction false} RerangedNest(src: seq<Range>, tgt: seq<Range>, groups: seq<seq<nat>>, start: nat, order: seq<nat>,
                                        src': seq<Range>, tgt': seq<Range>, f: nat, k: nat, j: nat)
    requires Aligned(src, tgt, groups, start, f) && Reranged(src, tgt, groups, start, order, src', tgt')
    requires EqualShared(groups, Pow2(f)) && k < |order| && j < |groups[order[k]]|
    ensures Nests(tgt'[groups[order[k]][j]], src'[order[k]])
  {
    RerangedPair(src, tgt, groups, start, order, src', tgt', f, k, j);
    assert Start(Ordered(order, groups), k) == k * Pow2(f) by {
      EqualShares(Ordered(order, groups), Pow2(f), k);
    }
    NestsByParts(tgt[groups[order[k]][j]], src[order[k]], f, k, j);
  }

  /** With equal shares every target lies inside its source. */
  lemma {:induction false} EqualSharesNest(src: seq<Range>, tgt: seq<Range>, groups: seq<seq<nat>>, start: nat, order: seq<nat>,
                                           src': seq<Range>, tgt': seq<Range>, f: nat)
    requires Aligned(src, tgt, groups, start, f) && Reranged(src, tgt, groups, start, order, src', tgt')
    requires EqualShared(groups, Pow2(f))
    ensures AllNest(src', tgt', groups)
  {
    OrderCovers(order, |groups|);
    forall i, j | 0 <= i < |groups| && 0 <= j < |groups[i]|
      ensures Nests(tgt'[groups[i][j]], src'[i])
    {
      assert i in order;
      var k :| 0 <= k < |order| && order[k] == i;
      RerangedNest(src, tgt, groups, start, order, src', tgt', f, k, j);
    }
  }

  lemma {:induction false} DistinctNoRepeat(groups: seq<seq<nat>>)
    requires Distinct(groups)
    ensures NoRepeat(Flat(groups))
  {
    forall k | 0 <= k < |groups|
      ensures NoRepeat(groups[k])
    {
      forall i, j | 0 <= i < j < |groups[k]|
        ensures groups[k][i] != groups[k][j]
      {
      }
    }
    forall k, k', x | 0 <= k < k' < |groups| && x in groups[k]
      ensures x !in groups[k']
    {
      var j :| 0 <= j < |groups[k]| && groups[k][j] == x;
      assert forall j' :: 0 <= j' < |groups[k']| ==> groups[k'][j'] != groups[k][j];
    }
    FlatNoRepeat(groups);
  }

  /** The number of targets, source by source in any order. */
  lemma {:induction false} OrderedCount(groups: seq<seq<nat>>, order: seq<nat>, n: nat)
    requires EachOnce(groups, n) && |order| == |groups| && NoRepeat(order)
    requires forall k :: 0 <= k < |order| ==> order[k] < |groups|
    ensures |Flat(Ordered(order, groups))| == n
  {
    var gs := Ordered(order, groups);
    OrderCovers(order, |groups|);
    assert Distinct(gs);
    DistinctNoRepeat(gs);
    forall t: nat
      ensures t in Flat(gs) <==> t < n
    {
      FlatHolds(gs, t);
      if t < n {
        assert Grouped(groups, t);
        var i, j :| 0 <= i < |groups| && 0 <= j < |groups[i]| && groups[i][j] == t;
        assert i in order;
        var k :| 0 <= k < |order| && order[k] == i;
        assert gs[k][j] == t;
      }
    }
    RepeatFree(Flat(gs));
    assert Elements(Flat(gs)) == Below(n);
  }

  lemma {:induction false} NestsWhereItBelongs(src: seq<Range>, tgt: seq<Range>, groups: seq<seq<nat>>, start: nat, order: seq<nat>,
                                               src': seq<Range>, tgt': seq<Range>, f: nat, k: nat, j: nat)
    requires Aligned(src, tgt, groups, start, f) && Reranged(src, tgt, groups, start, order, src', tgt')
    requires EveryNumberUsed(src, tgt, groups) && |Flat(Ordered(order, groups))| == |tgt|
    requires k < |order| && j < |groups[order[k]]|
    ensures Nests(tgt'[groups[order[k]][j]], src'[order[k]]) <==> InPlace(Ordered(order, groups), Pow2(f), k, j)
  {
    var i, gs := order[k], Ordered(order, groups);
    var q := Start(gs, k) + j;
    assert q < |tgt| by {
      FlatAt(gs, k, j);
    }
    RerangedPair(src, tgt, groups, start, order, src', tgt', f, k, j);
    assert OwnsSomething(Paired(tgt[groups[i][j]], src[i], q));
    NestsExactly(tgt[groups[i][j]], src[i], f, k, q);
  }

  /** Every target lies inside the source it is paired with if and only if all sources have
      equally many targets. */
  lemma {:induction false} NestExactlyIfEqual(src: seq<Range>, tgt: seq<Range>, groups: seq<seq<nat>>, start: nat, order: seq<nat>,
                                              src': seq<Range>, tgt': seq<Range>, f: nat)
    requires Aligned(src, tgt, groups, start, f) && Reranged(src, tgt, groups, start, order, src', tgt')
    requires EachOnce(groups, |tgt|) && EveryNumberUsed(src, tgt, groups) && |tgt| == |src| * Pow2(f)
    ensures AllNest(src', tgt', groups) <==> EqualShared(groups, Pow2(f))
  {
    if EqualShared(groups, Pow2(f)) {
      EqualSharesNest(src, tgt, groups, start, order, src', tgt', f);
    }
    if AllNest(src', tgt', groups) {
      var gs := Ordered(order, groups);
      OrderedCount(groups, order, |tgt|);
      forall k, j | 0 <= k < |gs| && 0 <= j < |gs[k]|
        ensures InPlace(gs, Pow2(f), k, j)
      {
        NestsWhereItBelongs(src, tgt, groups, start, order, src', tgt', f, k, j);
        assert Nests(tgt'[groups[order[k]][j]], src'[order[k]]);
      }
      EqualSharesExactly(gs, Pow2(f));
      OrderCovers(order, |groups|);
      forall i | 0 <= i < |groups|
        ensures |groups[i]| == Pow2(f)
      {
        assert i in order;
        var k :| 0 <= k < |order| && order[k] == i;
        assert |gs[k]| == Pow2(f);
      }
    }
  }

  // Every address has one owner on either side.

  /** All sources have the same masks and as many match values as there are sources, all
      targets have the same masks, and everything ends at the same address. */
  ghost predicate Uniform(src: seq<Range>, tgt: seq<Range>, end: nat) {
    && |src| > 0 && |src| == Pow2(|src[0].masks|)
    && (forall i :: 0 <= i < |src| ==> src[i].masks == src[0].masks && src[i].end == end)
    && (forall t :: 0 <= t < |tgt| ==> tgt[t].masks == tgt[0].masks)
  }

  /** Range i, and no other, holds a. */
  ghost predicate Owner(ranges: seq<Range>, a: nat, i: nat) {
    i < |ranges| && Holds(ranges[i], a) && forall i' :: 0 <= i' < |ranges| && Holds(ranges[i'], a) ==> i' == i
  }

  ghost predicate OwnedByPair(src: seq<Range>, tgt: seq<Range>, groups: seq<seq<nat>>, a: nat, i: nat, t: nat) {
    Owner(src, a, i) && Owner(tgt, a, t) && i < |groups| && t in groups[i]
  }

  ghost predicate HasOwners(src: seq<Range>, tgt: seq<Range>, groups: seq<seq<nat>>, a: nat) {
    exists i: nat, t: nat :: OwnedByPair(src, tgt, groups, a, i, t)
  }

  /** Every address has exactly one source and exactly one target, and these are paired. */
  ghost predicate AllOwnedOnce(src: seq<Range>, tgt: seq<Range>, groups: seq<seq<nat>>, start: nat, end: nat) {
    forall a: nat :: start <= a < end ==> HasOwners(src, tgt, groups, a)
  }

  lemma {:induction false} SourceHolds(src: seq<Range>, tgt: seq<Range>, groups: seq<seq<nat>>, start: nat, order: seq<nat>,
                                       src': seq<Range>, tgt': seq<Range>, f: nat, end: nat, k: nat, a: nat)
    requires Aligned(src, tgt, groups, start, f) && Reranged(src, tgt, groups, start, order, src', tgt')
    requires EqualShared(groups, Pow2(f)) && Uniform(src, tgt, end) && k < |order| && start <= a < end
    ensures Holds(src'[order[k]], a) <==> Sel(a, SpreadAll(src[0].masks)) == k
  {
    RerangedPair(src, tgt, groups, start, order, src', tgt', f, k, 0);
    assert src[order[k]].masks == src[0].masks;
  }

  lemma {:induction false} RewrittenTarget(src: seq<Range>, tgt: seq<Range>, groups: seq<seq<nat>>, start: nat, order: seq<nat>,
                                           src': seq<Range>, tgt': seq<Range>, f: nat, end: nat, k: nat, j: nat)
    requires Aligned(src, tgt, groups, start, f) && Reranged(src, tgt, groups, start, order, src', tgt')
    requires EqualShared(groups, Pow2(f)) && Uniform(src, tgt, end) && k < |order| && j < |groups[order[k]]|
    ensures |tgt| > 0 && |src[0].masks| + f == |tgt[0].masks|
    ensures tgt'[groups[order[k]][j]] == Range(start, end, TargetMasks(tgt[0].masks, src[0].masks), k * Pow2(f) + j)
  {
    RerangedPair(src, tgt, groups, start, order, src', tgt', f, k, j);
    var t := groups[order[k]][j];
    assert tgt[t].masks == tgt[0].masks && src[order[k]].masks == src[0].masks;
    EqualShares(Ordered(order, groups), Pow2(f), k);
  }

  lemma {:induction false} TargetHolds(src: seq<Range>, tgt: seq<Range>, groups: seq<seq<nat>>, start: nat, order: seq<nat>,
                                       src': seq<Range>, tgt': seq<Range>, f: nat, end: nat, k: nat, j: nat, a: nat)
    requires Aligned(src, tgt, groups, start, f) && Reranged(src, tgt, groups, start, order, src', tgt')
    requires EqualShared(groups, Pow2(f)) && Uniform(src, tgt, end) && k < |order| && j < |groups[order[k]]| && start <= a < end
    ensures |tgt| > 0 && |src[0].masks| + f == |tgt[0].masks|
    ensures Holds(tgt'[groups[order[k]][j]], a)
       <==> Sel(a, SpreadAll(src[0].masks)) == k && Sel(a, tgt[0].masks[..f]) == j
  {
    RewrittenTarget(src, tgt, groups, start, order, src', tgt', f, end, k, j);
    TargetSplitsSource(start, end, tgt[0].masks, src[0].masks, k, j, a);
  }

  lemma {:induction false} OwnedOnce(src: seq<Range>, tgt: seq<Range>, groups: seq<seq<nat>>, start: nat, order: seq<nat>,
                                     src': seq<Range>, tgt': seq<Range>, f: nat, end: nat, a: nat)
    requires Aligned(src, tgt, groups, start, f) && Reranged(src, tgt, groups, start, order, src', tgt')
    requires EqualShared(groups, Pow2(f)) && EachOnce(groups, |tgt|) && Uniform(src, tgt, end) && start <= a < end
    ensures HasOwners(src', tgt', groups, a)
  {
    var k := Sel(a, SpreadAll(src[0].masks));
    SelBound(a, SpreadAll(src[0].masks));
    TargetHolds(src, tgt, groups, start, order, src', tgt', f, end, k, 0, a);
    var j := Sel(a, tgt[0].masks[..f]);
    SelBound(a, tgt[0].masks[..f]);
    var i, t := order[k], groups[order[k]][j];
    OrderCovers(order, |groups|);
    forall i' | 0 <= i' < |src'|
      ensures Holds(src'[i'], a) <==> i' == i
    {
      assert i' in order;
      var k' :| 0 <= k' < |order| && order[k'] == i';
      SourceHolds(src, tgt, groups, start, order, src', tgt', f, end, k', a);
    }
    forall t' | 0 <= t' < |tgt'|
      ensures Holds(tgt'[t'], a) <==> t' == t
    {
      assert Grouped(groups, t');
      var i', j' :| 0 <= i' < |groups| && 0 <= j' < |groups[i']| && groups[i'][j'] == t';
      assert i' in order;
      var k' :| 0 <= k' < |order| && order[k'] == i';
      TargetHolds(src, tgt, groups, start, order, src', tgt', f, end, k', j', a);
    }
    assert OwnedByPair(src', tgt', groups, a, i, t);
  }

  /** All that the rewriting promises of the ranges it leaves. */
  ghost predicate Settled(src: seq<Range>, tgt: seq<Range>, groups: seq<seq<nat>>, start: nat, src': seq<Range>, tgt': seq<Range>)
    requires |groups| == |src| && Within(groups, |tgt|)
  {
    && (forall f: nat :: Aligned(src, tgt, groups, start, f) && EqualShared(groups, Pow2(f)) ==> AllNest(src', tgt', groups))
    && (forall f: nat :: Aligned(src, tgt, groups, start, f) && EveryNumberUsed(src, tgt, groups) && |tgt| == |src| * Pow2(f) ==>
          (AllNest(src', tgt', groups) <==> EqualShared(groups, Pow2(f))))
    && (forall f: nat, end: nat :: Aligned(src, tgt, groups, start, f) && EqualShared(groups, Pow2(f)) && Uniform(src, tgt, end) ==>
          AllOwnedOnce(src', tgt', groups, start, end))
    && LeftAlone(src, tgt, groups, start, src', tgt')
  }

  /** A source that starts elsewhere keeps its range, and its targets keep their masks; bounds
      never change. */
  ghost predicate LeftAlone(src: seq<Range>, tgt: seq<Range>, groups: seq<seq<nat>>, start: nat, src': seq<Range>, tgt': seq<Range>)
    requires |groups| == |src| && Within(groups, |tgt|)
  {
    && |src'| == |src| && |tgt'| == |tgt|
    && (forall i :: 0 <= i < |src| && src[i].start != start ==> src'[i] == src[i])
    && (forall i, j :: 0 <= i < |src| && 0 <= j < |groups[i]| && src[i].start != start ==>
          tgt'[groups[i][j]].masks == tgt[groups[i][j]].masks)
    && (forall i :: 0 <= i < |src| ==> src'[i].start == src[i].start && src'[i].end == src[i].end)
    && (forall t :: 0 <= t < |tgt| ==> tgt'[t].start == tgt[t].start && tgt'[t].end == tgt[t].end)
  }

  lemma {:induction false} ElsewhereLeftAlone(src: seq<Range>, tgt: seq<Range>, groups: seq<seq<nat>>, start: nat, order: seq<nat>,
                                              src': seq<Range>, tgt': seq<Range>)
    requires Reranged(src, tgt, groups, start, order, src', tgt') && EachOnce(groups, |tgt|)
    ensures LeftAlone(src, tgt, groups, start, src', tgt')
  {
    OrderCovers(order, |groups|);
    forall i, j | 0 <= i < |src| && 0 <= j < |groups[i]|
      ensures var t := groups[i][j];
              && tgt'[t].start == tgt[t].start && tgt'[t].end == tgt[t].end
              && (src[i].start != start ==> tgt'[t].masks == tgt[t].masks)
    {
      assert i in order;
      var k :| 0 <= k < |order| && order[k] == i;
      assert tgt'[groups[order[k]][j]].start == tgt[groups[order[k]][j]].start;
    }
    forall t | 0 <= t < |tgt|
      ensures tgt'[t].start == tgt[t].start && tgt'[t].end == tgt[t].end
    {
      assert Grouped(groups, t);
    }
  }

  lemma {:induction false} RerangedSettles(src: seq<Range>, tgt: seq<Range>, groups: seq<seq<nat>>, start: nat, order: seq<nat>,
                                           src': seq<Range>, tgt': seq<Range>)
    requires Reranged(src, tgt, groups, start, order, src', tgt') && EachOnce(groups, |tgt|)
    ensures Settled(src, tgt, groups, start, src', tgt')
  {
    ElsewhereLeftAlone(src, tgt, groups, start, order, src', tgt');
    forall f: nat | Aligned(src, tgt, groups, start, f) && EqualShared(groups, Pow2(f))
      ensures AllNest(src', tgt', groups)
    {
      EqualSharesNest(src, tgt, groups, start, order, src', tgt', f);
    }
    forall f: nat | Aligned(src, tgt, groups, start, f) && EveryNumberUsed(src, tgt, groups) && |tgt| == |src| * Pow2(f)
      ensures AllNest(src', tgt', groups) <==> EqualShared(groups, Pow2(f))
    {
      NestExactlyIfEqual(src, tgt, groups, start, order, src', tgt', f);
    }
    forall f: nat, end: nat | Aligned(src, tgt, groups, start, f) && EqualShared(groups, Pow2(f)) && Uniform(src, tgt, end)
      ensures AllOwnedOnce(src', tgt', groups, start, end)
    {
      forall a: nat | start <= a < end
        ensures HasOwners(src', tgt', groups, a)
      {
        OwnedOnce(src, tgt, groups, start, order, src', tgt', f, end, a);
      }
    }
  }

  // The script.

  lemma {:induction false} FlatGrouped(groups: seq<seq<nat>>, t: nat)
    requires t in Flat(groups)
    ensures Grouped(groups, t)
  {
    FlatHolds(groups, t);
    var k :| 0 <= k < |groups| && t in groups[k];
    var j :| 0 <= j < |groups[k]| && groups[k][j] == t;
  }

  lemma {:induction false} CachesMayLead(pairing: seq<seq<nat>>, caches: nat, mems: nat)
    requires Passes(pairing, caches, mems) && caches <= mems
    ensures EachOnce(pairing, mems)
  {
    EachMemoryOnce(pairing, caches, mems);
    NoRepeatDistinct(pairing);
    forall k, j | 0 <= k < |pairing| && 0 <= j < |pairing[k]|
      ensures pairing[k][j] < mems
    {
      assert ListOk(pairing[k], caches, mems);
    }
    forall t: nat | t < mems
      ensures Grouped(pairing, t)
    {
      FlatGrouped(pairing, t);
    }
  }

  lemma {:induction false} MemoriesMayLead(pairing: seq<seq<nat>>, caches: nat, mems: nat, lists: seq<seq<nat>>)
    requires Passes(pairing, caches, mems) && mems < caches
    requires |lists| == mems && (forall m :: 0 <= m < mems ==> NoRepeat(lists[m])) && Mirrors(lists, pairing, caches)
    ensures EachOnce(lists, caches)
  {
    EachCacheOnce(pairing, caches, mems, lists);
    NoRepeatDistinct(lists);
    forall k, j | 0 <= k < |lists| && 0 <= j < |lists[k]|
      ensures lists[k][j] < caches
    {
      assert lists[k][j] in lists[k];
    }
    forall t: nat | t < caches
      ensures Grouped(lists, t)
    {
      FlatGrouped(lists, t);
    }
  }

  lemma {:induction false} SomeMemory(pairing: seq<seq<nat>>, caches: nat, mems: nat)
    requires Passes(pairing, caches, mems)
    ensures mems > 0
  {
    var list := pairing[0];
    assert ListOk(list, caches, mems);
    if mems < caches {
      assert list[0] < mems;
    }
  }

  ghost predicate SameStart(ranges: seq<Range>) {
    forall i :: 0 <= i < |ranges| ==> ranges[i].start == ranges[0].start
  }

  method CheckStarts(mem: array<Range>) returns (same: bool)
    requires mem.Length > 0
    ensures same <==> SameStart(mem[..])
  {
    for i := 0 to mem.Length
      invariant forall k :: 0 <= k < i ==> mem[k].start == mem[0].start
    {
      if mem[i].start != mem[0].start {
        assert mem[..][i].start != mem[..][0].start;
        return false;
      }
    }
    same := true;
  }

  /** Rejected: a check failed before anything was changed. Stopped: a range was missing when
      match values had already been changed. */
  datatype Verdict = Rejected | Stopped | Done

  /** Which ranges no target may have elsewhere: with memories in the lead every cache must
      start where the memories do. */
  ghost predicate Elsewhere(cache: seq<Range>, start: nat) {
    exists c :: 0 <= c < |cache| && cache[c].start != start
  }

  lemma {:induction false} ElsewhereIsUnpaired(mem: seq<Range>, cache: seq<Range>, groups: seq<seq<nat>>, start: nat)
    requires |groups| == |mem| && EachOnce(groups, |cache|) && forall i :: 0 <= i < |mem| ==> mem[i].start == start
    ensures Unpaired(mem, cache, groups, start) <==> Elsewhere(cache, start)
  {
    if Elsewhere(cache, start) {
      var c :| 0 <= c < |cache| && cache[c].start != start;
      assert Grouped(groups, c);
      var i, j :| 0 <= i < |groups| && 0 <= j < |groups[i]| && groups[i][j] == c;
      assert Misses(mem, cache, groups, start, i, j);
    }
    if i: nat, j: nat :| Misses(mem, cache, groups, start, i, j) {
      assert cache[groups[i][j]].start != start;
    }
  }

  /** Checks the pairing table and the starts of the memories, then rewrites both sides from
      the side with fewer controllers, which lists its partners in `groups`. */
  method AutoPair(cache: array<Range>, mem: array<Range>, pairing: seq<seq<nat>>)
    returns (v: Verdict, groups: seq<seq<nat>>, order: seq<nat>)
    requires cache != mem
    modifies cache, mem
    ensures v == Rejected <==> !(Passes(pairing, cache.Length, mem.Length) && SameStart(old(mem[..])))
    ensures v == Rejected ==> cache[..] == old(cache[..]) && mem[..] == old(mem[..])
    ensures v != Rejected ==> mem.Length > 0
    ensures v == Stopped <==>
              && Passes(pairing, cache.Length, mem.Length) && SameStart(old(mem[..]))
              && mem.Length < cache.Length && Elsewhere(old(cache[..]), old(mem[..])[0].start)
    ensures v == Done && cache.Length <= mem.Length ==>
              && groups == pairing && EachOnce(groups, mem.Length)
              && Reranged(old(cache[..]), old(mem[..]), groups, old(mem[..])[0].start, order, cache[..], mem[..])
              && Settled(old(cache[..]), old(mem[..]), groups, old(mem[..])[0].start, cache[..], mem[..])
    ensures v == Done && mem.Length < cache.Length ==>
              && |groups| == mem.Length && Mirrors(groups, pairing, |pairing|) && EachOnce(groups, cache.Length)
              && Reranged(old(mem[..]), old(cache[..]), groups, old(mem[..])[0].start, order, mem[..], cache[..])
              && Settled(old(mem[..]), old(cache[..]), groups, old(mem[..])[0].start, mem[..], cache[..])
  {
    ghost var cache0, mem0 := cache[..], mem[..];
    v, groups, order := Rejected, pairing, [];
    var lists := CheckPairing(pairing, cache.Length, mem.Length);
    assert cache[..] == cache0 && mem[..] == mem0;
    if lists.None? {
      return;
    }
    SomeMemory(pairing, cache.Length, mem.Length);
    var same := CheckStarts(mem);
    if !same {
      return;
    }
    var start := mem[0].start;
    var ok;
    if mem.Length >= cache.Length {
      CachesMayLead(pairing, cache.Length, mem.Length);
      assert !Unpaired(cache0, mem0, groups, start);
      ok, order := Rerange(cache, mem, groups, start);
      RerangedSettles(cache0, mem0, groups, start, order, cache[..], mem[..]);
    } else {
      groups := lists.value;
      MemoriesMayLead(pairing, cache.Length, mem.Length, groups);
      ElsewhereIsUnpaired(mem0, cache0, groups, start);
      ok, order := Rerange(mem, cache, groups, start);
      if ok {
        RerangedSettles(mem0, cache0, groups, start, order, mem[..], cache[..]);
      }
    }
    v := if ok then Done else Stopped;
  }

  // A table with uneven shares.

  /** The checks do not ask for equal shares when there are more caches than memories: here
      memory 0 has three caches and memory 1 has one ... */
  lemma {:induction false} UnevenSharesPass()
    ensures Passes([[0], [0], [0], [1]], 4, 2) && Mirrors(UNEVEN, [[0], [0], [0], [1]], 4)
  {
    var pairing: seq<seq<nat>> := [[0], [0], [0], [1]];
    FlatHolds(pairing, 0);
    FlatHolds(pairing, 1);
    assert 0 in pairing[0] && 1 in pairing[3];
    assert UNEVEN[0] == [0, 1, 2] && UNEVEN[1] == [3];
    forall m: nat, c: nat | m < |UNEVEN|
      ensures c in UNEVEN[m] <==> c < 4 && m in pairing[c]
    {
    }
  }

  /** There is an address for each of the four numbers. */
  lemma {:induction false} FourNumbersUsed(q: nat)
    requires q < 4
    ensures OwnsSomething(Range(0, 4096, TargetMasks([64, 128], [64]), q))
  {
    assert Pow2(11) == 2048;
    assert Pow2(2) == 4;
    SmallFanOutUsed(6, 1, 1, q);
    TwoBitMasks();
    OwnsIfUsed(Range(0, 4096, [64, 1984], q), 11, 0);
  }

  const MEMORIES := [Range(0, 4096, [64], 0), Range(0, 4096, [64], 1)]
  const CACHES := [Range(0, 4096, [64, 128], 0), Range(0, 4096, [64, 128], 1), Range(0, 4096, [64, 128], 2), Range(0, 4096, [64, 128], 3)]
  const UNEVEN: seq<seq<nat>> := [[0, 1, 2], [3]]

  lemma {:induction false} UnevenPlaces(i: nat, j: nat)
    requires i < |UNEVEN| && j < |UNEVEN[i]|
    ensures UNEVEN[i][j] == if i == 0 then j else 3
  {
    assert UNEVEN[0] == [0, 1, 2] && UNEVEN[1] == [3];
  }

  lemma {:induction false} UnevenEachOnce()
    ensures EachOnce(UNEVEN, 4)
  {
    forall i, j | 0 <= i < |UNEVEN| && 0 <= j < |UNEVEN[i]|
      ensures UNEVEN[i][j] == if i == 0 then j else 3
    {
      UnevenPlaces(i, j);
    }
    assert |UNEVEN[0]| == 3 && |UNEVEN[1]| == 1;
    forall t: nat | t < 4
      ensures Grouped(UNEVEN, t)
    {
      assert UNEVEN[if t < 3 then 0 else 1][if t < 3 then t else 0] == t;
    }
  }

  lemma {:induction false} UnevenAligned()
    ensures Aligned(MEMORIES, CACHES, UNEVEN, 0, 1) && EveryNumberUsed(MEMORIES, CACHES, UNEVEN)
  {
    UnevenEachOnce();
    forall i, j | 0 <= i < |UNEVEN| && 0 <= j < |UNEVEN[i]|
      ensures Comparable(CACHES[UNEVEN[i][j]], MEMORIES[i], 1)
      ensures forall q :: 0 <= q < |CACHES| ==> OwnsSomething(Paired(CACHES[UNEVEN[i][j]], MEMORIES[i], q))
    {
      var c, m := CACHES[UNEVEN[i][j]], MEMORIES[i];
      assert c.start == 0 && c.end == 4096 && c.masks == [64, 128] && m.start == 0 && m.end == 4096 && m.masks == [64];
      forall q | 0 <= q < |CACHES|
        ensures OwnsSomething(Paired(c, m, q))
      {
        FourNumbersUsed(q);
      }
    }
    assert Matches(MEMORIES) == [0, 1];
  }

  /** ... and however the rewriting goes, some cache does not lie inside its memory. */
  lemma {:induction false} UnevenSharesDoNotNest(order: seq<nat>, mem': seq<Range>, cache': seq<Range>)
    requires Reranged(MEMORIES, CACHES, UNEVEN, 0, order, mem', cache')
    ensures !AllNest(mem', cache', UNEVEN)
  {
    UnevenAligned();
    UnevenEachOnce();
    assert Pow2(1) == 2 && |CACHES| == 4 && |MEMORIES| == 2;
    NestExactlyIfEqual(MEMORIES, CACHES, UNEVEN, 0, order, mem', cache', 1);
    assert |UNEVEN[0]| == 3;
  }
}
