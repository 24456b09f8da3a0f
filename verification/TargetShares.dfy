/** Which paired memory controllers get a share of memory at all, once their ranges have been
    rewritten. */
module TargetShares {
  import opened Arithmetic
  import opened Bits
  import opened Interleaving
  import opened Remasking
  import opened Pairing
  import opened Reranging
  import opened AutoPairing

  /** Both sides interleave from the same bit on, sources on n bits and targets on f more. */
  ghost predicate FromBit(src: seq<Range>, tgt: seq<Range>, low: nat, f: nat, n: nat) {
    && |src| > 0 && src[0].masks == IntlvMasks(low, false, 0, n)
    && (|tgt| > 0 ==> tgt[0].masks == IntlvMasks(low, false, 0, n + f))
  }

  /** The range is aligned and long enough for all masks. */
  predicate LongEnough(start: nat, end: nat, low: nat, f: nat, n: nat) {
    start % Pow2(low + f + n + 5) == 0 && start + Pow2(low + f + n + 5) <= end
  }

  ghost predicate Plain(src: seq<Range>, tgt: seq<Range>, groups: seq<seq<nat>>, start: nat, end: nat, low: nat, f: nat, n: nat) {
    && Aligned(src, tgt, groups, start, f) && EqualShared(groups, Pow2(f)) && EachOnce(groups, |tgt|) && Uniform(src, tgt, end)
    && FromBit(src, tgt, low, f, n) && LongEnough(start, end, low, f, n)
  }

  /** Target t is number j of the source that comes k-th. */
  predicate StandsAt(groups: seq<seq<nat>>, order: seq<nat>, k: nat, j: nat, t: nat) {
    k < |order| && order[k] < |groups| && j < |groups[order[k]]| && groups[order[k]][j] == t
  }

  /** Target j of source k, as it is after the rewriting. */
  lemma {:induction false} TargetIs(src: seq<Range>, tgt: seq<Range>, groups: seq<seq<nat>>, start: nat, order: seq<nat>,
                                    src': seq<Range>, tgt': seq<Range>, end: nat, low: nat, f: nat, n: nat, k: nat, j: nat, t: nat)
    requires StandsAt(groups, order, k, j, t) && t < |tgt'|
    requires Aligned(src, tgt, groups, start, f) && Reranged(src, tgt, groups, start, order, src', tgt')
    requires EqualShared(groups, Pow2(f)) && Uniform(src, tgt, end) && FromBit(src, tgt, low, f, n)
    ensures tgt'[t] == Range(start, end, PlainTargetMasks(low, f, n), k * Pow2(f) + j)
  {
    RewrittenTarget(src, tgt, groups, start, order, src', tgt', f, end, k, j);
    PlainTargets(low, f, n);
  }

  lemma {:induction false} OwnsExactly(start: nat, end: nat, low: nat, f: nat, n: nat, q: nat)
    requires LongEnough(start, end, low, f, n)
    ensures OwnsSomething(Range(start, end, PlainTargetMasks(low, f, n), q)) <==> Used(PlainTargetMasks(low, f, n), q)
  {
    var b := low + f + n + 5;
    DivModParts(start, Pow2(b));
    var r := Range(start, end, PlainTargetMasks(low, f, n), q);
    forall i | 0 <= i < |r.masks|
      ensures r.masks[i] < Pow2(b)
    {
      PlainMaskBound(low, f, n, i);
    }
    OwnsIfUsed(r, b, start / Pow2(b));
  }

  lemma {:induction false} NumberOwns(start: nat, end: nat, low: nat, f: nat, n: nat, k: nat, j: nat)
    requires LongEnough(start, end, low, f, n) && (f <= 4 || n == 0) && k < Pow2(n) && j < Pow2(f)
    ensures OwnsSomething(Range(start, end, PlainTargetMasks(low, f, n), k * Pow2(f) + j))
  {
    NumberBound(f, n, k, j);
    NumberUsed(low, f, n, k * Pow2(f) + j);
    OwnsExactly(start, end, low, f, n, k * Pow2(f) + j);
  }

  lemma {:induction false} NumberBound(f: nat, n: nat, k: nat, j: nat)
    requires k < Pow2(n) && j < Pow2(f)
    ensures k * Pow2(f) + j < Pow2(f + n)
  {
    Pow2Sum(f, n);
    GridCell(k, j, Pow2(n), Pow2(f));
  }

  lemma {:induction false} NumberUsed(low: nat, f: nat, n: nat, q: nat)
    requires (f <= 4 || n == 0) && q < Pow2(f + n)
    ensures Used(PlainTargetMasks(low, f, n), q)
  {
    PlainTargets(low, f, n);
    TargetsUsedExactly(low, f, n);
  }

  /** Every target stands somewhere among the sources in order. */
  lemma {:induction false} PlaceOf(groups: seq<seq<nat>>, order: seq<nat>, t: nat) returns (k: nat, j: nat)
    requires Grouped(groups, t) && |order| == |groups| && NoRepeat(order)
    requires forall k :: 0 <= k < |order| ==> order[k] < |groups|
    ensures StandsAt(groups, order, k, j, t)
  {
    var i, at :| 0 <= i < |groups| && 0 <= at < |groups[i]| && groups[i][at] == t;
    OrderCovers(order, |groups|);
    assert i in order;
    k, j :| 0 <= k < |order| && order[k] == i && j == at;
  }

  /** Every paired memory controller ends up with a share of memory if and only if no home node
      has more than 16 of them, or there is only one home node. */
  lemma {:induction false} TargetsShareExactly(src: seq<Range>, tgt: seq<Range>, groups: seq<seq<nat>>, start: nat, order: seq<nat>,
                                               src': seq<Range>, tgt': seq<Range>, end: nat, low: nat, f: nat, n: nat)
    requires Plain(src, tgt, groups, start, end, low, f, n) && Reranged(src, tgt, groups, start, order, src', tgt')
    ensures (forall t :: 0 <= t < |tgt'| ==> OwnsSomething(tgt'[t])) <==> f <= 4 || n == 0
  {
    if f <= 4 || n == 0 {
      forall t | 0 <= t < |tgt'|
        ensures OwnsSomething(tgt'[t])
      {
        TargetShares(src, tgt, groups, start, order, src', tgt', end, low, f, n, t);
      }
    } else {
      var t := UnusedTarget(src, tgt, groups, start, order, src', tgt', end, low, f, n);
    }
  }

  lemma {:induction false} TargetShares(src: seq<Range>, tgt: seq<Range>, groups: seq<seq<nat>>, start: nat, order: seq<nat>,
                                        src': seq<Range>, tgt': seq<Range>, end: nat, low: nat, f: nat, n: nat, t: nat)
    requires Plain(src, tgt, groups, start, end, low, f, n) && Reranged(src, tgt, groups, start, order, src', tgt')
    requires (f <= 4 || n == 0) && t < |tgt'|
    ensures OwnsSomething(tgt'[t])
  {
    assert Grouped(groups, t);
    var k, j := PlaceOf(groups, order, t);
    TargetIs(src, tgt, groups, start, order, src', tgt', end, low, f, n, k, j, t);
    NumberOwns(start, end, low, f, n, k, j);
  }

  /** With more than 16 to each of several home nodes, the first target of the second one gets
      nothing. */
  lemma {:induction false} UnusedTarget(src: seq<Range>, tgt: seq<Range>, groups: seq<seq<nat>>, start: nat, order: seq<nat>,
                                        src': seq<Range>, tgt': seq<Range>, end: nat, low: nat, f: nat, n: nat) returns (t: nat)
    requires Plain(src, tgt, groups, start, end, low, f, n) && Reranged(src, tgt, groups, start, order, src', tgt')
    requires 5 <= f && 1 <= n
    ensures t < |tgt'| && !OwnsSomething(tgt'[t])
  {
    assert |order| == Pow2(n) && Pow2(n) == 2 * Pow2(n - 1);
    t := groups[order[1]][0];
    TargetIs(src, tgt, groups, start, order, src', tgt', end, low, f, n, 1, 0, t);
    OwnsExactly(start, end, low, f, n, Pow2(f));
    LargeFanOutUnused(low, f, n);
  }
}
