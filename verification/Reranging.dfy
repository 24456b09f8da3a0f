/** Rewriting the ranges of paired controllers in place. */
module Reranging {
  import opened Arithmetic
  import opened Bits
  import opened Interleaving
  import opened Remasking
  import opened Sets
  import opened Sorting
  import opened Pairing

  ghost predicate Within(groups: seq<seq<nat>>, n: nat) {
    forall k, j :: 0 <= k < |groups| && 0 <= j < |groups[k]| ==> groups[k][j] < n
  }

  /** No controller stands in two places. */
  ghost predicate Distinct(groups: seq<seq<nat>>) {
    forall k, j, k', j' ::
      (0 <= k < |groups| && 0 <= j < |groups[k]| && 0 <= k' < |groups| && 0 <= j' < |groups[k']| && groups[k][j] == groups[k'][j'])
      ==> k == k' && j == j'
  }

  lemma {:induction false} NoRepeatDistinct(groups: seq<seq<nat>>)
    requires NoRepeat(Flat(groups))
    ensures Distinct(groups)
  {
    forall k, j, k', j' | 0 <= k < |groups| && 0 <= j < |groups[k]| && 0 <= k' < |groups| && 0 <= j' < |groups[k']|
                          && groups[k][j] == groups[k'][j']
      ensures k == k' && j == j'
    {
      FlatAt(groups, k, j);
      FlatAt(groups, k', j');
      if k < k' {
        StartMonotone(groups, k, k');
      } else if k' < k {
        StartMonotone(groups, k', k);
      }
    }
  }

  /** The places before (k, j). */
  predicate Earlier(a: int, b: int, k: int, j: int) {
    a < k || (a == k && b < j)
  }

  ghost predicate Grouped(groups: seq<seq<nat>>, t: nat) {
    exists k, j :: 0 <= k < |groups| && 0 <= j < |groups[k]| && groups[k][j] == t
  }

  /** Paired controllers get consecutive match values, source by source. */
  method Renumber(tgt: array<Range>, groups: seq<seq<nat>>)
    requires Within(groups, tgt.Length) && Distinct(groups)
    modifies tgt
    ensures forall k, j :: 0 <= k < |groups| && 0 <= j < |groups[k]| ==>
              tgt[groups[k][j]] == old(tgt[groups[k][j]]).(intlvMatch := Start(groups, k) + j)
    ensures forall t :: 0 <= t < tgt.Length && !Grouped(groups, t) ==> tgt[t] == old(tgt[t])
  {
    var intlvMatch := 0;
    for k := 0 to |groups|
      invariant intlvMatch == Start(groups, k)
      invariant forall t :: 0 <= t < tgt.Length && !Grouped(groups, t) ==> tgt[t] == old(tgt[t])
      invariant forall a, b :: 0 <= a < |groups| && 0 <= b < |groups[a]| ==>
                  tgt[groups[a][b]] == if a < k then old(tgt[groups[a][b]]).(intlvMatch := Start(groups, a) + b)
                                       else old(tgt[groups[a][b]])
    {
      for j := 0 to |groups[k]|
        invariant intlvMatch == Start(groups, k) + j
        invariant forall t :: 0 <= t < tgt.Length && !Grouped(groups, t) ==> tgt[t] == old(tgt[t])
        invariant forall a, b :: 0 <= a < |groups| && 0 <= b < |groups[a]| ==>
                    tgt[groups[a][b]] == if Earlier(a, b, k, j) then old(tgt[groups[a][b]]).(intlvMatch := Start(groups, a) + b)
                                         else old(tgt[groups[a][b]])
      {
        var t := groups[k][j];
        tgt[t] := tgt[t].(intlvMatch := intlvMatch);
        intlvMatch := intlvMatch + 1;
      }
      StartNext(groups, k);
    }
  }

  /** A target once its source with the given start has been dealt with. */
  function NewTarget(target: Range, source: Range, start: nat): Range {
    if source.start == start then target.(masks := TargetMasks(target.masks, source.masks)) else target
  }

  /** A source once its targets have been dealt with. */
  function NewSource(source: Range, start: nat, targets: seq<nat>): Range {
    if source.start == start && targets != [] then source.(masks := SpreadAll(source.masks)) else source
  }

  /** The source is re-masked although one of its targets has no range there. */
  ghost predicate Mismatch(src: seq<Range>, tgt: seq<Range>, order: seq<nat>, groups: seq<seq<nat>>, start: nat, k: nat, j: nat) {
    && k < |groups| == |order| && j < |groups[k]| && order[k] < |src| && groups[k][j] < |tgt|
    && src[order[k]].start == start && tgt[groups[k][j]].start != start
  }

  ghost predicate NoMismatch(src: seq<Range>, tgt: seq<Range>, order: seq<nat>, groups: seq<seq<nat>>, start: nat) {
    forall k: nat, j: nat :: !Mismatch(src, tgt, order, groups, start, k, j)
  }

  /** Sources at the given start get spread masks, and their targets those masks above their
      own low ones; other sources are skipped. Stops at a target with another start. */
  method Remask(src: array<Range>, tgt: array<Range>, order: seq<nat>, groups: seq<seq<nat>>, start: nat) returns (ok: bool)
    requires src != tgt && |order| == |groups| == src.Length
    requires Within(groups, tgt.Length) && Distinct(groups)
    requires (forall k :: 0 <= k < |order| ==> order[k] < src.Length) && NoRepeat(order)
    modifies src, tgt
    ensures ok <==> NoMismatch(old(src[..]), old(tgt[..]), order, groups, start)
    ensures ok ==> forall k, j :: 0 <= k < |groups| && 0 <= j < |groups[k]| ==>
              tgt[groups[k][j]] == NewTarget(old(tgt[groups[k][j]]), old(src[order[k]]), start)
    ensures ok ==> forall k :: 0 <= k < |order| ==>
              src[order[k]] == NewSource(old(src[order[k]]), start, groups[k])
    ensures ok ==> forall t :: 0 <= t < tgt.Length && !Grouped(groups, t) ==> tgt[t] == old(tgt[t])
  {
    ghost var src0, tgt0 := src[..], tgt[..];
    for k := 0 to |groups|
      invariant forall a: nat, b: nat :: a < k ==> !Mismatch(src0, tgt0, order, groups, start, a, b)
      invariant RemaskedUpTo(src0, tgt0, order, groups, start, k, src[..], tgt[..])
    {
      ghost var src1, tgt1 := src[..], tgt[..];
      if src[order[k]].start == start {
        ok := RemaskGroup(src, tgt, order[k], groups[k], start);
        if !ok {
          ghost var j :| 0 <= j < |groups[k]| && tgt0[groups[k][j]].start != start;
          assert Mismatch(src0, tgt0, order, groups, start, k, j);
          return;
        }
      }
      RemaskedNext(src0, tgt0, order, groups, start, k, src1, tgt1, src[..], tgt[..]);
    }
    ok := true;
  }

  /** The first k sources and their targets are dealt with, all others are as before. */
  ghost predicate RemaskedUpTo(src: seq<Range>, tgt: seq<Range>, order: seq<nat>, groups: seq<seq<nat>>, start: nat, k: nat,
                               src': seq<Range>, tgt': seq<Range>)
    requires |order| == |groups| && (forall a :: 0 <= a < |order| ==> order[a] < |src|) && Within(groups, |tgt|)
  {
    && |src'| == |src| && |tgt'| == |tgt|
    && (forall t :: 0 <= t < |tgt| && !Grouped(groups, t) ==> tgt'[t] == tgt[t])
    && (forall a, b :: 0 <= a < |groups| && 0 <= b < |groups[a]| ==>
          tgt'[groups[a][b]] == if a < k then NewTarget(tgt[groups[a][b]], src[order[a]], start) else tgt[groups[a][b]])
    && (forall a :: 0 <= a < |order| ==>
          src'[order[a]] == if a < k then NewSource(src[order[a]], start, groups[a]) else src[order[a]])
  }

  lemma {:induction false} RemaskedNext(src: seq<Range>, tgt: seq<Range>, order: seq<nat>, groups: seq<seq<nat>>, start: nat, k: nat,
                                        src1: seq<Range>, tgt1: seq<Range>, src2: seq<Range>, tgt2: seq<Range>)
    requires k < |order| == |groups| && (forall a :: 0 <= a < |order| ==> order[a] < |src|) && NoRepeat(order)
    requires Within(groups, |tgt|) && Distinct(groups)
    requires RemaskedUpTo(src, tgt, order, groups, start, k, src1, tgt1) && |src2| == |src1| && |tgt2| == |tgt1|
    requires src2[order[k]] == NewSource(src1[order[k]], start, groups[k])
    requires forall i :: 0 <= i < |src1| && i != order[k] ==> src2[i] == src1[i]
    requires forall b :: 0 <= b < |groups[k]| ==> tgt2[groups[k][b]] == NewTarget(tgt1[groups[k][b]], src1[order[k]], start)
    requires forall t :: 0 <= t < |tgt1| && t !in groups[k] ==> tgt2[t] == tgt1[t]
    ensures RemaskedUpTo(src, tgt, order, groups, start, k + 1, src2, tgt2)
  {
    forall a, b | 0 <= a < |groups| && 0 <= b < |groups[a]| && a != k
      ensures tgt2[groups[a][b]] == tgt1[groups[a][b]]
    {
      assert groups[a][b] !in groups[k];
    }
    forall t | 0 <= t < |tgt| && !Grouped(groups, t)
      ensures tgt2[t] == tgt[t]
    {
      assert t !in groups[k];
    }
    forall a | 0 <= a < |order| && a != k
      ensures src2[order[a]] == src1[order[a]]
    {
      assert order[a] != order[k];
    }
  }

  /** One source and its targets. */
  method RemaskGroup(src: array<Range>, tgt: array<Range>, s: nat, targets: seq<nat>, start: nat) returns (ok: bool)
    requires src != tgt && s < src.Length && src[s].start == start
    requires NoRepeat(targets) && forall j :: 0 <= j < |targets| ==> targets[j] < tgt.Length
    modifies src, tgt
    ensures ok <==> forall j :: 0 <= j < |targets| ==> old(tgt[targets[j]]).start == start
    ensures ok ==> src[s] == NewSource(old(src[s]), start, targets)
    ensures ok ==> forall i :: 0 <= i < src.Length && i != s ==> src[i] == old(src[i])
    ensures ok ==> forall j :: 0 <= j < |targets| ==> tgt[targets[j]] == NewTarget(old(tgt[targets[j]]), old(src[s]), start)
    ensures ok ==> forall t :: 0 <= t < tgt.Length && t !in targets ==> tgt[t] == old(tgt[t])
  {
    var spread := SpreadAll(src[s].masks);
    for j := 0 to |targets|
      invariant forall i :: 0 <= i < src.Length && i != s ==> src[i] == old(src[i])
      invariant src[s] == if j > 0 then NewSource(old(src[s]), start, targets) else old(src[s])
      invariant forall b :: 0 <= b < j ==> old(tgt[targets[b]]).start == start
      invariant forall b :: 0 <= b < |targets| ==>
                  tgt[targets[b]] == if b < j then NewTarget(old(tgt[targets[b]]), old(src[s]), start) else old(tgt[targets[b]])
      invariant forall t :: 0 <= t < tgt.Length && t !in targets ==> tgt[t] == old(tgt[t])
    {
      var t := targets[j];
      if tgt[t].start != start {
        return false;
      }
      src[s] := src[s].(masks := spread);
      var lsbs := |tgt[t].masks| - |spread|;
      tgt[t] := tgt[t].(masks := (if 0 <= lsbs then tgt[t].masks[..lsbs] else []) + spread);
    }
    ok := true;
  }

  function Upto(n: nat): (r: seq<nat>)
    ensures |r| == n && forall i :: 0 <= i < n ==> r[i] == i
  {
    seq(n, i requires 0 <= i < n => i)
  }

  function Key(matches: seq<nat>, i: nat): nat {
    if i < |matches| then matches[i] else 0
  }

  function Matches(ranges: seq<Range>): (r: seq<nat>)
    ensures |r| == |ranges|
  {
    seq(|ranges|, i requires 0 <= i < |ranges| => ranges[i].intlvMatch)
  }

  /** The sources in the order of their match values. */
  ghost predicate InOrder(order: seq<nat>, matches: seq<nat>) {
    && |order| == |matches|
    && NoRepeat(order)
    && (forall k :: 0 <= k < |order| ==> order[k] < |matches|)
    && (forall i, j :: 0 <= i < j < |order| ==> Key(matches, order[i]) <= Key(matches, order[j]))
  }

  lemma {:induction false} CountOfUpto(n: nat, x: nat)
    ensures multiset(Upto(n))[x] == if x < n then 1 else 0
  {
    if n > 0 {
      CountOfUpto(n - 1, x);
      assert Upto(n) == Upto(n - 1) + [n - 1];
    }
  }

  lemma {:induction false} PermutationOfUpto(order: seq<nat>, n: nat)
    requires multiset(order) == multiset(Upto(n))
    ensures NoRepeat(order) && forall k :: 0 <= k < |order| ==> order[k] < n
  {
    forall k | 0 <= k < |order|
      ensures order[k] < n
    {
      assert order[k] in multiset(order);
      CountOfUpto(n, order[k]);
    }
    forall i, j | 0 <= i < j < |order|
      ensures order[i] != order[j]
    {
      if order[i] == order[j] {
        CountTwice(order, i, j);
        CountOfUpto(n, order[i]);
      }
    }
  }

  method SortSources(matches: seq<nat>) returns (order: seq<nat>)
    ensures InOrder(order, matches)
  {
    order := Sort(Upto(|matches|), (a: nat, b: nat) => Key(matches, a) <= Key(matches, b));
    PermutationOfUpto(order, |matches|);
  }

  ghost function Ordered(order: seq<nat>, groups: seq<seq<nat>>): seq<seq<nat>>
    requires forall k :: 0 <= k < |order| ==> order[k] < |groups|
  {
    seq(|order|, k requires 0 <= k < |order| => groups[order[k]])
  }

  /** What renumbering and re-masking leave behind, source by source. */
  ghost predicate Reranged(src: seq<Range>, tgt: seq<Range>, groups: seq<seq<nat>>, start: nat, order: seq<nat>,
                           src': seq<Range>, tgt': seq<Range>) {
    && |src'| == |src| == |groups| && |tgt'| == |tgt| && Within(groups, |tgt|)
    && InOrder(order, Matches(src))
    && (forall k, j :: 0 <= k < |order| && 0 <= j < |groups[order[k]]| ==>
          var t := groups[order[k]][j];
          tgt'[t] == NewTarget(tgt[t], src[order[k]], start).(intlvMatch := Start(Ordered(order, groups), k) + j))
    && (forall t :: 0 <= t < |tgt| && !Grouped(groups, t) ==> tgt'[t] == tgt[t])
    && (forall i :: 0 <= i < |src| ==> src'[i] == NewSource(src[i], start, groups[i]))
  }

  /** Some source at the given start has a target with another start. */
  ghost predicate Unpaired(src: seq<Range>, tgt: seq<Range>, groups: seq<seq<nat>>, start: nat) {
    exists i: nat, j: nat :: Misses(src, tgt, groups, start, i, j)
  }

  ghost predicate Misses(src: seq<Range>, tgt: seq<Range>, groups: seq<seq<nat>>, start: nat, i: nat, j: nat) {
    && i < |groups| == |src| && j < |groups[i]| && groups[i][j] < |tgt|
    && src[i].start == start && tgt[groups[i][j]].start != start
  }

  method ReadMatches(src: array<Range>) returns (matches: seq<nat>)
    ensures matches == Matches(src[..])
  {
    matches := [];
    for i := 0 to src.Length
      invariant |matches| == i && forall k :: 0 <= k < i ==> matches[k] == src[k].intlvMatch
    {
      matches := matches + [src[i].intlvMatch];
    }
  }

  /** Renumbers and re-masks: `groups[i]` are the targets of source i. Stops, having changed
      match values, at a source whose target has no range at the same start. */
  method Rerange(src: array<Range>, tgt: array<Range>, groups: seq<seq<nat>>, start: nat) returns (ok: bool, order: seq<nat>)
    requires src != tgt && |groups| == src.Length
    requires Within(groups, tgt.Length) && Distinct(groups)
    modifies src, tgt
    ensures ok <==> !Unpaired(old(src[..]), old(tgt[..]), groups, start)
    ensures ok ==> Reranged(old(src[..]), old(tgt[..]), groups, start, order, src[..], tgt[..])
  {
    ghost var src0, tgt0 := src[..], tgt[..];
    var matches := ReadMatches(src);
    order := SortSources(matches);
    var gs := seq(|order|, k requires 0 <= k < |order| => groups[order[k]]);
    assert gs == Ordered(order, groups);
    OrderedDistinct(order, groups, gs);
    Renumber(tgt, gs);
    ghost var tgt1 := tgt[..];
    UngroupedInOrder(order, groups);
    assert SameButMatches(tgt0, tgt1);
    ok := Remask(src, tgt, order, gs, start);
    OrderCovers(order, |groups|);
    MismatchMeans(src0, tgt0, tgt1, order, groups, start);
    if ok {
      RewritingsJoin(src0, tgt0, tgt1, order, groups, start, src[..], tgt[..]);
    }
  }

  lemma {:induction false} OrderedDistinct(order: seq<nat>, groups: seq<seq<nat>>, gs: seq<seq<nat>>)
    requires Distinct(groups) && NoRepeat(order) && |order| == |groups| == |gs|
    requires forall k :: 0 <= k < |order| ==> order[k] < |groups| && gs[k] == groups[order[k]]
    ensures Distinct(gs)
  {
  }

  ghost predicate SameButMatches(tgt: seq<Range>, tgt': seq<Range>) {
    |tgt'| == |tgt| && forall t :: 0 <= t < |tgt| ==> tgt'[t].start == tgt[t].start
  }

  lemma {:induction false} UngroupedInOrder(order: seq<nat>, groups: seq<seq<nat>>)
    requires forall k :: 0 <= k < |order| ==> order[k] < |groups|
    ensures forall t: nat :: !Grouped(groups, t) ==> !Grouped(Ordered(order, groups), t)
  {
    var gs := Ordered(order, groups);
    forall t: nat | Grouped(gs, t)
      ensures Grouped(groups, t)
    {
      var k, j :| 0 <= k < |gs| && 0 <= j < |gs[k]| && gs[k][j] == t;
      assert groups[order[k]][j] == t;
    }
  }

  lemma {:induction false} MismatchMeans(src: seq<Range>, tgt: seq<Range>, tgt': seq<Range>, order: seq<nat>, groups: seq<seq<nat>>, start: nat)
    requires |order| == |groups| == |src| && SameButMatches(tgt, tgt') && Within(groups, |tgt|)
    requires (forall k :: 0 <= k < |order| ==> order[k] < |src|) && (forall i :: 0 <= i < |src| ==> i in order)
    ensures NoMismatch(src, tgt', order, Ordered(order, groups), start) <==> !Unpaired(src, tgt, groups, start)
  {
    var gs := Ordered(order, groups);
    if i: nat, j: nat :| Misses(src, tgt, groups, start, i, j) {
      assert i in order;
      var k :| 0 <= k < |order| && order[k] == i;
      assert Mismatch(src, tgt', order, gs, start, k, j);
    }
    if k: nat, j: nat :| Mismatch(src, tgt', order, gs, start, k, j) {
      assert Misses(src, tgt, groups, start, order[k], j);
    }
  }

  lemma {:induction false} RewritingsJoin(src: seq<Range>, tgt: seq<Range>, tgt1: seq<Range>, order: seq<nat>, groups: seq<seq<nat>>,
                                          start: nat, src': seq<Range>, tgt': seq<Range>)
    requires |src'| == |src| == |groups| == |order| && |tgt'| == |tgt1| == |tgt| && Within(groups, |tgt|)
    requires InOrder(order, Matches(src)) && forall i :: 0 <= i < |src| ==> i in order
    requires var gs := Ordered(order, groups);
             && (forall k, j :: 0 <= k < |gs| && 0 <= j < |gs[k]| ==>
                   tgt1[gs[k][j]] == tgt[gs[k][j]].(intlvMatch := Start(gs, k) + j))
             && (forall k, j :: 0 <= k < |gs| && 0 <= j < |gs[k]| ==>
                   tgt'[gs[k][j]] == NewTarget(tgt1[gs[k][j]], src[order[k]], start))
             && (forall k :: 0 <= k < |order| ==> src'[order[k]] == NewSource(src[order[k]], start, gs[k]))
             && (forall t :: 0 <= t < |tgt| && !Grouped(gs, t) ==> tgt1[t] == tgt[t] && tgt'[t] == tgt1[t])
    ensures Reranged(src, tgt, groups, start, order, src', tgt')
  {
    var gs := Ordered(order, groups);
    UngroupedInOrder(order, groups);
    forall k, j | 0 <= k < |order| && 0 <= j < |groups[order[k]]|
      ensures var t := groups[order[k]][j]; tgt'[t] == NewTarget(tgt[t], src[order[k]], start).(intlvMatch := Start(gs, k) + j)
    {
      assert groups[order[k]][j] == gs[k][j];
    }
    forall i | 0 <= i < |src|
      ensures src'[i] == NewSource(src[i], start, groups[i])
    {
      assert i in order;
      var k :| 0 <= k < |order| && order[k] == i;
      assert gs[k] == groups[i];
    }
  }

  /** A target's range after both rewritings. */
  function Paired(target: Range, source: Range, intlvMatch: nat): Range {
    Range(target.start, target.end, TargetMasks(target.masks, source.masks), intlvMatch)
  }

  lemma {:induction false} OrderCovers(order: seq<nat>, n: nat)
    requires |order| == n && NoRepeat(order) && forall k :: 0 <= k < n ==> order[k] < n
    ensures forall i :: 0 <= i < n ==> i in order
  {
    forall i | 0 <= i < n
      ensures i in order
    {
      if i !in order {
        RepeatFree(order);
        SubsetSize(Elements(order), Below(n) - {i});
      }
    }
  }

  lemma {:induction false} RepeatFree(s: seq<nat>)
    requires NoRepeat(s)
    ensures |Elements(s)| == |s|
  {
    if s != [] {
      RepeatFree(s[..|s| - 1]);
    }
  }

  // What the rewritten ranges mean.

  /** Match values that are a numbering from zero sort into place: position k holds k. */
  lemma {:induction false} NumberingSorts(order: seq<nat>, matches: seq<nat>, k: nat)
    requires InOrder(order, matches) && NoRepeat(matches) && k < |order|
    requires forall i :: 0 <= i < |matches| ==> matches[i] < |matches|
    ensures matches[order[k]] == k
  {
    AtLeast(order, matches, k);
    AtMost(order, matches, k);
  }

  lemma {:induction false} AtLeast(order: seq<nat>, matches: seq<nat>, k: nat)
    requires InOrder(order, matches) && NoRepeat(matches) && k < |order|
    ensures matches[order[k]] >= k
  {
    if k > 0 {
      AtLeast(order, matches, k - 1);
      assert Key(matches, order[k - 1]) <= Key(matches, order[k]);
      assert order[k - 1] != order[k];
    }
  }

  lemma {:induction false} AtMost(order: seq<nat>, matches: seq<nat>, k: nat)
    requires InOrder(order, matches) && NoRepeat(matches) && k < |order|
    requires forall i :: 0 <= i < |matches| ==> matches[i] < |matches|
    ensures matches[order[k]] <= k
    decreases |order| - k
  {
    if k + 1 < |order| {
      AtMost(order, matches, k + 1);
      assert Key(matches, order[k]) <= Key(matches, order[k + 1]);
      assert order[k] != order[k + 1];
    }
  }

  /** Everything a target owns its source owns. */
  ghost predicate Nests(target: Range, source: Range) {
    forall a :: Holds(target, a) ==> Holds(source, a)
  }

  ghost predicate OwnsSomething(r: Range) {
    exists a :: Holds(r, a)
  }

  /** The k-th block of 2^b addresses has one for every selector that there is. */
  lemma {:induction false} MovedTo(a: nat, k: nat, masks: seq<nat>, b: nat) returns (a': nat)
    requires forall i :: 0 <= i < |masks| ==> masks[i] < Pow2(b)
    ensures k * Pow2(b) <= a' < k * Pow2(b) + Pow2(b) && Sel(a', masks) == Sel(a, masks)
  {
    var q, rest := Parts(a, Pow2(b));
    SelPeriod(rest, q, masks, b);
    SelPeriod(rest, k, masks, b);
    a' := rest + k * Pow2(b);
  }

  /** In an aligned range that the masks do not reach beyond, a match value has an address if
      it has one at all. */
  lemma {:induction false} OwnsIfUsed(r: Range, b: nat, k: nat)
    requires forall i :: 0 <= i < |r.masks| ==> r.masks[i] < Pow2(b)
    requires r.start == k * Pow2(b) && r.start + Pow2(b) <= r.end
    ensures OwnsSomething(r) <==> Used(r.masks, r.intlvMatch)
  {
    if OwnsSomething(r) {
      var a :| Holds(r, a);
      assert Sel(a, r.masks) == r.intlvMatch;
    }
    if Used(r.masks, r.intlvMatch) {
      var a: nat :| Sel(a, r.masks) == r.intlvMatch;
      var a' := MovedTo(a, k, r.masks, b);
      assert Holds(r, a');
    }
  }

  /** A target lies inside the source with match value k if and only if its own match value
      is one of the 2^f that start with k. */
  lemma {:induction false} NestsExactly(target: Range, source: Range, f: nat, k: nat, q: nat)
    requires |target.masks| == |source.masks| + f && target.start == source.start && target.end == source.end
    requires OwnsSomething(Paired(target, source, q))
    ensures Nests(Paired(target, source, q), source.(masks := SpreadAll(source.masks), intlvMatch := k))
       <==> k * Pow2(f) <= q < k * Pow2(f) + Pow2(f)
  {
    var k', j := Parts(q, Pow2(f));
    NestsPartsExactly(target, source, f, k, k', j);
    SameBlock(Pow2(f), k, k', j);
  }

  lemma {:induction false} Parts(q: nat, p: nat) returns (k: nat, j: nat)
    requires 1 <= p
    ensures q == k * p + j && j < p
  {
    DivModParts(q, p);
    k, j := q / p, q % p;
  }

  lemma {:induction false} SameBlock(p: nat, k: nat, k': nat, j: nat)
    requires j < p
    ensures k * p <= k' * p + j < k * p + p <==> k' == k
  {
    if k' < k {
      TimesMonotone(k' + 1, k, p);
    } else if k < k' {
      TimesMonotone(k + 1, k', p);
    }
  }

  lemma {:induction false} NestsPartsExactly(target: Range, source: Range, f: nat, k: nat, k': nat, j: nat)
    requires |target.masks| == |source.masks| + f && target.start == source.start && target.end == source.end
    requires j < Pow2(f) && OwnsSomething(Paired(target, source, k' * Pow2(f) + j))
    ensures Nests(Paired(target, source, k' * Pow2(f) + j), source.(masks := SpreadAll(source.masks), intlvMatch := k)) <==> k' == k
  {
    NestsByParts(target, source, f, k', j);
    NestsInOne(Paired(target, source, k' * Pow2(f) + j), source.(masks := SpreadAll(source.masks), intlvMatch := k), k');
  }

  lemma {:induction false} NestsByParts(target: Range, source: Range, f: nat, k: nat, j: nat)
    requires |target.masks| == |source.masks| + f && target.start == source.start && target.end == source.end
    requires j < Pow2(f)
    ensures Nests(Paired(target, source, k * Pow2(f) + j), source.(masks := SpreadAll(source.masks), intlvMatch := k))
  {
    forall a | Holds(Paired(target, source, k * Pow2(f) + j), a)
      ensures Holds(source.(masks := SpreadAll(source.masks), intlvMatch := k), a)
    {
      TargetSplitsSource(target.start, target.end, target.masks, source.masks, k, j, a);
    }
  }

  lemma {:induction false} NestsInOne(target: Range, source: Range, k: nat)
    requires Nests(target, source.(intlvMatch := k)) && OwnsSomething(target)
    ensures Nests(target, source) <==> k == source.intlvMatch
  {
    var a :| Holds(target, a);
    assert Holds(source.(intlvMatch := k), a);
  }

  // Which pairing tables the renumbering suits.

  ghost predicate AllInPlace(groups: seq<seq<nat>>, share: nat)
    requires 0 < share
  {
    forall k, j :: 0 <= k < |groups| && 0 <= j < |groups[k]| ==> InPlace(groups, share, k, j)
  }

  ghost predicate InPlace(groups: seq<seq<nat>>, share: nat, k: nat, j: nat)
    requires 0 < share && k < |groups|
  {
    k * share <= Start(groups, k) + j < k * share + share
  }

  /** Numbering the targets one after the other gives every target a number of its own
      source if and only if all sources have equally many. */
  lemma {:induction false} EqualSharesExactly(groups: seq<seq<nat>>, share: nat)
    requires 0 < share && |Flat(groups)| == |groups| * share
    ensures AllInPlace(groups, share) <==> forall k :: 0 <= k < |groups| ==> |groups[k]| == share
  {
    if forall k :: 0 <= k < |groups| ==> |groups[k]| == share {
      forall k, j | 0 <= k < |groups| && 0 <= j < |groups[k]|
        ensures InPlace(groups, share, k, j)
      {
        EqualShares(groups, share, k);
      }
    }
    if AllInPlace(groups, share) {
      forall k | 0 <= k < |groups|
        ensures |groups[k]| <= share
      {
        InPlaceShare(groups, share, k);
      }
      assert groups[..|groups|] == groups;
      AllFull(groups, share, |groups|);
    }
  }

  lemma {:induction false} InPlaceShare(groups: seq<seq<nat>>, share: nat, k: nat)
    requires 0 < share && AllInPlace(groups, share) && k < |groups|
    ensures |groups[k]| <= share
  {
    if groups[k] != [] {
      assert InPlace(groups, share, k, 0) && InPlace(groups, share, k, |groups[k]| - 1);
    }
  }

  lemma {:induction false} AllFull(groups: seq<seq<nat>>, share: nat, n: nat)
    requires n <= |groups| && Start(groups, n) >= n * share
    requires forall k :: 0 <= k < |groups| ==> |groups[k]| <= share
    ensures forall k :: 0 <= k < n ==> |groups[k]| == share
  {
    if n > 0 {
      StartNext(groups, n - 1);
      StartBound(groups, share, n - 1);
      assert n * share == (n - 1) * share + share;
      AllFull(groups, share, n - 1);
    }
  }

  lemma {:induction false} StartBound(groups: seq<seq<nat>>, share: nat, n: nat)
    requires n <= |groups| && forall k :: 0 <= k < |groups| ==> |groups[k]| <= share
    ensures Start(groups, n) <= n * share
  {
    if n > 0 {
      StartNext(groups, n - 1);
      StartBound(groups, share, n - 1);
      assert n * share == (n - 1) * share + share;
    }
  }
}
