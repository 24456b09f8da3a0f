/** Offsets within a channel: the address without the interleaving bits, which is how a memory
    controller finds the cell that an address stands for. */
module ChannelOffsets {
  import opened Bits
  import opened BitPositions
  import opened ChannelAddress
  import opened Interleaving
  import opened Remasking
  import opened Sorting

  /** Different addresses of one channel keep something different when the bits are out. */
  ghost predicate Injective(masks: seq<nat>, ps: seq<nat>) {
    forall a: nat, b: nat ::
      Sel(a, masks) == Sel(b, masks) && Dropped(a, ps, |ps|) == Dropped(b, ps, |ps|) ==> a == b
  }

  // Masks of which no two start with the same bit.

  lemma {:induction false} NoBitAbove(a: nat, k: nat)
    requires a <= k
    ensures Bit(a, k) == 0
  {
    if k > 0 {
      NoBitAbove(a / 2, k - 1);
    }
  }

  /** The selector gives the first bit of a mask back, once all bits above are known. */
  lemma {:induction false} StartDetermined(masks: seq<nat>, a: nat, b: nat, i: nat)
    requires Nonzero(masks) && i < |masks| && Sel(a, masks) == Sel(b, masks)
    requires forall j: nat :: Ctz(masks[i]) < j ==> Bit(a, j) == Bit(b, j)
    ensures Bit(a, Ctz(masks[i])) == Bit(b, Ctz(masks[i]))
  {
    var m, p := masks[i], Ctz(masks[i]);
    CtzIsLowest(m);
    LowestIsClear(m, p);
    BitOfSel(a, masks, i);
    BitOfSel(b, masks, i);
    ParityRest(a, m, p);
    ParityRest(b, m, p);
    forall k: nat | Bit(Rest(m, p), k) == 1
      ensures Bit(a, k) == Bit(b, k)
    {
      BitOfRest(m, p, k);
      if k < p {
        ClearBits(m, p, k);
      }
    }
    ParityAgrees(a, b, Rest(m, p));
  }

  /** From the highest bit down, the selector or the remainder tells every bit. */
  lemma {:induction false} SameFrom(masks: seq<nat>, ps: seq<nat>, a: nat, b: nat, k: nat)
    requires Nonzero(masks) && Positions(masks, ps) && IncreasingTo(ps, |ps|)
    requires Sel(a, masks) == Sel(b, masks) && Dropped(a, ps, |ps|) == Dropped(b, ps, |ps|)
    requires forall j: nat :: k <= j ==> Bit(a, j) == Bit(b, j)
    ensures a == b
    decreases k
  {
    if k == 0 {
      SameBits(a, b);
    } else {
      PositionsAreStarts(masks, ps);
      if IsStart(masks, k - 1) {
        var i :| 0 <= i < |masks| && StartOf(masks[i]) == k - 1;
        StartDetermined(masks, a, b, i);
      } else {
        assert ps[..|ps|] == ps;
        DroppedBit(a, ps, |ps|, k - 1);
        DroppedBit(b, ps, |ps|, k - 1);
      }
      SameFrom(masks, ps, a, b, k - 1);
    }
  }

  lemma {:induction false} ProperIsInjective(masks: seq<nat>, ps: seq<nat>)
    requires Nonzero(masks) && Positions(masks, ps) && Proper(masks)
    ensures Injective(masks, ps)
  {
    ProperIncreasing(masks, ps);
    forall a: nat, b: nat | Sel(a, masks) == Sel(b, masks) && Dropped(a, ps, |ps|) == Dropped(b, ps, |ps|)
      ensures a == b
    {
      forall j: nat | a + b <= j
        ensures Bit(a, j) == Bit(b, j)
      {
        NoBitAbove(a, j);
        NoBitAbove(b, j);
      }
      SameFrom(masks, ps, a, b, a + b);
    }
  }

  // Masks of which two start with the same bit.

  /** From bit k down, the first bits of the masks can be set so that the masks select as asked. */
  lemma {:induction false} Solve(masks: seq<nat>, s: nat, z: nat, k: nat) returns (v: nat)
    requires Nonzero(masks)
    requires forall i, j :: 0 <= i < j < |masks| && Ctz(masks[i]) < k ==> Ctz(masks[i]) != Ctz(masks[j])
    ensures forall j: nat :: k <= j || !IsStart(masks, j) ==> Bit(v, j) == Bit(z, j)
    ensures forall i :: 0 <= i < |masks| && Ctz(masks[i]) < k ==> Parity(v, masks[i]) == Bit(s, i)
    decreases k
  {
    if k == 0 {
      v := z;
    } else if IsStart(masks, k - 1) {
      var i :| 0 <= i < |masks| && StartOf(masks[i]) == k - 1;
      var next := RefillStep(masks, s, z, i);
      StepSelects(masks, s, z, i);
      v := Solve(masks, s, next, k - 1);
      forall j: nat | k <= j || !IsStart(masks, j)
        ensures Bit(v, j) == Bit(z, j)
      {
        BitOfSetBit(z, k - 1, Wanted(masks[i], Bit(s, i), z), j);
      }
      SelectedAlike(masks[i], next, v);
      assert forall j :: 0 <= j < |masks| && Ctz(masks[j]) == k - 1 ==> j == i;
    } else {
      v := Solve(masks, s, z, k - 1);
      assert forall j :: 0 <= j < |masks| && Ctz(masks[j]) < k ==> Ctz(masks[j]) < k - 1;
    }
  }

  lemma {:induction false} SelectedAlike(m: nat, next: nat, v: nat)
    requires m != 0 && forall j: nat :: Ctz(m) <= j ==> Bit(v, j) == Bit(next, j)
    ensures Parity(v, m) == Parity(next, m)
  {
    CtzIsLowest(m);
    LowestIsClear(m, Ctz(m));
    forall j: nat | Bit(m, j) == 1
      ensures Bit(v, j) == Bit(next, j)
    {
      if j < Ctz(m) {
        ClearBits(m, Ctz(m), j);
      }
    }
    ParityAgrees(v, next, m);
  }

  lemma {:induction false} NoneSelected(a: nat, masks: seq<nat>)
    requires forall i :: 0 <= i < |masks| ==> Parity(a, masks[i]) == 0
    ensures Sel(a, masks) == 0
  {
    if masks != [] {
      NoneSelected(a, masks[1..]);
    }
  }

  /** Below the first doubled position no start is doubled. */
  lemma {:induction false} OnceBelow(ps: seq<nat>, t: nat, x: nat)
    requires t < |ps| && Ascending(ps) && IncreasingTo(ps, t) && x < ps[t]
    ensures multiset(ps)[x] <= 1
  {
    CountOnce(ps[..t], x);
    assert ps == ps[..t] + ps[t..];
    assert x !in ps[t..];
    assert x !in multiset(ps[t..]);
  }

  /** The k-th of different positions that are not bit 0 has room for k removals and one more. */
  lemma {:induction false} AboveIndex(ps: seq<nat>, i: nat)
    requires i < |ps| && IncreasingTo(ps, i + 1) && ps[0] >= 1
    ensures ps[i] > i
  {
    if i > 0 {
      AboveIndex(ps, i - 1);
    }
  }

  /** An address other than 0 that no mask selects and that has just the one bit, besides
      first bits below it. */
  lemma {:induction false} HiddenAddress(masks: seq<nat>, ps: seq<nat>, t: nat, b: nat) returns (v: nat)
    requires Nonzero(masks) && Positions(masks, ps) && t < |ps| && IncreasingTo(ps, t)
    requires b < ps[t] && b !in ps
    ensures Sel(v, masks) == 0 && forall k: nat :: k !in ps[..t] ==> Bit(v, k) == if k == b then 1 else 0
  {
    PositionsAreStarts(masks, ps);
    forall i, j | 0 <= i < j < |masks| && Ctz(masks[i]) < b
      ensures Ctz(masks[i]) != Ctz(masks[j])
    {
      OnceBelow(ps, t, Ctz(masks[i]));
      if Ctz(masks[i]) == Ctz(masks[j]) {
        CountTwice(Starts(masks), i, j);
      }
    }
    v := Solve(masks, 0, Pow2(b), b);
    SingleBit(b);
    forall k: nat | k !in ps[..t]
      ensures Bit(v, k) == if k == b then 1 else 0
    {
      if k < b {
        assert k !in ps;
      }
    }
    forall i | 0 <= i < |masks|
      ensures Parity(v, masks[i]) == 0
    {
      BitOfZero(i);
      if Ctz(masks[i]) >= b {
        assert IsStart(masks, Ctz(masks[i]));
        HighUnselected(masks[i], v, b);
      }
    }
    NoneSelected(v, masks);
  }

  lemma {:induction false} HighUnselected(m: nat, v: nat, b: nat)
    requires m != 0 && b < Ctz(m) && forall k: nat :: b < k ==> Bit(v, k) == 0
    ensures Parity(v, m) == 0
  {
    ParityZero(m);
    forall k: nat | Ctz(m) <= k
      ensures Bit(v, k) == Bit(0, k)
    {
      BitOfZero(k);
    }
    SelectedAlike(m, 0, v);
  }

  lemma {:induction false} EqualStartsNotInjective(masks: seq<nat>, ps: seq<nat>)
    requires Nonzero(masks) && Positions(masks, ps) && !Proper(masks) && !IsStart(masks, 0)
    ensures !Injective(masks, ps)
  {
    PositionsAreStarts(masks, ps);
    var t := EqualNeighbours(masks, ps);
    AboveIndex(ps, t - 1);
    var b := WrongBit(ps, t);
    var v := HiddenAddress(masks, ps, t, b);
    assert b !in ps[..t];
    WrongBitGone(v, ps, t, b);
    DroppedZero(ps, |ps|);
    BitOfZero(b);
    forall i | 0 <= i < |masks|
      ensures Parity(0, masks[i]) == 0
    {
      ParityZero(masks[i]);
    }
    NoneSelected(0, masks);
    assert v != 0 && Sel(v, masks) == Sel(0, masks) && Dropped(v, ps, |ps|) == Dropped(0, ps, |ps|);
  }

  /** Taking the interleaving bits out keeps the addresses of each channel apart if no two
      masks start with the same bit; and only then, unless a mask starts with bit 0. */
  lemma {:induction false} RemovalInjectiveExactly(masks: seq<nat>, ps: seq<nat>)
    requires Nonzero(masks) && Positions(masks, ps)
    ensures Proper(masks) ==> Injective(masks, ps)
    ensures !IsStart(masks, 0) ==> (Injective(masks, ps) <==> Proper(masks))
  {
    if Proper(masks) {
      ProperIsInjective(masks, ps);
    } else if !IsStart(masks, 0) {
      EqualStartsNotInjective(masks, ps);
    }
  }

  /** With masks that start with bit 0 equal starts can do no harm: here the second removal
      takes bit 1 out, which the selector still tells. */
  lemma {:induction false} BitZeroDoesNoHarm()
    ensures !Proper([1, 3]) && Positions([1, 3], [0, 0]) && Injective([1, 3], [0, 0])
  {
    var masks: seq<nat>, ps: seq<nat> := [1, 3], [0, 0];
    assert Starts(masks) == ps;
    assert StartOf(masks[0]) == StartOf(masks[1]);
    forall a: nat, b: nat | Sel(a, masks) == Sel(b, masks) && Dropped(a, ps, 2) == Dropped(b, ps, 2)
      ensures a == b
    {
      LowTwo(a, masks);
      LowTwo(b, masks);
      assert Dropped(a, ps, 1) == a / 2 && Dropped(b, ps, 1) == b / 2;
    }
  }

  lemma {:induction false} LowTwo(a: nat, masks: seq<nat>)
    requires masks == [1, 3]
    ensures Bit(Sel(a, masks), 0) == a % 2 && Bit(Sel(a, masks), 1) == Xor1(a % 2, a / 2 % 2)
  {
    BitOfSel(a, masks, 0);
    BitOfSel(a, masks, 1);
    ParityStep(a, 1);
    ParityStep(a, 3);
    ParityStep(a / 2, 1);
    ParityZero(a / 2);
    ParityZero(a / 2 / 2);
  }

  // The masks of re-masked targets.

  lemma {:induction false} PlainMaskStart(low: nat, f: nat, i: nat)
    ensures PlainMask(low, f, i) != 0 && Ctz(PlainMask(low, f, i)) == if i < f then low + i else low + (i - f)
  {
    var k := if i < f then low + i else low + (i - f);
    LowestOfPow2(k);
    if i >= f {
      SpreadOfPow2(k);
      SpreadLowest(Pow2(k), k);
    }
    CtzOfLowest(PlainMask(low, f, i), k);
  }

  /** 2^f memory controllers to each of 2^n home nodes, all interleaved from the same bit on:
      the addresses of a controller stay apart if and only if there is one controller to each
      home node, or one home node. Otherwise the first mask of the controllers and the first
      new mask of their home node start with the same bit. */
  lemma {:induction false} TargetsInjectiveExactly(low: nat, f: nat, n: nat, ps: seq<nat>)
    requires Positions(TargetMasks(IntlvMasks(low, false, 0, n + f), IntlvMasks(low, false, 0, n)), ps)
    ensures var masks := TargetMasks(IntlvMasks(low, false, 0, n + f), IntlvMasks(low, false, 0, n));
            && (f == 0 || n == 0 ==> Injective(masks, ps))
            && (low >= 1 ==> (Injective(masks, ps) <==> f == 0 || n == 0))
  {
    PlainTargets(low, f, n);
    var masks := PlainTargetMasks(low, f, n);
    forall i | 0 <= i < |masks|
      ensures masks[i] != 0 && StartOf(masks[i]) == if i < f then low + i else low + (i - f)
    {
      PlainMaskStart(low, f, i);
    }
    RemovalInjectiveExactly(masks, ps);
    if f > 0 && n > 0 {
      assert StartOf(masks[0]) == StartOf(masks[f]);
    }
  }

  // Offsets.

  /** How many addresses there are. */
  const SPACE: nat := 0x1_0000_0000_0000_0000

  /** The position of an address within its channel, counted from the start of the range. */
  ghost function Offset(r: Range, ps: seq<nat>, a: nat): nat {
    if r.start <= a < r.end then (Dropped(a, ps, |ps|) - Dropped(r.start, ps, |ps|)) % SPACE else SPACE - 1
  }

  method GetOffset(r: Range, a: nat) returns (offset: nat, ps: seq<nat>)
    ensures Positions(r.masks, ps) && offset == Offset(r, ps, a)
  {
    var rest, qs := RemoveIntlvBits(a, r.masks);
    var first, ss := RemoveIntlvBits(r.start, r.masks);
    OnePositions(r.masks, qs, ss);
    ps := qs;
    if r.start <= a < r.end {
      offset := (rest - first) % SPACE;
    } else {
      offset := SPACE - 1;
    }
  }

  /** The sorted starts are the only ones. */
  lemma {:induction false} OnePositions(masks: seq<nat>, ps: seq<nat>, qs: seq<nat>)
    requires Positions(masks, ps) && Positions(masks, qs)
    ensures ps == qs
  {
    SameSorted(ps, qs);
  }

  lemma {:induction false} SameSorted(ps: seq<nat>, qs: seq<nat>)
    requires Ascending(ps) && Ascending(qs) && multiset(ps) == multiset(qs)
    ensures ps == qs
  {
    assert |multiset(ps)| == |ps| && |multiset(qs)| == |qs|;
    if ps != [] {
      var n := |ps| - 1;
      LastIsGreatest(ps, qs, n);
      LastIsGreatest(qs, ps, n);
      AllButLast(ps, n);
      AllButLast(qs, n);
      SameSorted(ps[..n], qs[..n]);
    }
  }

  lemma {:induction false} AllButLast(ps: seq<nat>, n: nat)
    requires |ps| == n + 1 && Ascending(ps)
    ensures ps == ps[..n] + [ps[n]] && Ascending(ps[..n]) && multiset(ps[..n]) == multiset(ps) - multiset{ps[n]}
  {
    assert ps == ps[..n] + [ps[n]];
  }

  lemma {:induction false} LastIsGreatest(ps: seq<nat>, qs: seq<nat>, n: nat)
    requires |ps| == |qs| == n + 1 && Ascending(qs) && multiset(ps) == multiset(qs)
    ensures ps[n] <= qs[n]
  {
    assert ps[n] in multiset(ps);
    assert ps[n] in qs;
  }

  lemma {:induction false} DroppedSmaller(a: nat, ps: seq<nat>, n: nat)
    requires n <= |ps|
    ensures Dropped(a, ps, n) <= a
  {
    if n > 0 {
      DroppedSmaller(a, ps, n - 1);
      if 0 < ps[n - 1] && n - 1 <= ps[n - 1] {
        RemovedSmaller(Dropped(a, ps, n - 1), ps[n - 1] - (n - 1));
      }
    }
  }

  lemma {:induction false} RemovedSmaller(a: nat, p: nat)
    ensures RemoveBit(a, p) <= a
  {
    if p > 0 {
      RemovedSmaller(a / 2, p - 1);
    }
  }

  lemma {:induction false} SameDifference(x: nat, y: nat, z: nat)
    requires x < SPACE && y < SPACE && (x - z) % SPACE == (y - z) % SPACE
    ensures x == y
  {
    var p, q := (x - z) / SPACE, (y - z) / SPACE;
    assert x - y == (p - q) * SPACE;
  }

  /** No two addresses of the range have the same offset. */
  ghost predicate UniqueOffsets(r: Range, ps: seq<nat>) {
    forall a, b :: Holds(r, a) && Holds(r, b) && Offset(r, ps, a) == Offset(r, ps, b) ==> a == b
  }

  /** Where the bits can be taken out without loss, offsets are unique, whatever the range. */
  lemma {:induction false} InjectiveUnique(r: Range, ps: seq<nat>)
    requires Injective(r.masks, ps) && r.end <= SPACE
    ensures UniqueOffsets(r, ps)
  {
    forall a, b | Holds(r, a) && Holds(r, b) && Offset(r, ps, a) == Offset(r, ps, b)
      ensures a == b
    {
      DroppedSmaller(a, ps, |ps|);
      DroppedSmaller(b, ps, |ps|);
      SameDifference(Dropped(a, ps, |ps|), Dropped(b, ps, |ps|), Dropped(r.start, ps, |ps|));
    }
  }

  lemma {:induction false} StartTogether(low: nat, m: nat, k: nat, masks: seq<nat>)
    requires masks == PlainTargetMasks(low, 1, 1) == [m, k]
    ensures m != 0 && k != 0 && Ctz(m) == low && Ctz(k) == low && Positions([m, k], [low, low])
  {
    PlainMaskStart(low, 1, 0);
    PlainMaskStart(low, 1, 1);
    assert masks[0] == m && masks[1] == k;
    assert Starts(masks) == [low, low];
  }

  lemma {:induction false} NoneOfTwo(m: nat, k: nat, v: nat, b: nat)
    requires m != 0 && k != 0 && b < Ctz(m) && b < Ctz(k) && forall j: nat :: b < j ==> Bit(v, j) == 0
    ensures Sel(v, [m, k]) == 0 && Sel(0, [m, k]) == 0
  {
    HighUnselected(m, v, b);
    HighUnselected(k, v, b);
    ParityZero(m);
    ParityZero(k);
    NoneSelected(v, [m, k]);
    NoneSelected(0, [m, k]);
  }

  ghost predicate OneCell(r: Range, ps: seq<nat>, a: nat, b: nat) {
    a != b && Holds(r, a) && Holds(r, b) && Offset(r, ps, a) == Offset(r, ps, b)
  }

  /** With two masks that start with the same bit, the bit below it goes missing. */
  lemma {:induction false} BitBelowMissing(m: nat, k: nat, low: nat, end: nat)
    requires m != 0 && k != 0 && Ctz(m) == low && Ctz(k) == low && 1 <= low && Pow2(low - 1) < end
    ensures OneCell(Range(0, end, [m, k], 0), [low, low], 0, Pow2(low - 1))
  {
    var b, ps := low - 1, [low, low];
    SingleBit(b);
    NoneOfTwo(m, k, Pow2(b), b);
    assert ps[..1] == [low];
    WrongBitGone(Pow2(b), ps, 1, b);
    DroppedZero(ps, 2);
  }

  /** The smallest such target, one of two to each of two home nodes, with lines of 64 bytes:
      addresses 0 and 32 are the same cell of the same controller. */
  lemma {:induction false} TwoAddressesOneCell() returns (masks: seq<nat>, ps: seq<nat>, a: nat)
    ensures masks == TargetMasks(IntlvMasks(6, false, 0, 2), IntlvMasks(6, false, 0, 1)) && Positions(masks, ps)
    ensures masks == [64, 1984] && ps == [6, 6] && a == 32 && OneCell(Range(0, 4096, masks, 0), ps, 0, a)
  {
    TwoBitMasks();
    masks := PlainTargetMasks(6, 1, 1);
    var m, k, low := masks[0], masks[1], 6;
    StartTogether(low, m, k, masks);
    ps, a := [low, low], Pow2(low - 1);
    assert Pow2(5) == 32;
    BitBelowMissing(m, k, low, 4096);
  }
}
