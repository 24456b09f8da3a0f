/** The cells of a channel: every selector and every remainder belong to exactly one address,
    and the offsets in an aligned range are numbered without a gap. */
module ChannelCells {
  import opened Arithmetic
  import opened Bits
  import opened BitPositions
  import opened ChannelAddress
  import opened ChannelOffsets
  import opened Interleaving

  lemma {:induction false} SelFromParities(a: nat, masks: seq<nat>, s: nat)
    requires s < Pow2(|masks|) && forall i :: 0 <= i < |masks| ==> Parity(a, masks[i]) == Bit(s, i)
    ensures Sel(a, masks) == s
  {
    if masks != [] {
      forall i | 0 <= i < |masks[1..]|
        ensures Parity(a, masks[1..][i]) == Bit(s / 2, i)
      {
        assert Parity(a, masks[i + 1]) == Bit(s, i + 1);
      }
      assert Parity(a, masks[0]) == Bit(s, 0);
      SelFromParities(a, masks[1..], s / 2);
    }
  }

  /** For each channel and each remainder there is an address. */
  lemma {:induction false} AddressOf(masks: seq<nat>, ps: seq<nat>, s: nat, d: nat) returns (a: nat)
    requires Nonzero(masks) && Proper(masks) && Positions(masks, ps) && s < Pow2(|masks|)
    ensures Sel(a, masks) == s && Dropped(a, ps, |ps|) == d
  {
    PositionsAreStarts(masks, ps);
    ProperIncreasing(masks, ps);
    var z := Opened(d, ps, |ps|);
    var top := Above(ps);
    forall i | 0 <= i < |masks|
      ensures Ctz(masks[i]) < top
    {
      assert IsStart(masks, Ctz(masks[i]));
    }
    a := Solve(masks, s, z, top);
    SelFromParities(a, masks, s);
    SameRemainder(masks, ps, a, d);
  }

  lemma {:induction false} Above(ps: seq<nat>) returns (top: nat)
    ensures forall p :: p in ps ==> p < top
  {
    if ps == [] {
      top := 0;
    } else {
      var rest := Above(ps[1..]);
      assert ps == [ps[0]] + ps[1..];
      top := if rest > ps[0] then rest else ps[0] + 1;
    }
  }

  lemma {:induction false} SameRemainder(masks: seq<nat>, ps: seq<nat>, a: nat, d: nat)
    requires Positions(masks, ps) && IncreasingTo(ps, |ps|)
    requires forall k: nat :: !IsStart(masks, k) ==> Bit(a, k) == Bit(Opened(d, ps, |ps|), k)
    ensures Dropped(a, ps, |ps|) == d
  {
    PositionsAreStarts(masks, ps);
    var n, r := |ps|, Dropped(a, ps, |ps|);
    assert ps[..n] == ps;
    forall q: nat
      ensures Bit(r, q) == Bit(d, q)
    {
      var k := Unrank(ps, n, q);
      UnrankIs(ps, n, q);
      DroppedBit(a, ps, n, k);
      OpenedBit(d, ps, n, k);
      assert !IsStart(masks, k);
    }
    SameBits(r, d);
  }

  /** Channel and remainder together are a number for the address: none is left out and none
      is given twice. */
  lemma {:induction false} OneAddressEach(masks: seq<nat>, ps: seq<nat>, s: nat, d: nat) returns (a: nat)
    requires Nonzero(masks) && Proper(masks) && Positions(masks, ps) && s < Pow2(|masks|)
    ensures Sel(a, masks) == s && Dropped(a, ps, |ps|) == d
    ensures forall a': nat :: Sel(a', masks) == s && Dropped(a', ps, |ps|) == d ==> a' == a
  {
    a := AddressOf(masks, ps, s, d);
    ProperIsInjective(masks, ps);
  }

  // Aligned ranges.

  lemma {:induction false} BitOfShifted(k: nat, c: nat, j: nat)
    ensures Bit(k * Pow2(c), j) == if j < c then 0 else Bit(k, j - c)
  {
    if c > 0 {
      var half := k * Pow2(c - 1);
      assert k * Pow2(c) == 2 * half;
      assert (2 * half) / 2 == half && (2 * half) % 2 == 0;
      if j > 0 {
        BitOfShifted(k, c - 1, j - 1);
      }
    }
  }

  lemma {:induction false} BitOfQuotient(x: nat, c: nat, j: nat)
    ensures Bit(Quotient(x, Pow2(c)), j) == Bit(x, j + c)
  {
    if c > 0 {
      BitOfQuotient(x / 2, c - 1, j);
      DivideByTwice(x, Pow2(c - 1));
    }
  }

  lemma {:induction false} DivideByTwice(x: nat, p: nat)
    requires 1 <= p
    ensures Quotient(x, 2 * p) == Quotient(x / 2, p)
  {
    var q, r := x / 2 / p, x / 2 % p;
    DivModParts(x / 2, p);
    assert x == q * (2 * p) + (2 * r + x % 2);
    DivModUnique(x, 2 * p, q, 2 * r + x % 2);
  }

  /** All positions lie below bit b. */
  ghost predicate AllBelow(ps: seq<nat>, b: nat) {
    forall i :: 0 <= i < |ps| ==> ps[i] < b
  }

  lemma {:induction false} FewerThan(ps: seq<nat>, b: nat)
    requires IncreasingTo(ps, |ps|) && AllBelow(ps, b)
    ensures |ps| <= b
  {
    if ps != [] {
      AtLeastIndex(ps, |ps| - 1);
    }
  }

  /** Above all positions nothing changes but the place. */
  lemma {:induction false} DroppedHigh(a: nat, ps: seq<nat>, b: nat)
    requires IncreasingTo(ps, |ps|) && AllBelow(ps, b) && |ps| <= b
    ensures Quotient(Dropped(a, ps, |ps|), Pow2(b - |ps|)) == Quotient(a, Pow2(b))
  {
    var n, r := |ps|, Dropped(a, ps, |ps|);
    var x, y := Quotient(r, Pow2(b - n)), Quotient(a, Pow2(b));
    forall j: nat
      ensures Bit(x, j) == Bit(y, j)
    {
      BitOfQuotient(r, b - n, j);
      BitOfQuotient(a, b, j);
      assert j + b !in ps[..n];
      RankAbove(ps, n, j + b);
      DroppedBit(a, ps, n, j + b);
    }
    SameBits(x, y);
  }

  lemma {:induction false} DroppedAligned(k: nat, ps: seq<nat>, b: nat)
    requires IncreasingTo(ps, |ps|) && AllBelow(ps, b) && |ps| <= b
    ensures Dropped(k * Pow2(b), ps, |ps|) == k * Pow2(b - |ps|)
  {
    var n, a := |ps|, k * Pow2(b);
    var r, d := Dropped(a, ps, n), k * Pow2(b - n);
    forall q: nat
      ensures Bit(r, q) == Bit(d, q)
    {
      var place := Unrank(ps, n, q);
      UnrankIs(ps, n, q);
      DroppedBit(a, ps, n, place);
      BitOfShifted(k, b, place);
      BitOfShifted(k, b - n, q);
      RankAbove(ps, n, b);
      if place < b {
        RankLess(ps, n, place, b);
      } else {
        RankAbove(ps, n, place);
      }
    }
    SameBits(r, d);
  }

  lemma {:induction false} InBlocks(x: nat, p: nat, k: nat, m: nat)
    requires 1 <= p
    ensures k <= Quotient(x, p) < k + m <==> k * p <= x < (k + m) * p
  {
    DivModParts(x, p);
    var q := x / p;
    if q < k {
      TimesMonotone(q + 1, k, p);
    } else {
      TimesMonotone(k, q, p);
    }
    if q < k + m {
      TimesMonotone(q + 1, k + m, p);
    } else {
      TimesMonotone(k + m, q, p);
    }
    OneMore(q, p);
  }

  /** A range of m blocks of 2^b addresses, from block k on, that all masks fit in. */
  ghost predicate Blocks(r: Range, b: nat, k: nat, m: nat) {
    && (forall i :: 0 <= i < |r.masks| ==> r.masks[i] != 0 && Ctz(r.masks[i]) < b)
    && r.start == k * Pow2(b) && r.end == (k + m) * Pow2(b) && r.end <= SPACE && r.intlvMatch < Pow2(|r.masks|)
  }

  lemma {:induction false} BlockPositions(r: Range, ps: seq<nat>, b: nat, k: nat, m: nat)
    requires Blocks(r, b, k, m) && Proper(r.masks) && Positions(r.masks, ps)
    ensures Nonzero(r.masks) && IncreasingTo(ps, |ps|) && AllBelow(ps, b) && |ps| == |r.masks| <= b
  {
    PositionsAreStarts(r.masks, ps);
    ProperIncreasing(r.masks, ps);
    forall i | 0 <= i < |ps|
      ensures ps[i] < b
    {
      assert IsStart(r.masks, ps[i]);
    }
    FewerThan(ps, b);
  }

  /** An address is in the range if and only if its remainder is in the range of remainders. */
  lemma {:induction false} InRangeByRemainder(r: Range, ps: seq<nat>, b: nat, k: nat, m: nat, a: nat)
    requires Blocks(r, b, k, m) && Proper(r.masks) && Positions(r.masks, ps) && |ps| <= b
    ensures r.start <= a < r.end <==> k * Pow2(b - |ps|) <= Dropped(a, ps, |ps|) < (k + m) * Pow2(b - |ps|)
  {
    BlockPositions(r, ps, b, k, m);
    DroppedHigh(a, ps, b);
    InBlocks(a, Pow2(b), k, m);
    InBlocks(Dropped(a, ps, |ps|), Pow2(b - |ps|), k, m);
  }

  lemma {:induction false} OffsetIs(r: Range, ps: seq<nat>, b: nat, k: nat, m: nat, a: nat)
    requires Blocks(r, b, k, m) && Proper(r.masks) && Positions(r.masks, ps) && |ps| <= b && r.start <= a < r.end
    ensures Dropped(a, ps, |ps|) == k * Pow2(b - |ps|) + Offset(r, ps, a)
    ensures Offset(r, ps, a) < m * Pow2(b - |ps|)
  {
    var p := Pow2(b - |ps|);
    BlockPositions(r, ps, b, k, m);
    InRangeByRemainder(r, ps, b, k, m, a);
    DroppedAligned(k, ps, b);
    DroppedSmaller(a, ps, |ps|);
    assert (k + m) * p == k * p + m * p;
    SmallModulo(Dropped(a, ps, |ps|) - k * p);
  }

  lemma {:induction false} SmallModulo(x: nat)
    requires x < SPACE
    ensures x % SPACE == x
  {
  }

  ghost predicate HasOffset(r: Range, ps: seq<nat>, q: nat, a: nat) {
    Holds(r, a) && Offset(r, ps, a) == q
  }

  lemma {:induction false} CellAt(r: Range, ps: seq<nat>, b: nat, k: nat, m: nat, q: nat) returns (a: nat)
    requires Blocks(r, b, k, m) && Proper(r.masks) && Positions(r.masks, ps) && |ps| <= b && q < m * Pow2(b - |ps|)
    ensures HasOffset(r, ps, q, a)
  {
    var p := Pow2(b - |ps|);
    BlockPositions(r, ps, b, k, m);
    assert (k + m) * p == k * p + m * p;
    a := AddressOf(r.masks, ps, r.intlvMatch, k * p + q);
    InRangeByRemainder(r, ps, b, k, m, a);
    OffsetIs(r, ps, b, k, m, a);
  }

  ghost predicate OffsetUsed(r: Range, ps: seq<nat>, q: nat) {
    exists a :: HasOffset(r, ps, q, a)
  }

  lemma {:induction false} OffsetUsedExactly(r: Range, ps: seq<nat>, b: nat, k: nat, m: nat, q: nat)
    requires Blocks(r, b, k, m) && Proper(r.masks) && Positions(r.masks, ps) && |ps| <= b
    ensures OffsetUsed(r, ps, q) <==> q < m * Pow2(b - |ps|)
  {
    if a :| HasOffset(r, ps, q, a) {
      OffsetIs(r, ps, b, k, m, a);
    }
    if q < m * Pow2(b - |ps|) {
      var a := CellAt(r, ps, b, k, m, q);
    }
  }

  lemma {:induction false} StartAtZero(r: Range, ps: seq<nat>)
    requires r.start < r.end
    ensures Offset(r, ps, r.start) == 0
  {
  }

  /** The start has offset 0, and a channel of an aligned range has each of the offsets from 0 up
      to its size exactly once, and no other. */
  lemma {:induction false} OffsetsExactly(r: Range, ps: seq<nat>, b: nat, k: nat, m: nat, q: nat)
    requires Blocks(r, b, k, m) && Proper(r.masks) && Positions(r.masks, ps)
    ensures |ps| <= b && (r.start < r.end ==> Offset(r, ps, r.start) == 0)
    ensures OffsetUsed(r, ps, q) <==> q < m * Pow2(b - |ps|)
    ensures UniqueOffsets(r, ps)
  {
    BlockPositions(r, ps, b, k, m);
    ProperIsInjective(r.masks, ps);
    InjectiveUnique(r, ps);
    OffsetUsedExactly(r, ps, b, k, m, q);
    if r.start < r.end {
      StartAtZero(r, ps);
    }
  }
}
