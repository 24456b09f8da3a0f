/** Taking the interleaving bits out of an address, and putting them back. */
module ChannelAddress {
  import opened Bits
  import opened BitPositions
  import opened Interleaving
  import opened Remasking

  // Putting the right values into the opened bits.

  /** The mask without its lowest bit. */
  function Rest(m: nat, i: nat): nat
    requires LowestBit(m, i)
  {
    if i == 0 then m - 1 else 2 * Rest(m / 2, i - 1)
  }

  lemma {:induction false} BitOfRest(m: nat, i: nat, k: nat)
    requires LowestBit(m, i)
    ensures Bit(Rest(m, i), k) == if k == i then 0 else Bit(m, k)
  {
    if i == 0 {
      assert (m - 1) / 2 == m / 2;
    } else {
      assert Rest(m, i) / 2 == Rest(m / 2, i - 1) && Rest(m, i) % 2 == 0;
      if k > 0 {
        BitOfRest(m / 2, i - 1, k - 1);
      }
    }
  }

  lemma {:induction false} ParityEven(x: nat, m: nat)
    requires m % 2 == 0
    ensures Parity(x, m) == Parity(x / 2, m / 2)
  {
    ParityStep(x, m);
    XorZero(Parity(x / 2, m / 2));
  }

  lemma {:induction false} XorZero(p: nat)
    requires p < 2
    ensures Xor1(0, p) == p
  {
  }

  lemma {:induction false} ParityDouble(x: nat, rest: nat)
    ensures Parity(x, 2 * rest) == Parity(x / 2, rest)
  {
    assert (2 * rest) / 2 == rest && (2 * rest) % 2 == 0;
    ParityEven(x, 2 * rest);
  }

  lemma {:induction false} ParityOddRest(x: nat, m: nat)
    requires m % 2 == 1
    ensures Parity(x, m) == Xor1(x % 2, Parity(x, m - 1))
  {
    assert (m - 1) % 2 == 0 && (m - 1) / 2 == m / 2;
    ParityStep(x, m);
    ParityEven(x, m - 1);
  }

  lemma {:induction false} ParityRest(x: nat, m: nat, i: nat)
    requires LowestBit(m, i)
    ensures Parity(x, m) == Xor1(Bit(x, i), Parity(x, Rest(m, i)))
  {
    if i == 0 {
      ParityOddRest(x, m);
    } else {
      ParityEven(x, m);
      ParityDouble(x, Rest(m / 2, i - 1));
      ParityRest(x / 2, m / 2, i - 1);
    }
  }

  lemma {:induction false} BitOfSel(x: nat, masks: seq<nat>, i: nat)
    requires i < |masks|
    ensures Bit(Sel(x, masks), i) == Parity(x, masks[i])
  {
    var rest := Sel(x, masks[1..]);
    Halve(Sel(x, masks), rest, Parity(x, masks[0]));
    if i > 0 {
      BitOfSel(x, masks[1..], i - 1);
    }
  }

  /** What the lowest bit of mask m has to be for selector bit v, given the other bits of z. */
  function Wanted(m: nat, v: nat, z: nat): (b: nat)
    requires m != 0
    ensures b < 2
  {
    CtzIsLowest(m);
    Xor1(v, Parity(z, Rest(m, Ctz(m))))
  }

  function RefillStep(masks: seq<nat>, s: nat, z: nat, i: nat): nat
    requires Nonzero(masks) && i < |masks|
  {
    SetBit(z, Ctz(masks[i]), Wanted(masks[i], Bit(s, i), z))
  }

  /** z with the lowest bits of the masks from i on set, one after the other. */
  ghost function Refill(masks: seq<nat>, s: nat, z: nat, i: nat): nat
    requires Nonzero(masks) && i <= |masks|
    decreases |masks| - i
  {
    if i == |masks| then z else Refill(masks, s, RefillStep(masks, s, z, i), i + 1)
  }

  /** A bit that no mask from i on starts with is left alone. */
  lemma {:induction false} RefillKeeps(masks: seq<nat>, s: nat, z: nat, i: nat, k: nat)
    requires Nonzero(masks) && i <= |masks| && forall j :: i <= j < |masks| ==> Ctz(masks[j]) != k
    ensures Bit(Refill(masks, s, z, i), k) == Bit(z, k)
    decreases |masks| - i
  {
    if i < |masks| {
      BitOfSetBit(z, Ctz(masks[i]), Wanted(masks[i], Bit(s, i), z), k);
      RefillKeeps(masks, s, RefillStep(masks, s, z, i), i + 1, k);
    }
  }

  // The two operations.

  /** Takes the bits that masks start with out, lowest first. If no two masks start with the
      same bit, every other bit is kept, moved down past those below it. */
  method RemoveIntlvBits(a: nat, masks: seq<nat>) returns (r: nat, ps: seq<nat>)
    ensures Positions(masks, ps) && r == Dropped(a, ps, |ps|)
    ensures Proper(masks) ==>
              forall k: nat :: !IsStart(masks, k) ==> Rank(ps, |ps|, k) <= k && Bit(r, k - Rank(ps, |ps|, k)) == Bit(a, k)
  {
    ps := SortedStarts(masks);
    PositionsAreStarts(masks, ps);
    r := a;
    for i := 0 to |ps|
      invariant r == Dropped(a, ps, i)
    {
      r := RemoveAt(r, ps[i], i);
    }
    if Proper(masks) {
      ProperIncreasing(masks, ps);
      forall k: nat | !IsStart(masks, k)
        ensures Rank(ps, |ps|, k) <= k && Bit(r, k - Rank(ps, |ps|, k)) == Bit(a, k)
      {
        assert ps[..|ps|] == ps;
        DroppedBit(a, ps, |ps|, k);
      }
    }
  }

  ghost function AddedBack(a: nat, masks: seq<nat>, ps: seq<nat>, intlvMatch: nat): nat
    requires Nonzero(masks)
  {
    Refill(masks, intlvMatch, Opened(a, ps, |ps|), 0)
  }

  /** Opens the interleaving bits, lowest first, then sets each so that its mask selects as
      asked, first mask first. If no two masks start with the same bit, all other bits move up
      past the interleaving bits below. */
  method AddIntlvBits(a: nat, masks: seq<nat>, intlvMatch: nat) returns (r: nat, ps: seq<nat>)
    requires Nonzero(masks)
    ensures Positions(masks, ps) && r == AddedBack(a, masks, ps, intlvMatch)
    ensures Proper(masks) ==>
              forall k: nat :: !IsStart(masks, k) ==> Rank(ps, |ps|, k) <= k && Bit(r, k) == Bit(a, k - Rank(ps, |ps|, k))
  {
    ps := SortedStarts(masks);
    PositionsAreStarts(masks, ps);
    r := a;
    for i := 0 to |ps|
      invariant r == Opened(a, ps, i)
    {
      r := InsertBit(r, ps[i]);
    }
    ghost var start := r;
    for i := 0 to |masks|
      invariant Refill(masks, intlvMatch, r, i) == Refill(masks, intlvMatch, start, 0)
    {
      r := RefillStep(masks, intlvMatch, r, i);
    }
    if Proper(masks) {
      ProperIncreasing(masks, ps);
      forall k: nat | !IsStart(masks, k)
        ensures Rank(ps, |ps|, k) <= k && Bit(r, k) == Bit(a, k - Rank(ps, |ps|, k))
      {
        assert ps[..|ps|] == ps;
        OpenedBit(a, ps, |ps|, k);
        NoStartKept(masks, intlvMatch, start, k);
      }
    }
  }

  lemma {:induction false} NoStartKept(masks: seq<nat>, s: nat, z: nat, k: nat)
    requires Nonzero(masks) && !IsStart(masks, k)
    ensures Bit(Refill(masks, s, z, 0), k) == Bit(z, k)
  {
    assert forall j :: 0 <= j < |masks| ==> StartOf(masks[j]) != k;
    RefillKeeps(masks, s, z, 0, k);
  }

  // When one undoes the other.

  /** No mask holds a bit that a later mask starts with. */
  ghost predicate Strict(masks: seq<nat>) {
    forall i, j :: 0 <= i < j < |masks| ==> Bit(masks[i], Ctz(masks[j])) == 0
  }

  /** z agrees with x but for the bits that masks from i on start with. */
  ghost predicate Agrees(masks: seq<nat>, z: nat, x: nat, i: nat) {
    forall k: nat :: !LaterStart(masks, i, k) ==> Bit(z, k) == Bit(x, k)
  }

  ghost predicate LaterStart(masks: seq<nat>, i: nat, k: nat) {
    exists j :: i <= j < |masks| && Ctz(masks[j]) == k
  }

  lemma {:induction false} RestAgrees(masks: seq<nat>, i: nat, z: nat, x: nat)
    requires Nonzero(masks) && Strict(masks) && i < |masks| && Agrees(masks, z, x, i)
    ensures LowestBit(masks[i], Ctz(masks[i]))
    ensures Parity(z, Rest(masks[i], Ctz(masks[i]))) == Parity(x, Rest(masks[i], Ctz(masks[i])))
  {
    var m, p := masks[i], Ctz(masks[i]);
    CtzIsLowest(m);
    forall k: nat | Bit(Rest(m, p), k) == 1
      ensures Bit(z, k) == Bit(x, k)
    {
      BitOfRest(m, p, k);
      assert !LaterStart(masks, i, k);
    }
    ParityAgrees(z, x, Rest(m, p));
  }

  /** The next step puts the bit of x back. */
  lemma {:induction false} XorTwice(b: nat, r: nat)
    requires b < 2 && r < 2
    ensures Xor1(Xor1(b, r), r) == b
  {
  }

  lemma {:induction false} WantedIs(m: nat, x: nat, z: nat)
    requires m != 0 && LowestBit(m, Ctz(m)) && Parity(z, Rest(m, Ctz(m))) == Parity(x, Rest(m, Ctz(m)))
    ensures Wanted(m, Parity(x, m), z) == Bit(x, Ctz(m))
  {
    ParityRest(x, m, Ctz(m));
    XorTwice(Bit(x, Ctz(m)), Parity(x, Rest(m, Ctz(m))));
  }

  lemma {:induction false} StepAgrees(masks: seq<nat>, x: nat, z: nat, i: nat)
    requires Nonzero(masks) && Strict(masks) && i < |masks| && Agrees(masks, z, x, i)
    ensures Agrees(masks, RefillStep(masks, Sel(x, masks), z, i), x, i + 1)
  {
    var m, p, s := masks[i], Ctz(masks[i]), Sel(x, masks);
    RestAgrees(masks, i, z, x);
    BitOfSel(x, masks, i);
    WantedIs(m, x, z);
    forall k: nat | !LaterStart(masks, i + 1, k)
      ensures Bit(RefillStep(masks, s, z, i), k) == Bit(x, k)
    {
      BitOfSetBit(z, p, Bit(x, p), k);
      if k != p {
        assert !LaterStart(masks, i, k);
      }
    }
  }

  lemma {:induction false} StrictRefills(masks: seq<nat>, x: nat, z: nat, i: nat)
    requires Nonzero(masks) && Strict(masks) && i <= |masks| && Agrees(masks, z, x, i)
    ensures Refill(masks, Sel(x, masks), z, i) == x
    decreases |masks| - i
  {
    if i == |masks| {
      forall k: nat
        ensures Bit(z, k) == Bit(x, k)
      {
        assert !LaterStart(masks, i, k);
      }
      SameBits(z, x);
    } else {
      StepAgrees(masks, x, z, i);
      StrictRefills(masks, x, RefillStep(masks, Sel(x, masks), z, i), i + 1);
    }
  }

  /** Then, in particular, no two masks start with the same bit. */
  lemma {:induction false} StrictIsProper(masks: seq<nat>)
    requires Nonzero(masks) && Strict(masks)
    ensures Proper(masks)
  {
    forall i, j | 0 <= i < j < |masks|
      ensures Ctz(masks[i]) != Ctz(masks[j])
    {
      CtzIsLowest(masks[i]);
      LowestBitSet(masks[i], Ctz(masks[i]));
    }
  }

  /** Opening what was dropped gives the address but for the interleaving bits. */
  lemma {:induction false} ReopenedAgrees(a: nat, masks: seq<nat>, ps: seq<nat>)
    requires Nonzero(masks) && Proper(masks) && Positions(masks, ps)
    ensures Agrees(masks, Opened(Dropped(a, ps, |ps|), ps, |ps|), a, 0)
  {
    PositionsAreStarts(masks, ps);
    ProperIncreasing(masks, ps);
    forall k: nat | !LaterStart(masks, 0, k)
      ensures Bit(Opened(Dropped(a, ps, |ps|), ps, |ps|), k) == Bit(a, k)
    {
      assert !IsStart(masks, k) && ps[..|ps|] == ps;
      DroppedBit(a, ps, |ps|, k);
      OpenedBit(Dropped(a, ps, |ps|), ps, |ps|, k);
    }
  }

  /** Every address, put back for the channel it belongs to, comes out as it was. */
  ghost predicate RoundTrips(masks: seq<nat>, ps: seq<nat>)
    requires Nonzero(masks)
  {
    forall a: nat :: ComesBack(a, masks, ps)
  }

  ghost predicate ComesBack(a: nat, masks: seq<nat>, ps: seq<nat>)
    requires Nonzero(masks)
  {
    AddedBack(Dropped(a, ps, |ps|), masks, ps, Sel(a, masks)) == a
  }

  // What is lost otherwise: first, with no two masks that start with the same bit.

  /** The first mask i that holds a later start goes wrong on the address with that bit only. */
  ghost predicate FirstOffender(masks: seq<nat>, i: nat, j: nat) {
    && i < j < |masks|
    && Bit(masks[i], Ctz(masks[j])) == 1
    && forall k :: 0 <= k < i ==> Bit(masks[k], Ctz(masks[j])) == 0
  }

  lemma {:induction false} FindOffender(masks: seq<nat>, i: nat, j: nat) returns (first: nat)
    requires i < j < |masks| && Bit(masks[i], Ctz(masks[j])) == 1
    ensures FirstOffender(masks, first, j)
  {
    first := 0;
    while Bit(masks[first], Ctz(masks[j])) == 0
      invariant first <= i && forall k :: 0 <= k < first ==> Bit(masks[k], Ctz(masks[j])) == 0
      decreases i - first
    {
      first := first + 1;
    }
  }

  /** Of an address with one bit, an interleaving bit, nothing is left. */
  lemma {:induction false} DroppedStart(ps: seq<nat>, t: nat)
    requires t < |ps| && IncreasingTo(ps, |ps|)
    ensures Dropped(Pow2(ps[t]), ps, |ps|) == 0
  {
    var b := ps[t];
    assert b !in ps[..t];
    SingleBit(b);
    OnlyOtherBit(Pow2(b), ps, t, b);
    RankAbove(ps, t, b);
    RemovalStep(Pow2(b - t), ps, t);
    RemoveOnlyBit(b - t);
    StaysZero(Pow2(b), ps, t + 1, |ps|);
  }

  lemma {:induction false} WantedOfZero(m: nat, v: nat)
    requires m != 0 && v < 2
    ensures Wanted(m, v, 0) == v
  {
    CtzIsLowest(m);
    ParityZero(Rest(m, Ctz(m)));
  }

  lemma {:induction false} OffenderRefillsWrong(masks: seq<nat>, i: nat, j: nat, k: nat)
    requires Nonzero(masks) && Proper(masks) && FirstOffender(masks, i, j) && k <= i
    ensures var x := Pow2(Ctz(masks[j])); Refill(masks, Sel(x, masks), 0, k) != x
    decreases i - k
  {
    var p := Ctz(masks[j]);
    var s := Sel(Pow2(p), masks);
    BitOfSel(Pow2(p), masks, k);
    ParityOfPow2(p, masks[k]);
    WantedOfZero(masks[k], Bit(s, k));
    var z := RefillStep(masks, s, 0, k);
    if k < i {
      forall b: nat
        ensures Bit(z, b) == Bit(0, b)
      {
        BitOfSetBit(0, Ctz(masks[k]), 0, b);
        BitOfZero(b);
      }
      SameBits(z, 0);
      OffenderRefillsWrong(masks, i, j, k + 1);
    } else {
      var q := Ctz(masks[i]);
      BitOfSetBit(0, q, 1, q);
      RefillKeeps(masks, s, z, i + 1, q);
      BitOfPow2(p, q);
    }
  }

  lemma {:induction false} OffenderLost(masks: seq<nat>, ps: seq<nat>, i: nat, j: nat)
    requires Nonzero(masks) && Proper(masks) && Positions(masks, ps) && FirstOffender(masks, i, j)
    ensures !ComesBack(Pow2(Ctz(masks[j])), masks, ps)
  {
    PositionsAreStarts(masks, ps);
    ProperIncreasing(masks, ps);
    assert IsStart(masks, Ctz(masks[j]));
    var t :| 0 <= t < |ps| && ps[t] == Ctz(masks[j]);
    DroppedStart(ps, t);
    OpenedZero(ps, |ps|);
    OffenderRefillsWrong(masks, i, j, 0);
  }

  // Second, with two masks that start with the same bit.

  /** A bit that no mask starts with and of which nothing is left does not come back. */
  lemma {:induction false} BitLost(masks: seq<nat>, ps: seq<nat>, b: nat)
    requires Nonzero(masks) && !IsStart(masks, b) && Dropped(Pow2(b), ps, |ps|) == 0
    ensures !ComesBack(Pow2(b), masks, ps)
  {
    OpenedZero(ps, |ps|);
    NoStartKept(masks, Sel(Pow2(b), masks), 0, b);
    BitOfZero(b);
    BitOfPow2(b, b);
  }

  /** The second of two equal positions takes out a bit that no mask starts with. */
  lemma {:induction false} WrongBit(ps: seq<nat>, t: nat) returns (b: nat)
    requires 1 <= t < |ps| && ps[t - 1] == ps[t] && IncreasingTo(ps, t) && Ascending(ps) && t <= ps[t]
    ensures b < ps[t] && b !in ps && Rank(ps, t, b) <= b && b - Rank(ps, t, b) == ps[t] - t
  {
    b := Unrank(ps, t, ps[t] - t);
    UnrankIs(ps, t, ps[t] - t);
    assert ps[..t][t - 1] == ps[t - 1];
    if b >= ps[t] {
      RankAbove(ps, t, b);
      assert false;
    }
    forall i | 0 <= i < |ps|
      ensures ps[i] != b
    {
      if i < t {
        assert ps[..t][i] == ps[i];
      }
    }
  }

  lemma {:induction false} WrongBitGone(a: nat, ps: seq<nat>, t: nat, b: nat)
    requires 1 <= t < |ps| && ps[t - 1] == ps[t] && IncreasingTo(ps, t) && t <= ps[t] && b !in ps[..t]
    requires Rank(ps, t, b) <= b && b - Rank(ps, t, b) == ps[t] - t
    requires forall k: nat :: k !in ps[..t] ==> Bit(a, k) == if k == b then 1 else 0
    ensures Dropped(a, ps, |ps|) == 0
  {
    OnlyOtherBit(a, ps, t, b);
    RemoveOnlyBit(ps[t] - t);
    StaysZero(a, ps, t + 1, |ps|);
  }

  /** A removal that takes nothing out, for want of bits below. */
  ghost predicate Idle(ps: seq<nat>, i: nat) {
    i < |ps| && 0 < ps[i] < i
  }

  /** How many of the first n removals take a bit out. */
  ghost function Taken(ps: seq<nat>, n: nat): (c: nat)
    requires n <= |ps|
    ensures c <= n
  {
    if n == 0 then 0 else Taken(ps, n - 1) + if Idle(ps, n - 1) then 0 else 1
  }

  lemma {:induction false} TakenLess(ps: seq<nat>, n: nat, i: nat)
    requires i < n <= |ps| && Idle(ps, i)
    ensures Taken(ps, n) < n
  {
    if i < n - 1 {
      TakenLess(ps, n - 1, i);
    }
  }

  lemma {:induction false} HighRemoved(q: nat, s: nat, i: nat)
    requires s < q
    ensures RemoveAt(Pow2(q), s, i) == if 0 < s < i then Pow2(q) else Pow2(q - 1)
  {
    if s == 0 {
      assert Pow2(q) / 2 == Pow2(q - 1);
    } else if i <= s {
      var r, half := RemoveBit(Pow2(q), s - i), Pow2(q - 1);
      forall k: nat
        ensures Bit(r, k) == Bit(half, k)
      {
        BitOfRemoveBit(Pow2(q), s - i, k);
        BitOfPow2(q, k);
        BitOfPow2(q, k + 1);
        BitOfPow2(q - 1, k);
      }
      SameBits(r, half);
    }
  }

  lemma {:induction false} HighInserted(q: nat, s: nat)
    requires s <= q
    ensures InsertBit(Pow2(q), s) == Pow2(q + 1)
  {
    forall k: nat
      ensures Bit(InsertBit(Pow2(q), s), k) == Bit(Pow2(q + 1), k)
    {
      BitOfInsertBit(Pow2(q), s, k);
      BitOfPow2(q, k);
      BitOfPow2(q + 1, k);
      if k > 0 {
        BitOfPow2(q, k - 1);
      }
    }
    SameBits(InsertBit(Pow2(q), s), Pow2(q + 1));
  }

  /** A bit far above all masks moves down by the removals that took something out ... */
  lemma {:induction false} HighDropped(top: nat, ps: seq<nat>, n: nat)
    requires n <= |ps| && forall i :: 0 <= i < |ps| ==> ps[i] + |ps| < top
    ensures Taken(ps, n) <= top && Dropped(Pow2(top), ps, n) == Pow2(top - Taken(ps, n))
  {
    if n > 0 {
      HighDropped(top, ps, n - 1);
      HighRemoved(top - Taken(ps, n - 1), ps[n - 1], n - 1);
    }
  }

  /** ... and up by all. */
  lemma {:induction false} HighOpened(q: nat, ps: seq<nat>, n: nat)
    requires n <= |ps| && forall i :: 0 <= i < |ps| ==> ps[i] <= q
    ensures Opened(Pow2(q), ps, n) == Pow2(q + n)
  {
    if n > 0 {
      HighOpened(q, ps, n - 1);
      HighInserted(q + n - 1, ps[n - 1]);
    }
  }

  lemma {:induction false} IdleLost(masks: seq<nat>, ps: seq<nat>, i: nat) returns (a: nat)
    requires Nonzero(masks) && Positions(masks, ps) && Idle(ps, i)
    ensures !ComesBack(a, masks, ps)
  {
    PositionsAreStarts(masks, ps);
    var n := |ps|;
    var top := ps[n - 1] + n + 1;
    assert forall j :: 0 <= j < n ==> ps[j] <= ps[n - 1];
    HighDropped(top, ps, n);
    TakenLess(ps, n, i);
    var q := top - Taken(ps, n);
    HighOpened(q, ps, n);
    a := Pow2(top);
    assert !IsStart(masks, top) by {
      assert top !in ps;
    }
    NoStartKept(masks, Sel(a, masks), Pow2(q + n), top);
    BitOfPow2(q + n, top);
    BitOfPow2(top, top);
  }

  lemma {:induction false} EqualStartsLost(masks: seq<nat>, ps: seq<nat>) returns (a: nat)
    requires Nonzero(masks) && Positions(masks, ps) && !Proper(masks)
    ensures !ComesBack(a, masks, ps)
  {
    PositionsAreStarts(masks, ps);
    var t := EqualNeighbours(masks, ps);
    if i: nat :| Idle(ps, i) {
      a := IdleLost(masks, ps, i);
    } else if t <= ps[t] {
      var b := WrongBit(ps, t);
      SingleBit(b);
      WrongBitGone(Pow2(b), ps, t, b);
      BitLost(masks, ps, b);
      a := Pow2(b);
    } else {
      a := ZeroTwice(masks, ps, t);
    }
  }

  /** Two masks that start with bit 0: the second removal takes bit 1 out. */
  lemma {:induction false} ZeroTwice(masks: seq<nat>, ps: seq<nat>, t: nat) returns (a: nat)
    requires Nonzero(masks) && Positions(masks, ps) && (forall i: nat :: !Idle(ps, i))
    requires 1 <= t < |ps| && ps[t - 1] == ps[t] < t && IncreasingTo(ps, t)
    ensures !ComesBack(a, masks, ps)
  {
    PositionsAreStarts(masks, ps);
    assert !Idle(ps, t) && ps[t] == 0;
    AtLeastIndex(ps, t - 1);
    assert t == 1;
    forall i | 0 <= i < |ps|
      ensures ps[i] != 1
    {
      assert !Idle(ps, i);
    }
    assert Dropped(2, ps, 0) == 2 && Dropped(2, ps, 1) == 1 && Dropped(2, ps, 2) == 0;
    StaysZero(2, ps, 2, |ps|);
    assert Pow2(1) == 2;
    BitLost(masks, ps, 1);
    a := 2;
  }

  /** Putting back what was taken out gives the same address, for every address and the
      channel it belongs to, if and only if no mask holds the first bit of a later one. */
  lemma {:induction false} RoundTripsExactly(masks: seq<nat>, ps: seq<nat>)
    requires Nonzero(masks) && Positions(masks, ps)
    ensures RoundTrips(masks, ps) <==> Strict(masks)
  {
    if Strict(masks) {
      StrictIsProper(masks);
      forall a: nat
        ensures ComesBack(a, masks, ps)
      {
        ReopenedAgrees(a, masks, ps);
        StrictRefills(masks, a, Opened(Dropped(a, ps, |ps|), ps, |ps|), 0);
      }
    } else if Proper(masks) {
      var i, j :| 0 <= i < j < |masks| && Bit(masks[i], Ctz(masks[j])) != 0;
      var first := FindOffender(masks, i, j);
      OffenderLost(masks, ps, first, j);
    } else {
      var a := EqualStartsLost(masks, ps);
    }
  }

  /** Under the same condition the address put back belongs to the channel asked for. */
  lemma {:induction false} AddedBackSelects(a: nat, masks: seq<nat>, ps: seq<nat>, intlvMatch: nat, i: nat)
    requires Nonzero(masks) && Strict(masks) && i < |masks|
    ensures Parity(AddedBack(a, masks, ps, intlvMatch), masks[i]) == Bit(intlvMatch, i)
  {
    RefillSelects(masks, intlvMatch, Opened(a, ps, |ps|), 0, i);
  }

  lemma {:induction false} RefillSelects(masks: seq<nat>, s: nat, z: nat, k: nat, i: nat)
    requires Nonzero(masks) && Strict(masks) && k <= i < |masks|
    ensures Parity(Refill(masks, s, z, k), masks[i]) == Bit(s, i)
    decreases i - k
  {
    var next := RefillStep(masks, s, z, k);
    if k < i {
      RefillSelects(masks, s, next, k + 1, i);
    } else {
      StepSelects(masks, s, z, i);
      var r := Refill(masks, s, next, i + 1);
      forall b: nat | Bit(masks[i], b) == 1
        ensures Bit(r, b) == Bit(next, b)
      {
        RefillKeeps(masks, s, next, i + 1, b);
      }
      ParityAgrees(r, next, masks[i]);
    }
  }

  lemma {:induction false} StepSelects(masks: seq<nat>, s: nat, z: nat, i: nat)
    requires Nonzero(masks) && i < |masks|
    ensures Parity(RefillStep(masks, s, z, i), masks[i]) == Bit(s, i)
  {
    var m, p := masks[i], Ctz(masks[i]);
    CtzIsLowest(m);
    var v, next := Wanted(m, Bit(s, i), z), RefillStep(masks, s, z, i);
    ParityRest(next, m, p);
    BitOfSetBit(z, p, v, p);
    forall b: nat | Bit(Rest(m, p), b) == 1
      ensures Bit(next, b) == Bit(z, b)
    {
      BitOfRest(m, p, b);
      BitOfSetBit(z, p, v, b);
    }
    ParityAgrees(next, z, Rest(m, p));
  }

  // The masks the scripts make.

  /** n bits from the given one up. */
  function Run(first: nat, n: nat): (r: seq<nat>)
    ensures |r| == n && forall i :: 0 <= i < n ==> r[i] == first + i
  {
    seq(n, i requires 0 <= i < n => first + i)
  }

  lemma {:induction false} SteppedIsProper(masks: seq<nat>, low: nat)
    requires Stepped(masks, low)
    ensures Nonzero(masks) && Proper(masks) && Positions(masks, Run(low, |masks|))
    ensures forall i :: 0 <= i < |masks| ==> Ctz(masks[i]) == low + i
  {
    forall i | 0 <= i < |masks|
      ensures masks[i] != 0 && Ctz(masks[i]) == low + i
    {
      CtzOfLowest(masks[i], low + i);
    }
    assert Starts(masks) == Run(low, |masks|);
  }

  lemma {:induction false} BitOfIntlvMask(low: nat, hashed: bool, xorLow: nat, i: nat, k: nat)
    ensures Bit(IntlvMask(low, hashed, xorLow, i), k) == if k == low + i || (hashed && k == xorLow + i) then 1 else 0
  {
    BitOfPow2(low + i, k);
    if hashed {
      BitOfOr(Pow2(low + i), Pow2(xorLow + i), k);
      BitOfPow2(xorLow + i, k);
    }
  }

  lemma {:induction false} HashedAbove(low: nat, hashed: bool, xorLow: nat, bits: nat)
    requires hashed ==> low <= xorLow
    ensures var masks := IntlvMasks(low, hashed, xorLow, bits);
            && Nonzero(masks) && Positions(masks, Run(low, bits))
            && (RoundTrips(masks, Run(low, bits)) <==> !(hashed && low < xorLow < low + bits))
  {
    var masks := IntlvMasks(low, hashed, xorLow, bits);
    IntlvMasksStepped(low, hashed, xorLow, bits);
    SteppedIsProper(masks, low);
    RoundTripsExactly(masks, Run(low, bits));
    forall i, j | 0 <= i < j < bits
      ensures Bit(masks[i], Ctz(masks[j])) == if hashed && xorLow + i == low + j then 1 else 0
    {
      BitOfIntlvMask(low, hashed, xorLow, i, low + j);
    }
    if hashed && low < xorLow < low + bits {
      assert Bit(masks[0], Ctz(masks[xorLow - low])) == 1;
    }
  }

  /** Which of the two kinds of bits is the lower one does not matter to the masks. */
  lemma {:induction false} HashCommutes(low: nat, xorLow: nat, bits: nat)
    ensures IntlvMasks(low, true, xorLow, bits) == IntlvMasks(xorLow, true, low, bits)
  {
    forall i | 0 <= i < bits
      ensures IntlvMask(low, true, xorLow, i) == IntlvMask(xorLow, true, low, i)
    {
      OrCommutes(Pow2(low + i), Pow2(xorLow + i));
    }
  }

  lemma {:induction false} OrCommutes(a: nat, b: nat)
    ensures Or(a, b) == Or(b, a)
  {
    if a != 0 && b != 0 {
      OrCommutes(a / 2, b / 2);
    }
  }

  /** The bit at which the first mask starts. */
  function FirstBit(low: nat, hashed: bool, xorLow: nat): nat {
    if hashed && xorLow < low then xorLow else low
  }

  function Distance(a: nat, b: nat): nat {
    if a <= b then b - a else a - b
  }

  /** Interleaving bits round trip if and only if they are not hashed, or hashed with
      themselves, or with bits so far off that none is both. */
  lemma {:induction false} IntlvRoundTrips(low: nat, hashed: bool, xorLow: nat, bits: nat)
    ensures var masks, ps := IntlvMasks(low, hashed, xorLow, bits), Run(FirstBit(low, hashed, xorLow), bits);
            && Nonzero(masks) && Positions(masks, ps)
            && (RoundTrips(masks, ps) <==> !hashed || low == xorLow || Distance(low, xorLow) >= bits)
  {
    if hashed && xorLow < low {
      HashCommutes(low, xorLow, bits);
      HashedAbove(xorLow, true, low, bits);
    } else {
      HashedAbove(low, hashed, xorLow, bits);
    }
  }

  /** Re-masked home nodes do not round trip, unless there are at most two of them: the bit
      where the second mask starts is one of the bits the first was spread over. */
  lemma {:induction false} SpreadRoundTrips(low: nat, bits: nat)
    ensures var masks := SpreadAll(IntlvMasks(low, false, 0, bits));
            && Nonzero(masks) && Positions(masks, Run(low, bits))
            && (RoundTrips(masks, Run(low, bits)) <==> bits <= 1)
  {
    IntlvMasksStepped(low, false, 0, bits);
    SpreadStepped(IntlvMasks(low, false, 0, bits), low);
    var masks := SpreadAll(IntlvMasks(low, false, 0, bits));
    SteppedIsProper(masks, low);
    RoundTripsExactly(masks, Run(low, bits));
    if bits >= 2 {
      SpreadNotStrict(masks, low);
    }
  }

  lemma {:induction false} SpreadNotStrict(masks: seq<nat>, low: nat)
    requires |masks| >= 2 && masks[0] == Spread(Pow2(low)) && Ctz(masks[1]) == low + 1
    ensures !Strict(masks)
  {
    SpreadHoldsNext(Pow2(low), low);
    assert Bit(masks[0], Ctz(masks[1])) == 1;
  }

  lemma {:induction false} SpreadHoldsNext(m: nat, k: nat)
    requires m == Pow2(k)
    ensures Bit(Spread(m), k + 1) == 1
  {
    BitOfPow2(k, k);
    assert Bit(2 * m, k + 1) == 1 by {
      assert (2 * m) / 2 == m;
    }
    BitOfOr(m, 2 * m, k + 1);
    BitOfOr(Or(m, 2 * m), 4 * m, k + 1);
    BitOfOr(Or(Or(m, 2 * m), 4 * m), 8 * m, k + 1);
    BitOfOr(Or(Or(Or(m, 2 * m), 4 * m), 8 * m), 16 * m, k + 1);
  }
}
