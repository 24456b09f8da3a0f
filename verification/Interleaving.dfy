/** Interleaved address ranges: how masks select a channel, and why the masks that the
    configuration scripts make deal consecutive lines out evenly. */
module Interleaving {
  import opened Arithmetic
  import opened Bits

  /** Addresses from start up to, not including, end, of which the range keeps those whose
      selector equals the match value. */
  datatype Range = Range(start: nat, end: nat, masks: seq<nat>, intlvMatch: nat)

  /** The selector of an address: bit i is the parity of the address bits under mask i. */
  function Sel(a: nat, masks: seq<nat>): nat {
    if masks == [] then 0 else Parity(a, masks[0]) + 2 * Sel(a, masks[1..])
  }

  predicate Holds(r: Range, a: nat) {
    r.start <= a < r.end && Sel(a, r.masks) == r.intlvMatch
  }

  lemma {:induction false} SelBound(a: nat, masks: seq<nat>)
    ensures Sel(a, masks) < Pow2(|masks|)
  {
    if masks != [] {
      SelBound(a, masks[1..]);
    }
  }

  lemma {:induction false} SelConcat(a: nat, low: seq<nat>, high: seq<nat>)
    ensures Sel(a, low + high) == Sel(a, low) + Pow2(|low|) * Sel(a, high)
  {
    if low == [] {
      assert low + high == high;
    } else {
      SelConcat(a, low[1..], high);
      assert (low + high)[1..] == low[1..] + high && (low + high)[0] == low[0];
      NextWeight(Parity(a, low[0]), Sel(a, low[1..]), Pow2(|low| - 1), Sel(a, high));
    }
  }

  lemma {:induction false} NextWeight(first: nat, low: nat, p: nat, high: nat)
    ensures first + 2 * (low + p * high) == (first + 2 * low) + (2 * p) * high
  {
    Associate(2, p, high);
  }

  /** The test for an address: mask by mask, the first one for the lowest selector bit. */
  method Contains(r: Range, a: nat) returns (inside: bool)
    ensures inside <==> Holds(r, a)
  {
    if !(r.start <= a < r.end) {
      return false;
    }
    var sel, weight := 0, 1;
    for i := 0 to |r.masks|
      invariant sel == Sel(a, r.masks[..i]) && weight == Pow2(i)
    {
      assert r.masks[..i + 1] == r.masks[..i] + [r.masks[i]];
      SelConcat(a, r.masks[..i], [r.masks[i]]);
      assert Sel(a, [r.masks[i]]) == Parity(a, r.masks[i]);
      sel := sel + weight * Parity(a, r.masks[i]);
      weight := 2 * weight;
    }
    assert r.masks[..|r.masks|] == r.masks;
    inside := sel == r.intlvMatch;
  }

  // The masks of a range given by its interleaving bits.

  /** Bit low + i, and bit xorLow + i too when address hashing is on. */
  function IntlvMask(low: nat, hashed: bool, xorLow: nat, i: nat): nat {
    if hashed then Or(Pow2(low + i), Pow2(xorLow + i)) else Pow2(low + i)
  }

  function IntlvMasks(low: nat, hashed: bool, xorLow: nat, bits: nat): (masks: seq<nat>)
    ensures |masks| == bits
  {
    seq(bits, i requires 0 <= i < bits => IntlvMask(low, hashed, xorLow, i))
  }

  /** The range constructor: from the highest interleaving bit downwards. A zero high bit
      for the hash turns hashing off. */
  method MakeMasks(intlvHighBit: int, xorHighBit: int, bits: nat) returns (masks: seq<nat>)
    requires bits <= intlvHighBit + 1 && (xorHighBit != 0 ==> bits <= xorHighBit + 1)
    ensures bits == 0 ==> masks == []
    ensures 0 < bits ==>
              masks == IntlvMasks(intlvHighBit + 1 - bits, xorHighBit != 0, if xorHighBit != 0 then xorHighBit + 1 - bits else 0, bits)
  {
    masks := seq(bits, _ => 0);
    for i := 0 to bits
      invariant |masks| == bits
      invariant forall j :: bits - i <= j < bits ==>
                  masks[j] == IntlvMask(intlvHighBit + 1 - bits, xorHighBit != 0, if xorHighBit != 0 then xorHighBit + 1 - bits else 0, j)
    {
      var mask := Pow2(intlvHighBit - i);
      if xorHighBit != 0 {
        mask := Or(mask, Pow2(xorHighBit - i));
      }
      masks := masks[bits - i - 1 := mask];
    }
  }

  // Masks whose lowest bits climb one by one, and what they do to a run of lines.

  /** Mask i starts at bit low + i; above that it may hold any bits. */
  ghost predicate Stepped(masks: seq<nat>, low: nat) {
    forall i :: 0 <= i < |masks| ==> LowestBit(masks[i], low + i)
  }

  ghost function Halves(masks: seq<nat>): (r: seq<nat>)
    ensures |r| == |masks|
  {
    seq(|masks|, i requires 0 <= i < |masks| => masks[i] / 2)
  }

  ghost function Down(masks: seq<nat>, k: nat): (r: seq<nat>)
    ensures |r| == |masks|
    decreases k
  {
    if k == 0 then masks else Down(Halves(masks), k - 1)
  }

  lemma {:induction false} SelHalve(x: nat, e: nat, masks: seq<nat>)
    requires e < 2
    requires forall i :: 0 <= i < |masks| ==> Clear(masks[i], 1)
    ensures Sel(2 * x + e, masks) == Sel(x, Halves(masks))
  {
    if masks != [] {
      assert Clear(masks[0], 1) && masks[0] % 2 == 0;
      assert (2 * x + e) / 2 == x;
      ParityStep(2 * x + e, masks[0]);
      assert Halves(masks)[1..] == Halves(masks[1..]);
      SelHalve(x, e, masks[1..]);
    }
  }

  /** Address bits below all masks do not change the channel. */
  lemma {:induction false} SelLine(x: nat, o: nat, masks: seq<nat>, k: nat)
    requires o < Pow2(k)
    requires forall i :: 0 <= i < |masks| ==> Clear(masks[i], k)
    ensures Sel(x * Pow2(k) + o, masks) == Sel(x, Down(masks, k))
    decreases k
  {
    if k > 0 {
      var y := x * Pow2(k - 1) + o / 2;
      assert x * Pow2(k) + o == 2 * y + o % 2 by {
        Associate(2, Pow2(k - 1), x);
      }
      forall i | 0 <= i < |masks|
        ensures Clear(masks[i], 1) && Clear(Halves(masks)[i], k - 1)
      {
        assert Clear(masks[i], k);
        ClearFewer(masks[i], k, 1);
      }
      SelHalve(y, o % 2, masks);
      SelLine(x, o / 2, Halves(masks), k - 1);
    }
  }

  lemma {:induction false} SteppedDown(masks: seq<nat>, low: nat)
    requires Stepped(masks, low)
    ensures Stepped(Down(masks, low), 0)
    decreases low
  {
    if low > 0 {
      forall i | 0 <= i < |masks|
        ensures LowestBit(Halves(masks)[i], (low - 1) + i)
      {
        assert LowestBit(masks[i], low + i);
      }
      SteppedDown(Halves(masks), low - 1);
    }
  }

  /** upper * 2^n, one doubling at a time. */
  ghost function Scaled(upper: nat, n: nat): nat {
    if n == 0 then upper else 2 * Scaled(upper, n - 1)
  }

  lemma {:induction false} ScaledIs(upper: nat, n: nat)
    ensures Scaled(upper, n) == upper * Pow2(n)
  {
    if n > 0 {
      ScaledIs(upper, n - 1);
      Associate(2, Pow2(n - 1), upper);
    }
  }

  /** Of 2^n lines that agree above, with n masks, the one that channel s owns. */
  ghost function OwnLine(masks: seq<nat>, upper: nat, s: nat): (j: nat)
    ensures j < Pow2(|masks|)
    decreases |masks|
  {
    if masks == [] then 0
    else
      var rest := OwnLine(Halves(masks[1..]), upper, s / 2);
      var x := Scaled(upper, |masks| - 1) + rest;
      2 * rest + Xor1(s, Parity(x, masks[0] / 2))
  }

  lemma {:induction false} StepTail(masks: seq<nat>)
    requires Stepped(masks, 0) && masks != []
    ensures masks[0] % 2 == 1
    ensures forall i :: 0 <= i < |masks[1..]| ==> Clear(masks[1..][i], 1)
    ensures Stepped(Halves(masks[1..]), 0)
  {
    assert LowestBit(masks[0], 0);
    forall i | 0 <= i < |masks[1..]|
      ensures Clear(masks[1..][i], 1) && LowestBit(Halves(masks[1..])[i], i)
    {
      assert LowestBit(masks[i + 1], i + 1);
      LowestIsClear(masks[i + 1], i + 1);
      ClearFewer(masks[i + 1], i + 1, 1);
    }
  }

  /** Splitting off the lowest line bit splits off the lowest selector bit. */
  lemma {:induction false} SelSplit(masks: seq<nat>, x: nat, e: nat)
    requires Stepped(masks, 0) && masks != [] && e < 2
    ensures Sel(2 * x + e, masks) == Xor1(e, Parity(x, masks[0] / 2)) + 2 * Sel(x, Halves(masks[1..]))
  {
    StepTail(masks);
    assert (2 * x + e) / 2 == x && (2 * x + e) % 2 == e;
    ParityStep(2 * x + e, masks[0]);
    SelHalve(x, e, masks[1..]);
  }

  lemma {:induction false} Unmix(s: nat, e: nat, p: nat, t: nat)
    requires e < 2 && p < 2 && s == Xor1(e, p) + 2 * t
    ensures s / 2 == t && Xor1(s, p) == e
  {
  }

  lemma {:induction false} Remix(s: nat, p: nat)
    ensures Xor1(Xor1(s, p), p) + 2 * (s / 2) == s
  {
  }

  /** That line is selected by s ... */
  lemma {:induction false} OwnLineSelected(masks: seq<nat>, upper: nat, s: nat)
    requires Stepped(masks, 0) && s < Pow2(|masks|)
    ensures Sel(Scaled(upper, |masks|) + OwnLine(masks, upper, s), masks) == s
    decreases |masks|
  {
    if masks != [] {
      StepTail(masks);
      var tail := Halves(masks[1..]);
      OwnLineSelected(tail, upper, s / 2);
      var rest := OwnLine(tail, upper, s / 2);
      OwnBitSelected(masks, Scaled(upper, |masks| - 1) + rest, s);
    }
  }

  lemma {:induction false} OwnBitSelected(masks: seq<nat>, x: nat, s: nat)
    requires Stepped(masks, 0) && masks != [] && Sel(x, Halves(masks[1..])) == s / 2
    ensures Sel(2 * x + Xor1(s, Parity(x, masks[0] / 2)), masks) == s
  {
    var p := Parity(x, masks[0] / 2);
    SelSplit(masks, x, Xor1(s, p));
    Remix(s, p);
  }

  /** ... and no other line of the run is. */
  lemma {:induction false} OwnLineFrom(masks: seq<nat>, upper: nat, s: nat, rest: nat, e: nat)
    requires masks != [] && rest == OwnLine(Halves(masks[1..]), upper, s / 2)
    requires e == Xor1(s, Parity(Scaled(upper, |masks| - 1) + rest, masks[0] / 2))
    ensures OwnLine(masks, upper, s) == 2 * rest + e
  {
  }

  lemma {:induction false} ScaledSplit(upper: nat, n: nat, j: nat)
    requires 0 < n
    ensures Scaled(upper, n) + j == 2 * (Scaled(upper, n - 1) + j / 2) + j % 2
  {
  }

  lemma {:induction false} OwnLineUnique(masks: seq<nat>, upper: nat, j: nat)
    requires Stepped(masks, 0) && j < Pow2(|masks|)
    ensures j == OwnLine(masks, upper, Sel(Scaled(upper, |masks|) + j, masks))
    decreases |masks|
  {
    if masks != [] {
      StepTail(masks);
      OwnLineUnique(Halves(masks[1..]), upper, j / 2);
      OwnLineJoined(masks, upper, j);
    }
  }

  lemma {:induction false} OwnLineJoined(masks: seq<nat>, upper: nat, j: nat)
    requires Stepped(masks, 0) && masks != []
    requires var tail := Halves(masks[1..]); j / 2 == OwnLine(tail, upper, Sel(Scaled(upper, |masks| - 1) + j / 2, tail))
    ensures j == OwnLine(masks, upper, Sel(Scaled(upper, |masks|) + j, masks))
  {
    var x, e := Scaled(upper, |masks| - 1) + j / 2, j % 2;
    ScaledSplit(upper, |masks|, j);
    OwnBitUnique(masks, x, e);
    OwnLineFrom(masks, upper, Sel(2 * x + e, masks), j / 2, e);
  }

  lemma {:induction false} OwnBitUnique(masks: seq<nat>, x: nat, e: nat)
    requires Stepped(masks, 0) && masks != [] && e < 2
    ensures var s := Sel(2 * x + e, masks); s / 2 == Sel(x, Halves(masks[1..])) && Xor1(s, Parity(x, masks[0] / 2)) == e
  {
    SelSplit(masks, x, e);
    Unmix(Sel(2 * x + e, masks), e, Parity(x, masks[0] / 2), Sel(x, Halves(masks[1..])));
  }

  /** The line an address is in, with lines of 2^low bytes: all its bits from low up. */
  function Line(a: nat, low: nat): nat {
    Quotient(a, Pow2(low))
  }

  /** The address of byte o of line x, with lines of 2^low bytes. */
  ghost function ByteOf(x: nat, low: nat, o: nat): nat {
    x * Pow2(low) + o
  }

  /** The address of byte o of line j, of the run of 2^n lines that `upper` numbers. */
  ghost function LineAddress(upper: nat, n: nat, j: nat, low: nat, o: nat): nat {
    ByteOf(upper * Pow2(n) + j, low, o)
  }

  /** Every aligned run of 2^n lines goes to the 2^n channels one line each: for each
      channel there is a line of the run that it owns whole, and it owns no other. */
  lemma {:induction false} SteppedDealsEvenly(masks: seq<nat>, low: nat, upper: nat, s: nat) returns (j: nat)
    requires Stepped(masks, low) && s < Pow2(|masks|)
    ensures j < Pow2(|masks|)
    ensures forall o :: 0 <= o < Pow2(low) ==> Sel(LineAddress(upper, |masks|, j, low, o), masks) == s
    ensures forall j', o ::
              (0 <= j' < Pow2(|masks|) && 0 <= o < Pow2(low) && Sel(LineAddress(upper, |masks|, j', low, o), masks) == s)
              ==> j' == j
  {
    var top := Down(masks, low);
    SteppedDown(masks, low);
    forall i | 0 <= i < |masks|
      ensures Clear(masks[i], low)
    {
      assert LowestBit(masks[i], low + i);
      LowestIsClear(masks[i], low + i);
      ClearFewer(masks[i], low + i, low);
    }
    j := OwnLine(top, upper, s);
    OwnLineSelected(top, upper, s);
    forall j', o | 0 <= j' < Pow2(|masks|) && 0 <= o < Pow2(low)
      ensures Sel(LineAddress(upper, |masks|, j', low, o), masks) == Sel(Scaled(upper, |masks|) + j', top)
      ensures j' == OwnLine(top, upper, Sel(LineAddress(upper, |masks|, j', low, o), masks))
    {
      LineOwner(masks, low, upper, j', o);
    }
  }

  lemma {:induction false} LineOwner(masks: seq<nat>, low: nat, upper: nat, j: nat, o: nat)
    requires j < Pow2(|masks|) && o < Pow2(low) && Stepped(Down(masks, low), 0)
    requires forall i :: 0 <= i < |masks| ==> Clear(masks[i], low)
    ensures var x := Scaled(upper, |masks|) + j;
            && Sel(LineAddress(upper, |masks|, j, low, o), masks) == Sel(x, Down(masks, low))
            && j == OwnLine(Down(masks, low), upper, Sel(x, Down(masks, low)))
  {
    ScaledIs(upper, |masks|);
    SelLine(Scaled(upper, |masks|) + j, o, masks, low);
    OwnLineUnique(Down(masks, low), upper, j);
  }

  /** Interleaving bits, hashed with bits from the same place upwards or not at all, are stepped. */
  lemma {:induction false} IntlvMasksStepped(low: nat, hashed: bool, xorLow: nat, bits: nat)
    requires hashed ==> low <= xorLow
    ensures Stepped(IntlvMasks(low, hashed, xorLow, bits), low)
  {
    forall i | 0 <= i < bits
      ensures LowestBit(IntlvMask(low, hashed, xorLow, i), low + i)
    {
      LowestOfPow2(low + i);
      if hashed {
        if low == xorLow {
          OrSelf(Pow2(low + i));
        } else {
          ClearPow2(xorLow + i, low + i + 1);
          OrLowest(Pow2(low + i), Pow2(xorLow + i), low + i);
        }
      }
    }
  }

  /** A line is never split between channels. */
  ghost predicate LinesWhole(masks: seq<nat>, low: nat) {
    forall x: nat, o: nat :: o < Pow2(low) ==> Sel(ByteOf(x, low, o), masks) == Sel(ByteOf(x, low, 0), masks)
  }

  lemma {:induction false} SteppedKeepsLinesWhole(masks: seq<nat>, low: nat)
    requires Stepped(masks, low)
    ensures LinesWhole(masks, low)
  {
    forall i | 0 <= i < |masks|
      ensures Clear(masks[i], low)
    {
      assert LowestBit(masks[i], low + i);
      LowestIsClear(masks[i], low + i);
      ClearFewer(masks[i], low + i, low);
    }
    forall x: nat, o: nat | o < Pow2(low)
      ensures Sel(ByteOf(x, low, o), masks) == Sel(ByteOf(x, low, 0), masks)
    {
      SelLine(x, o, masks, low);
      SelLine(x, 0, masks, low);
    }
  }

  lemma {:induction false} LowHashSplitsLines(low: nat, xorLow: nat, bits: nat)
    requires 0 < bits && xorLow < low
    ensures !LinesWhole(IntlvMasks(low, true, xorLow, bits), low)
  {
    var masks := IntlvMasks(low, true, xorLow, bits);
    var o := Pow2(xorLow);
    Pow2Less(xorLow, low);
    assert Parity(o, masks[0]) == 1 && Parity(0, masks[0]) == 0 by {
      LowBitHashed(low, xorLow);
    }
    assert ByteOf(0, low, o) == o && ByteOf(0, low, 0) == 0;
    EvenOrOdd(Parity(o, masks[0]), Sel(o, masks[1..]));
    EvenOrOdd(Parity(0, masks[0]), Sel(0, masks[1..]));
  }

  lemma {:induction false} EvenOrOdd(p: nat, rest: nat)
    requires p < 2
    ensures (p + 2 * rest) % 2 == p
  {
  }

  lemma {:induction false} LowBitHashed(low: nat, xorLow: nat)
    ensures Parity(Pow2(xorLow), IntlvMask(low, true, xorLow, 0)) == 1
    ensures Parity(0, IntlvMask(low, true, xorLow, 0)) == 0
  {
    var mask := IntlvMask(low, true, xorLow, 0);
    ParityOfPow2(xorLow, mask);
    BitOfOr(Pow2(low), Pow2(xorLow), xorLow);
    BitOfPow2(xorLow, xorLow);
    ParityZero(mask);
  }

  /** Hashing keeps lines whole if and only if the hash bits start no lower than the
      interleaving bits. */
  lemma {:induction false} HashKeepsLinesWhole(low: nat, xorLow: nat, bits: nat)
    requires 0 < bits
    ensures LinesWhole(IntlvMasks(low, true, xorLow, bits), low) <==> low <= xorLow
  {
    if low <= xorLow {
      IntlvMasksStepped(low, true, xorLow, bits);
      SteppedKeepsLinesWhole(IntlvMasks(low, true, xorLow, bits), low);
    } else {
      LowHashSplitsLines(low, xorLow, bits);
    }
  }

  lemma {:induction false} Pow2Less(a: nat, b: nat)
    requires a < b
    ensures Pow2(a) < Pow2(b)
  {
    if a + 1 < b {
      Pow2Less(a, b - 1);
    }
  }
}
