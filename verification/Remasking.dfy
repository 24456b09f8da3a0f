/** The masks that pairing home nodes with memory controllers gives to both. */
module Remasking {
  import opened Arithmetic
  import opened Bits
  import opened Interleaving

  /** Each mask is smeared over its own bits and the four above. */
  function Spread(m: nat): nat {
    Or(Or(Or(Or(m, 2 * m), 4 * m), 8 * m), 16 * m)
  }

  function SpreadAll(masks: seq<nat>): (r: seq<nat>)
    ensures |r| == |masks|
  {
    seq(|masks|, i requires 0 <= i < |masks| => Spread(masks[i]))
  }

  lemma {:induction false} SpreadLowest(m: nat, k: nat)
    requires LowestBit(m, k)
    ensures LowestBit(Spread(m), k)
  {
    LowestIsClear(m, k);
    ClearDouble(m, k);
    ClearTwice(2 * m, k + 1);
    ClearTwice(4 * m, k + 1);
    ClearTwice(8 * m, k + 1);
    OrLowest(m, 2 * m, k);
    OrLowest(Or(m, 2 * m), 4 * m, k);
    OrLowest(Or(Or(m, 2 * m), 4 * m), 8 * m, k);
    OrLowest(Or(Or(Or(m, 2 * m), 4 * m), 8 * m), 16 * m, k);
  }

  lemma {:induction false} ClearTwice(m: nat, k: nat)
    requires Clear(m, k)
    ensures Clear(2 * m, k)
  {
    ClearDouble(m, k);
    ClearFewer(2 * m, k + 1, k);
  }

  lemma {:induction false} SpreadStepped(masks: seq<nat>, low: nat)
    requires Stepped(masks, low)
    ensures Stepped(SpreadAll(masks), low)
  {
    forall i | 0 <= i < |masks|
      ensures LowestBit(SpreadAll(masks)[i], low + i)
    {
      SpreadLowest(masks[i], low + i);
    }
  }

  /** Re-masking keeps the balance: every aligned run of as many lines as there are home
      nodes still goes to the home nodes one line each. */
  lemma {:induction false} RemaskedBalance(low: nat, bits: nat, run: nat, node: nat) returns (line: nat)
    requires node < Pow2(bits)
    ensures line < Pow2(bits)
    ensures forall j, o :: 0 <= j < Pow2(bits) && 0 <= o < Pow2(low) ==>
              (Sel(LineAddress(run, bits, j, low, o), SpreadAll(IntlvMasks(low, false, 0, bits))) == node <==> j == line)
  {
    IntlvMasksStepped(low, false, 0, bits);
    SpreadStepped(IntlvMasks(low, false, 0, bits), low);
    line := SteppedDealsEvenly(SpreadAll(IntlvMasks(low, false, 0, bits)), low, run, node);
  }

  /** The masks of a target: its own lowest ones, as many as it has more than its source,
      then the source's new ones. */
  function TargetMasks(target: seq<nat>, source: seq<nat>): seq<nat> {
    var lsbs := if |source| <= |target| then |target| - |source| else 0;
    target[..lsbs] + SpreadAll(source)
  }

  /** The j-th target of the source with match value k owns exactly those addresses of its
      source whose low selector is j: targets lie inside their sources, and the targets of a
      source share all it owns without overlap. */
  lemma {:induction false} TargetSplitsSource(start: nat, end: nat, target: seq<nat>, source: seq<nat>, k: nat, j: nat, a: nat)
    requires |source| <= |target| && j < Pow2(|target| - |source|)
    ensures Holds(Range(start, end, TargetMasks(target, source), k * Pow2(|target| - |source|) + j), a)
       <==> Holds(Range(start, end, SpreadAll(source), k), a) && Sel(a, target[..|target| - |source|]) == j
  {
    var f := |target| - |source|;
    var low, high := Sel(a, target[..f]), Sel(a, SpreadAll(source));
    SelConcat(a, target[..f], SpreadAll(source));
    SelBound(a, target[..f]);
    SamePair(Pow2(f), low, high, k, j);
  }

  lemma {:induction false} SamePair(p: nat, low: nat, high: nat, k: nat, j: nat)
    requires low < p && j < p
    ensures low + p * high == k * p + j <==> high == k && low == j
  {
    var x := low + p * high;
    DivModUnique(x, p, high, low);
    if x == k * p + j {
      DivModUnique(x, p, k, j);
    }
  }

  // Does every target get anything?

  lemma {:induction false} SpreadOfPow2(k: nat)
    ensures Spread(Pow2(k)) == 31 * Pow2(k)
  {
    if k == 0 {
      assert Or(1, 2) == 3;
      assert Or(3, 4) == 7;
      assert Or(7, 8) == 15;
      assert Or(15, 16) == 31;
    } else {
      SpreadOfPow2(k - 1);
      SpreadDouble(Pow2(k - 1));
    }
  }

  lemma {:induction false} SpreadDouble(m: nat)
    ensures Spread(2 * m) == 2 * Spread(m)
  {
    FiveDoubled(m, 2 * m, 4 * m, 8 * m, 16 * m, 2 * m, 4 * m, 8 * m, 16 * m, 32 * m);
    assert Spread(2 * m) == Or(Or(Or(Or(2 * m, 4 * m), 8 * m), 16 * m), 32 * m);
  }

  lemma {:induction false} FiveDoubled(a: nat, b: nat, c: nat, d: nat, e: nat, a2: nat, b2: nat, c2: nat, d2: nat, e2: nat)
    requires a2 == 2 * a && b2 == 2 * b && c2 == 2 * c && d2 == 2 * d && e2 == 2 * e
    ensures Or(Or(Or(Or(a2, b2), c2), d2), e2) == 2 * Or(Or(Or(Or(a, b), c), d), e)
  {
    var ab := Or(a, b);
    assert Or(a2, b2) == 2 * ab by {
      OrDouble(a, b);
    }
    var abc := Or(ab, c);
    assert Or(2 * ab, c2) == 2 * abc by {
      OrDouble(ab, c);
    }
    var abcd := Or(abc, d);
    assert Or(2 * abc, d2) == 2 * abcd by {
      OrDouble(abc, d);
    }
    OrDouble(abcd, e);
  }

  lemma {:induction false} OrDouble(a: nat, b: nat)
    ensures Or(2 * a, 2 * b) == 2 * Or(a, b)
  {
  }

  function PlainMask(low: nat, f: nat, i: nat): nat {
    if i < f then Pow2(low + i) else 31 * Pow2(low + (i - f))
  }

  /** The masks of a target when controllers on both sides interleave from the same bit:
      2^f targets to each of 2^n sources. */
  function PlainTargetMasks(low: nat, f: nat, n: nat): (r: seq<nat>)
    ensures |r| == f + n
  {
    seq(f + n, i requires 0 <= i < f + n => PlainMask(low, f, i))
  }

  lemma {:induction false} PlainTargets(low: nat, f: nat, n: nat)
    ensures TargetMasks(IntlvMasks(low, false, 0, n + f), IntlvMasks(low, false, 0, n)) == PlainTargetMasks(low, f, n)
  {
    var source := IntlvMasks(low, false, 0, n);
    forall i | 0 <= i < n
      ensures SpreadAll(source)[i] == 31 * Pow2(low + i)
    {
      SpreadOfPow2(low + i);
    }
  }

  /** With lines of 64 bytes, two targets to each of two sources. */
  lemma {:induction false} TwoBitMasks()
    ensures IntlvMasks(6, false, 0, 2) == [64, 128] && IntlvMasks(6, false, 0, 1) == [64]
    ensures TargetMasks([64, 128], [64]) == PlainTargetMasks(6, 1, 1) == [64, 1984]
  {
    assert Pow2(6) == 64;
    assert Pow2(7) == 128;
    var one, two, masks := IntlvMasks(6, false, 0, 1), IntlvMasks(6, false, 0, 2), PlainTargetMasks(6, 1, 1);
    assert one[0] == 64 && two[0] == 64 && two[1] == 128;
    assert one == [64] && two == [64, 128];
    PlainTargets(6, 1, 1);
    assert masks[0] == 64 && masks[1] == 1984;
  }

  lemma {:induction false} PlainMaskUp(low: nat, f: nat, i: nat)
    ensures PlainMask(low + 1, f, i) == 2 * PlainMask(low, f, i)
  {
    assert Pow2(low + 1 + i) == 2 * Pow2(low + i);
    if i >= f {
      assert Pow2(low + 1 + (i - f)) == 2 * Pow2(low + (i - f));
    }
  }

  lemma {:induction false} PlainTail(f: nat, n: nat)
    requires 0 < f + n && (f == 0 || n == 0)
    ensures Halves(PlainTargetMasks(0, f, n)[1..]) == if f == 0 then PlainTargetMasks(0, 0, n - 1) else PlainTargetMasks(0, f - 1, 0)
  {
    var masks := PlainTargetMasks(0, f, n);
    var rest := if f == 0 then PlainTargetMasks(0, 0, n - 1) else PlainTargetMasks(0, f - 1, 0);
    forall i | 0 <= i < |rest|
      ensures Halves(masks[1..])[i] == rest[i]
    {
      assert Pow2(i + 1) == 2 * Pow2(i);
    }
  }

  lemma {:induction false} PlainTargetsDown(low: nat, f: nat, n: nat)
    ensures Down(PlainTargetMasks(low, f, n), low) == PlainTargetMasks(0, f, n)
    ensures forall i :: 0 <= i < f + n ==> Clear(PlainTargetMasks(low, f, n)[i], low)
  {
    if low > 0 {
      PlainTargetsDown(low - 1, f, n);
      var masks, lower := PlainTargetMasks(low, f, n), PlainTargetMasks(low - 1, f, n);
      forall i | 0 <= i < f + n
        ensures masks[i] == 2 * lower[i]
      {
        PlainMaskUp(low - 1, f, i);
      }
      assert Halves(masks) == lower;
    }
  }

  lemma {:induction false} SingleBits(f: nat)
    ensures Stepped(PlainTargetMasks(0, f, 0), 0)
  {
    forall i | 0 <= i < f
      ensures LowestBit(Pow2(i), i)
    {
      LowestOfPow2(i);
    }
  }

  /** Single-bit masks read off the low bits of the line. */
  lemma {:induction false} SingleBitsSel(x: nat, f: nat)
    ensures Sel(x, PlainTargetMasks(0, f, 0)) == x % Pow2(f)
    decreases f
  {
    if f > 0 {
      var masks := PlainTargetMasks(0, f, 0);
      SingleBits(f);
      PlainTail(f, 0);
      SelSplit(masks, x / 2, x % 2);
      ParityZero(x / 2);
      SingleBitsSel(x / 2, f - 1);
      ModSplit(x, Pow2(f - 1));
    }
  }

  lemma {:induction false} ModSplit(x: nat, p: nat)
    requires 1 <= p
    ensures x % (2 * p) == x % 2 + 2 * ((x / 2) % p)
  {
    var q, r := (x / 2) / p, (x / 2) % p;
    assert x / 2 == q * p + r;
    assert x == q * (2 * p) + (2 * r + x % 2);
    DivModUnique(x, 2 * p, q, 2 * r + x % 2);
  }

  lemma {:induction false} SpreadBits(n: nat)
    ensures Stepped(PlainTargetMasks(0, 0, n), 0)
  {
    forall i | 0 <= i < n
      ensures LowestBit(31 * Pow2(i), i)
    {
      LowestOfPow2(i);
      SpreadOfPow2(i);
      SpreadLowest(Pow2(i), i);
    }
  }

  lemma {:induction false} ParityOdd(y: nat, h: nat)
    ensures Parity(y, 2 * h + 1) == Xor1(y % 2, Parity(y / 2, h))
  {
    ParityStep(y, 2 * h + 1);
    assert (2 * h + 1) / 2 == h;
  }

  function Differ(a: nat, b: nat): (r: nat)
    ensures r < 2
  {
    if a == b then 0 else 1
  }

  lemma {:induction false} XorOfBits(a: nat, b: nat)
    requires a < 2 && b < 2
    ensures Xor1(a, b) == Differ(a, b)
  {
  }

  lemma {:induction false} ParityOddBits(y: nat, h: nat, b: nat, rest: nat)
    requires b == y % 2 && rest == y / 2
    ensures Parity(y, 2 * h + 1) == Differ(b, Parity(rest, h))
  {
    ParityOdd(y, h);
    XorOfBits(y % 2, Parity(y / 2, h));
  }

  lemma {:induction false} Parity15(y: nat)
    ensures Parity(y, 15) == Differ(y % 2, Differ((y / 2) % 2, Differ((y / 4) % 2, (y / 8) % 2)))
  {
    var a, b, c := y / 2, y / 4, y / 8;
    assert a / 2 == b && b / 2 == c;
    ParityOddBits(y, 7, y % 2, a);
    ParityOddBits(a, 3, a % 2, b);
    ParityOddBits(b, 1, b % 2, c);
    ParityOddBits(c, 0, c % 2, c / 2);
    ParityZero(c / 2);
  }

  /** The choice of the next bit up, to bring the parity of five bits to what is wanted. */
  function NextBit(b0: nat, b1: nat, b2: nat, b3: nat, want: nat): (c: nat)
    ensures c < 2
  {
    Differ(want, Differ(b0, Differ(b1, Differ(b2, b3))))
  }

  lemma {:induction false} NextBitWorks(b0: nat, b1: nat, b2: nat, b3: nat, want: nat, y: nat)
    requires b0 < 2 && b1 < 2 && b2 < 2 && b3 < 2 && want < 2
    requires y % 16 == b1 + 2 * b2 + 4 * b3 + 8 * NextBit(b0, b1, b2, b3, want)
    ensures Xor1(b0, Parity(y, 15)) == want
  {
    var c := NextBit(b0, b1, b2, b3, want);
    assert Parity(y, 15) == Differ(b1, Differ(b2, Differ(b3, c))) by {
      LowFour(y, b1, b2, b3, c);
      Parity15(y);
    }
    XorOfBits(b0, Parity(y, 15));
  }

  lemma {:induction false} LowFour(y: nat, b1: nat, b2: nat, b3: nat, c: nat)
    requires b1 < 2 && b2 < 2 && b3 < 2 && c < 2 && y % 16 == b1 + 2 * b2 + 4 * b3 + 8 * c
    ensures y % 2 == b1 && (y / 2) % 2 == b2 && (y / 4) % 2 == b3 && (y / 8) % 2 == c
  {
    var q := y / 16;
    assert y == 16 * q + y % 16;
    Halve(y, 8 * q + 4 * c + 2 * b3 + b2, b1);
    Halve(y / 2, 4 * q + 2 * c + b3, b2);
    Halve(y / 4, 2 * q + c, b3);
    Halve(y / 8, q, c);
    assert y / 4 == y / 2 / 2 && y / 8 == y / 4 / 2;
  }

  lemma {:induction false} Halve(y: nat, half: nat, bit: nat)
    requires y == 2 * half + bit && bit < 2
    ensures y / 2 == half && y % 2 == bit
  {
  }

  /** With the low four bits of a line given, the bits above can be chosen so that the
      spread masks select anything. */
  lemma {:induction false} SpreadReaches(n: nat, b0: nat, b1: nat, b2: nat, b3: nat, t: nat) returns (x: nat)
    requires b0 < 2 && b1 < 2 && b2 < 2 && b3 < 2 && t < Pow2(n)
    ensures x % 16 == b0 + 2 * b1 + 4 * b2 + 8 * b3
    ensures Sel(x, PlainTargetMasks(0, 0, n)) == t
    decreases n
  {
    if n == 0 {
      x := b0 + 2 * b1 + 4 * b2 + 8 * b3;
    } else {
      var c := NextBit(b0, b1, b2, b3, t % 2);
      var y := SpreadReaches(n - 1, b1, b2, b3, c, t / 2);
      x := 2 * y + b0;
      ShiftFour(y, b0, b1, b2, b3, c);
      SpreadSelSplit(n, y, b0);
      NextBitWorks(b0, b1, b2, b3, t % 2, y);
    }
  }

  lemma {:induction false} ShiftFour(y: nat, b0: nat, b1: nat, b2: nat, b3: nat, c: nat)
    requires b0 < 2 && b1 < 2 && b2 < 2 && b3 < 2 && c < 2
    requires y % 16 == b1 + 2 * b2 + 4 * b3 + 8 * c
    ensures (2 * y + b0) % 16 == b0 + 2 * b1 + 4 * b2 + 8 * b3
  {
    var q := y / 16;
    assert y == 16 * q + (b1 + 2 * b2 + 4 * b3 + 8 * c);
    DivModUnique(2 * y + b0, 16, 2 * q + c, b0 + 2 * b1 + 4 * b2 + 8 * b3);
  }

  lemma {:induction false} SpreadSelSplit(n: nat, y: nat, e: nat)
    requires 0 < n && e < 2
    ensures Sel(2 * y + e, PlainTargetMasks(0, 0, n)) == Xor1(e, Parity(y, 15)) + 2 * Sel(y, PlainTargetMasks(0, 0, n - 1))
  {
    var masks := PlainTargetMasks(0, 0, n);
    SpreadBits(n);
    PlainTail(0, n);
    SelSplit(masks, y, e);
    assert masks[0] == 31;
  }

  /** Every match value below 2^(f+n) is the selector of some address. */
  ghost predicate AllTargetsUsed(masks: seq<nat>) {
    forall s :: 0 <= s < Pow2(|masks|) ==> Used(masks, s)
  }

  ghost predicate Used(masks: seq<nat>, s: nat) {
    exists a: nat :: Sel(a, masks) == s
  }

  /** At the level of lines, the selector of a target is its low bits and the spread parities. */
  lemma {:induction false} PlainSel(x: nat, low: nat, f: nat, n: nat)
    ensures Sel(x * Pow2(low), PlainTargetMasks(low, f, n)) == x % Pow2(f) + Pow2(f) * Sel(x, PlainTargetMasks(0, 0, n))
  {
    PlainTargetsDown(low, f, n);
    SelLine(x, 0, PlainTargetMasks(low, f, n), low);
    assert PlainTargetMasks(0, f, n) == PlainTargetMasks(0, f, 0) + PlainTargetMasks(0, 0, n);
    SelConcat(x, PlainTargetMasks(0, f, 0), PlainTargetMasks(0, 0, n));
    SingleBitsSel(x, f);
  }

  lemma {:induction false} HighPart(s: nat, f: nat, n: nat)
    requires s < Pow2(f + n)
    ensures s / Pow2(f) < Pow2(n) && s == (s / Pow2(f)) * Pow2(f) + s % Pow2(f)
  {
    Pow2Sum(f, n);
    GridIndex(s, Pow2(n), Pow2(f));
  }

  lemma {:induction false} FourBits(l: nat)
    requires l < 16
    ensures l / 8 < 2 && l == l % 2 + 2 * ((l / 2) % 2) + 4 * ((l / 4) % 2) + 8 * (l / 8)
  {
  }

  lemma {:induction false} AtMost16(f: nat)
    requires f <= 4
    ensures Pow2(f) <= 16
  {
    assert Pow2(0) == 1 && Pow2(1) == 2 && Pow2(2) == 4 && Pow2(3) == 8 && Pow2(4) == 16;
  }

  lemma {:induction false} SmallFanOutUsed(low: nat, f: nat, n: nat, s: nat)
    requires f <= 4 && s < Pow2(f + n)
    ensures Used(PlainTargetMasks(low, f, n), s)
  {
    var l, t := s % Pow2(f), s / Pow2(f);
    HighPart(s, f, n);
    AtMost16(f);
    DivModParts(s, Pow2(f));
    var x := LineWith(n, l, t);
    LowBitsAgree(x, l, f);
    PlainSel(x, low, f, n);
    Commute(t, Pow2(f));
    assert Sel(x * Pow2(low), PlainTargetMasks(low, f, n)) == s;
  }

  /** A line with the given low four bits and the given spread selector. */
  lemma {:induction false} LineWith(n: nat, l: nat, t: nat) returns (x: nat)
    requires l < 16 && t < Pow2(n)
    ensures x % 16 == l && Sel(x, PlainTargetMasks(0, 0, n)) == t
  {
    FourBits(l);
    x := SpreadReaches(n, l % 2, (l / 2) % 2, (l / 4) % 2, l / 8, t);
  }

  lemma {:induction false} LowBitsAgree(x: nat, l: nat, f: nat)
    requires f <= 4 && x % 16 == l && l < Pow2(f)
    ensures x % Pow2(f) == l
  {
    assert Pow2(0) == 1 && Pow2(1) == 2 && Pow2(2) == 4 && Pow2(3) == 8 && Pow2(4) == 16;
    var q := x / 16;
    assert x == 16 * q + l;
    if f == 1 {
      DivModUnique(x, 2, 8 * q, l);
    } else if f == 2 {
      DivModUnique(x, 4, 4 * q, l);
    } else if f == 3 {
      DivModUnique(x, 8, 2 * q, l);
    }
  }

  lemma {:induction false} LargeFanOutUnused(low: nat, f: nat, n: nat)
    requires 5 <= f && 1 <= n
    ensures Pow2(f) < Pow2(f + n) && !Used(PlainTargetMasks(low, f, n), Pow2(f))
  {
    Pow2Less(f, f + n);
    var masks := PlainTargetMasks(low, f, n);
    forall a: nat
      ensures Sel(a, masks) != Pow2(f)
    {
      DivModParts(a, Pow2(low));
      NotSelected(low, f, n, a / Pow2(low), a % Pow2(low));
    }
  }

  lemma {:induction false} NotSelected(low: nat, f: nat, n: nat, x: nat, o: nat)
    requires 5 <= f && 1 <= n && o < Pow2(low)
    ensures Sel(x * Pow2(low) + o, PlainTargetMasks(low, f, n)) != Pow2(f)
  {
    var masks := PlainTargetMasks(low, f, n);
    PlainTargetsDown(low, f, n);
    SelLine(x, o, masks, low);
    SelLine(x, 0, masks, low);
    PlainSel(x, low, f, n);
    NotOnlyBitF(x, f, n);
  }

  /** If the low bits of a line are clear, so is the parity that only sees five of them. */
  lemma {:induction false} SpreadOfClear(z: nat, n: nat)
    requires 1 <= n
    ensures Sel(32 * z, PlainTargetMasks(0, 0, n)) % 2 == 0
  {
    var y := 16 * z;
    assert Parity(y, 15) == 0 by {
      DivModUnique(y, 16, z, 0);
      ClearNibble(y);
    }
    var x := 2 * y + 0;
    SpreadSelSplit(n, y, 0);
    assert x == 32 * z;
    DoubleIsEven(Sel(x, PlainTargetMasks(0, 0, n)), Sel(y, PlainTargetMasks(0, 0, n - 1)));
  }

  lemma {:induction false} DoubleIsEven(s: nat, t: nat)
    requires s == 2 * t
    ensures s % 2 == 0
  {
  }

  lemma {:induction false} ClearNibble(y: nat)
    requires y % 16 == 0
    ensures Parity(y, 15) == 0
  {
    Parity15(y);
    LowFour(y, 0, 0, 0, 0);
  }

  lemma {:induction false} MultipleOf32(x: nat, f: nat) returns (z: nat)
    requires 5 <= f && x % Pow2(f) == 0
    ensures x == 32 * z
  {
    assert Pow2(f) == 32 * Pow2(f - 5) by {
      Pow2Sum(5, f - 5);
      assert Pow2(5) == 32;
    }
    DivModParts(x, Pow2(f));
    z := (x / Pow2(f)) * Pow2(f - 5);
    Commute(x / Pow2(f), 32);
    Associate(x / Pow2(f), 32, Pow2(f - 5));
    Associate(32, x / Pow2(f), Pow2(f - 5));
  }

  lemma {:induction false} NotOnlyBitF(x: nat, f: nat, n: nat)
    requires 5 <= f && 1 <= n
    ensures x % Pow2(f) + Pow2(f) * Sel(x, PlainTargetMasks(0, 0, n)) != Pow2(f)
  {
    if x % Pow2(f) == 0 {
      var z := MultipleOf32(x, f);
      SpreadOfClear(z, n);
    }
    NotExactly(Pow2(f), x % Pow2(f), Sel(x, PlainTargetMasks(0, 0, n)));
  }

  lemma {:induction false} NotExactly(p: nat, r: nat, t: nat)
    requires r < p && (r == 0 ==> t % 2 == 0)
    ensures r + p * t != p
  {
    if t >= 2 {
      TimesMonotone(2, t, p);
    } else if t == 1 {
      assert p * t == p;
    } else {
      assert p * t == 0;
    }
  }

  lemma {:induction false} SmallFanOutAll(low: nat, f: nat, n: nat)
    requires f <= 4
    ensures AllTargetsUsed(PlainTargetMasks(low, f, n))
  {
    forall s | 0 <= s < Pow2(f + n)
      ensures Used(PlainTargetMasks(low, f, n), s)
    {
      SmallFanOutUsed(low, f, n, s);
    }
  }

  lemma {:induction false} OneSourceUsed(low: nat, f: nat, s: nat)
    requires s < Pow2(f)
    ensures Used(PlainTargetMasks(low, f, 0), s)
  {
    PlainSel(s, low, f, 0);
    DivModUnique(s, Pow2(f), 0, s);
    assert Sel(s * Pow2(low), PlainTargetMasks(low, f, 0)) == s;
  }

  lemma {:induction false} OneSourceAll(low: nat, f: nat)
    ensures AllTargetsUsed(PlainTargetMasks(low, f, 0))
  {
    forall s | 0 <= s < Pow2(f)
      ensures Used(PlainTargetMasks(low, f, 0), s)
    {
      OneSourceUsed(low, f, s);
    }
  }

  /** Every paired memory controller gets a share of memory if and only if no home node has
      more than 2^4 of them: the spread masks do not reach further. */
  lemma {:induction false} TargetsUsedExactly(low: nat, f: nat, n: nat)
    ensures AllTargetsUsed(TargetMasks(IntlvMasks(low, false, 0, n + f), IntlvMasks(low, false, 0, n)))
       <==> f <= 4 || n == 0
  {
    PlainTargets(low, f, n);
    if f <= 4 {
      SmallFanOutAll(low, f, n);
    } else if n == 0 {
      OneSourceAll(low, f);
    } else {
      LargeFanOutUnused(low, f, n);
    }
  }

  // Which addresses there are for a selector in a range that is long enough.

  /** Bits above all masks do not matter. */
  lemma {:induction false} ParityPeriod(a: nat, z: nat, m: nat, b: nat)
    requires m < Pow2(b)
    ensures Parity(a + z * Pow2(b), m) == Parity(a, m)
  {
    if b == 0 {
      ParityZero(a + z * Pow2(b));
      ParityZero(a);
    } else {
      var p := Pow2(b - 1);
      assert z * Pow2(b) == 2 * (z * p);
      HalfOfSum(a, z * p);
      ParityStep(a + 2 * (z * p), m);
      ParityStep(a, m);
      ParityPeriod(a / 2, z, m / 2, b - 1);
    }
  }

  lemma {:induction false} HalfOfSum(a: nat, w: nat)
    ensures (a + 2 * w) / 2 == a / 2 + w && (a + 2 * w) % 2 == a % 2
  {
  }

  lemma {:induction false} SelPeriod(a: nat, z: nat, masks: seq<nat>, b: nat)
    requires forall i :: 0 <= i < |masks| ==> masks[i] < Pow2(b)
    ensures Sel(a + z * Pow2(b), masks) == Sel(a, masks)
  {
    if masks != [] {
      ParityPeriod(a, z, masks[0], b);
      SelPeriod(a, z, masks[1..], b);
    }
  }

  lemma {:induction false} PlainMaskBound(low: nat, f: nat, n: nat, i: nat)
    requires i < f + n
    ensures PlainMask(low, f, i) < Pow2(low + f + n + 5)
  {
    if i < f {
      Pow2Less(low + i, low + f + n + 5);
    } else {
      var k := low + (i - f);
      Pow2Sum(5, k);
      assert Pow2(5) == 32;
      Pow2Less(5 + k, low + f + n + 5);
    }
  }
}
