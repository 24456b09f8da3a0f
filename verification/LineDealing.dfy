/** How the ranges of several nodes share memory line by line. */
module LineDealing {
  import opened Arithmetic
  import opened Bits
  import opened Interleaving
  import opened Remasking

  /** Two addresses of the same line are held together. */
  ghost predicate KeepsLines(r: Range, low: nat) {
    forall a, a' :: r.start <= a < r.end && r.start <= a' < r.end && Line(a, low) == Line(a', low) ==>
      (Holds(r, a) <==> Holds(r, a'))
  }

  /** The aligned run of 2^bits lines with this number lies inside the range. */
  predicate RunInside(r: Range, run: nat, bits: nat, low: nat) {
    r.start <= run * Pow2(bits) * Pow2(low) && (run + 1) * Pow2(bits) * Pow2(low) <= r.end
  }

  /** Of the lines of a run, the range holds this one, whole, and nothing of the others. */
  ghost predicate HoldsOneLine(r: Range, run: nat, bits: nat, low: nat, line: nat) {
    && line < Pow2(bits)
    && forall j, o :: 0 <= j < Pow2(bits) && 0 <= o < Pow2(low) ==> (Holds(r, LineAddress(run, bits, j, low, o)) <==> j == line)
  }

  ghost predicate HasOneLine(r: Range, run: nat, bits: nat, low: nat) {
    exists line: nat :: HoldsOneLine(r, run, bits, low, line)
  }

  /** Every run of lines that lies inside the ranges is dealt out, one whole line to each. */
  ghost predicate DealsRun(ranges: seq<Range>, run: nat, bits: nat, low: nat) {
    && (forall i :: 0 <= i < |ranges| ==> HasOneLine(ranges[i], run, bits, low))
    && (forall i, i', line: nat :: 0 <= i < i' < |ranges| && HoldsOneLine(ranges[i], run, bits, low, line) ==>
          !HoldsOneLine(ranges[i'], run, bits, low, line))
  }

  ghost predicate DealsLines(ranges: seq<Range>, bits: nat, low: nat) {
    forall run: nat :: (forall i :: 0 <= i < |ranges| ==> RunInside(ranges[i], run, bits, low)) ==> DealsRun(ranges, run, bits, low)
  }

  lemma {:induction false} SteppedKeepsLines(r: Range, low: nat)
    requires Stepped(r.masks, low)
    ensures KeepsLines(r, low)
  {
    SteppedKeepsLinesWhole(r.masks, low);
    forall a, a' | r.start <= a < r.end && r.start <= a' < r.end && Line(a, low) == Line(a', low)
      ensures Holds(r, a) <==> Holds(r, a')
    {
      SameLineSameSelector(r.masks, low, a, a');
    }
  }

  lemma {:induction false} SameLineSameSelector(masks: seq<nat>, low: nat, a: nat, a': nat)
    requires LinesWhole(masks, low) && Line(a, low) == Line(a', low)
    ensures Sel(a, masks) == Sel(a', masks)
  {
    InLine(a, low);
    InLine(a', low);
    assert Sel(ByteOf(Line(a, low), low, a % Pow2(low)), masks) == Sel(ByteOf(Line(a, low), low, 0), masks);
    assert Sel(ByteOf(Line(a', low), low, a' % Pow2(low)), masks) == Sel(ByteOf(Line(a', low), low, 0), masks);
  }

  lemma {:induction false} InLine(a: nat, low: nat)
    ensures a % Pow2(low) < Pow2(low) && a == ByteOf(Line(a, low), low, a % Pow2(low))
  {
    DivModParts(a, Pow2(low));
  }

  lemma {:induction false} RunAddress(r: Range, run: nat, bits: nat, low: nat, j: nat, o: nat)
    requires RunInside(r, run, bits, low) && j < Pow2(bits) && o < Pow2(low)
    ensures r.start <= LineAddress(run, bits, j, low, o) < r.end
  {
    var p, q := Pow2(bits), Pow2(low);
    var line := run * p + j;
    TimesMonotone(run * p, line, q);
    assert (run + 1) * p == run * p + p;
    TimesMonotone(line + 1, (run + 1) * p, q);
    assert (line + 1) * q == line * q + q;
  }

  lemma {:induction false} SteppedHoldsOne(r: Range, run: nat, low: nat) returns (line: nat)
    requires Stepped(r.masks, low) && r.intlvMatch < Pow2(|r.masks|) && RunInside(r, run, |r.masks|, low)
    ensures HoldsOneLine(r, run, |r.masks|, low, line)
  {
    var bits := |r.masks|;
    line := SteppedDealsEvenly(r.masks, low, run, r.intlvMatch);
    forall j, o | 0 <= j < Pow2(bits) && 0 <= o < Pow2(low)
      ensures Holds(r, LineAddress(run, bits, j, low, o)) <==> j == line
    {
      RunAddress(r, run, bits, low, j, o);
    }
  }

  /** Ranges with the same stepped masks and match values from zero up deal out all lines. */
  ghost predicate Numbered(ranges: seq<Range>, masks: seq<nat>) {
    |ranges| == Pow2(|masks|) && forall i :: 0 <= i < |ranges| ==> ranges[i].masks == masks && ranges[i].intlvMatch == i
  }

  lemma {:induction false} SteppedDealsLines(ranges: seq<Range>, masks: seq<nat>, low: nat)
    requires Numbered(ranges, masks) && Stepped(masks, low)
    ensures DealsLines(ranges, |masks|, low)
  {
    var bits := |masks|;
    forall run: nat | forall i :: 0 <= i < |ranges| ==> RunInside(ranges[i], run, bits, low)
      ensures DealsRun(ranges, run, bits, low)
    {
      forall i | 0 <= i < |ranges|
        ensures HasOneLine(ranges[i], run, bits, low)
      {
        var line := SteppedHoldsOne(ranges[i], run, low);
      }
      forall i, i', line: nat | 0 <= i < i' < |ranges| && HoldsOneLine(ranges[i], run, bits, low, line)
        ensures !HoldsOneLine(ranges[i'], run, bits, low, line)
      {
        assert Holds(ranges[i], LineAddress(run, bits, line, low, 0));
        assert !Holds(ranges[i'], LineAddress(run, bits, line, low, 0));
      }
    }
  }

  /** A range with its masks spread, as pairing leaves the home nodes. */
  function Respread(r: Range): Range {
    r.(masks := SpreadAll(r.masks))
  }

  function AllRespread(ranges: seq<Range>): (s: seq<Range>)
    ensures |s| == |ranges| && forall i :: 0 <= i < |ranges| ==> s[i] == Respread(ranges[i])
  {
    seq(|ranges|, i requires 0 <= i < |ranges| => Respread(ranges[i]))
  }

  /** One bit of an address, as far as masks see it. */
  ghost predicate Decides(masks: seq<nat>, b: nat) {
    Sel(Pow2(b), masks) != Sel(0, masks)
  }

  lemma {:induction false} NotDecided(masks: seq<nat>, b: nat)
    requires forall i :: 0 <= i < |masks| ==> Bit(masks[i], b) == 0
    ensures Sel(Pow2(b), masks) == 0
  {
    if masks != [] {
      ParityOfPow2(b, masks[0]);
      NotDecided(masks[1..], b);
    }
  }

  lemma {:induction false} DecidedBy(masks: seq<nat>, b: nat, i: nat)
    requires i < |masks| && Bit(masks[i], b) == 1
    ensures Sel(Pow2(b), masks) > 0
  {
    if i == 0 {
      ParityOfPow2(b, masks[0]);
    } else {
      DecidedBy(masks[1..], b, i - 1);
    }
  }

  lemma {:induction false} NothingOfZero(masks: seq<nat>)
    ensures Sel(0, masks) == 0
  {
    if masks != [] {
      ParityZero(masks[0]);
      NothingOfZero(masks[1..]);
    }
  }

  /** Interleaving bits decide, and no other bit does. */
  lemma {:induction false} DecidesExactly(low: nat, bits: nat, b: nat)
    ensures Decides(IntlvMasks(low, false, 0, bits), b) <==> low <= b < low + bits
  {
    var masks := IntlvMasks(low, false, 0, bits);
    NothingOfZero(masks);
    forall i | 0 <= i < bits
      ensures Bit(masks[i], b) == if b == low + i then 1 else 0
    {
      BitOfPow2(low + i, b);
    }
    if low <= b < low + bits {
      DecidedBy(masks, b, b - low);
    } else {
      NotDecided(masks, b);
    }
  }
}
