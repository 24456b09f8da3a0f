/** The ranges that the scripts give to home nodes and to memory channels. */
module AddressRanges {
  import opened Arithmetic
  import opened Bits
  import opened Interleaving
  import opened LineDealing
  import opened Remasking

  /** The number of whole bits below the leading one. */
  function FloorLog2(x: nat): (n: nat)
    requires 1 <= x
    ensures Pow2(n) <= x < 2 * Pow2(n)
  {
    if x == 1 then 0 else 1 + FloorLog2(x / 2)
  }

  predicate IsPow2(x: nat) {
    1 <= x && Pow2(FloorLog2(x)) == x
  }

  /** What the simulator's own range type takes: match values are bytes, and with
      interleaving they must fit the number of masks. */
  predicate Constructs(r: Range) {
    r.intlvMatch < 256 && (r.masks != [] ==> r.intlvMatch < Pow2(|r.masks|))
  }

  // Home nodes.

  /** The slice of every memory range that goes to home node i of `count`. */
  function HomeRanges(mem: seq<Range>, lineSize: nat, count: nat, i: nat): (r: seq<Range>)
    requires 1 <= lineSize && 1 <= count
    ensures |r| == |mem|
  {
    seq(|mem|, k requires 0 <= k < |mem| =>
      Range(mem[k].start, mem[k].end, IntlvMasks(FloorLog2(lineSize), false, 0, FloorLog2(count)), i))
  }

  method Slice(mem: seq<Range>, lineSize: nat, count: nat, i: nat) returns (ranges: seq<Range>)
    requires 1 <= lineSize && 1 <= count
    ensures ranges == HomeRanges(mem, lineSize, count, i)
  {
    var llcBits := FloorLog2(count);
    ranges := [];
    for k := 0 to |mem|
      invariant ranges == HomeRanges(mem, lineSize, count, i)[..k]
    {
      var masks := MakeMasks(FloorLog2(lineSize) + llcBits - 1, 0, llcBits);
      ranges := ranges + [Range(mem[k].start, mem[k].end, masks, i)];
    }
  }

  /** The highest interleaving bit of the home nodes. */
  function NumaBit(lineSize: nat, count: nat): int
    requires 1 <= lineSize && 1 <= count
  {
    FloorLog2(lineSize) + FloorLog2(count) - 1
  }

  class HomeNodes {
    /** For each home node its ranges and its highest interleaving bit. */
    var addrRanges: map<nat, (seq<Range>, int)>

    constructor ()
      ensures addrRanges == map[]
    {
      addrRanges := map[];
    }

    /** Slices the memory ranges for the given home nodes, which become the only keys it
        touches. There is no slicing for no home node. */
    method CreateAddrRanges(mem: seq<Range>, lineSize: nat, hnfs: seq<nat>) returns (ok: bool)
      modifies this
      ensures ok <==> 1 <= lineSize && hnfs != []
      ensures !ok ==> addrRanges == old(addrRanges)
      ensures ok ==> Stored(old(addrRanges), addrRanges, hnfs, HomeSlices(mem, lineSize, |hnfs|), |hnfs|)
      ensures ok ==> LinesWholeAtHomes(addrRanges, hnfs, |mem|, FloorLog2(lineSize))
      ensures ok ==> TopBitExact(addrRanges, hnfs, |mem|, FloorLog2(lineSize))
      ensures ok && NoTwice(hnfs) && IsPow2(|hnfs|) ==>
                && LinesDealtToHomes(addrRanges, hnfs, |mem|, FloorLog2(lineSize), FloorLog2(|hnfs|))
                && MemoryShared(addrRanges, hnfs, mem)
    {
      if lineSize == 0 || hnfs == [] {
        return false;
      }
      ghost var slices := HomeSlices(mem, lineSize, |hnfs|);
      var numaBit := NumaBit(lineSize, |hnfs|);
      for i := 0 to |hnfs|
        invariant Stored(old(addrRanges), addrRanges, hnfs, slices, i)
      {
        var ranges := Slice(mem, lineSize, |hnfs|, i);
        StoredNext(old(addrRanges), addrRanges, hnfs, slices, i);
        addrRanges := addrRanges[hnfs[i] := (ranges, numaBit)];
      }
      StoredKeepsLines(old(addrRanges), addrRanges, hnfs, mem, lineSize);
      StoredTopBit(old(addrRanges), addrRanges, hnfs, mem, lineSize);
      if NoTwice(hnfs) && IsPow2(|hnfs|) {
        StoredDealsLines(old(addrRanges), addrRanges, hnfs, mem, lineSize);
        StoredSharesMemory(old(addrRanges), addrRanges, hnfs, mem, lineSize);
      }
      ok := true;
    }
  }

  /** What each of `count` home nodes is given: its ranges and the highest interleaving bit. */
  function HomeSlices(mem: seq<Range>, lineSize: nat, count: nat): (r: seq<(seq<Range>, int)>)
    requires 1 <= lineSize && 1 <= count
    ensures |r| == count
  {
    seq(count, i requires 0 <= i < count => (HomeRanges(mem, lineSize, count, i), NumaBit(lineSize, count)))
  }

  /** Entry i is the last of the first n for its home node. */
  ghost predicate LastGiven(hnfs: seq<nat>, i: nat, n: nat) {
    i < n <= |hnfs| && forall k :: i < k < n ==> hnfs[k] != hnfs[i]
  }

  /** What the dictionary is once the first n home nodes have been dealt with: every home node
      has what was given to it last, and everything else is as before. */
  ghost predicate Stored<V>(before: map<nat, V>, after: map<nat, V>, hnfs: seq<nat>, slices: seq<V>, n: nat)
    requires n <= |hnfs| == |slices|
  {
    && (forall h :: h in after <==> h in before || h in hnfs[..n])
    && (forall h :: h in before && h !in hnfs[..n] ==> after[h] == before[h])
    && (forall i: nat :: LastGiven(hnfs, i, n) ==> hnfs[i] in after && after[hnfs[i]] == slices[i])
  }

  lemma {:induction false} StoredNext<V>(before: map<nat, V>, after: map<nat, V>, hnfs: seq<nat>, slices: seq<V>, n: nat)
    requires n < |hnfs| == |slices| && Stored(before, after, hnfs, slices, n)
    ensures Stored(before, after[hnfs[n] := slices[n]], hnfs, slices, n + 1)
  {
    var next := after[hnfs[n] := slices[n]];
    assert hnfs[..n + 1] == hnfs[..n] + [hnfs[n]];
    forall i: nat | LastGiven(hnfs, i, n + 1)
      ensures hnfs[i] in next && next[hnfs[i]] == slices[i]
    {
      if i < n {
        assert LastGiven(hnfs, i, n) && hnfs[n] != hnfs[i];
      }
    }
  }

  // Home nodes and lines.

  ghost predicate NoTwice(hnfs: seq<nat>) {
    forall i, k :: 0 <= i < k < |hnfs| ==> hnfs[i] != hnfs[k]
  }

  /** Every one of the home nodes has as many ranges as there are memory ranges. */
  ghost predicate Covers(homes: map<nat, (seq<Range>, int)>, hnfs: seq<nat>, ranges: nat) {
    forall i :: 0 <= i < |hnfs| ==> hnfs[i] in homes && |homes[hnfs[i]].0| == ranges
  }

  /** The parts of memory range k, home node by home node. */
  ghost function PartsOf(homes: map<nat, (seq<Range>, int)>, hnfs: seq<nat>, ranges: nat, k: nat): (r: seq<Range>)
    requires Covers(homes, hnfs, ranges) && k < ranges
    ensures |r| == |hnfs|
  {
    seq(|hnfs|, i requires 0 <= i < |hnfs| => homes[hnfs[i]].0[k])
  }

  /** No line is split between home nodes. */
  ghost predicate LinesWholeAtHomes(homes: map<nat, (seq<Range>, int)>, hnfs: seq<nat>, ranges: nat, low: nat) {
    && Covers(homes, hnfs, ranges)
    && forall i, k :: 0 <= i < |hnfs| && 0 <= k < ranges ==> KeepsLines(homes[hnfs[i]].0[k], low)
  }

  /** Every aligned run of as many lines as there are home nodes goes to them one line each,
      and still does once the masks have been spread. */
  ghost predicate LinesDealtToHomes(homes: map<nat, (seq<Range>, int)>, hnfs: seq<nat>, ranges: nat, low: nat, bits: nat) {
    && Covers(homes, hnfs, ranges)
    && forall k: nat :: k < ranges ==>
         && DealsLines(PartsOf(homes, hnfs, ranges, k), bits, low)
         && DealsLines(AllRespread(PartsOf(homes, hnfs, ranges, k)), bits, low)
  }

  /** Every home node has one of the slices. */
  lemma {:induction false} StoredSlice(before: map<nat, (seq<Range>, int)>, after: map<nat, (seq<Range>, int)>, hnfs: seq<nat>,
                                       mem: seq<Range>, lineSize: nat, i: nat) returns (j: nat)
    requires 1 <= lineSize && i < |hnfs| && Stored(before, after, hnfs, HomeSlices(mem, lineSize, |hnfs|), |hnfs|)
    ensures i <= j < |hnfs| && hnfs[i] == hnfs[j]
    ensures hnfs[i] in after && after[hnfs[i]] == (HomeRanges(mem, lineSize, |hnfs|, j), NumaBit(lineSize, |hnfs|))
  {
    j := LastPlace(hnfs, i);
    assert after[hnfs[j]] == HomeSlices(mem, lineSize, |hnfs|)[j];
  }

  lemma {:induction false} LastPlace(hnfs: seq<nat>, i: nat) returns (j: nat)
    requires i < |hnfs|
    ensures i <= j < |hnfs| && hnfs[i] == hnfs[j] && LastGiven(hnfs, j, |hnfs|)
    decreases |hnfs| - i
  {
    if k :| i < k < |hnfs| && hnfs[k] == hnfs[i] {
      j := LastPlace(hnfs, k);
    } else {
      j := i;
    }
  }

  lemma {:induction false} StoredKeepsLines(before: map<nat, (seq<Range>, int)>, after: map<nat, (seq<Range>, int)>, hnfs: seq<nat>,
                                            mem: seq<Range>, lineSize: nat)
    requires 1 <= lineSize && hnfs != [] && Stored(before, after, hnfs, HomeSlices(mem, lineSize, |hnfs|), |hnfs|)
    ensures LinesWholeAtHomes(after, hnfs, |mem|, FloorLog2(lineSize))
  {
    var low, bits := FloorLog2(lineSize), FloorLog2(|hnfs|);
    forall i | 0 <= i < |hnfs|
      ensures hnfs[i] in after && |after[hnfs[i]].0| == |mem|
      ensures forall k :: 0 <= k < |mem| ==> KeepsLines(after[hnfs[i]].0[k], low)
    {
      var j := StoredSlice(before, after, hnfs, mem, lineSize, i);
      forall k | 0 <= k < |mem|
        ensures KeepsLines(HomeRanges(mem, lineSize, |hnfs|, j)[k], low)
      {
        IntlvMasksStepped(low, false, 0, bits);
        SteppedKeepsLines(HomeRanges(mem, lineSize, |hnfs|, j)[k], low);
      }
    }
  }

  lemma {:induction false} StoredDealsLines(before: map<nat, (seq<Range>, int)>, after: map<nat, (seq<Range>, int)>, hnfs: seq<nat>,
                                            mem: seq<Range>, lineSize: nat)
    requires 1 <= lineSize && hnfs != [] && Stored(before, after, hnfs, HomeSlices(mem, lineSize, |hnfs|), |hnfs|)
    requires NoTwice(hnfs) && IsPow2(|hnfs|)
    ensures LinesDealtToHomes(after, hnfs, |mem|, FloorLog2(lineSize), FloorLog2(|hnfs|))
  {
    forall i | 0 <= i < |hnfs|
      ensures hnfs[i] in after && after[hnfs[i]].0 == HomeRanges(mem, lineSize, |hnfs|, i)
    {
      var j := StoredSlice(before, after, hnfs, mem, lineSize, i);
      assert i == j;
    }
    forall k: nat | k < |mem|
      ensures DealsLines(PartsOf(after, hnfs, |mem|, k), FloorLog2(|hnfs|), FloorLog2(lineSize))
      ensures DealsLines(AllRespread(PartsOf(after, hnfs, |mem|, k)), FloorLog2(|hnfs|), FloorLog2(lineSize))
    {
      var masks := IntlvMasks(FloorLog2(lineSize), false, 0, FloorLog2(|hnfs|));
      PartsDealLines(PartsOf(after, hnfs, |mem|, k), masks, FloorLog2(lineSize));
    }
  }

  lemma {:induction false} PartsDealLines(parts: seq<Range>, masks: seq<nat>, low: nat)
    requires Numbered(parts, masks) && masks == IntlvMasks(low, false, 0, |masks|)
    ensures DealsLines(parts, |masks|, low) && DealsLines(AllRespread(parts), |masks|, low)
  {
    IntlvMasksStepped(low, false, 0, |masks|);
    SteppedDealsLines(parts, masks, low);
    SpreadStepped(masks, low);
    SteppedDealsLines(AllRespread(parts), SpreadAll(masks), low);
  }

  /** Which home node has an address is decided by the bits from the line number up to the
      highest interleaving bit, by each of them and by no other. */
  lemma {:induction false} NumaBitExactly(mem: seq<Range>, lineSize: nat, count: nat, i: nat, k: nat, b: nat)
    requires 1 <= lineSize && 1 <= count && k < |mem|
    ensures Decides(HomeRanges(mem, lineSize, count, i)[k].masks, b) <==> FloorLog2(lineSize) <= b <= NumaBit(lineSize, count)
  {
    DecidesExactly(FloorLog2(lineSize), FloorLog2(count), b);
  }

  /** The bit recorded with a home node is the highest one that decides about its ranges; all
      bits from the line number up to it do. */
  ghost predicate TopBitExact(homes: map<nat, (seq<Range>, int)>, hnfs: seq<nat>, ranges: nat, low: nat) {
    && Covers(homes, hnfs, ranges)
    && forall i, k, b: nat :: 0 <= i < |hnfs| && 0 <= k < ranges ==>
         (Decides(homes[hnfs[i]].0[k].masks, b) <==> low <= b <= homes[hnfs[i]].1)
  }

  lemma {:induction false} StoredTopBit(before: map<nat, (seq<Range>, int)>, after: map<nat, (seq<Range>, int)>, hnfs: seq<nat>,
                                        mem: seq<Range>, lineSize: nat)
    requires 1 <= lineSize && hnfs != [] && Stored(before, after, hnfs, HomeSlices(mem, lineSize, |hnfs|), |hnfs|)
    ensures TopBitExact(after, hnfs, |mem|, FloorLog2(lineSize))
  {
    forall i | 0 <= i < |hnfs|
      ensures hnfs[i] in after && |after[hnfs[i]].0| == |mem|
      ensures forall k, b: nat :: 0 <= k < |mem| ==>
                (Decides(after[hnfs[i]].0[k].masks, b) <==> FloorLog2(lineSize) <= b <= after[hnfs[i]].1)
    {
      var j := StoredSlice(before, after, hnfs, mem, lineSize, i);
      forall k, b: nat | 0 <= k < |mem|
        ensures Decides(HomeRanges(mem, lineSize, |hnfs|, j)[k].masks, b) <==> FloorLog2(lineSize) <= b <= NumaBit(lineSize, |hnfs|)
      {
        NumaBitExactly(mem, lineSize, |hnfs|, j, k, b);
      }
    }
  }

  /** Home node i, and no other, holds a. */
  ghost predicate OnlyHome(parts: seq<Range>, a: nat, i: nat) {
    i < |parts| && Holds(parts[i], a) && forall i' :: 0 <= i' < |parts| && Holds(parts[i'], a) ==> i' == i
  }

  ghost predicate HasHome(parts: seq<Range>, a: nat) {
    exists i: nat :: OnlyHome(parts, a, i)
  }

  ghost predicate SharedAt(parts: seq<Range>, r: Range, a: nat) {
    if r.start <= a < r.end then HasHome(parts, a) else forall i :: 0 <= i < |parts| ==> !Holds(parts[i], a)
  }

  /** Every address of a memory range is held by exactly one home node, and no other address
      is held by any. */
  ghost predicate MemoryShared(homes: map<nat, (seq<Range>, int)>, hnfs: seq<nat>, mem: seq<Range>) {
    && Covers(homes, hnfs, |mem|)
    && forall k: nat, a: nat :: k < |mem| ==> SharedAt(PartsOf(homes, hnfs, |mem|, k), mem[k], a)
  }

  lemma {:induction false} StoredSharesMemory(before: map<nat, (seq<Range>, int)>, after: map<nat, (seq<Range>, int)>, hnfs: seq<nat>,
                                              mem: seq<Range>, lineSize: nat)
    requires 1 <= lineSize && hnfs != [] && Stored(before, after, hnfs, HomeSlices(mem, lineSize, |hnfs|), |hnfs|)
    requires NoTwice(hnfs) && IsPow2(|hnfs|)
    ensures MemoryShared(after, hnfs, mem)
  {
    forall i | 0 <= i < |hnfs|
      ensures hnfs[i] in after && after[hnfs[i]].0 == HomeRanges(mem, lineSize, |hnfs|, i)
    {
      var j := StoredSlice(before, after, hnfs, mem, lineSize, i);
      assert i == j;
    }
    forall k: nat, a: nat | k < |mem|
      ensures SharedAt(PartsOf(after, hnfs, |mem|, k), mem[k], a)
    {
      var parts := PartsOf(after, hnfs, |mem|, k);
      if mem[k].start <= a < mem[k].end {
        var i := HomeNodeUnique(mem, lineSize, |hnfs|, k, a);
        assert OnlyHome(parts, a, i);
      }
    }
  }

  /** The slices are ranges the simulator takes if and only if the number of home nodes is
      a power of two of at most 256. */
  lemma {:induction false} HomeRangesConstruct(mem: seq<Range>, lineSize: nat, count: nat)
    requires mem != [] && 1 <= lineSize && 1 <= count
    ensures (forall i, k :: 0 <= i < count && 0 <= k < |mem| ==> Constructs(HomeRanges(mem, lineSize, count, i)[k]))
       <==> IsPow2(count) && count <= 256
  {
    var n := FloorLog2(count);
    if !IsPow2(count) {
      assert !Constructs(HomeRanges(mem, lineSize, count, Pow2(n))[0]);
    } else if count > 256 {
      assert !Constructs(HomeRanges(mem, lineSize, count, 256)[0]);
    }
  }

  /** Then every address of a memory range belongs to exactly one home node. */
  lemma {:induction false} HomeNodeUnique(mem: seq<Range>, lineSize: nat, count: nat, k: nat, a: nat) returns (i: nat)
    requires 1 <= lineSize && IsPow2(count) && k < |mem| && mem[k].start <= a < mem[k].end
    ensures i < count && Holds(HomeRanges(mem, lineSize, count, i)[k], a)
    ensures forall i' :: 0 <= i' < count && Holds(HomeRanges(mem, lineSize, count, i')[k], a) ==> i' == i
  {
    var masks := IntlvMasks(FloorLog2(lineSize), false, 0, FloorLog2(count));
    i := Sel(a, masks);
    SelBound(a, masks);
  }

  lemma {:induction false} DivideTwice(a: nat, p: nat, q: nat) returns (upper: nat, j: nat, o: nat)
    requires 1 <= p && 1 <= q
    ensures j < q && o < p && a / p == upper * q + j && a == (upper * q + j) * p + o
    ensures p * q >= 1 && a / (p * q) == upper
  {
    var x := a / p;
    o := a % p;
    DivModParts(a, p);
    upper, j := x / q, x % q;
    DivModParts(x, q);
    InnerPart(p, q, upper, j, o);
    DivModUnique(a, p * q, upper, j * p + o);
  }

  lemma {:induction false} InnerPart(p: nat, q: nat, upper: nat, j: nat, o: nat)
    requires j < q && o < p
    ensures j * p + o < p * q
    ensures (upper * q + j) * p + o == upper * (p * q) + (j * p + o)
  {
    TimesMonotone(j + 1, q, p);
    assert (upper * q) * p == upper * (p * q);
  }

  /** The run and the line of the run that an address is in. */
  lemma {:induction false} AddressInRun(a: nat, low: nat, bits: nat) returns (upper: nat, j: nat, o: nat)
    ensures j < Pow2(bits) && o < Pow2(low) && a == LineAddress(upper, bits, j, low, o)
    ensures Line(a, low) == upper * Pow2(bits) + j && Line(a, low + bits) == upper
  {
    upper, j, o := DivideTwice(a, Pow2(low), Pow2(bits));
    Pow2Sum(low, bits);
  }

  lemma {:induction false} OwnLineOf(low: nat, bits: nat, i: nat, own: nat, upper: nat, a: nat)
    requires Line(a, low + bits) == upper && Sel(a, IntlvMasks(low, false, 0, bits)) == i
    requires forall j', o ::
               (0 <= j' < Pow2(bits) && 0 <= o < Pow2(low) && Sel(LineAddress(upper, bits, j', low, o), IntlvMasks(low, false, 0, bits)) == i)
               ==> j' == own
    ensures Line(a, low) == upper * Pow2(bits) + own
  {
    var u, j, o := AddressInRun(a, low, bits);
    assert u == upper;
    assert Sel(LineAddress(upper, bits, j, low, o), IntlvMasks(low, false, 0, bits)) == i;
  }

  lemma {:induction false} SameRunSameLine(low: nat, bits: nat, i: nat, a: nat, a': nat)
    requires Sel(a, IntlvMasks(low, false, 0, bits)) == i == Sel(a', IntlvMasks(low, false, 0, bits))
    requires Line(a, low + bits) == Line(a', low + bits)
    ensures Line(a, low) == Line(a', low)
  {
    var masks, upper := IntlvMasks(low, false, 0, bits), Line(a, low + bits);
    IntlvMasksStepped(low, false, 0, bits);
    SelBound(a, masks);
    var own := SteppedDealsEvenly(masks, low, upper, i);
    OwnLineOf(low, bits, i, own, upper, a);
    OwnLineOf(low, bits, i, own, upper, a');
  }

  /** The cache of a home node takes its index bits from above the highest interleaving bit.
      Nothing is lost: two addresses of one home node that agree in all bits from there up are
      in the same line. */
  lemma {:induction false} IndexAboveInterleaving(mem: seq<Range>, lineSize: nat, count: nat, i: nat, k: nat, a: nat, a': nat)
    requires 1 <= lineSize && 1 <= count && k < |mem|
    requires Holds(HomeRanges(mem, lineSize, count, i)[k], a) && Holds(HomeRanges(mem, lineSize, count, i)[k], a')
    requires Line(a, NumaBit(lineSize, count) + 1) == Line(a', NumaBit(lineSize, count) + 1)
    ensures Line(a, FloorLog2(lineSize)) == Line(a', FloorLog2(lineSize))
  {
    SameRunSameLine(FloorLog2(lineSize), FloorLog2(count), i, a, a');
  }

  /** Three home nodes: the third one's match value does not fit the only mask. */
  lemma {:induction false} ThreeHomeNodesRefused()
    ensures !Constructs(HomeRanges([Range(0, 4096, [], 0)], 64, 3, 2)[0])
  {
    assert FloorLog2(3) == 1 && Pow2(1) == 2;
  }

  // Memory channels.

  /** The masks of one memory interface: hashing is off when no low bit is given. */
  method MemIntfMasks(intlvLowBit: nat, intlvBits: nat, xorLowBit: nat) returns (masks: seq<nat>)
    ensures masks == IntlvMasks(intlvLowBit, xorLowBit != 0, xorLowBit, intlvBits)
  {
    var xorHighBit: int := if xorLowBit != 0 then xorLowBit + intlvBits - 1 else 0;
    masks := MakeMasks(intlvLowBit + intlvBits - 1, xorHighBit, intlvBits);
  }

  function Channel(start: nat, end: nat, low: nat, xorLow: nat, bits: nat, i: nat): Range {
    Range(start, end, IntlvMasks(low, xorLow != 0, xorLow, bits), i)
  }

  /** Memory channels, with hashing on or off: every address belongs to exactly one of the
      2^bits channels. */
  lemma {:induction false} ChannelUnique(start: nat, end: nat, low: nat, xorLow: nat, bits: nat, a: nat) returns (i: nat)
    requires start <= a < end
    ensures i < Pow2(bits) && Holds(Channel(start, end, low, xorLow, bits, i), a)
    ensures forall i': nat, a': nat :: Holds(Channel(start, end, low, xorLow, bits, i'), a') ==> start <= a' < end
    ensures forall i' :: Holds(Channel(start, end, low, xorLow, bits, i'), a) ==> i' == i
  {
    i := Sel(a, IntlvMasks(low, xorLow != 0, xorLow, bits));
    SelBound(a, IntlvMasks(low, xorLow != 0, xorLow, bits));
  }

  /** And when the hash bits lie no lower than the interleaving bits, every aligned window
      of 2^bits chunks gives each channel exactly one whole chunk. */
  lemma {:induction false} ChannelsBalanced(low: nat, xorLow: nat, bits: nat, window: nat, i: nat) returns (chunk: nat)
    requires (xorLow == 0 || low <= xorLow) && i < Pow2(bits)
    ensures chunk < Pow2(bits)
    ensures forall c, o :: 0 <= c < Pow2(bits) && 0 <= o < Pow2(low) ==>
              (Sel(LineAddress(window, bits, c, low, o), IntlvMasks(low, xorLow != 0, xorLow, bits)) == i <==> c == chunk)
  {
    IntlvMasksStepped(low, xorLow != 0, xorLow, bits);
    chunk := SteppedDealsEvenly(IntlvMasks(low, xorLow != 0, xorLow, bits), low, window, i);
  }
}
