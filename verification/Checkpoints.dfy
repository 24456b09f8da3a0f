/** Combining checkpoints: their memory images are laid one after the other and the physical
    addresses in the page tables of checkpoint i are moved up by the pages before it. */
module Checkpoints {
  import opened SectionNames

  const PAGE: nat := 4096
  const STORE := "system.physmem.store0"
  const ZERO: bv8 := 0x30 // the character '0', not the byte 0

  datatype Value = Number(number: int) | Text(text: string)

  datatype Section = Section(name: string, items: map<string, Value>)

  /** The sections of a checkpoint, the page count its "system" section gives, its memory image. */
  datatype Checkpoint = Checkpoint(sections: seq<Section>, pages: nat, image: seq<bv8>)

  ghost predicate DistinctNames(sections: seq<Section>) {
    forall k, m :: 0 <= k < m < |sections| ==> sections[k].name != sections[m].name
  }

  predicate SectionReadable(s: Section) {
    && (HasCpu(s.name) && "paddr" in s.items ==> s.items["paddr"].Number?)
    && (s.name == "Globals" ==> "curTick" in s.items && s.items["curTick"].Number?)
  }

  ghost predicate Readable(c: Checkpoint) {
    DistinctNames(c.sections) && forall s :: s in c.sections ==> SectionReadable(s)
  }

  ghost predicate AllReadable(cpts: seq<Checkpoint>) {
    forall i :: 0 <= i < |cpts| ==> Readable(cpts[i])
  }

  ghost predicate HasSection(sections: seq<Section>, name: string) {
    exists k :: 0 <= k < |sections| && sections[k].name == name
  }

  // ---- Sections ----

  predicate IsFdMap(name: string) {
    var k := |name| - 17;
    k >= 0 && name[k..k + 8] == "workload" && name[k + 9..] == "FdMap256"
  }

  function Relocated(items: map<string, Value>, base: nat): map<string, Value> {
    if "paddr" in items && items["paddr"].Number? then
      items["paddr" := Number(items["paddr"].number + base * PAGE)]
    else
      items
  }

  /** What a section about a CPU of checkpoint i of n becomes, with base pages before it. */
  function Carried(s: Section, i: nat, n: nat, base: nat): Section
    requires i < n
  {
    var items := Relocated(s.items, base);
    Section(Rename(s.name, i, n), if IsFdMap(s.name) then items["M5_pid" := Number(i)] else items)
  }

  predicate Kept(s: Section, i: nat, n: nat) {
    HasCpu(s.name) || (s.name != "system" && s.name != "Globals" && i == n - 1)
  }

  /** What checkpoint i of n contributes. */
  function Part(sections: seq<Section>, i: nat, n: nat, base: nat): seq<Section>
    requires i < n
  {
    if sections == [] then []
    else
      var s := sections[|sections| - 1];
      Part(sections[..|sections| - 1], i, n, base)
      + (if !Kept(s, i, n) then [] else if HasCpu(s.name) then [Carried(s, i, n, base)] else [s])
  }

  function PagesBefore(cpts: seq<Checkpoint>, i: nat): nat
    requires i <= |cpts|
  {
    if i == 0 then 0 else PagesBefore(cpts, i - 1) + cpts[i - 1].pages
  }

  /** What the first k of the checkpoints contribute. */
  function Parts(cpts: seq<Checkpoint>, k: nat): seq<Section>
    requires k <= |cpts|
  {
    if k == 0 then []
    else Parts(cpts, k - 1) + Part(cpts[k - 1].sections, k - 1, |cpts|, PagesBefore(cpts, k - 1))
  }

  function WithRangeSize(sections: seq<Section>, size: nat): (r: seq<Section>)
    ensures |r| == |sections|
    ensures forall k :: 0 <= k < |r| ==> r[k].name == sections[k].name
  {
    seq(|sections|, k requires 0 <= k < |sections| =>
      if sections[k].name == STORE
      then Section(STORE, sections[k].items["range_size" := Number(size)])
      else sections[k])
  }

  /** The fewest pages, at least the given number, that hold memorySize bytes. */
  function PaddedPages(pages: nat, memorySize: int): (r: nat)
    ensures r >= pages && r * PAGE >= memorySize
    ensures r > pages ==> (r - 1) * PAGE < memorySize
  {
    if pages * PAGE >= memorySize then pages else (memorySize + PAGE - 1) / PAGE
  }

  function MergedSections(cpts: seq<Checkpoint>, memorySize: int, tick: int): seq<Section> {
    var pages := PagesBefore(cpts, |cpts|);
    WithRangeSize(Parts(cpts, |cpts|), PaddedPages(pages, memorySize) * PAGE)
    + [Section("system", map["pagePtr" := Number(pages), "nextPID" := Number(|cpts|)]),
       Section("Globals", map["curTick" := Number(tick)])]
  }

  ghost predicate HasTick(s: Section, tick: int) {
    s.name == "Globals" && "curTick" in s.items && s.items["curTick"] == Number(tick)
  }

  ghost predicate TickBound(sections: seq<Section>, tick: int) {
    forall s, t :: s in sections && HasTick(s, t) ==> t <= tick
  }

  ghost predicate TickFound(cpts: seq<Checkpoint>, tick: int) {
    exists i, s :: 0 <= i < |cpts| && s in cpts[i].sections && HasTick(s, tick)
  }

  /** The latest tick of the first k checkpoints, or 0. */
  ghost predicate LatestTick(cpts: seq<Checkpoint>, k: nat, tick: int)
    requires k <= |cpts|
  {
    && tick >= 0 && (forall j :: 0 <= j < k ==> TickBound(cpts[j].sections, tick))
    && (tick == 0 || TickFound(cpts, tick))
  }

  lemma {:induction false} LatestNext(cpts: seq<Checkpoint>, k: nat, before: int, tick: int)
    requires k < |cpts| && LatestTick(cpts, k, before) && before <= tick && TickBound(cpts[k].sections, tick)
    requires tick == before || exists s :: s in cpts[k].sections && HasTick(s, tick)
    ensures LatestTick(cpts, k + 1, tick)
  {
    forall j | 0 <= j < k
      ensures TickBound(cpts[j].sections, tick)
    {
      TickRaised(cpts[j].sections, before, tick);
    }
  }

  // ---- Memory ----

  function Min(a: nat, b: nat): nat {
    if a < b then a else b
  }

  /** The bytes of its image that a checkpoint contributes. */
  function Bytes(c: Checkpoint): seq<bv8> {
    c.image[..Min(|c.image|, c.pages * PAGE)]
  }

  /** The image is as long as the page count says. */
  predicate Full(c: Checkpoint) {
    |c.image| >= c.pages * PAGE
  }

  function Joined(cpts: seq<Checkpoint>, k: nat): seq<bv8>
    requires k <= |cpts|
  {
    if k == 0 then [] else Joined(cpts, k - 1) + Bytes(cpts[k - 1])
  }

  function Padding(size: nat): (r: seq<bv8>)
    ensures |r| == size
  {
    seq(size, k => ZERO)
  }

  function MergedMemory(cpts: seq<Checkpoint>, memorySize: int): seq<bv8> {
    var pages := PagesBefore(cpts, |cpts|);
    Joined(cpts, |cpts|) + Padding((PaddedPages(pages, memorySize) - pages) * PAGE)
  }

  // ---- The script ----

  method ReadPages(c: Checkpoint) returns (bytes: seq<bv8>)
    ensures bytes == Bytes(c)
  {
    bytes := [];
    var x := 0;
    while x < c.pages
      invariant x <= c.pages
      invariant bytes == c.image[..Min(|c.image|, x * PAGE)]
    {
      var from := Min(|c.image|, x * PAGE);
      var to := Min(|c.image|, from + PAGE);
      bytes := bytes + c.image[from..to];
      x := x + 1;
    }
  }

  method Pad(pages: nat, memorySize: int) returns (bytes: seq<bv8>, padded: nat)
    ensures padded == PaddedPages(pages, memorySize)
    ensures bytes == Padding((padded - pages) * PAGE)
  {
    bytes, padded := [], pages;
    var fileSize := pages * PAGE;
    while fileSize < memorySize
      invariant pages <= padded && fileSize == padded * PAGE
      invariant padded > pages ==> (padded - 1) * PAGE < memorySize
      invariant bytes == Padding((padded - pages) * PAGE)
      decreases memorySize - fileSize
    {
      bytes := bytes + Padding(PAGE);
      fileSize := fileSize + PAGE;
      padded := padded + 1;
    }
  }

  method MergeSections(c: Checkpoint, i: nat, n: nat, base: nat, latest: int)
    returns (merged: seq<Section>, tick: int)
    requires Readable(c) && i < n
    ensures merged == Part(c.sections, i, n, base)
    ensures latest <= tick && TickBound(c.sections, tick)
    ensures tick == latest || exists s :: s in c.sections && HasTick(s, tick)
  {
    merged, tick := [], latest;
    for k := 0 to |c.sections|
      invariant merged == Part(c.sections[..k], i, n, base)
      invariant latest <= tick && TickBound(c.sections[..k], tick)
      invariant tick == latest || exists s :: s in c.sections && HasTick(s, tick)
    {
      var s := c.sections[k];
      assert SectionReadable(s);
      PartNext(c.sections, k, i, n, base);
      TickNext(c.sections, k, tick);
      if HasCpu(s.name) {
        merged := merged + [Carried(s, i, n, base)];
      } else if s.name == "system" {
      } else if s.name == "Globals" {
        var t := s.items["curTick"].number;
        assert HasTick(s, t);
        if t > tick {
          TickRaised(c.sections[..k], tick, t);
          tick := t;
        }
      } else if i == n - 1 {
        merged := merged + [s];
      }
    }
    assert c.sections[..|c.sections|] == c.sections;
  }

  lemma {:induction false} PartNext(sections: seq<Section>, k: nat, i: nat, n: nat, base: nat)
    requires k < |sections| && i < n
    ensures var s := sections[k];
            Part(sections[..k + 1], i, n, base)
            == Part(sections[..k], i, n, base)
               + (if !Kept(s, i, n) then [] else if HasCpu(s.name) then [Carried(s, i, n, base)] else [s])
  {
    assert sections[..k + 1][..k] == sections[..k];
  }

  /** A further section raises the bound only if it is the one with the tick. */
  lemma {:induction false} TickNext(sections: seq<Section>, k: nat, tick: int)
    requires k < |sections|
    ensures HasCpu(sections[k].name) ==> sections[k].name != "Globals"
    ensures forall t :: (TickBound(sections[..k], t) && forall u :: HasTick(sections[k], u) ==> u <= t) ==> TickBound(sections[..k + 1], t)
  {
    if HasCpu(sections[k].name) {
      OtherName(sections[k].name, "Globals");
    }
    assert sections[..k + 1] == sections[..k] + [sections[k]];
  }

  lemma {:induction false} TickRaised(sections: seq<Section>, tick: int, t: int)
    requires TickBound(sections, tick) && tick <= t
    ensures TickBound(sections, t)
  {
  }

  /** All checkpoints one after the other. */
  method MergeAll(cpts: seq<Checkpoint>) returns (sections: seq<Section>, memory: seq<bv8>, pages: nat, tick: int)
    requires AllReadable(cpts)
    ensures sections == Parts(cpts, |cpts|) && memory == Joined(cpts, |cpts|) && pages == PagesBefore(cpts, |cpts|)
    ensures LatestTick(cpts, |cpts|, tick)
  {
    sections, memory, pages, tick := [], [], 0, 0;
    for i := 0 to |cpts|
      invariant sections == Parts(cpts, i) && memory == Joined(cpts, i) && pages == PagesBefore(cpts, i)
      invariant LatestTick(cpts, i, tick)
    {
      var part, latest := MergeSections(cpts[i], i, |cpts|, pages, tick);
      LatestNext(cpts, i, tick, latest);
      sections, tick := sections + part, latest;
      pages := pages + cpts[i].pages;
      var bytes := ReadPages(cpts[i]);
      memory := memory + bytes;
    }
  }

  method Aggregate(cpts: seq<Checkpoint>, memorySize: int)
    returns (sections: seq<Section>, memory: seq<bv8>, tick: int)
    requires cpts != [] && AllReadable(cpts)
    requires HasSection(cpts[|cpts| - 1].sections, STORE)
    ensures sections == MergedSections(cpts, memorySize, tick)
    ensures memory == MergedMemory(cpts, memorySize)
    ensures LatestTick(cpts, |cpts|, tick)
    ensures FileSays(cpts, sections, memory, memorySize, tick)
  {
    var pages;
    sections, memory, pages, tick := MergeAll(cpts);
    var padding, padded := Pad(pages, memorySize);
    memory := memory + padding;
    sections := WithRangeSize(sections, padded * PAGE)
      + [Section("system", map["pagePtr" := Number(pages), "nextPID" := Number(|cpts|)]),
         Section("Globals", map["curTick" := Number(tick)])];
    MergedFileSays(cpts, sections, memory, memorySize, tick);
  }

  // ---- Where the bytes are, and where the addresses point ----

  ghost predicate FullUpTo(cpts: seq<Checkpoint>, k: nat)
    requires k <= |cpts|
  {
    forall j :: 0 <= j < k ==> Full(cpts[j])
  }

  /** The bytes of checkpoint i start at the offset its addresses were moved by if and only if
      every image before it was as long as its page count says; otherwise they start lower. */
  lemma {:induction false} OffsetExactly(cpts: seq<Checkpoint>, i: nat)
    requires i <= |cpts|
    ensures |Joined(cpts, i)| <= PagesBefore(cpts, i) * PAGE
    ensures |Joined(cpts, i)| == PagesBefore(cpts, i) * PAGE <==> FullUpTo(cpts, i)
  {
    if i > 0 {
      OffsetExactly(cpts, i - 1);
      assert FullUpTo(cpts, i) <==> FullUpTo(cpts, i - 1) && Full(cpts[i - 1]);
    }
  }

  /** The memory written is as long as the pages it is to hold if and only if every image was
      as long as its page count says. */
  lemma {:induction false} PaddedSizeExactly(cpts: seq<Checkpoint>, memorySize: int)
    ensures |MergedMemory(cpts, memorySize)| == PaddedPages(PagesBefore(cpts, |cpts|), memorySize) * PAGE
       <==> FullUpTo(cpts, |cpts|)
  {
    OffsetExactly(cpts, |cpts|);
  }

  lemma {:induction false} JoinedAt(cpts: seq<Checkpoint>, k: nat, i: nat, a: nat)
    requires i < k <= |cpts| && a < |Bytes(cpts[i])|
    ensures |Joined(cpts, i)| + a < |Joined(cpts, k)|
    ensures Joined(cpts, k)[|Joined(cpts, i)| + a] == cpts[i].image[a]
  {
    if i < k - 1 {
      JoinedAt(cpts, k - 1, i, a);
    }
  }

  /** With full images, a byte of checkpoint i is found at its address moved up by the pages before. */
  lemma {:induction false} ByteRelocated(cpts: seq<Checkpoint>, memorySize: int, i: nat, a: nat)
    requires i < |cpts| && FullUpTo(cpts, |cpts|) && a < cpts[i].pages * PAGE
    ensures PagesBefore(cpts, i) * PAGE + a < |MergedMemory(cpts, memorySize)|
    ensures MergedMemory(cpts, memorySize)[PagesBefore(cpts, i) * PAGE + a] == cpts[i].image[a]
  {
    OffsetExactly(cpts, i);
    JoinedAt(cpts, |cpts|, i, a);
  }

  lemma {:induction false} PagesBeforeGrows(cpts: seq<Checkpoint>, i: nat, j: nat)
    requires i < j <= |cpts|
    ensures PagesBefore(cpts, i) + cpts[i].pages <= PagesBefore(cpts, j)
  {
    if i < j - 1 {
      PagesBeforeGrows(cpts, i, j - 1);
    }
  }

  /** Two checkpoints never share a page. */
  lemma {:induction false} PagesApart(cpts: seq<Checkpoint>, i: nat, a: nat, j: nat, b: nat)
    requires i < |cpts| && a < cpts[i].pages * PAGE && j < |cpts| && b < cpts[j].pages * PAGE
    requires PagesBefore(cpts, i) * PAGE + a == PagesBefore(cpts, j) * PAGE + b
    ensures i == j && a == b
  {
    if i < j {
      PagesBeforeGrows(cpts, i, j);
    } else if j < i {
      PagesBeforeGrows(cpts, j, i);
    }
  }

  // ---- The names in the merged file ----

  /** A section of the file that stems from section s of checkpoint i. */
  ghost predicate Stems(r: Section, s: Section, i: nat, n: nat) {
    i < n && Kept(s, i, n) && r.name == Rename(s.name, i, n)
  }

  ghost predicate StemsFrom(r: Section, sections: seq<Section>, i: nat, n: nat) {
    exists s :: s in sections && Stems(r, s, i, n)
  }

  ghost predicate StemsFromUpTo(r: Section, cpts: seq<Checkpoint>, k: nat)
    requires k <= |cpts|
  {
    exists i :: 0 <= i < k && StemsFrom(r, cpts[i].sections, i, |cpts|)
  }

  lemma {:induction false} PartNames(sections: seq<Section>, i: nat, n: nat, base: nat)
    requires i < n && DistinctNames(sections)
    ensures DistinctNames(Part(sections, i, n, base))
    ensures forall r :: r in Part(sections, i, n, base) ==> StemsFrom(r, sections, i, n)
  {
    if sections != [] {
      var rest, s := sections[..|sections| - 1], sections[|sections| - 1];
      PartNames(rest, i, n, base);
      if Kept(s, i, n) {
        var r := Part(sections, i, n, base)[|Part(rest, i, n, base)|];
        if !HasCpu(s.name) {
          PlainNameKept(s.name, Decimals.ZeroFilled(Decimals.Decimal(i), |Decimals.Decimal(n - 1)|));
        }
        assert Stems(r, s, i, n);
        forall q | q in Part(rest, i, n, base)
          ensures q.name != r.name && StemsFrom(q, sections, i, n)
        {
          var t :| t in rest && Stems(q, t, i, n);
          assert t in sections;
          if q.name == r.name {
            RenameUnique(s.name, i, t.name, i, n);
            assert false;
          }
        }
      }
    }
  }

  lemma {:induction false} NotTheSame(q: Section, cpts: seq<Checkpoint>, k: nat, r: Section)
    requires k < |cpts| && StemsFromUpTo(q, cpts, k) && StemsFrom(r, cpts[k].sections, k, |cpts|)
    ensures q.name != r.name
  {
    var i :| 0 <= i < k && StemsFrom(q, cpts[i].sections, i, |cpts|);
    var t :| t in cpts[i].sections && Stems(q, t, i, |cpts|);
    var s :| s in cpts[k].sections && Stems(r, s, k, |cpts|);
    if q.name == r.name {
      RenameUnique(t.name, i, s.name, k, |cpts|);
    }
  }

  lemma {:induction false} PartsNames(cpts: seq<Checkpoint>, k: nat)
    requires k <= |cpts| && AllReadable(cpts)
    ensures DistinctNames(Parts(cpts, k))
    ensures forall r :: r in Parts(cpts, k) ==> StemsFromUpTo(r, cpts, k)
  {
    if k > 0 {
      PartsNames(cpts, k - 1);
      var before, part := Parts(cpts, k - 1), Part(cpts[k - 1].sections, k - 1, |cpts|, PagesBefore(cpts, k - 1));
      PartNames(cpts[k - 1].sections, k - 1, |cpts|, PagesBefore(cpts, k - 1));
      forall q, r | q in before && r in part
        ensures q.name != r.name
      {
        NotTheSame(q, cpts, k - 1, r);
      }
      forall r | r in Parts(cpts, k)
        ensures StemsFromUpTo(r, cpts, k)
      {
        if r in before {
          var i :| 0 <= i < k - 1 && StemsFrom(r, cpts[i].sections, i, |cpts|);
        } else {
          assert r in part && StemsFrom(r, cpts[k - 1].sections, k - 1, |cpts|);
        }
      }
    }
  }

  lemma {:induction false} FixedNameAbsent(r: Section, cpts: seq<Checkpoint>, name: string)
    requires StemsFromUpTo(r, cpts, |cpts|) && name in {"system", "Globals"}
    ensures r.name != name
  {
    var i :| 0 <= i < |cpts| && StemsFrom(r, cpts[i].sections, i, |cpts|);
    var s :| s in cpts[i].sections && Stems(r, s, i, |cpts|);
    NotAboutCpu(name);
    RenamedIsNotPlain(s.name, name, i, |cpts|);
  }

  /** No two sections of the merged file have the same name: the state of one program is
      never taken for that of another. */
  lemma {:induction false} MergedNamesDistinct(cpts: seq<Checkpoint>, memorySize: int, tick: int)
    requires AllReadable(cpts)
    ensures DistinctNames(MergedSections(cpts, memorySize, tick))
  {
    var parts := Parts(cpts, |cpts|);
    PartsNames(cpts, |cpts|);
    forall k | 0 <= k < |parts|
      ensures parts[k].name != "system" && parts[k].name != "Globals"
    {
      assert parts[k] in parts;
      FixedNameAbsent(parts[k], cpts, "system");
      FixedNameAbsent(parts[k], cpts, "Globals");
    }
    assert "system"[0] != "Globals"[0];
  }

  lemma {:induction false} CarriedInPart(sections: seq<Section>, s: Section, i: nat, n: nat, base: nat)
    requires i < n && s in sections && HasCpu(s.name)
    ensures Carried(s, i, n, base) in Part(sections, i, n, base)
  {
    if s != sections[|sections| - 1] {
      CarriedInPart(sections[..|sections| - 1], s, i, n, base);
    }
  }

  lemma {:induction false} CarriedInParts(cpts: seq<Checkpoint>, k: nat, i: nat, s: Section)
    requires i < k <= |cpts| && s in cpts[i].sections && HasCpu(s.name)
    ensures Carried(s, i, |cpts|, PagesBefore(cpts, i)) in Parts(cpts, k)
  {
    var r, part := Carried(s, i, |cpts|, PagesBefore(cpts, i)), Part(cpts[k - 1].sections, k - 1, |cpts|, PagesBefore(cpts, k - 1));
    if i < k - 1 {
      CarriedInParts(cpts, k - 1, i, s);
    } else {
      CarriedInPart(cpts[i].sections, s, i, |cpts|, PagesBefore(cpts, i));
    }
    InEither(Parts(cpts, k - 1), part, r);
  }

  lemma {:induction false} InEither(a: seq<Section>, b: seq<Section>, r: Section)
    requires r in a || r in b
    ensures r in a + b
  {
  }

  lemma {:induction false} KeptByRangeSize(sections: seq<Section>, size: nat, r: Section)
    requires r in sections && r.name != STORE
    ensures r in WithRangeSize(sections, size)
  {
    var k :| 0 <= k < |sections| && sections[k] == r;
    assert WithRangeSize(sections, size)[k] == r;
  }

  lemma {:induction false} CarriedInFile(cpts: seq<Checkpoint>, memorySize: int, tick: int, i: nat, s: Section)
    requires i < |cpts| && s in cpts[i].sections && HasCpu(s.name)
    ensures Carried(s, i, |cpts|, PagesBefore(cpts, i)) in MergedSections(cpts, memorySize, tick)
  {
    var r := Carried(s, i, |cpts|, PagesBefore(cpts, i));
    CarriedInParts(cpts, |cpts|, i, s);
    NotAboutCpu(STORE);
    RenamedIsNotPlain(s.name, STORE, i, |cpts|);
    KeptByRangeSize(Parts(cpts, |cpts|), PaddedPages(PagesBefore(cpts, |cpts|), memorySize) * PAGE, r);
  }

  // ---- What the merged file says ----

  /** There is a section of that name, and only one, and it gives the key this number. */
  ghost predicate Records(sections: seq<Section>, name: string, key: string, v: int) {
    && HasSection(sections, name) && DistinctNames(sections)
    && forall s :: s in sections && s.name == name ==> key in s.items && s.items[key] == Number(v)
  }

  lemma {:induction false} RecordsBy(sections: seq<Section>, s: Section, key: string, v: int)
    requires DistinctNames(sections) && s in sections && key in s.items && s.items[key] == Number(v)
    ensures Records(sections, s.name, key, v)
  {
    var k :| 0 <= k < |sections| && sections[k] == s;
    forall r | r in sections && r.name == s.name
      ensures r == s
    {
      var m :| 0 <= m < |sections| && sections[m] == r;
    }
  }

  /** Whole pages that cover what was read and the memory asked for, and no page more. */
  ghost predicate LeastCover(size: nat, pages: nat, memorySize: int) {
    && size % PAGE == 0 && size >= pages * PAGE && size >= memorySize
    && (size > pages * PAGE ==> size - PAGE < memorySize)
  }

  /** The size recorded is that of the memory written if and only if every image is as long as
      its page count says. */
  ghost predicate SizeRecorded(cpts: seq<Checkpoint>, sections: seq<Section>, memory: seq<bv8>, memorySize: int) {
    exists size: nat ::
      && Records(sections, STORE, "range_size", size)
      && LeastCover(size, PagesBefore(cpts, |cpts|), memorySize)
      && (size == |memory| <==> FullUpTo(cpts, |cpts|))
  }

  ghost predicate TotalsRecorded(cpts: seq<Checkpoint>, sections: seq<Section>, tick: int) {
    && Records(sections, "system", "pagePtr", PagesBefore(cpts, |cpts|))
    && Records(sections, "system", "nextPID", |cpts|)
    && Records(sections, "Globals", "curTick", tick)
  }

  /** Section r has the items of s, but for physical addresses moved up by the given pages
      and for the number of the program in its file descriptor map. */
  ghost predicate CarriedItems(r: Section, s: Section, i: nat, base: nat) {
    && (forall key :: key in s.items ==> key in r.items)
    && (forall key :: key in r.items ==> key in s.items || (key == "M5_pid" && IsFdMap(s.name)))
    && (forall key :: key in s.items && key != "paddr" && key != "M5_pid" ==> r.items[key] == s.items[key])
    && ("paddr" in s.items && s.items["paddr"].Number? ==> r.items["paddr"] == Number(s.items["paddr"].number + base * PAGE))
    && (IsFdMap(s.name) ==> "M5_pid" in r.items && r.items["M5_pid"] == Number(i))
    && (!IsFdMap(s.name) && "M5_pid" in s.items ==> r.items["M5_pid"] == s.items["M5_pid"])
  }

  ghost predicate CarriedTo(sections: seq<Section>, s: Section, i: nat, n: nat, base: nat) {
    i < n && exists r :: r in sections && r.name == Rename(s.name, i, n) && CarriedItems(r, s, i, base)
  }

  /** Every section about a CPU is there, under its new name. */
  ghost predicate ProgramsCarried(cpts: seq<Checkpoint>, sections: seq<Section>) {
    forall i, s :: 0 <= i < |cpts| && s in cpts[i].sections && HasCpu(s.name) ==>
      CarriedTo(sections, s, i, |cpts|, PagesBefore(cpts, i))
  }

  predicate IsPlain(name: string) {
    !HasCpu(name) && name != "system" && name != "Globals"
  }

  /** All other sections are those of the last checkpoint, unchanged but for the size. */
  ghost predicate RestKept(cpts: seq<Checkpoint>, sections: seq<Section>) {
    && cpts != []
    && (forall s :: s in cpts[|cpts| - 1].sections && IsPlain(s.name) && s.name != STORE ==> s in sections)
    && (forall s :: s in cpts[|cpts| - 1].sections && s.name == STORE ==> StoreKept(sections, s))
  }

  ghost predicate StoreKept(sections: seq<Section>, s: Section) {
    exists r :: r in sections && r.name == STORE && OnlySizeChanged(r, s)
  }

  ghost predicate OnlySizeChanged(r: Section, s: Section) {
    && r.items.Keys == s.items.Keys + {"range_size"}
    && forall key :: key in s.items && key != "range_size" ==> r.items[key] == s.items[key]
  }

  lemma {:induction false} CarriedHasItems(s: Section, i: nat, n: nat, base: nat)
    requires i < n
    ensures CarriedItems(Carried(s, i, n, base), s, i, base)
  {
    assert "paddr"[0] != "M5_pid"[0];
  }

  lemma {:induction false} PlainInPart(sections: seq<Section>, s: Section, n: nat, base: nat)
    requires 0 < n && s in sections && IsPlain(s.name)
    ensures s in Part(sections, n - 1, n, base)
  {
    if s != sections[|sections| - 1] {
      PlainInPart(sections[..|sections| - 1], s, n, base);
    }
  }

  lemma {:induction false} PlainInParts(cpts: seq<Checkpoint>, s: Section)
    requires cpts != [] && s in cpts[|cpts| - 1].sections && IsPlain(s.name)
    ensures s in Parts(cpts, |cpts|)
  {
    PlainInPart(cpts[|cpts| - 1].sections, s, |cpts|, PagesBefore(cpts, |cpts| - 1));
  }

  lemma {:induction false} StoreIsPlain()
    ensures IsPlain(STORE)
  {
    NotAboutCpu(STORE);
    assert |STORE| == 21 && |"system"| == 6 && |"Globals"| == 7;
  }

  lemma {:induction false} StoreInFile(sections: seq<Section>, size: nat, s: Section) returns (r: Section)
    requires s in sections && s.name == STORE
    ensures r in WithRangeSize(sections, size) && r.name == STORE && OnlySizeChanged(r, s)
    ensures "range_size" in r.items && r.items["range_size"] == Number(size)
  {
    var k :| 0 <= k < |sections| && sections[k] == s;
    r := WithRangeSize(sections, size)[k];
  }

  lemma {:induction false} StoreRecords(cpts: seq<Checkpoint>, memorySize: int, tick: int)
    requires cpts != [] && AllReadable(cpts) && HasSection(cpts[|cpts| - 1].sections, STORE)
    ensures Records(MergedSections(cpts, memorySize, tick), STORE, "range_size", PaddedPages(PagesBefore(cpts, |cpts|), memorySize) * PAGE)
  {
    var size, last := PaddedPages(PagesBefore(cpts, |cpts|), memorySize) * PAGE, cpts[|cpts| - 1].sections;
    MergedNamesDistinct(cpts, memorySize, tick);
    var k :| 0 <= k < |last| && last[k].name == STORE;
    StoreIsPlain();
    PlainInParts(cpts, last[k]);
    var r := StoreInFile(Parts(cpts, |cpts|), size, last[k]);
    RecordsBy(MergedSections(cpts, memorySize, tick), r, "range_size", size);
  }

  lemma {:induction false} PaddedCovers(pages: nat, memorySize: int)
    ensures LeastCover(PaddedPages(pages, memorySize) * PAGE, pages, memorySize)
  {
  }

  lemma {:induction false} RangeSizeExactly(cpts: seq<Checkpoint>, memorySize: int, tick: int)
    requires cpts != [] && AllReadable(cpts) && HasSection(cpts[|cpts| - 1].sections, STORE)
    ensures SizeRecorded(cpts, MergedSections(cpts, memorySize, tick), MergedMemory(cpts, memorySize), memorySize)
  {
    StoreRecords(cpts, memorySize, tick);
    PaddedSizeExactly(cpts, memorySize);
    PaddedCovers(PagesBefore(cpts, |cpts|), memorySize);
  }

  lemma {:induction false} TotalsAre(cpts: seq<Checkpoint>, memorySize: int, tick: int)
    requires AllReadable(cpts)
    ensures TotalsRecorded(cpts, MergedSections(cpts, memorySize, tick), tick)
  {
    var pages, file := PagesBefore(cpts, |cpts|), MergedSections(cpts, memorySize, tick);
    MergedNamesDistinct(cpts, memorySize, tick);
    var system := Section("system", map["pagePtr" := Number(pages), "nextPID" := Number(|cpts|)]);
    var globals := Section("Globals", map["curTick" := Number(tick)]);
    assert file[|file| - 2] == system && file[|file| - 1] == globals;
    assert "pagePtr"[0] != "nextPID"[0];
    RecordsBy(file, system, "pagePtr", pages);
    RecordsBy(file, system, "nextPID", |cpts|);
    RecordsBy(file, globals, "curTick", tick);
  }

  lemma {:induction false} ProgramsAre(cpts: seq<Checkpoint>, memorySize: int, tick: int)
    ensures ProgramsCarried(cpts, MergedSections(cpts, memorySize, tick))
  {
    forall i, s | 0 <= i < |cpts| && s in cpts[i].sections && HasCpu(s.name)
      ensures CarriedTo(MergedSections(cpts, memorySize, tick), s, i, |cpts|, PagesBefore(cpts, i))
    {
      CarriedInFile(cpts, memorySize, tick, i, s);
      CarriedHasItems(s, i, |cpts|, PagesBefore(cpts, i));
    }
  }

  lemma {:induction false} RestIs(cpts: seq<Checkpoint>, memorySize: int, tick: int)
    requires cpts != []
    ensures RestKept(cpts, MergedSections(cpts, memorySize, tick))
  {
    var size, file := PaddedPages(PagesBefore(cpts, |cpts|), memorySize) * PAGE, MergedSections(cpts, memorySize, tick);
    var parts := Parts(cpts, |cpts|);
    forall s | s in cpts[|cpts| - 1].sections && IsPlain(s.name) && s.name != STORE
      ensures s in file
    {
      PlainInParts(cpts, s);
      KeptByRangeSize(parts, size, s);
    }
    forall s | s in cpts[|cpts| - 1].sections && s.name == STORE
      ensures StoreKept(file, s)
    {
      StoreIsPlain();
      PlainInParts(cpts, s);
      var r := StoreInFile(parts, size, s);
      assert r in file;
    }
  }

  /** The merged file tells the size of the memory, the totals, every program, and the rest. */
  ghost predicate FileSays(cpts: seq<Checkpoint>, sections: seq<Section>, memory: seq<bv8>, memorySize: int, tick: int) {
    && SizeRecorded(cpts, sections, memory, memorySize) && TotalsRecorded(cpts, sections, tick)
    && ProgramsCarried(cpts, sections) && RestKept(cpts, sections) && PaddedWithZeros(cpts, memory, memorySize)
  }

  /** Behind what was read the memory is filled up with the character '0', by as many whole
      pages as it takes. */
  ghost predicate PaddedWithZeros(cpts: seq<Checkpoint>, memory: seq<bv8>, memorySize: int) {
    var read := |Joined(cpts, |cpts|)|;
    && read <= |memory| && memory[..read] == Joined(cpts, |cpts|)
    && (forall k :: read <= k < |memory| ==> memory[k] as int == '0' as int)
    && LeastCover(PagesBefore(cpts, |cpts|) * PAGE + (|memory| - read), PagesBefore(cpts, |cpts|), memorySize)
  }

  lemma {:induction false} PaddingIs(cpts: seq<Checkpoint>, memorySize: int)
    ensures PaddedWithZeros(cpts, MergedMemory(cpts, memorySize), memorySize)
  {
    var pages := PagesBefore(cpts, |cpts|);
    PaddedCovers(pages, memorySize);
    assert ZERO as int == '0' as int;
  }

  lemma {:induction false} MergedFileSays(cpts: seq<Checkpoint>, sections: seq<Section>, memory: seq<bv8>, memorySize: int, tick: int)
    requires cpts != [] && AllReadable(cpts) && HasSection(cpts[|cpts| - 1].sections, STORE)
    requires sections == MergedSections(cpts, memorySize, tick) && memory == MergedMemory(cpts, memorySize)
    ensures FileSays(cpts, sections, memory, memorySize, tick)
  {
    RangeSizeExactly(cpts, memorySize, tick);
    TotalsAre(cpts, memorySize, tick);
    ProgramsAre(cpts, memorySize, tick);
    RestIs(cpts, memorySize, tick);
    PaddingIs(cpts, memorySize);
  }

  /** File descriptor maps are recognised by the end of their name. */
  lemma {:induction false} FdMapExactly(name: string)
    ensures IsFdMap(name) <==> exists front: string, c: char :: name == front + "workload" + [c] + "FdMap256"
  {
    if IsFdMap(name) {
      var k := |name| - 17;
      assert name == name[..k] + name[k..k + 8] + [name[k + 8]] + name[k + 9..];
    }
    forall front: string, c: char | name == front + "workload" + [c] + "FdMap256"
      ensures IsFdMap(name)
    {
      var k := |front|;
      assert |"workload"| == 8 && |"FdMap256"| == 8;
      assert name[k..k + 8] == "workload" && name[k + 9..] == "FdMap256";
    }
  }

  /** With full images every program finds its memory where its page table says: the bytes
      behind a page-table entry are the same before and after. */
  lemma {:induction false} AddressesStillWork(cpts: seq<Checkpoint>, memorySize: int, tick: int, i: nat, s: Section, v: nat, offset: nat)
    requires i < |cpts| && s in cpts[i].sections && HasCpu(s.name)
    requires "paddr" in s.items && s.items["paddr"] == Number(v) && v + offset < cpts[i].pages * PAGE
    requires FullUpTo(cpts, |cpts|)
    ensures var r := Carried(s, i, |cpts|, PagesBefore(cpts, i));
            && r in MergedSections(cpts, memorySize, tick)
            && r.name == Rename(s.name, i, |cpts|)
            && "paddr" in r.items && r.items["paddr"].Number?
            && 0 <= r.items["paddr"].number + offset < |MergedMemory(cpts, memorySize)|
            && MergedMemory(cpts, memorySize)[r.items["paddr"].number + offset] == cpts[i].image[v + offset]
  {
    CarriedInFile(cpts, memorySize, tick, i, s);
    ByteRelocated(cpts, memorySize, i, v + offset);
    assert "paddr"[0] != "M5_pid"[0];
  }

  const FIRST := Checkpoint([Section("system", map[]), Section(STORE, map[])], 1, [])

  function Second(cpu: string): Checkpoint {
    Checkpoint([Section("system", map[]), Section(STORE, map[]), Section(cpu, map["paddr" := Number(0)])], 1, [7])
  }

  lemma {:induction false} OtherName(cpu: string, name: string)
    requires HasCpu(cpu) && 'c' !in name
    ensures cpu != name
  {
    NotAboutCpu(name);
  }

  lemma {:induction false} EmptyReadable(name: string)
    requires name != "Globals"
    ensures SectionReadable(Section(name, map[]))
  {
  }

  lemma {:induction false} EntryReadable(name: string, v: int)
    requires name != "Globals"
    ensures SectionReadable(Section(name, map["paddr" := Number(v)]))
  {
  }

  lemma {:induction false} WitnessesReadable(cpu: string)
    requires HasCpu(cpu)
    ensures AllReadable([FIRST, Second(cpu)]) && HasSection(Second(cpu).sections, STORE)
  {
    var system, store := "system", STORE;
    assert |system| == 6 && |store| == 21 && |"Globals"| == 7;
    OtherName(cpu, "Globals");
    OtherName(cpu, STORE);
    OtherName(cpu, "system");
    ThreeReadable(system, store, cpu);
    assert Second(cpu).sections[1].name == STORE;
  }

  lemma {:induction false} ThreeReadable(a: string, b: string, c: string)
    requires a != b && b != c && a != c && a != "Globals" && b != "Globals" && c != "Globals"
    ensures Readable(Checkpoint([Section(a, map[]), Section(b, map[])], 1, []))
    ensures Readable(Checkpoint([Section(a, map[]), Section(b, map[]), Section(c, map["paddr" := Number(0)])], 1, [7]))
  {
    EmptyReadable(a);
    EmptyReadable(b);
    EntryReadable(c, 0);
    ReadableSections([Section(a, map[]), Section(b, map[])], 1, []);
    ReadableSections([Section(a, map[]), Section(b, map[]), Section(c, map["paddr" := Number(0)])], 1, [7]);
  }

  lemma {:induction false} ReadableSections(sections: seq<Section>, pages: nat, image: seq<bv8>)
    requires DistinctNames(sections) && forall k :: 0 <= k < |sections| ==> SectionReadable(sections[k])
    ensures Readable(Checkpoint(sections, pages, image))
  {
  }

  lemma {:induction false} WitnessMemory(cpu: string)
    ensures var cpts := [FIRST, Second(cpu)]; PagesBefore(cpts, 1) == 1 && MergedMemory(cpts, 0) == [7]
  {
    var cpts := [FIRST, Second(cpu)];
    assert PagesBefore(cpts, 0) == 0 && PagesBefore(cpts, 1) == 1 && PagesBefore(cpts, 2) == 2;
    assert Bytes(cpts[0]) == [] && Bytes(cpts[1]) == [7];
    assert Joined(cpts, 0) == [] && Joined(cpts, 1) == [] && Joined(cpts, 2) == [7];
  }

  /** Merged with FIRST, the page table entry of the second checkpoint points past the end of
      the merged memory, while the byte it means is the first one. */
  ghost predicate Misplaced(cpu: string) {
    var cpts := [FIRST, Second(cpu)];
    var entry := Carried(Section(cpu, map["paddr" := Number(0)]), 1, 2, PagesBefore(cpts, 1));
    && AllReadable(cpts) && HasSection(Second(cpu).sections, STORE)
    && entry in MergedSections(cpts, 0, 0)
    && "paddr" in entry.items && entry.items["paddr"] == Number(PAGE)
    && MergedMemory(cpts, 0) == Second(cpu).image == [7] && |MergedMemory(cpts, 0)| < PAGE
  }

  lemma {:induction false} MisplacedFor(cpu: string)
    requires HasCpu(cpu)
    ensures Misplaced(cpu)
  {
    var cpts, s := [FIRST, Second(cpu)], Section(cpu, map["paddr" := Number(0)]);
    WitnessesReadable(cpu);
    WitnessMemory(cpu);
    assert s in cpts[1].sections by {
      assert cpts[1].sections[2] == s;
    }
    CarriedInFile(cpts, 0, 0, 1, s);
    EntryMoved(s, 1, 2, PagesBefore(cpts, 1), 0);
  }

  /** An image shorter than its page count misplaces the pages of the next checkpoint. */
  lemma {:induction false} ShortImageMisplaces()
    ensures Misplaced("system.cpu")
  {
    AboutCpu("system.cpu", 7);
    MisplacedFor("system.cpu");
  }

  lemma {:induction false} EntryMoved(s: Section, i: nat, n: nat, base: nat, v: int)
    requires i < n && "paddr" in s.items && s.items["paddr"] == Number(v)
    ensures var r := Carried(s, i, n, base); "paddr" in r.items && r.items["paddr"] == Number(v + base * PAGE)
  {
    assert "paddr"[0] != "M5_pid"[0];
  }
}
