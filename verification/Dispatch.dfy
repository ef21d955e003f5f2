/** The dispatcher that the recompiler emits, in both shapes, and the tables recovered from it. */
module Dispatch {
  import opened MachineInts
  import opened Arith

  /** Addresses start up to end hold the code of one function. */
  datatype Range = Range(start: u32, end: u32)

  datatype Option = None | Some(value: u32)

  /** The guard of one range: inside, and a whole number of instructions from its start. */
  predicate Guard(r: Range, address: u32) {
    r.start <= address < r.end && Sub32(address, r.start) % 4 == 0
  }

  // ----- the linear shape -----

  /** The first range whose guard holds is called. */
  function Linear(ranges: seq<Range>, address: u32): Option {
    if ranges == [] then None
    else if Guard(ranges[0], address) then Some(ranges[0].start)
    else Linear(ranges[1..], address)
  }

  // ----- the constant-time shape -----

  function Stride(ranges: seq<Range>): u32
    requires |ranges| >= 3
  {
    Sub32(ranges[2].start, ranges[1].start)
  }

  /** All ranges but the first lie behind one another, at a constant distance. */
  ghost predicate Regular(ranges: seq<Range>) {
    && |ranges| >= 3 && Stride(ranges) > 0
    && (forall i | 1 <= i < |ranges| :: ranges[i].start == (ranges[1].start + (i - 1) * Stride(ranges)) % 0x1_0000_0000)
    && (forall i | 1 <= i < |ranges| - 1 :: ranges[i].end == ranges[i + 1].start)
  }

  /** The check for regularity, as two loops that clear a flag. */
  method CheckRegular(ranges: seq<Range>) returns (optimized: bool)
    ensures optimized == Regular(ranges)
  {
    optimized := false;
    if |ranges| >= 3 {
      var stride := Stride(ranges);
      if stride > 0 {
        var matches := true;
        for i := 1 to |ranges|
          invariant matches
          invariant forall j | 1 <= j < i :: ranges[j].start == (ranges[1].start + (j - 1) * stride) % 0x1_0000_0000
        {
          if ranges[i].start != (ranges[1].start + (i - 1) * stride) % 0x1_0000_0000 {
            matches := false;
            break;
          }
        }
        if matches {
          for i := 1 to |ranges| - 1
            invariant matches
            invariant forall j | 1 <= j < i :: ranges[j].end == ranges[j + 1].start
          {
            if ranges[i].end != ranges[i + 1].start {
              matches := false;
              break;
            }
          }
        }
        optimized := matches;
      }
    }
  }

  /** The index into the table of functions. */
  function Index(ranges: seq<Range>, address: u32): nat
    requires |ranges| >= 3 && Stride(ranges) > 0
  {
    Sub32(address, ranges[1].start) / Stride(ranges)
  }

  /** The guard of the table, which holds the functions of all ranges but the first. */
  predicate TableGuard(ranges: seq<Range>, address: u32)
    requires |ranges| >= 3
  {
    Guard(Range(ranges[1].start, ranges[|ranges| - 1].end), address)
  }

  /** The emitted code reads the table inside its bounds. */
  ghost predicate InBounds(ranges: seq<Range>, address: u32)
    requires |ranges| >= 3 && Stride(ranges) > 0
  {
    !Guard(ranges[0], address) && TableGuard(ranges, address) ==> Index(ranges, address) < |ranges| - 1
  }

  function Fast(ranges: seq<Range>, address: u32): Option
    requires |ranges| >= 3 && Stride(ranges) > 0
  {
    if Guard(ranges[0], address) then Some(ranges[0].start)
    else if TableGuard(ranges, address) then
      if Index(ranges, address) < |ranges| - 1 then Some(ranges[Index(ranges, address) + 1].start) else None
    else None
  }

  // ----- both shapes select the same function -----

  /** What the chunk planner produces: no range wraps, none is empty, and lengths are whole instructions. */
  ghost predicate Planned(ranges: seq<Range>) {
    forall i | 0 <= i < |ranges| :: ranges[i].start < ranges[i].end && (ranges[i].end - ranges[i].start) % 4 == 0
  }

  /** The second range is as long as the stride. */
  lemma StrideOfChunk(ranges: seq<Range>)
    requires Regular(ranges) && Planned(ranges)
    ensures Stride(ranges) % 4 == 0
  {
    assert ranges[1].end == ranges[1 + 1].start;
    SubExact(ranges[2].start, ranges[1].start);
  }

  lemma StartAt(ranges: seq<Range>, i: nat)
    requires Regular(ranges) && Planned(ranges) && 2 <= i < |ranges|
    ensures ranges[i].start == (ranges[1].start + (i - 1) * Stride(ranges)) % 0x1_0000_0000
    ensures ranges[i - 1].start < ranges[i].start
  {
    hide Stride;
    assert ranges[i - 1].end == ranges[i - 1 + 1].start;
  }

  lemma MoreStrides(n: int, d: int)
    ensures (n + 1) * d == n * d + d
  {
  }

  /** Without wrap-around the regular ranges start at multiples of the stride. */
  lemma {:induction false} Starts(ranges: seq<Range>, i: nat)
    requires Regular(ranges) && Planned(ranges) && 1 <= i < |ranges|
    ensures ranges[i].start == ranges[1].start + (i - 1) * Stride(ranges)
    ensures Stride(ranges) % 4 == 0
    decreases i
  {
    hide Planned, Stride;
    StrideOfChunk(ranges);
    if i > 1 {
      hide Regular;
      Starts(ranges, i - 1);
      StartAt(ranges, i);
      MoreStrides(i - 2, Stride(ranges));
      NextStart(ranges[1].start, (i - 2) * Stride(ranges), Stride(ranges), ranges[i - 1].start, ranges[i].start);
    }
  }

  lemma NextStart(base: int, offset: int, d: u32, a: u32, b: u32)
    requires a == base + offset && b == (base + (offset + d)) % 0x1_0000_0000 && a < b && d > 0
    ensures b == a + d
  {
  }

  lemma SameAlignment(address: int, base: int, offset: int)
    requires offset % 4 == 0
    ensures (address - (base + offset)) % 4 == (address - base) % 4
  {
  }

  lemma StrideMultiple(k: nat, d: nat)
    requires d % 4 == 0
    ensures k * d % 4 == 0
  {
    assert k * d == 4 * (k * (d / 4));
  }

  lemma GuardMeans(r: Range, address: u32)
    ensures Guard(r, address) <==> r.start <= address < r.end && (address - r.start) % 4 == 0
  {
    if r.start <= address {
      SubExact(address, r.start);
    }
  }

  lemma EndIsNextStart(ranges: seq<Range>, i: nat)
    requires Regular(ranges) && 1 <= i < |ranges| - 1
    ensures ranges[i].end == ranges[i + 1].start
  {
  }

  /** The guard of regular range i, in terms of the distance from the first one. */
  lemma RegularGuard(ranges: seq<Range>, i: nat, address: u32)
    requires Regular(ranges) && Planned(ranges) && 1 <= i < |ranges|
    ensures var d, base := Stride(ranges), ranges[1].start;
      Guard(ranges[i], address) <==> base + d * (i - 1) <= address < ranges[i].end && (address - base) % 4 == 0
    ensures i < |ranges| - 1 ==> ranges[i].end == ranges[1].start + Stride(ranges) * i
  {
    hide Guard, Regular, Planned, Stride;
    RegularSize(ranges);
    var d, base := Stride(ranges), ranges[1].start;
    Starts(ranges, i);
    GuardMeans(ranges[i], address);
    StrideMultiple(i - 1, d);
    SameAlignment(address, base, (i - 1) * d);
    assert (i - 1) * d == d * (i - 1);
    if i < |ranges| - 1 {
      Starts(ranges, i + 1);
      EndIsNextStart(ranges, i);
    }
  }

  lemma {:induction false} LinearFirst(ranges: seq<Range>, i: nat, address: u32)
    requires i < |ranges| && Guard(ranges[i], address) && forall j | 0 <= j < i :: !Guard(ranges[j], address)
    ensures Linear(ranges, address) == Some(ranges[i].start)
  {
    hide Guard;
    if i > 0 {
      forall j | 0 <= j < i - 1 ensures !Guard(ranges[1..][j], address) {
        assert ranges[1..][j] == ranges[j + 1];
      }
      LinearFirst(ranges[1..], i - 1, address);
    }
  }

  lemma {:induction false} LinearNone(ranges: seq<Range>, address: u32)
    requires forall j | 0 <= j < |ranges| :: !Guard(ranges[j], address)
    ensures Linear(ranges, address) == None
  {
    hide Guard;
    if ranges != [] {
      forall j | 0 <= j < |ranges| - 1 ensures !Guard(ranges[1..][j], address) {
        assert ranges[1..][j] == ranges[j + 1];
      }
      LinearNone(ranges[1..], address);
    }
  }

  /** The range that the index names is the only one, but for the first, whose guard holds. */
  lemma IndexedGuard(ranges: seq<Range>, address: u32, j: nat)
    requires Regular(ranges) && Planned(ranges) && TableGuard(ranges, address)
    requires Index(ranges, address) < |ranges| - 1 && 1 <= j < |ranges|
    ensures j == Index(ranges, address) + 1 ==> Guard(ranges[j], address)
    ensures j < Index(ranges, address) + 1 ==> !Guard(ranges[j], address)
  {
    hide Guard, Planned, Regular, TableGuard, Index, Stride;
    RegularSize(ranges);
    var d, base := Stride(ranges), ranges[1].start;
    TableGuardMeans(ranges, address);
    RegularGuard(ranges, j, address);
    DivideBack(address - base, d);
    if j <= Index(ranges, address) {
      MulMonotone(d, j, Index(ranges, address));
    } else if j < |ranges| - 1 {
      DistributeOne(d, j);
    }
  }

  lemma DistributeOne(d: int, j: int)
    ensures d * j == d * (j - 1) + d
  {
  }

  lemma TableGuardMeans(ranges: seq<Range>, address: u32)
    requires Regular(ranges)
    ensures TableGuard(ranges, address) <==>
      ranges[1].start <= address < ranges[|ranges| - 1].end && (address - ranges[1].start) % 4 == 0
    ensures TableGuard(ranges, address) ==> Index(ranges, address) == (address - ranges[1].start) / Stride(ranges)
    ensures Stride(ranges) > 0
  {
    hide Regular, Stride;
    RegularSize(ranges);
    if ranges[1].start <= address {
      SubExact(address, ranges[1].start);
    }
  }

  lemma SubExact(a: u32, b: u32)
    requires b <= a
    ensures Sub32(a, b) == a - b
  {
  }

  /** Every regular range lies inside the guard of the table. */
  lemma GuardInTable(ranges: seq<Range>, address: u32, j: nat)
    requires Regular(ranges) && Planned(ranges) && 1 <= j < |ranges| && Guard(ranges[j], address)
    ensures TableGuard(ranges, address)
  {
    hide Guard, Planned, Regular, TableGuard, Index, Stride;
    RegularSize(ranges);
    var d, base, n := Stride(ranges), ranges[1].start, |ranges| - 1;
    RegularGuard(ranges, j, address);
    TableGuardMeans(ranges, address);
    MulMonotone(d, 0, j - 1);
    if j < n {
      LastRange(ranges);
      MulMonotone(d, j, n - 1);
    }
  }

  lemma LastRange(ranges: seq<Range>)
    requires Regular(ranges) && Planned(ranges)
    ensures var n := |ranges| - 1;
      ranges[1].start + Stride(ranges) * (n - 1) == ranges[n].start < ranges[n].end
  {
    Starts(ranges, |ranges| - 1);
  }

  /** The table is read inside its bounds when the last range is not longer than the stride. */
  lemma IndexFits(ranges: seq<Range>, address: u32)
    requires Regular(ranges) && Planned(ranges) && TableGuard(ranges, address)
    requires var last := ranges[|ranges| - 1]; last.end - last.start <= Stride(ranges)
    ensures Index(ranges, address) < |ranges| - 1
  {
    hide Guard, Planned, Regular, TableGuard, Index, Stride;
    RegularSize(ranges);
    var d, n := Stride(ranges), |ranges| - 1;
    TableGuardMeans(ranges, address);
    LastRange(ranges);
    DivideBack(address - ranges[1].start, d);
    var k := Index(ranges, address);
    if k >= n {
      MulMonotone(d, n, k);
      DistributeOne(d, n);
    }
  }

  /** For every address the constant-time dispatcher selects what the linear scan selects. */
  lemma SameFunction(ranges: seq<Range>, address: u32)
    requires Regular(ranges) && Planned(ranges)
    requires var last := ranges[|ranges| - 1]; last.end - last.start <= Stride(ranges)
    ensures InBounds(ranges, address) && Fast(ranges, address) == Linear(ranges, address)
  {
    hide Guard, Planned, Regular, TableGuard, Index;
    RegularSize(ranges);
    if Guard(ranges[0], address) {
      LinearFirst(ranges, 0, address);
    } else if TableGuard(ranges, address) {
      IndexFits(ranges, address);
      var i := Index(ranges, address) + 1;
      forall j | 1 <= j <= i ensures Guard(ranges[j], address) == (j == i) {
        IndexedGuard(ranges, address, j);
      }
      LinearFirst(ranges, i, address);
    } else {
      forall j | 1 <= j < |ranges| ensures !Guard(ranges[j], address) {
        if Guard(ranges[j], address) {
          GuardInTable(ranges, address, j);
        }
      }
      LinearNone(ranges, address);
    }
  }

  lemma RegularSize(ranges: seq<Range>)
    requires Regular(ranges)
    ensures |ranges| >= 3 && Stride(ranges) > 0
  {
  }

  /** For every address the emitted code reads its table inside the bounds. */
  ghost predicate AlwaysInside(ranges: seq<Range>) {
    |ranges| >= 3 && Stride(ranges) > 0 && forall address: u32 :: InBounds(ranges, address)
  }

  /** A longer last range takes the index past the table, unless the first range gets in before. */
  lemma LongerLastRange(ranges: seq<Range>)
    requires Regular(ranges) && Planned(ranges)
    requires var last := ranges[|ranges| - 1]; last.end - last.start > Stride(ranges)
    requires var last := ranges[|ranges| - 1]; ranges[0].end <= last.start || ranges[0].start >= last.end
    ensures !AlwaysInside(ranges)
  {
    hide Planned, Regular, TableGuard, Index;
    RegularSize(ranges);
    var d, n := Stride(ranges), |ranges| - 1;
    var address: u32 := ranges[n].start + d;
    LastRange(ranges);
    Starts(ranges, n);
    TableGuardMeans(ranges, address);
    StrideMultiple(n, d);
    DistributeOne(d, n);
    MulMonotone(d, 0, n);
    ModUnique(d * n, d, n, 0);
    assert !InBounds(ranges, address);
  }

  // ----- the planner -----

  const CHUNK: nat := 4096

  /** Chunk i of a section: CHUNK instructions, or what is left. */
  function PlannedChunk(base: int, count: nat, i: nat): (int, int) {
    var start := i * CHUNK;
    (base + start * 4, base + (if count - start > CHUNK then start + CHUNK else count) * 4)
  }

  /** The chunks of a section as ranges. */
  function SectionRanges(base: u32, count: nat): (r: seq<Range>)
    requires base + 4 * count < 0x1_0000_0000
    ensures |r| == (count + CHUNK - 1) / CHUNK
    ensures forall i | 0 <= i < |r| :: (r[i].start, r[i].end) == PlannedChunk(base, count, i)
  {
    var n := (count + CHUNK - 1) / CHUNK;
    seq(n, i requires 0 <= i < n =>
      ChunkFits(base, count, i); Range(PlannedChunk(base, count, i).0, PlannedChunk(base, count, i).1))
  }

  lemma ChunkFits(base: u32, count: nat, i: nat)
    requires base + 4 * count < 0x1_0000_0000 && i < (count + CHUNK - 1) / CHUNK
    ensures var c := PlannedChunk(base, count, i); base <= c.0 < c.1 <= base + 4 * count && (c.1 - c.0) % 4 == 0
  {
    assert i * CHUNK < count;
  }

  /** Splits the instructions of a section into chunks and appends their ranges. */
  method PlanSection(funcs: seq<Range>, base: u32, count: nat) returns (r: seq<Range>)
    requires base + 4 * count < 0x1_0000_0000
    ensures r == funcs + SectionRanges(base, count)
  {
    r := funcs;
    var start := 0;
    ghost var k := 0;
    while start < count
      invariant start == k * CHUNK && |r| == |funcs| + k && r[..|funcs|] == funcs
      invariant start < count + CHUNK
      invariant forall i | 0 <= i < k :: (r[|funcs| + i].start, r[|funcs| + i].end) == PlannedChunk(base, count, i)
      decreases count + CHUNK - start
    {
      var chunkCount := count - start;
      var address := base + start * 4;
      if chunkCount > CHUNK {
        chunkCount := CHUNK;
      }
      r := r + [Range(address, address + chunkCount * 4)];
      start := start + CHUNK;
      k := k + 1;
    }
  }

  // ----- all sections -----

  /** count instructions from base on. */
  datatype Section = Section(base: u32, count: nat)

  predicate Fits(s: Section) {
    s.base + 4 * s.count < 0x1_0000_0000
  }

  predicate Apart(s: Section, t: Section) {
    s.base + 4 * s.count <= t.base || t.base + 4 * t.count <= s.base
  }

  ghost predicate SectionsOk(sections: seq<Section>) {
    && (forall i | 0 <= i < |sections| :: Fits(sections[i]))
    && forall i, j | 0 <= i < j < |sections| :: Apart(sections[i], sections[j])
  }

  /** The list of functions that all sections together leave. */
  function AllRanges(sections: seq<Section>): seq<Range>
    requires forall i | 0 <= i < |sections| :: Fits(sections[i])
  {
    if sections == [] then []
    else
      var n := |sections| - 1;
      assert Fits(sections[n]);
      AllRanges(sections[..n]) + SectionRanges(sections[n].base, sections[n].count)
  }

  method PlanSections(sections: seq<Section>) returns (r: seq<Range>)
    requires forall i | 0 <= i < |sections| :: Fits(sections[i])
    ensures r == AllRanges(sections)
  {
    r := [];
    for n := 0 to |sections|
      invariant r == AllRanges(sections[..n])
    {
      assert sections[..n + 1][..n] == sections[..n];
      r := PlanSection(r, sections[n].base, sections[n].count);
    }
    assert sections[..|sections|] == sections;
  }

  /** Every range lies inside a section. */
  lemma {:induction false} InsideSection(sections: seq<Section>, r: Range) returns (k: nat)
    requires (forall i | 0 <= i < |sections| :: Fits(sections[i])) && r in AllRanges(sections)
    ensures k < |sections| && sections[k].base <= r.start && r.end <= sections[k].base + 4 * sections[k].count
    ensures r.start < r.end && (r.end - r.start) % 4 == 0
    decreases |sections|
  {
    var n := |sections| - 1;
    if r in AllRanges(sections[..n]) {
      k := InsideSection(sections[..n], r);
    } else {
      var chunks := SectionRanges(sections[n].base, sections[n].count);
      var i :| 0 <= i < |chunks| && chunks[i] == r;
      ChunkFits(sections[n].base, sections[n].count, i);
      k := n;
    }
  }

  lemma AllPlanned(sections: seq<Section>)
    requires forall i | 0 <= i < |sections| :: Fits(sections[i])
    ensures Planned(AllRanges(sections))
  {
    hide AllRanges, Fits;
    var r := AllRanges(sections);
    forall i | 0 <= i < |r| ensures r[i].start < r[i].end && (r[i].end - r[i].start) % 4 == 0 {
      assert r[i] in r;
      var k := InsideSection(sections, r[i]);
    }
  }

  /** The ranges of sections that lie apart lie apart. */
  lemma {:induction false} RangesApart(sections: seq<Section>, i: nat, j: nat)
    requires SectionsOk(sections) && i < j < |AllRanges(sections)|
    ensures var r := AllRanges(sections); r[i].end <= r[j].start || r[j].end <= r[i].start
    decreases |sections|
  {
    hide PlannedChunk;
    var n := |sections| - 1;
    var before, base, count := AllRanges(sections[..n]), sections[n].base, sections[n].count;
    var r := AllRanges(sections);
    if j < |before| {
      RangesApart(sections[..n], i, j);
    } else if i < |before| {
      assert r[i] in before;
      var k := InsideSection(sections[..n], r[i]);
      assert Apart(sections[k], sections[n]);
      ChunkFits(base, count, j - |before|);
    } else {
      ChunksInOrder(base, count, i - |before|, j - |before|);
    }
  }

  lemma ChunksInOrder(base: u32, count: nat, i: nat, j: nat)
    requires base + 4 * count < 0x1_0000_0000 && i < j < (count + CHUNK - 1) / CHUNK
    ensures PlannedChunk(base, count, i).1 <= PlannedChunk(base, count, j).0
  {
  }

  /** The dispatcher of a program whose sections lie apart stays inside its table exactly when the last range
      is not longer than the stride. */
  lemma StaysInside(sections: seq<Section>)
    requires SectionsOk(sections) && Regular(AllRanges(sections))
    ensures var r := AllRanges(sections); var last := r[|r| - 1];
      AlwaysInside(r) <==> last.end - last.start <= Stride(r)
  {
    hide Planned, Regular, InBounds, AllRanges, Guard;
    var r := AllRanges(sections);
    RegularSize(r);
    AllPlanned(sections);
    RangesApart(sections, 0, |r| - 1);
    if r[|r| - 1].end - r[|r| - 1].start <= Stride(r) {
      forall address: u32 ensures InBounds(r, address) {
        SameFunction(r, address);
      }
    } else {
      LongerLastRange(r);
    }
  }

  /** Three sections that lie apart and whose dispatcher reads past its table: two short ones at the distance
      of the stride, and a whole chunk behind. */
  lemma OverrunningSections() returns (sections: seq<Section>, address: u32)
    ensures SectionsOk(sections) && Regular(AllRanges(sections)) && !InBounds(AllRanges(sections), address)
  {
    hide InBounds, AllRanges;
    sections := [Section(0x1000, 16), Section(0x2000, 16), Section(0x2040, 4096)];
    ExampleRanges();
    var r := [Range(0x1000, 0x1040), Range(0x2000, 0x2040), Range(0x2040, 0x6040)];
    assert Stride(r) == 0x40;
    RegularByParts(r);
    StaysInside(sections);
    address :| !InBounds(r, address);
  }

  lemma ExampleRanges()
    ensures var s := [Section(0x1000, 16), Section(0x2000, 16), Section(0x2040, 4096)];
      AllRanges(s) == [Range(0x1000, 0x1040), Range(0x2000, 0x2040), Range(0x2040, 0x6040)]
  {
    var s := [Section(0x1000, 16), Section(0x2000, 16), Section(0x2040, 4096)];
    assert s[..2] == [s[0], s[1]] && s[..2][..1] == [s[0]] && s[..1][..0] == [];
    OneChunk(0x1000, 16);
    OneChunk(0x2000, 16);
    OneChunk(0x2040, 4096);
    assert AllRanges(s[..1]) == [Range(0x1000, 0x1040)];
    assert AllRanges(s[..2]) == [Range(0x1000, 0x1040), Range(0x2000, 0x2040)];
  }

  lemma OneChunk(base: u32, count: nat)
    requires base + 4 * count < 0x1_0000_0000 && 0 < count <= CHUNK
    ensures SectionRanges(base, count) == [Range(base, base + 4 * count)]
  {
    assert (count + CHUNK - 1) / CHUNK == 1;
    assert PlannedChunk(base, count, 0) == (base, base + 4 * count);
  }

  /** Of two sections, the first of one chunk and the second of several, the dispatcher has the constant-time
      shape and stays inside its table. */
  lemma TwoSections(one: Section, several: Section)
    requires SectionsOk([one, several]) && 0 < one.count <= CHUNK < several.count
    ensures var r := AllRanges([one, several]);
      Regular(r) && AlwaysInside(r)
  {
    hide Regular, AlwaysInside, AllRanges, SectionRanges;
    var sections, base, count := [one, several], several.base, several.count;
    assert Fits(sections[0]) && Fits(sections[1]);
    TwoLists(one, several);
    OneChunk(one.base, one.count);
    var first := Range(one.base, one.base + 4 * one.count);
    BehindOne(first, base, count);
    PlannedSectionIsRegular([first] + SectionRanges(base, count), base, count);
    StaysInside(sections);
  }

  lemma BehindOne(first: Range, base: u32, count: nat)
    requires base + 4 * count < 0x1_0000_0000
    ensures var r := [first] + SectionRanges(base, count);
      && |r| == 1 + (count + CHUNK - 1) / CHUNK
      && forall i | 0 <= i < |r| - 1 :: (r[1 + i].start, r[1 + i].end) == PlannedChunk(base, count, i)
  {
    hide SectionRanges, PlannedChunk;
    var s := SectionRanges(base, count);
    var r := [first] + s;
    forall i | 0 <= i < |r| - 1 ensures (r[1 + i].start, r[1 + i].end) == PlannedChunk(base, count, i) {
      assert r[1 + i] == s[i];
    }
  }

  lemma TwoLists(one: Section, several: Section)
    requires Fits(one) && Fits(several)
    ensures AllRanges([one, several]) == SectionRanges(one.base, one.count) + SectionRanges(several.base, several.count)
  {
    var s := [one, several];
    assert s[..1] == [one] && [one][..0] == [];
    assert AllRanges([one]) == SectionRanges(one.base, one.count);
  }

  /** A section of at least two chunks, planned behind one range, gets the constant-time dispatcher, and
      its last range is not longer than the stride. */
  lemma PlannedSectionIsRegular(r: seq<Range>, base: u32, count: nat)
    requires base + 4 * count < 0x1_0000_0000 && count > CHUNK
    requires |r| == 1 + (count + CHUNK - 1) / CHUNK
    requires forall i | 0 <= i < |r| - 1 :: (r[1 + i].start, r[1 + i].end) == PlannedChunk(base, count, i)
    ensures Regular(r) && r[|r| - 1].end - r[|r| - 1].start <= Stride(r)
  {
    hide Regular;
    var n := |r| - 1;
    assert PlannedChunk(base, count, 0).0 == base && PlannedChunk(base, count, 1).0 == base + 4 * CHUNK;
    assert r[1 + 0].start == base && r[1 + 1].start == base + 4 * CHUNK;
    SubExact(r[2].start, r[1].start);
    forall i | 1 <= i < |r| ensures r[i].start == base + (i - 1) * (4 * CHUNK) && r[i].start < 0x1_0000_0000 {
      assert r[1 + (i - 1)].start == PlannedChunk(base, count, i - 1).0;
    }
    forall i | 1 <= i < n ensures r[i].end == r[i + 1].start {
      assert r[1 + (i - 1)].end == PlannedChunk(base, count, i - 1).1;
      assert i * CHUNK < count;
    }
    assert r[1 + (n - 1)].end == PlannedChunk(base, count, n - 1).1;
    RegularByParts(r);
  }

  lemma RegularByParts(r: seq<Range>)
    requires |r| >= 3 && Stride(r) > 0
    requires forall i | 1 <= i < |r| :: r[i].start == r[1].start + (i - 1) * Stride(r)
    requires forall i | 1 <= i < |r| - 1 :: r[i].end == r[i + 1].start
    ensures Regular(r)
  {
    forall i | 1 <= i < |r| ensures r[i].start == (r[1].start + (i - 1) * Stride(r)) % 0x1_0000_0000 {
      assert r[i].start == r[1].start + (i - 1) * Stride(r);
    }
  }
}
