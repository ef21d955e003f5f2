/** The tables that are recovered from the guards and the function names of an emitted dispatcher. */
module ModuleTables {
  import opened MachineInts
  import opened Arith
  import opened Dispatch

  datatype Table = Table(ranges: seq<Range>) | Outside(address: u32)

  predicate Contains(r: Range, address: u32) {
    r.start <= address < r.end
  }

  /** The guards in the text of a dispatcher. */
  ghost function Guards(ranges: seq<Range>): seq<Range> {
    if Regular(ranges) then [ranges[0], Range(ranges[1].start, ranges[|ranges| - 1].end)] else ranges
  }

  ghost predicate Ascending(s: seq<u32>) {
    forall i, j | 0 <= i < j < |s| :: s[i] < s[j]
  }

  // ----- the recovery -----

  /** The first code range that holds an address, or the length. */
  function First(code: seq<Range>, address: u32): (i: nat)
    ensures i <= |code| && (i < |code| ==> Contains(code[i], address))
    ensures forall j | 0 <= j < i :: !Contains(code[j], address)
  {
    if code == [] then 0 else if Contains(code[0], address) then 0 else 1 + First(code[1..], address)
  }

  /** The chunk that starts at function i ends at the next function, if that is in the same code
      range, and otherwise with the code range. */
  function Chunk(code: seq<Range>, addrs: seq<u32>, i: nat): Range
    requires i < |addrs| && First(code, addrs[i]) < |code|
  {
    var c := code[First(code, addrs[i])];
    Range(addrs[i], if i + 1 < |addrs| && Contains(c, addrs[i + 1]) then addrs[i + 1] else c.end)
  }

  method ChunkRanges(code: seq<Range>, addrs: seq<u32>) returns (t: Table)
    ensures t.Table? <==> forall i | 0 <= i < |addrs| :: First(code, addrs[i]) < |code|
    ensures t.Table? ==> |t.ranges| == |addrs| && forall i | 0 <= i < |addrs| :: t.ranges[i] == Chunk(code, addrs, i)
  {
    var chunks: seq<Range> := [];
    for i := 0 to |addrs|
      invariant |chunks| == i
      invariant forall j | 0 <= j < i :: First(code, addrs[j]) < |code| && chunks[j] == Chunk(code, addrs, j)
    {
      var k := First(code, addrs[i]);
      if k == |code| {
        return Outside(addrs[i]);
      }
      var end := code[k].end;
      if i + 1 < |addrs| && Contains(code[k], addrs[i + 1]) {
        end := addrs[i + 1];
      }
      chunks := chunks + [Range(addrs[i], end)];
    }
    t := Table(chunks);
  }

  // ----- what is recovered -----

  ghost predicate DisjointRanges(ranges: seq<Range>) {
    forall i, j | 0 <= i < |ranges| && 0 <= j < |ranges| && i != j :: ranges[i].end <= ranges[j].start
        || ranges[j].end <= ranges[i].start
  }

  ghost predicate HasStart(ranges: seq<Range>, a: int) {
    exists k :: 0 <= k < |ranges| && ranges[k].start == a
  }

  /** addrs are the starts of the ranges, sorted. */
  ghost predicate StartsOf(addrs: seq<u32>, ranges: seq<Range>) {
    Ascending(addrs) && forall a: u32 :: a in addrs <==> HasStart(ranges, a)
  }

  /** Code range c holds range k and no other code range does; behind it in c comes another range,
      or the end of c. */
  ghost predicate Tiles(c: Range, ranges: seq<Range>, k: nat) {
    && k < |ranges| && c.start <= ranges[k].start && ranges[k].end <= c.end
    && (ranges[k].end < c.end ==> HasStart(ranges, ranges[k].end))
  }

  ghost predicate Tiled(code: seq<Range>, ranges: seq<Range>) {
    forall k, j | 0 <= k < |ranges| && 0 <= j < |code| && Contains(code[j], ranges[k].start) ::
      Tiles(code[j], ranges, k)
  }

  ghost predicate Inside(code: seq<Range>, address: u32) {
    exists j :: 0 <= j < |code| && Contains(code[j], address)
  }

  ghost predicate AllInside(code: seq<Range>, ranges: seq<Range>) {
    forall k | 0 <= k < |ranges| :: Inside(code, ranges[k].start)
  }

  /** Where code ranges are tiled by planned ranges, each chunk recovered is the planned range. */
  lemma ChunkIsPlanned(code: seq<Range>, ranges: seq<Range>, addrs: seq<u32>, i: nat, k: nat)
    requires Planned(ranges) && DisjointRanges(ranges) && StartsOf(addrs, ranges)
    requires Tiled(code, ranges) && AllInside(code, ranges)
    requires i < |addrs| && k < |ranges| && ranges[k].start == addrs[i]
    ensures First(code, addrs[i]) < |code| && Chunk(code, addrs, i) == ranges[k]
  {
    hide First, DisjointRanges, StartsOf, HasStart;
    assert Inside(code, ranges[k].start);
    var f := First(code, addrs[i]);
    assert Tiles(code[f], ranges, k);
    NextStartBehind(ranges, addrs, i, k);
    if ranges[k].end < code[f].end {
      NextStartAt(ranges, addrs, i, k);
    }
  }

  /** No other range starts inside range k. */
  lemma NoStartInside(ranges: seq<Range>, k: nat, a: int)
    requires Planned(ranges) && DisjointRanges(ranges) && k < |ranges| && HasStart(ranges, a)
    ensures a <= ranges[k].start || a >= ranges[k].end
  {
    var m :| 0 <= m < |ranges| && ranges[m].start == a;
    assert ranges[m].start < ranges[m].end;
  }

  /** The next function starts behind range k. */
  lemma NextStartBehind(ranges: seq<Range>, addrs: seq<u32>, i: nat, k: nat)
    requires Planned(ranges) && DisjointRanges(ranges) && StartsOf(addrs, ranges)
    requires i < |addrs| && k < |ranges| && ranges[k].start == addrs[i]
    ensures i + 1 < |addrs| ==> addrs[i + 1] >= ranges[k].end
  {
    hide Planned, DisjointRanges, HasStart;
    if i + 1 < |addrs| {
      assert addrs[i + 1] in addrs;
      NoStartInside(ranges, k, addrs[i + 1]);
    }
  }

  lemma NextStartAt(ranges: seq<Range>, addrs: seq<u32>, i: nat, k: nat)
    requires Planned(ranges) && DisjointRanges(ranges) && StartsOf(addrs, ranges)
    requires i < |addrs| && k < |ranges| && ranges[k].start == addrs[i] && HasStart(ranges, ranges[k].end)
    ensures i + 1 < |addrs| && addrs[i + 1] == ranges[k].end
  {
    hide DisjointRanges, HasStart;
    NextStartBehind(ranges, addrs, i, k);
    var n :| 0 <= n < |addrs| && addrs[n] == ranges[k].end;
    Later(addrs, i, n);
  }

  lemma Later(addrs: seq<u32>, i: nat, n: nat)
    requires Ascending(addrs) && i < |addrs| && n < |addrs| && addrs[i] < addrs[n]
    ensures i < n && (i + 1 < n ==> addrs[i + 1] < addrs[n])
  {
  }

  // ----- both shapes are tiled -----

  /** The guards of the linear shape are the ranges themselves, in some order. */
  lemma LinearTiled(ranges: seq<Range>, code: seq<Range>)
    requires Planned(ranges) && DisjointRanges(ranges) && forall r :: r in code <==> r in ranges
    ensures Tiled(code, ranges) && AllInside(code, ranges)
  {
    hide HasStart;
    forall k, j | 0 <= k < |ranges| && 0 <= j < |code|
        && Contains(code[j], ranges[k].start) ensures Tiles(code[j], ranges, k) {
      assert code[j] in ranges;
      var m :| 0 <= m < |ranges| && code[j] == ranges[m];
      assert ranges[k].start < ranges[k].end;
    }
    forall k | 0 <= k < |ranges| ensures Inside(code, ranges[k].start) {
      assert ranges[k] in code;
      var j :| 0 <= j < |code| && code[j] == ranges[k];
      assert ranges[k].start < ranges[k].end;
      assert Contains(code[j], ranges[k].start);
    }
  }

  /** The guards of the constant-time shape are the first range and the whole of the others. */
  lemma FastTiled(ranges: seq<Range>, code: seq<Range>)
    requires Planned(ranges) && DisjointRanges(ranges) && Regular(ranges)
    requires forall r :: r in code <==> r == ranges[0] || r == Range(ranges[1].start, ranges[|ranges| - 1].end)
    ensures Tiled(code, ranges) && AllInside(code, ranges)
  {
    hide HasStart, Regular, Planned, DisjointRanges;
    RegularSize(ranges);
    var whole := Range(ranges[1].start, ranges[|ranges| - 1].end);
    forall k, j | 0 <= k < |ranges| && 0 <= j < |code|
        && Contains(code[j], ranges[k].start) ensures Tiles(code[j], ranges, k) {
      assert code[j] in code;
      if code[j] == ranges[0] {
        FirstTiles(ranges, k);
      } else {
        WholeTiles(ranges, k);
      }
    }
    forall k | 0 <= k < |ranges| ensures Inside(code, ranges[k].start) {
      var c := if k == 0 then ranges[0] else whole;
      InsideOwn(ranges, k);
      assert c in code;
      var j :| 0 <= j < |code| && code[j] == c;
      assert Contains(code[j], ranges[k].start);
    }
  }

  lemma FirstTiles(ranges: seq<Range>, k: nat)
    requires Planned(ranges) && DisjointRanges(ranges) && k < |ranges| && Contains(ranges[0], ranges[k].start)
    ensures Tiles(ranges[0], ranges, k)
  {
    hide HasStart;
    assert ranges[k].start < ranges[k].end;
  }

  /** The regular ranges follow one another inside their whole. */
  lemma Follow(ranges: seq<Range>, k: nat)
    requires Planned(ranges) && Regular(ranges) && 1 <= k < |ranges|
    ensures ranges[1].start <= ranges[k].start < ranges[k].end <= ranges[|ranges| - 1].end
    ensures k < |ranges| - 1 ==> HasStart(ranges, ranges[k].end)
  {
    var d, n := Stride(ranges), |ranges| - 1;
    Starts(ranges, k);
    Starts(ranges, n);
    MulMonotone(d, 0, k - 1);
    assert d * (k - 1) == (k - 1) * d;
    if k < n {
      assert ranges[k].end == ranges[k + 1].start;
      Starts(ranges, k + 1);
      MulMonotone(d, k, n - 1);
      assert d * k == k * d && d * (n - 1) == (n - 1) * d;
    }
  }

  lemma WholeTiles(ranges: seq<Range>, k: nat)
    requires Planned(ranges) && DisjointRanges(ranges) && Regular(ranges) && k < |ranges|
    requires Contains(Range(ranges[1].start, ranges[|ranges| - 1].end), ranges[k].start)
    ensures Tiles(Range(ranges[1].start, ranges[|ranges| - 1].end), ranges, k)
  {
    hide HasStart, Regular, Planned, DisjointRanges;
    RegularSize(ranges);
    if k == 0 {
      FirstApart(ranges, |ranges| - 1);
      assert false;
    } else {
      Follow(ranges, k);
    }
  }

  /** The first range does not start inside the whole of the others, up to any of them. */
  lemma {:induction false} FirstApart(ranges: seq<Range>, n: nat)
    requires Planned(ranges) && DisjointRanges(ranges) && Regular(ranges) && 1 <= n < |ranges|
    ensures !(ranges[1].start <= ranges[0].start < ranges[n].end)
    decreases n
  {
    assert ranges[0].start < ranges[0].end;
    assert ranges[n].start < ranges[n].end;
    if n > 1 {
      FirstApart(ranges, n - 1);
      assert ranges[n - 1].end == ranges[n - 1 + 1].start;
    }
  }

  lemma InsideOwn(ranges: seq<Range>, k: nat)
    requires Planned(ranges) && Regular(ranges) && k < |ranges|
    ensures Contains(if k == 0 then ranges[0] else Range(ranges[1].start, ranges[|ranges| - 1].end), ranges[k].start)
  {
    if k == 0 {
      assert ranges[k].start < ranges[k].end;
    } else {
      Follow(ranges, k);
    }
  }

  // ----- the whole recovery -----

  /** From the text of either shape, whose guards and function names may come in any order, exactly the
      planned ranges are recovered, sorted by address. */
  lemma Recovered(ranges: seq<Range>, code: seq<Range>, addrs: seq<u32>, chunks: seq<Range>)
    requires Planned(ranges) && DisjointRanges(ranges) && StartsOf(addrs, ranges)
    requires forall r :: r in code <==> r in Guards(ranges)
    requires |chunks| == |addrs|
    requires forall i | 0 <= i < |addrs| && First(code, addrs[i]) < |code| :: chunks[i] == Chunk(code, addrs, i)
    ensures forall i | 0 <= i < |addrs| :: First(code, addrs[i]) < |code|
    ensures forall i | 0 <= i < |chunks| :: chunks[i].start == addrs[i]
    ensures forall r :: r in chunks <==> r in ranges
  {
    hide Tiled, AllInside, Planned, DisjointRanges, StartsOf, Regular, First, Chunk;
    if Regular(ranges) {
      RegularSize(ranges);
      FastTiled(ranges, code);
    } else {
      LinearTiled(ranges, code);
    }
    forall i | 0 <= i < |addrs|
      ensures First(code, addrs[i]) < |code| && chunks[i] in ranges && chunks[i].start == addrs[i]
    {
      var k := StartIndex(ranges, addrs, i);
      ChunkIsPlanned(code, ranges, addrs, i, k);
    }
    forall r | r in ranges ensures r in chunks {
      var k :| 0 <= k < |ranges| && ranges[k] == r;
      var i := AddressIndex(ranges, addrs, k);
      ChunkIsPlanned(code, ranges, addrs, i, k);
      assert chunks[i] == r;
    }
  }

  lemma StartIndex(ranges: seq<Range>, addrs: seq<u32>, i: nat) returns (k: nat)
    requires StartsOf(addrs, ranges) && i < |addrs|
    ensures k < |ranges| && ranges[k].start == addrs[i]
  {
    assert addrs[i] in addrs;
    k :| k < |ranges| && ranges[k].start == addrs[i];
  }

  lemma AddressIndex(ranges: seq<Range>, addrs: seq<u32>, k: nat) returns (i: nat)
    requires StartsOf(addrs, ranges) && k < |ranges|
    ensures i < |addrs| && addrs[i] == ranges[k].start
  {
    assert HasStart(ranges, ranges[k].start);
    i :| i < |addrs| && addrs[i] == ranges[k].start;
  }

  /** The ranges of all sections of a program come back from its header. */
  lemma SectionsRecovered(sections: seq<Section>, code: seq<Range>, addrs: seq<u32>, chunks: seq<Range>)
    requires SectionsOk(sections) && StartsOf(addrs, AllRanges(sections))
    requires forall r :: r in code <==> r in Guards(AllRanges(sections))
    requires |chunks| == |addrs|
    requires forall i | 0 <= i < |addrs| && First(code, addrs[i]) < |code| :: chunks[i] == Chunk(code, addrs, i)
    ensures forall r :: r in chunks <==> r in AllRanges(sections)
  {
    hide AllRanges, StartsOf, First, Chunk, Guards, Planned;
    var ranges := AllRanges(sections);
    AllPlanned(sections);
    forall i, j | 0 <= i < j < |ranges| ensures ranges[i].end <= ranges[j].start || ranges[j].end <= ranges[i].start {
      RangesApart(sections, i, j);
    }
    Recovered(ranges, code, addrs, chunks);
  }
}
