/** The layout that f_mkfs chooses for a volume, and whether mount_volume accepts it. */
module VolumeLayout {
  import opened MachineInts
  import opened Arith
  import opened FatGeometry

  /** Where the volume lies, the alignment asked for, and the options, as f_mkfs has checked them. A
      cluster size of 0 stands for automatic selection. */
  datatype Params = Params(base: nat, size: nat, align: nat, nFats: nat, rootEntries: nat, clusterSize: nat,
    fat32Allowed: bool)

  ghost predicate Checked(p: Params) {
    && 128 <= p.size < TWO32 && p.base < TWO32
    && 1 <= p.align <= 0x8000 && 1 <= p.nFats <= 2
    && 1 <= p.rootEntries <= 32768 && p.rootEntries % 16 == 0
    && (p.clusterSize == 0 || IsClusterSize(p.clusterSize))
  }

  /** A power of two up to 128. */
  predicate IsClusterSize(n: nat) {
    n in {1, 2, 4, 8, 16, 32, 64, 128}
  }

  /** The sizes of the regions in sectors, and the number of clusters. */
  datatype Layout = Layout(fsType: FsType, pau: nat, reserved: nat, fat: nat, dir: nat, clusters: nat)

  // ----- one attempt -----

  function CeilDiv(n: nat): nat {
    (n + 511) / 512
  }

  /** The type and the FAT size that the whole volume would need. */
  function FatFor(fsType: FsType, whole: nat): (FsType, nat) {
    match fsType
    case Fat32 => (Fat32, CeilDiv((whole * 4 + 8) % TWO32))
    case _ => if whole > MAX_FAT12 then (fsType, CeilDiv((whole * 2 + 4) % TWO32)) else (Fat12,
      CeilDiv((whole * 3 + 1) / 2 + 3))
  }

  /** Sectors from at to the next multiple of align. */
  function Gap(at: nat, align: nat): (n: nat)
    requires align > 0
    ensures n < align
  {
    (align - at % align) % align
  }

  /** The regions before the data area is aligned. */
  function Unaligned(p: Params, fsType: FsType, pau: nat): Layout
    requires pau > 0
  {
    var f := FatFor(fsType, p.size / pau);
    if f.0 == Fat32 then Layout(Fat32, pau, 32, f.1, 0, 0) else Layout(f.0, pau, 1, f.1, p.rootEntries / 16, 0)
  }

  function SystemSectors(l: Layout, nFats: nat): nat {
    l.reserved + (if nFats == 2 then l.fat + l.fat else l.fat) + l.dir
  }

  /** The gap moves the FAT of a FAT32 volume, and makes other FATs larger. */
  function Aligned(p: Params, l: Layout): Layout
    requires p.align > 0
  {
    var n := Gap(p.base + SystemSectors(l, p.nFats), p.align);
    if l.fsType == Fat32 then l.(reserved := l.reserved + n)
    else if p.nFats == 2 then l.(reserved := l.reserved + n % 2, fat := l.fat + n / 2)
    else l.(fat := l.fat + n)
  }

  /** The layout with its number of clusters, computed in 32-bit arithmetic. */
  function Counted(p: Params, l: Layout): Layout
    requires l.pau > 0
  {
    l.(clusters := Sub32(p.size, SystemSectors(l, p.nFats)) / l.pau)
  }

  function Candidate(p: Params, fsType: FsType, pau: nat): Layout
    requires p.align > 0 && pau > 0
  {
    Counted(p, Aligned(p, Unaligned(p, fsType, pau)))
  }

  /** The checks that an accepted attempt has passed. */
  predicate Acceptable(p: Params, fsType: FsType, pau: nat)
    requires p.align > 0 && pau > 0
  {
    var u := Unaligned(p, fsType, pau);
    var l := Candidate(p, fsType, pau);
    && p.size >= SystemSectors(u, p.nFats) + pau * 16
    && match l.fsType
       case Fat32 => MAX_FAT16 < p.size / pau <= MAX_FAT32 && l.clusters > MAX_FAT16
       case Fat16 => MAX_FAT12 < l.clusters <= MAX_FAT16
       case Fat12 => l.clusters <= MAX_FAT12
  }

  // ----- the search -----

  /** One for a small volume, doubled for every boundary that n has reached. */
  function AutoPau(n: nat, boundaries: seq<nat>): (pau: nat)
    ensures pau > 0
  {
    if boundaries == [] || boundaries[0] > n then 1 else 2 * AutoPau(n, boundaries[1..])
  }

  lemma AutoPauFrom(n: nat, boundaries: seq<nat>, i: nat)
    requires i <= |boundaries|
    ensures AutoPau(n, boundaries[i..])
         == if i == |boundaries| || boundaries[i] > n then 1 else 2 * AutoPau(n, boundaries[i + 1..])
  {
    if i < |boundaries| {
      assert boundaries[i..][1..] == boundaries[i + 1..];
    }
  }

  /** The cluster size for a volume of n units, by the loop of the program. */
  method AutoSize(n: nat, boundaries: seq<nat>) returns (pau: nat)
    ensures pau == AutoPau(n, boundaries)
  {
    hide AutoPau;
    pau := 1;
    var i := 0;
    assert boundaries[0..] == boundaries;
    while i < |boundaries| && boundaries[i] <= n
      invariant 0 <= i <= |boundaries| && pau > 0
      invariant pau * AutoPau(n, boundaries[i..]) == AutoPau(n, boundaries)
    {
      AutoPauFrom(n, boundaries, i);
      Rotate(pau, 2, AutoPau(n, boundaries[i + 1..]));
      i := i + 1;
      pau := pau * 2;
    }
    AutoPauFrom(n, boundaries, i);
  }

  const BOUNDS32: seq<nat> := [1, 2, 4, 8, 16, 32]
  const BOUNDS16: seq<nat> := [1, 4, 16, 64, 256, 512]

  /** The cluster size of an attempt: the one asked for, or one for the size of the volume. */
  function PauFor(p: Params, fsType: FsType, sizeAu: nat): (pau: nat)
    ensures pau > 0
  {
    if sizeAu != 0 then sizeAu
    else if fsType == Fat32 then AutoPau(p.size / 0x2_0000, BOUNDS32)
    else AutoPau(p.size / 0x1000, BOUNDS16)
  }

  datatype Attempt = Attempt(fsType: FsType, sizeAu: nat) | NoAttempt

  /** What is tried after a rejected attempt: smaller clusters for FAT32, larger ones for FAT16, or FAT32. A
      cluster size that was asked for is not changed. */
  function NextAttempt(p: Params, a: Attempt): Attempt
    requires p.align > 0 && a.Attempt?
  {
    var pau := PauFor(p, a.fsType, a.sizeAu);
    var whole := p.size / pau;
    var l := Candidate(p, a.fsType, pau);
    var free := a.sizeAu == 0;
    if a.fsType == Fat32 && !(MAX_FAT16 < whole <= MAX_FAT32) then NoAttempt
    else if p.size < SystemSectors(Unaligned(p, a.fsType, pau), p.nFats) + pau * 16 then NoAttempt
    else
      match l.fsType
      case Fat12 => NoAttempt
      case Fat32 => if free && pau / 2 != 0 then Attempt(Fat32, pau / 2) else NoAttempt
      case Fat16 =>
        if l.clusters <= MAX_FAT12 then if free && pau * 2 <= 128 then Attempt(Fat16, pau * 2) else NoAttempt
        else if free && pau * 2 <= 64 then Attempt(Fat16, pau * 2)
        else if p.fat32Allowed then Attempt(Fat32, a.sizeAu)
        else if free && pau * 2 <= 128 then Attempt(Fat16, pau * 2)
        else NoAttempt
  }

  datatype Found = Accepted(layout: Layout) | Aborted

  /** The first acceptable attempt, from a on. */
  function Search(p: Params, a: Attempt): Found
    requires p.align > 0
    decreases a.Attempt?, a.Attempt? && a.sizeAu == 0, a.Attempt? && a.fsType != Fat32
  {
    if a.NoAttempt? then Aborted
    else
      var pau := PauFor(p, a.fsType, a.sizeAu);
      if Acceptable(p, a.fsType, pau) then Accepted(Candidate(p, a.fsType, pau))
      else
        TypeKept(p, a.fsType, pau);
        Search(p, NextAttempt(p, a))
  }

  lemma TypeKept(p: Params, fsType: FsType, pau: nat)
    requires p.align > 0 && pau > 0
    ensures fsType == Fat32 <==> Candidate(p, fsType, pau).fsType == Fat32
  {
  }

  lemma AutoPausAreSizes(n: nat)
    ensures IsClusterSize(AutoPau(n, BOUNDS32)) && IsClusterSize(AutoPau(n, BOUNDS16))
    ensures AutoPau(n, BOUNDS32) <= 64 && AutoPau(n, BOUNDS16) <= 64
  {
    assert BOUNDS32[1..] == [2, 4, 8, 16, 32] && BOUNDS16[1..] == [4, 16, 64, 256, 512];
    SixBoundaries(n, 1, 2, 4, 8, 16, 32);
    SixBoundaries(n, 1, 4, 16, 64, 256, 512);
  }

  lemma SixBoundaries(n: nat, a: nat, b: nat, c: nat, d: nat, e: nat, f: nat)
    ensures AutoPau(n, [a, b, c, d, e, f]) in {1, 2, 4, 8, 16, 32, 64}
  {
    assert [a, b, c, d, e, f][1..] == [b, c, d, e, f] && [b, c, d, e, f][1..] == [c, d, e, f];
    assert [c, d, e, f][1..] == [d, e, f] && [d, e, f][1..] == [e, f] && [e, f][1..] == [f] && [f][1..] == [];
    assert AutoPau(n, [f]) in {1, 2};
    assert AutoPau(n, [e, f]) in {1, 2, 4};
    assert AutoPau(n, [d, e, f]) in {1, 2, 4, 8};
    assert AutoPau(n, [c, d, e, f]) in {1, 2, 4, 8, 16};
    assert AutoPau(n, [b, c, d, e, f]) in {1, 2, 4, 8, 16, 32};
  }

  /** Attempts with changing cluster size and type until one passes all checks, or none is left to try. */
  method ChooseLayout(p: Params, first: FsType) returns (r: Found)
    requires Checked(p) && (first == Fat16 || first == Fat32)
    ensures r == Search(p, Attempt(first, p.clusterSize))
  {
    hide FatFor, Gap, Aligned, Unaligned, Counted, SystemSectors, AutoPau;
    var sizeAu := p.clusterSize;
    var fsty := first;
    while true
      invariant Search(p, Attempt(fsty, sizeAu)) == Search(p, Attempt(first, p.clusterSize))
      invariant fsty == Fat16 || fsty == Fat32
      decreases (if sizeAu == 0 then 1 else 0) + (if fsty == Fat16 then 1 else 0)
    {
      var pau := sizeAu;
      if pau == 0 {
        if fsty == Fat32 {
          pau := AutoSize(p.size / 0x2_0000, [1, 2, 4, 8, 16, 32]);
        } else {
          pau := AutoSize(p.size / 0x1000, [1, 4, 16, 64, 256, 512]);
        }
      }
      var whole := p.size / pau;
      UnalignedType(p, fsty, pau);
      if fsty == Fat32 && (whole <= MAX_FAT16 || whole > MAX_FAT32) {
        return Aborted;
      }
      var u := Unaligned(p, fsty, pau);
      if p.size < SystemSectors(u, p.nFats) + pau * 16 {
        return Aborted;
      }
      var l := Counted(p, Aligned(p, u));
      if l.fsType == Fat32 && l.clusters <= MAX_FAT16 {
        if sizeAu == 0 && pau / 2 != 0 {
          sizeAu := pau / 2;
          continue;
        }
        return Aborted;
      }
      if l.fsType == Fat16 {
        if l.clusters > MAX_FAT16 {
          if sizeAu == 0 && pau * 2 <= 64 {
            sizeAu := pau * 2;
            continue;
          }
          if p.fat32Allowed {
            fsty := Fat32;
            continue;
          }
          if sizeAu == 0 && pau * 2 <= 128 {
            sizeAu := pau * 2;
            continue;
          }
          return Aborted;
        }
        if l.clusters <= MAX_FAT12 {
          if sizeAu == 0 && pau * 2 <= 128 {
            sizeAu := pau * 2;
            continue;
          }
          return Aborted;
        }
      }
      if l.fsType == Fat12 && l.clusters > MAX_FAT12 {
        return Aborted;
      }
      return Accepted(l);
    }
  }

  /** What is found has passed all checks for one type and a cluster size that can be. */
  lemma {:induction false} FoundAcceptable(p: Params, a: Attempt) returns (t: FsType)
    requires Checked(p) && Search(p, a).Accepted?
    requires a.Attempt? ==> (a.sizeAu == 0 || IsClusterSize(a.sizeAu)) && (a.fsType == Fat16 || a.fsType == Fat32)
    ensures var l := Search(p, a).layout;
      IsClusterSize(l.pau) && (t == Fat16 || t == Fat32) && Acceptable(p, t, l.pau) && l == Candidate(p, t, l.pau)
    decreases a.Attempt?, a.Attempt? && a.sizeAu == 0, a.Attempt? && a.fsType != Fat32
  {
    hide Acceptable, Candidate, AutoPau, NextAttempt;
    var pau := PauFor(p, a.fsType, a.sizeAu);
    UnalignedType(p, a.fsType, pau);
    AutoPausAreSizes(p.size / 0x2_0000);
    AutoPausAreSizes(p.size / 0x1000);
    if Acceptable(p, a.fsType, pau) {
      t := a.fsType;
    } else {
      NextProper(p, a);
      t := FoundAcceptable(p, NextAttempt(p, a));
    }
  }

  lemma NextProper(p: Params, a: Attempt)
    requires Checked(p) && a.Attempt? && (a.sizeAu == 0 || IsClusterSize(a.sizeAu))
    requires a.fsType == Fat16 || a.fsType == Fat32
    ensures var b := NextAttempt(p, a);
      b.NoAttempt? || ((b.sizeAu == 0 || IsClusterSize(b.sizeAu)) && (b.fsType == Fat16 || b.fsType == Fat32))
    ensures var b := NextAttempt(p, a);
      b.NoAttempt? || (a.sizeAu == 0 && b.sizeAu != 0)
      || (a.sizeAu == b.sizeAu && a.fsType == Fat16 && b.fsType == Fat32)
  {
    hide Candidate, AutoPau, Unaligned, SystemSectors;
    TypeKept(p, a.fsType, PauFor(p, a.fsType, a.sizeAu));
    AutoPausAreSizes(p.size / 0x2_0000);
    AutoPausAreSizes(p.size / 0x1000);
  }

  lemma UnalignedType(p: Params, fsType: FsType, pau: nat)
    requires Checked(p) && pau > 0
    ensures var u, l := Unaligned(p, fsType, pau), Candidate(p, fsType, pau);
      u.fsType == l.fsType && u.pau == l.pau == pau && Aligned(p, u).pau == pau
    ensures fsType == Fat32 <==> Unaligned(p, fsType, pau).fsType == Fat32
    ensures fsType == Fat16 ==> Unaligned(p, fsType, pau).fsType != Fat32
  {
  }

  // ----- the boot sector -----

  /** The fields of the boot sector that mount_volume reads. */
  datatype Boot = Boot(clusterSize: nat, reserved: nat, nFats: nat, rootEntries: nat, fat16: nat, fat32: nat,
                       total16: nat, total32: nat)

  /** The fields as f_mkfs writes them, cut to their widths. */
  function Written(p: Params, l: Layout): Boot {
    Boot(l.pau % 0x100, l.reserved % 0x1_0000, p.nFats % 0x100,
      (if l.fsType == Fat32 then 0 else p.rootEntries) % 0x1_0000,
      if l.fsType == Fat32 then 0 else l.fat % 0x1_0000,
      if l.fsType == Fat32 then l.fat else 0,
      if p.size < 0x1_0000 then p.size else 0, if p.size < 0x1_0000 then 0 else p.size)
  }

  datatype Mounted = Volume(geometry: Geometry) | NoFilesystem

  /** The checks of mount_volume for a boot sector at `base` on a device of `device` sectors. */
  function Mount(b: Boot, base: nat, device: nat): Mounted {
    var fat := if b.fat16 == 0 then b.fat32 else b.fat16;
    if b.nFats != 1 && b.nFats != 2 then NoFilesystem
    else if b.clusterSize == 0 || !IsPowerOfTwo(b.clusterSize) then NoFilesystem
    else if b.rootEntries % 16 != 0 then NoFilesystem
    else
      var total := if b.total16 == 0 then b.total32 else b.total16;
      if b.reserved == 0 then NoFilesystem
      else
        var system := b.reserved + (if b.nFats == 2 then fat + fat else fat) + b.rootEntries / 16;
        if total < system then NoFilesystem
        else
          var clusters := (total - system) / b.clusterSize;
          if clusters == 0 || clusters > MAX_FAT32 then NoFilesystem
          else
            var t := if clusters <= MAX_FAT12 then Fat12 else if clusters <= MAX_FAT16 then Fat16 else Fat32;
            var g := Geometry(t, b.nFats, b.clusterSize, clusters + 2, fat, base + b.reserved, base + system, device);
            if (t == Fat32) != (b.rootEntries == 0) then NoFilesystem
            else if fat < CeilDiv(FatBytesNeeded(t, clusters + 2)) then NoFilesystem
            else Volume(g)
  }

  // ----- what f_mkfs accepts, mount_volume accepts -----

  /** The regions of a candidate: the gap has been added to the unaligned ones. */
  lemma CandidateRegions(p: Params, fsType: FsType, pau: nat)
    requires Checked(p) && pau > 0
    ensures var u, l := Unaligned(p, fsType, pau), Candidate(p, fsType, pau);
      var n := Gap(p.base + SystemSectors(u, p.nFats), p.align);
      && l.fsType == u.fsType && l.dir == u.dir && u.fat <= l.fat <= u.fat + n
      && u.reserved <= l.reserved <= u.reserved + n
      && SystemSectors(l, p.nFats) == SystemSectors(u, p.nFats) + n
      && l.clusters == Sub32(p.size, SystemSectors(l, p.nFats)) / pau
      && (l.fsType == Fat32 ==> l.fat == u.fat) && (l.fsType != Fat32 ==> l.reserved <= 2)
    ensures Gap(p.base + SystemSectors(Unaligned(p, fsType, pau), p.nFats), p.align) < 0x8000
  {
    hide Gap, FatFor, Sub32;
    UnalignedReserved(p, fsType, pau);
  }

  lemma UnalignedReserved(p: Params, fsType: FsType, pau: nat)
    requires pau > 0
    ensures var u := Unaligned(p, fsType, pau);
      u.pau == pau && u.fat == FatFor(fsType, p.size / pau).1 && u.fsType == FatFor(fsType, p.size / pau).0
      && u.reserved == (if u.fsType == Fat32 then 32 else 1)
      && u.dir == if u.fsType == Fat32 then 0 else p.rootEntries / 16
  {
  }

  lemma CeilDivBounds(n: nat)
    ensures n <= 512 * CeilDiv(n) <= n + 511
  {
  }

  /** The sectors for n bytes, where n is kept in 32 bits. */
  lemma WrappedSectors(n: nat)
    ensures CeilDiv(n % TWO32) <= 0x80_0000
    ensures n < TWO32 ==> n <= 512 * CeilDiv(n % TWO32) <= n + 511
  {
    hide CeilDiv;
    CeilDivBounds(n % TWO32);
  }

  lemma FatSmall32(whole: nat)
    ensures FatFor(Fat32, whole).0 == Fat32 && FatFor(Fat32, whole).1 <= 0x80_0000
    ensures whole <= MAX_FAT32 ==> FatFor(Fat32, whole).1 >= 1 && 128 * FatFor(Fat32, whole).1 <= whole + 130
  {
    hide CeilDiv;
    WrappedSectors(whole * 4 + 8);
  }

  lemma FatSmall16(fsType: FsType, whole: nat)
    requires fsType != Fat32
    ensures FatFor(fsType, whole).0 != Fat32 && FatFor(fsType, whole).1 <= 0x80_0000
    ensures whole < 0x4000_0000 ==> FatFor(fsType, whole).1 >= 1 && 256 * FatFor(fsType, whole).1 <= whole + 3000
  {
    hide CeilDiv;
    if whole > MAX_FAT12 {
      WrappedSectors(whole * 2 + 4);
    } else {
      CeilDivBounds((whole * 3 + 1) / 2 + 3);
    }
  }

  /** A FAT never takes more than 2^23 sectors, and the FAT of a FAT32 volume less than a hundredth of it. */
  lemma FatSmall(fsType: FsType, whole: nat)
    ensures FatFor(fsType, whole).1 <= 0x80_0000
    ensures fsType == Fat32 && whole <= MAX_FAT32 ==> FatFor(fsType, whole).1 >= 1
    ensures fsType != Fat32 && whole < 0x4000_0000 ==> FatFor(fsType, whole).1 >= 1
    ensures fsType == Fat32 && whole <= MAX_FAT32 ==> 128 * FatFor(fsType, whole).1 <= whole + 130
    ensures fsType == Fat16 && whole < 0x4000_0000 ==> 256 * FatFor(fsType, whole).1 <= whole + 3000
    ensures fsType != Fat32 ==> FatFor(fsType, whole).0 != Fat32
    ensures fsType == Fat32 ==> FatFor(fsType, whole).0 == Fat32
  {
    hide FatFor;
    match fsType
    case Fat32 => FatSmall32(whole);
    case _ => FatSmall16(fsType, whole);
  }

  lemma FatAtMost(fsType: FsType, whole: nat)
    ensures FatFor(fsType, whole).1 <= 0x80_0000
  {
    hide FatFor;
    FatSmall(fsType, whole);
  }

  /** All system sectors together are fewer than 2^25. */
  lemma SystemSmall(p: Params, fsType: FsType, pau: nat)
    requires Checked(p) && pau > 0
    ensures SystemSectors(Candidate(p, fsType, pau), p.nFats) < 0x200_0000
  {
    hide Candidate, Unaligned, FatFor, Gap, IsClusterSize, Sub32;
    CandidateRegions(p, fsType, pau);
    UnalignedReserved(p, fsType, pau);
    FatAtMost(fsType, p.size / pau);
  }

  /** The subtraction did not wrap: otherwise there would be far too many clusters. */
  lemma NoUnderflow(size: nat, system: nat, pau: nat)
    requires size < TWO32 && system < 0x200_0000 && 1 <= pau <= 128 && Sub32(size, system) / pau <= MAX_FAT16
    ensures system <= size && Sub32(size, system) == size - system
  {
    if system > size {
      assert Sub32(size, system) == TWO32 + size - system;
      DivideBack(Sub32(size, system), pau);
      MulMonotone(pau, Sub32(size, system) / pau, MAX_FAT16);
    }
  }

  /** A FAT32 volume has room for its system sectors, as it has more clusters than FAT16 allows. */
  lemma RoomFat32(p: Params, pau: nat)
    requires Checked(p) && pau > 0 && MAX_FAT16 < p.size / pau <= MAX_FAT32
    ensures SystemSectors(Candidate(p, Fat32, pau), p.nFats) <= p.size
  {
    hide Candidate, Unaligned, FatFor, Gap;
    var whole := p.size / pau;
    CandidateRegions(p, Fat32, pau);
    UnalignedReserved(p, Fat32, pau);
    FatSmall(Fat32, whole);
    DivideBack(p.size, pau);
    MulMonotone(whole, 1, pau);
    assert whole * pau == pau * whole;
  }

  /** Few clusters are left only when the whole volume has not many more. */
  lemma WholeBound(size: nat, system: nat, pau: nat)
    requires system <= size && pau > 0
    ensures size / pau <= (size - system) / pau + 1 + system
  {
    var whole, clusters := size / pau, (size - system) / pau;
    DivideBack(size, pau);
    DivideBack(size - system, pau);
    var more := whole - clusters - 1;
    DistributeMinus(pau, whole, clusters + 1);
    DistributeMinus(pau, clusters + 1, 1);
    if more > 0 {
      MulMonotone(more, 1, pau);
      assert more * pau == pau * more;
    }
  }

  lemma ClusterSizeSmall(pau: nat)
    requires IsClusterSize(pau)
    ensures 1 <= pau <= 128
  {
  }

  /** A FAT12 or FAT16 volume with few enough clusters has a FAT that 16 bits can count. */
  lemma FatFits16(p: Params, pau: nat)
    requires Checked(p) && IsClusterSize(pau) && Acceptable(p, Fat16, pau)
    ensures Candidate(p, Fat16, pau).fat < 0x1_0000 && p.size / pau < 0x4000_0000
  {
    hide Candidate, Unaligned, FatFor, Gap, Acceptable, IsClusterSize, Sub32;
    ClusterSizeSmall(pau);
    AcceptedWhole(p, Fat16, pau);
    var l := Candidate(p, Fat16, pau);
    var system := SystemSectors(l, p.nFats);
    CandidateRegions(p, Fat16, pau);
    UnalignedReserved(p, Fat16, pau);
    FatSmall(Fat16, p.size / pau);
    SystemSmall(p, Fat16, pau);
    NoUnderflow(p.size, system, pau);
    WholeBound(p.size, system, pau);
  }

  lemma DistributeMinus(d: int, a: int, b: int)
    ensures d * (a - b) == d * a - d * b
  {
  }

  lemma AcceptedWhole(p: Params, fsType: FsType, pau: nat)
    requires p.align > 0 && pau > 0 && Acceptable(p, fsType, pau)
    ensures var l := Candidate(p, fsType, pau);
      && (fsType == Fat32 ==> l.fsType == Fat32 && MAX_FAT16 < p.size / pau <= MAX_FAT32)
      && (fsType == Fat16 ==> l.fsType != Fat32 && l.clusters <= MAX_FAT16 && l.clusters <= MaxClusters(l.fsType))
  {
    hide Candidate, Unaligned;
    TypeKept(p, fsType, pau);
  }

  /** The system sectors of an accepted layout fit, and the clusters fill the rest. */
  lemma AcceptedRoom(p: Params, fsType: FsType, pau: nat)
    requires Checked(p) && IsClusterSize(pau) && (fsType == Fat16 || fsType == Fat32) && Acceptable(p, fsType, pau)
    ensures var l := Candidate(p, fsType, pau);
      && SystemSectors(l, p.nFats) <= p.size && l.clusters == (p.size - SystemSectors(l, p.nFats)) / pau
      && l.clusters <= p.size / pau && l.clusters <= MaxClusters(l.fsType)
  {
    hide Candidate, Unaligned, FatFor, Gap, Acceptable, SystemSectors;
    var system := SystemSectors(Candidate(p, fsType, pau), p.nFats);
    AcceptedWhole(p, fsType, pau);
    CandidateCount(p, fsType, pau);
    SystemSmall(p, fsType, pau);
    if fsType == Fat32 {
      RoomFat32(p, pau);
    } else {
      NoUnderflow(p.size, system, pau);
    }
    DivMonotone(p.size - system, p.size, pau);
  }

  lemma CandidateCount(p: Params, fsType: FsType, pau: nat)
    requires p.align > 0 && pau > 0
    ensures var l := Candidate(p, fsType, pau); l.clusters == Sub32(p.size, SystemSectors(l, p.nFats)) / pau
  {
    hide Unaligned, Gap;
    UnalignedPau(p, fsType, pau);
  }

  lemma UnalignedPau(p: Params, fsType: FsType, pau: nat)
    requires p.align > 0 && pau > 0
    ensures Aligned(p, Unaligned(p, fsType, pau)).pau == pau
  {
  }

  /** The sizes of an accepted layout. */
  lemma AcceptedSizes(p: Params, fsType: FsType, pau: nat)
    requires Checked(p) && IsClusterSize(pau) && (fsType == Fat16 || fsType == Fat32) && Acceptable(p, fsType, pau)
    ensures var l := Candidate(p, fsType, pau);
      && SystemSectors(l, p.nFats) <= p.size && l.clusters == (p.size - SystemSectors(l, p.nFats)) / pau
      && 1 <= l.reserved < 0x1_0000 && 1 <= l.fat && (l.fsType != Fat32 ==> l.fat < 0x1_0000)
      && l.clusters <= p.size / pau && l.clusters <= MaxClusters(l.fsType)
  {
    hide Candidate, Unaligned, FatFor, Gap, Acceptable, SystemSectors, MaxClusters;
    AcceptedRoom(p, fsType, pau);
    AcceptedWhole(p, fsType, pau);
    CandidateRegions(p, fsType, pau);
    UnalignedReserved(p, fsType, pau);
    FatSmall(fsType, p.size / pau);
    if fsType == Fat16 {
      FatFits16(p, pau);
    }
  }

  /** The FAT of an accepted layout has room for every entry. */
  lemma FatLargeEnough(p: Params, fsType: FsType, pau: nat)
    requires Checked(p) && IsClusterSize(pau) && (fsType == Fat16 || fsType == Fat32) && Acceptable(p, fsType, pau)
    ensures var l := Candidate(p, fsType, pau); FatBytesNeeded(l.fsType, l.clusters + 2) <= 512 * l.fat
  {
    hide Candidate, Unaligned, FatFor, Gap, Acceptable, SystemSectors, FatBytesNeeded;
    AcceptedWhole(p, fsType, pau);
    AcceptedSizes(p, fsType, pau);
    CandidateRegions(p, fsType, pau);
    UnalignedReserved(p, fsType, pau);
    if fsType == Fat16 {
      FatFits16(p, pau);
    }
    FatHolds(fsType, p.size / pau, Candidate(p, fsType, pau).clusters);
  }

  lemma FatHolds(fsType: FsType, whole: nat, clusters: nat)
    requires clusters <= whole && (fsType == Fat32 ==> whole <= MAX_FAT32) && (fsType != Fat32 ==> whole < 0x4000_0000)
    ensures var f := FatFor(fsType, whole); f.0 == Fat16 || f.0 == Fat12 || f.0 == Fat32 ==>
      FatBytesNeeded(f.0, clusters + 2) <= 512 * f.1
  {
    if fsType != Fat32 && whole <= MAX_FAT12 {
      OddEven(whole, clusters);
    }
  }

  lemma OddEven(whole: nat, clusters: nat)
    requires clusters <= whole
    ensures (clusters + 2) * 3 / 2 + (clusters + 2) % 2 <= (whole * 3 + 1) / 2 + 3
  {
  }

  /** What is known of an accepted layout, apart from how it was found. */
  ghost predicate Good(p: Params, l: Layout) {
    && IsPowerOfTwo(l.pau) && 1 <= l.pau <= 128
    && 1 <= l.reserved < 0x1_0000 && 1 <= l.fat && (l.fsType != Fat32 ==> l.fat < 0x1_0000)
    && l.dir == (if l.fsType == Fat32 then 0 else p.rootEntries / 16)
    && SystemSectors(l, p.nFats) <= p.size && l.clusters == (p.size - SystemSectors(l, p.nFats)) / l.pau
    && l.clusters <= MaxClusters(l.fsType)
    && (l.fsType == Fat32 ==> l.clusters > MAX_FAT16) && (l.fsType == Fat16 ==> l.clusters > MAX_FAT12)
    && FatBytesNeeded(l.fsType, l.clusters + 2) <= 512 * l.fat
  }

  lemma AcceptedIsGood(p: Params, fsType: FsType, pau: nat)
    requires Checked(p) && IsClusterSize(pau) && (fsType == Fat16 || fsType == Fat32) && Acceptable(p, fsType, pau)
    ensures Good(p, Candidate(p, fsType, pau))
  {
    hide Candidate, Unaligned, FatFor, Gap, Acceptable, FatBytesNeeded, SystemSectors;
    AcceptedSizes(p, fsType, pau);
    FatLargeEnough(p, fsType, pau);
    AcceptedType(p, fsType, pau);
    CandidateRegions(p, fsType, pau);
    UnalignedReserved(p, fsType, pau);
    SizesArePowers(pau);
  }

  /** No field of the boot sector is cut. */
  lemma WrittenWhole(p: Params, l: Layout)
    requires Checked(p) && Good(p, l)
    ensures var b := Written(p, l);
      && b.clusterSize == l.pau && b.reserved == l.reserved && b.nFats == p.nFats
      && b.rootEntries == (if l.fsType == Fat32 then 0 else p.rootEntries)
      && (if b.fat16 == 0 then b.fat32 else b.fat16) == l.fat
      && (if b.total16 == 0 then b.total32 else b.total16) == p.size
      && b.rootEntries / 16 == l.dir
  {
    hide FatBytesNeeded, SystemSectors, IsPowerOfTwo;
  }

  lemma GoodMounts(p: Params, l: Layout, device: nat)
    requires Checked(p) && Good(p, l) && p.base + p.size <= device <= TWO32
    ensures var m := Mount(Written(p, l), p.base, device);
      && (m.Volume? <==> l.clusters >= 1)
      && (m.Volume? ==> Agrees(m.geometry, p, l))
  {
    hide Written, FatBytesNeeded, IsPowerOfTwo, CeilDiv, Geometry.Sound;
    WrittenWhole(p, l);
    CeilDivFits(FatBytesNeeded(l.fsType, l.clusters + 2), l.fat);
    if l.clusters >= 1 {
      RegionsSound(p, l, device);
    }
  }

  /** mount_volume accepts what f_mkfs has accepted exactly when the layout has a cluster at all; then it
      finds the same type and number of clusters, and a FAT that is large enough, with the regions one
      behind the other inside the volume. */
  lemma MountAccepts(p: Params, fsType: FsType, pau: nat, device: nat)
    requires Checked(p) && IsClusterSize(pau) && (fsType == Fat16 || fsType == Fat32) && Acceptable(p, fsType, pau)
    requires p.base + p.size <= device <= TWO32
    ensures var l := Candidate(p, fsType, pau);
      var m := Mount(Written(p, l), p.base, device);
      && (m.Volume? <==> l.clusters >= 1)
      && (m.Volume? ==> Agrees(m.geometry, p, l))
  {
    hide Candidate, Acceptable, Good, Mount, Written, Agrees;
    AcceptedIsGood(p, fsType, pau);
    GoodMounts(p, Candidate(p, fsType, pau), device);
  }

  /** The geometry that mount_volume derives is the layout that f_mkfs chose, and it is sound. */
  ghost predicate Agrees(g: Geometry, p: Params, l: Layout) {
    && g.fsType == l.fsType && g.nFatent == l.clusters + 2 && g.csize == l.pau && g.fsize == l.fat && g.nFats == p.nFats
    && g.fatbase == p.base + l.reserved
    && g.database == g.fatbase + g.FatSectors() + l.dir
    && g.database + g.csize * l.clusters <= p.base + p.size
    && g.Sound()
  }

  lemma SizesArePowers(pau: nat)
    requires IsClusterSize(pau)
    ensures IsPowerOfTwo(pau) && 1 <= pau <= 128
  {
    assert IsPowerOfTwo(1) && IsPowerOfTwo(2) && IsPowerOfTwo(4) && IsPowerOfTwo(8) && IsPowerOfTwo(16)
      && IsPowerOfTwo(32);
    assert IsPowerOfTwo(64) && IsPowerOfTwo(128);
  }

  lemma CeilDivFits(bytes: nat, sectors: nat)
    requires bytes <= 512 * sectors
    ensures CeilDiv(bytes) <= sectors
  {
  }

  /** The type that mount_volume derives from the number of clusters is the one that was chosen. */
  lemma AcceptedType(p: Params, fsType: FsType, pau: nat)
    requires Checked(p) && IsClusterSize(pau) && (fsType == Fat16 || fsType == Fat32) && Acceptable(p, fsType, pau)
    ensures var l := Candidate(p, fsType, pau);
      && (l.fsType == Fat32 ==> l.clusters > MAX_FAT16) && (l.fsType == Fat16 ==> MAX_FAT12 < l.clusters <= MAX_FAT16)
      && (l.fsType == Fat12 ==> l.clusters <= MAX_FAT12) && l.pau == pau
  {
  }

  lemma RegionsSound(p: Params, l: Layout, device: nat)
    requires Checked(p) && p.base + p.size <= device <= TWO32 && IsPowerOfTwo(l.pau) && 1 <= l.pau <= 128
    requires SystemSectors(l, p.nFats) <= p.size && l.clusters == (p.size - SystemSectors(l, p.nFats)) / l.pau
    requires l.clusters >= 1 && l.reserved >= 1 && l.clusters <= MaxClusters(l.fsType)
    requires FatBytesNeeded(l.fsType, l.clusters + 2) <= 512 * l.fat
    ensures var g := Geometry(l.fsType, p.nFats, l.pau, l.clusters + 2, l.fat, p.base + l.reserved,
                              p.base + SystemSectors(l, p.nFats), device);
      g.Sound() && g.database + g.csize * l.clusters <= p.base + p.size
  {
    hide FatBytesNeeded, IsPowerOfTwo;
    var g := Geometry(l.fsType, p.nFats, l.pau, l.clusters + 2, l.fat, p.base + l.reserved,
                      p.base + SystemSectors(l, p.nFats), device);
    DivideBack(p.size - SystemSectors(l, p.nFats), l.pau);
    ClusterBaseFormula(g, l.clusters + 2);
    MulMonotone(l.pau, 1, l.clusters);
  }

  /** A cluster is left exactly when the gap before the data area does not take up the room for it. */
  lemma ClusterLeft(p: Params, fsType: FsType, pau: nat)
    requires Checked(p) && IsClusterSize(pau) && (fsType == Fat16 || fsType == Fat32) && Acceptable(p, fsType, pau)
    ensures var at := SystemSectors(Unaligned(p, fsType, pau), p.nFats);
      Candidate(p, fsType, pau).clusters >= 1 <==> at + Gap(p.base + at, p.align) + pau <= p.size
  {
    hide Candidate, Unaligned, FatFor, Gap, Acceptable, SystemSectors;
    AcceptedSizes(p, fsType, pau);
    CandidateRegions(p, fsType, pau);
    DivideBack(p.size - SystemSectors(Candidate(p, fsType, pau), p.nFats), pau);
    if Candidate(p, fsType, pau).clusters >= 1 {
      MulMonotone(pau, 1, Candidate(p, fsType, pau).clusters);
    }
  }

  /** The first sector behind the system sectors, counted from the start of the volume, before the data area is
      aligned. */
  function DataStart(p: Params, l: Layout): nat
    requires l.pau > 0
  {
    SystemSectors(Unaligned(p, if l.fsType == Fat32 then Fat32 else Fat16, l.pau), p.nFats)
  }

  /** Whatever the search of f_mkfs finds for a volume, mount_volume accepts exactly when one cluster fits behind the
      gap; then it finds the same type, cluster count and regions. */
  lemma FoundMounts(p: Params, first: FsType, device: nat)
    requires Checked(p) && (first == Fat16 || first == Fat32) && p.base + p.size <= device <= TWO32
    requires Search(p, Attempt(first, p.clusterSize)).Accepted?
    ensures var l := Search(p, Attempt(first, p.clusterSize)).layout;
      var m := Mount(Written(p, l), p.base, device);
      && l.pau > 0
      && (m.Volume? <==> DataStart(p, l) + Gap(p.base + DataStart(p, l), p.align) + l.pau <= p.size)
      && (m.Volume? <==> l.clusters >= 1)
      && (m.Volume? ==> Agrees(m.geometry, p, l))
  {
    hide Candidate, Unaligned, Acceptable, Mount, Written, Agrees, Search, SystemSectors, Gap;
    var l := Search(p, Attempt(first, p.clusterSize)).layout;
    var t := FoundAcceptable(p, Attempt(first, p.clusterSize));
    TypeKept(p, t, l.pau);
    MountAccepts(p, t, l.pau, device);
    ClusterLeft(p, t, l.pau);
  }

  /** Where erase blocks are not longer than fifteen clusters, whatever the search finds is mounted. */
  lemma ShortBlocksMount(p: Params, first: FsType, device: nat)
    requires Checked(p) && (first == Fat16 || first == Fat32) && p.base + p.size <= device <= TWO32
    requires Search(p, Attempt(first, p.clusterSize)).Accepted?
    requires p.align <= 15 * Search(p, Attempt(first, p.clusterSize)).layout.pau + 1
    ensures Mount(Written(p, Search(p, Attempt(first, p.clusterSize)).layout), p.base, device).Volume?
  {
    hide Candidate, Unaligned, Acceptable, Mount, Written, Agrees, Search, SystemSectors;
    var l := Search(p, Attempt(first, p.clusterSize)).layout;
    var t := FoundAcceptable(p, Attempt(first, p.clusterSize));
    TypeKept(p, t, l.pau);
    FoundMounts(p, first, device);
    RoomForSixteen(p, t, l.pau);
  }

  lemma RoomForSixteen(p: Params, fsType: FsType, pau: nat)
    requires p.align > 0 && pau > 0 && Acceptable(p, fsType, pau)
    ensures SystemSectors(Unaligned(p, fsType, pau), p.nFats) + 16 * pau <= p.size
  {
    hide Candidate, Unaligned, SystemSectors;
  }

  /** An unaligned volume always has sixteen clusters or more. */
  lemma NoGapNoLoss(p: Params, fsType: FsType, pau: nat)
    requires Checked(p) && IsClusterSize(pau) && (fsType == Fat16 || fsType == Fat32) && Acceptable(p, fsType, pau)
    requires p.align == 1
    ensures Candidate(p, fsType, pau).clusters >= 16
  {
    hide Candidate, FatFor, Gap;
    AcceptedSizes(p, fsType, pau);
    CandidateRegions(p, fsType, pau);
    var system := SystemSectors(Candidate(p, fsType, pau), p.nFats);
    DivideBack(p.size - system, pau);
    if Candidate(p, fsType, pau).clusters < 16 {
      MulMonotone(pau, Candidate(p, fsType, pau).clusters, 15);
    }
  }

  // ----- an example -----

  /** 4096 sectors, with the data area aligned to as many. */
  function Overaligned(): Params {
    Params(0, 4096, 4096, 1, 512, 0, true)
  }

  lemma ExampleLayout()
    ensures Unaligned(Overaligned(), Fat16, 2) == Layout(Fat12, 2, 1, 7, 32, 0)
    ensures Candidate(Overaligned(), Fat16, 2) == Layout(Fat12, 2, 1, 4063, 32, 0)
  {
    assert FatFor(Fat16, 2048) == (Fat12, 7);
    ExampleUnaligned();
    assert Gap(40, 4096) == 4056;
    ExampleAligned();
  }

  lemma ExampleUnaligned()
    requires FatFor(Fat16, 2048) == (Fat12, 7)
    ensures Unaligned(Overaligned(), Fat16, 2) == Layout(Fat12, 2, 1, 7, 32, 0)
  {
    hide FatFor;
  }

  lemma ExampleAligned()
    requires Unaligned(Overaligned(), Fat16, 2) == Layout(Fat12, 2, 1, 7, 32, 0) && Gap(40, 4096) == 4056
    ensures Candidate(Overaligned(), Fat16, 2) == Layout(Fat12, 2, 1, 4063, 32, 0)
  {
    hide FatFor, Gap, Unaligned;
    var l := Layout(Fat12, 2, 1, 7, 32, 0);
    assert SystemSectors(l, 1) == 40;
    assert Aligned(Overaligned(), l) == Layout(Fat12, 2, 1, 4063, 32, 0);
    assert Counted(Overaligned(), Layout(Fat12, 2, 1, 4063, 32, 0)) == Layout(Fat12, 2, 1, 4063, 32, 0);
  }

  /** There is a volume on which the search of f_mkfs succeeds and mount_volume fails: alignment leaves no
      cluster. */
  lemma AlignedAway() returns (p: Params)
    ensures Checked(p) && var r := Search(p, Attempt(Fat16, p.clusterSize));
      r.Accepted? && Mount(Written(p, r.layout), p.base, p.base + p.size) == NoFilesystem
  {
    hide Candidate, Unaligned, AutoPau;
    p := Overaligned();
    ExampleLayout();
    ExampleSize();
    ExampleMount();
  }

  lemma ExampleSize()
    ensures AutoPau(4096 / 0x1000, BOUNDS16) == 2
  {
    assert BOUNDS16[1..][0] == 4;
  }

  lemma ExampleMount()
    ensures Mount(Written(Overaligned(), Layout(Fat12, 2, 1, 4063, 32, 0)), 0, 4096) == NoFilesystem
  {
  }
}
