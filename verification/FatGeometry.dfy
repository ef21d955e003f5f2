/** The shape of a mounted FAT volume: the numbers that mount_volume derives from
    the boot sector, and where the sectors of each region lie. */
module FatGeometry {
  import opened MachineInts

  // Largest cluster counts of each FAT type (section "FAT Type Determination").
  const MAX_FAT12: nat := 0xFF5
  const MAX_FAT16: nat := 0xFFF5
  const MAX_FAT32: nat := 0x0FFFFFF5

  type Sector = s: seq<uint8> | |s| == 512 witness seq(512, i => 0)

  datatype FsType = Fat12 | Fat16 | Fat32

  /** Bytes occupied by a FAT of n entries. */
  function FatBytesNeeded(fsType: FsType, n: nat): nat {
    match fsType
    case Fat12 => n * 3 / 2 + n % 2
    case Fat16 => n * 2
    case Fat32 => n * 4
  }

  function MaxClusters(fsType: FsType): nat {
    match fsType
    case Fat12 => MAX_FAT12
    case Fat16 => MAX_FAT16
    case Fat32 => MAX_FAT32
  }

  predicate IsPowerOfTwo(n: nat) {
    n == 1 || (n > 1 && n % 2 == 0 && IsPowerOfTwo(n / 2))
  }

  datatype Geometry = Geometry(
    fsType: FsType,
    nFats: nat,
    csize: nat,
    nFatent: nat,
    fsize: nat,
    fatbase: nat,
    database: nat,
    nSectors: nat)
  {
    /** Sectors of the FAT area, all copies. */
    function FatSectors(): nat {
      if nFats == 2 then fsize + fsize else fsize
    }

    /** What a mounted volume satisfies: the regions follow one another inside the
        device and the FAT is large enough for every entry. */
    predicate Sound() {
      && 1 <= nFats <= 2
      && 1 <= csize <= 128 && IsPowerOfTwo(csize)
      && 3 <= nFatent <= MaxClusters(fsType) + 2
      && FatBytesNeeded(fsType, nFatent) <= fsize * 512
      && 1 <= fatbase
      && fatbase + FatSectors() <= database
      && database < ClusterBase(nFatent) <= nSectors <= TWO32
    }

    /** The test sync_window makes, in 32-bit unsigned arithmetic. */
    predicate InFirstFat(s: nat) {
      Sub32(s, fatbase) < fsize
    }

    predicate InFat(s: nat) {
      fatbase <= s < fatbase + FatSectors()
    }

    predicate ValidCluster(c: nat) {
      2 <= c < nFatent
    }

    /** First sector of cluster c; cluster 2 is the first of the data area. */
    function ClusterBase(c: nat): nat
    {
      if c <= 2 then database else ClusterBase(c - 1) + csize
    }

    predicate InCluster(c: nat, s: nat) {
      ClusterBase(c) <= s < ClusterBase(c) + csize
    }
  }

  /** The closed form that clst2sect evaluates. */
  lemma {:induction false} ClusterBaseFormula(g: Geometry, c: nat)
    requires 2 <= c
    ensures g.ClusterBase(c) == g.database + g.csize * (c - 2)
  {
    if c == 2 {
      assert g.csize * (c - 2) == 0;
    } else {
      ClusterBaseFormula(g, c - 1);
      assert g.csize * (c - 2) == g.csize * (c - 3) + g.csize;
    }
  }

  lemma {:induction false} ClusterBaseGap(g: Geometry, c: nat, d: nat)
    requires 2 <= c < d
    ensures g.ClusterBase(c) + g.csize <= g.ClusterBase(d)
    decreases d
  {
    if c < d - 1 {
      ClusterBaseGap(g, c, d - 1);
    }
  }

  lemma {:induction false} ClusterBaseLow(g: Geometry, c: nat)
    ensures g.database <= g.ClusterBase(c)
  {
    if c > 2 {
      ClusterBaseLow(g, c - 1);
    }
  }

  /** The unsigned test for "in the first FAT" means what it says. */
  lemma InFirstFatMeaning(g: Geometry, s: nat)
    requires g.Sound() && s < g.nSectors
    ensures g.InFirstFat(s) <==> g.fatbase <= s < g.fatbase + g.fsize
    ensures g.InFirstFat(s) ==> g.InFat(s)
    ensures g.InFirstFat(s) && g.nFats == 2 ==> s + g.fsize < g.database < g.nSectors
  {
    if s < g.fatbase {
      assert Sub32(s, g.fatbase) == TWO32 - (g.fatbase - s);
    } else {
      assert Sub32(s, g.fatbase) == s - g.fatbase;
    }
  }

  /** Different clusters own different sectors, all inside the data area. */
  lemma ClustersDisjoint(g: Geometry, c: nat, d: nat, s: nat)
    requires g.ValidCluster(c) && g.ValidCluster(d)
    requires g.InCluster(c, s) && g.InCluster(d, s)
    ensures c == d
  {
    if c < d {
      ClusterBaseGap(g, c, d);
    } else if d < c {
      ClusterBaseGap(g, d, c);
    }
  }

  lemma ClusterInside(g: Geometry, c: nat, s: nat)
    requires g.Sound() && g.ValidCluster(c) && g.InCluster(c, s)
    ensures g.database <= s < g.nSectors
    ensures !g.InFat(s) && !g.InFirstFat(s)
  {
    ClusterBaseGap(g, c, g.nFatent);
    ClusterBaseLow(g, c);
    InFirstFatMeaning(g, s);
  }
}
