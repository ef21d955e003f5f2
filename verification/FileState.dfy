/** The cluster chain of an open file among the chains of its volume, and what positions in
    the file mean on the volume. */
module FileState {
  import opened MachineInts
  import opened FatGeometry
  import opened FatEntries
  import opened FatChains
  import opened FatAlloc
  import opened FileLayout

  /** The clusters a file may use: those of its chain and the free ones. */
  ghost predicate AreaOf(g: Geometry, t: FatTable, chain: seq<nat>, area: set<nat>) {
    && |t| == g.nFatent
    && (forall c | c in area :: g.ValidCluster(c))
    && (forall c: nat | g.ValidCluster(c) :: c in area <==> c in chain || t[c] == 0)
  }

  /** Sector s belongs to a cluster of the area. */
  ghost predicate AreaHas(g: Geometry, area: set<nat>, s: nat) {
    exists c | c in area :: g.InCluster(c, s)
  }

  function ClustersOf(chain: seq<nat>): set<nat> {
    set c | c in chain
  }

  ghost function AllChains(chain: seq<nat>, others: set<seq<nat>>): set<seq<nat>> {
    if chain == [] then others else others + {chain}
  }

  /** chain is the file's cluster chain, others are the other chains of the volume, and area
      are the clusters of chain together with the free clusters. */
  datatype Placement = Placement(g: Geometry, chain: seq<nat>, others: set<seq<nat>>, area: set<nat>)
  {
    /** The FAT holds the file's chain and, apart from it, the chains `others`; the chain
        starts at sclust and holds size bytes. */
    ghost predicate Ok(t: FatTable, size: nat, sclust: nat) {
      && g.Sound()
      && AreaOf(g, t, chain, area)
      && ProperChain(g, chain)
      && chain !in others
      && WellFormed(t, AllChains(chain, others))
      && sclust == (if chain == [] then 0 else chain[0])
      && size < TWO32 && Fits(g, chain, size)
    }

    ghost predicate Has(q: nat) {
      g.csize > 0 && HasSector(g, chain, q)
    }

    /** The volume sector of file sector q. */
    ghost function Sector(q: nat): nat {
      if Has(q) then FileSector(g, chain, q) else 0
    }

    /** clust is the cluster of the byte at fptr. */
    ghost predicate On(size: nat, fptr: nat, clust: nat) {
      fptr <= size && Has(fptr / 512) && clust == chain[ClusterIndex(g, fptr / 512)]
    }

    /** fptr is the first byte of a cluster of the chain, and clst is this cluster. */
    ghost predicate Top(fptr: nat, clst: nat) {
      && fptr % 512 == 0 && Has(fptr / 512)
      && SectorOffset(g, fptr / 512) == 0 && clst == chain[ClusterIndex(g, fptr / 512)]
    }

    /** The cursor fields agree with the chain: clust holds the byte before fptr, and inside
        a sector sect is the sector of fptr. */
    ghost predicate Cursor(size: nat, fptr: nat, clust: nat, sect: nat) {
      && fptr <= size
      && (fptr > 0 ==> On(size, fptr - 1, clust))
      && (fptr % 512 != 0 ==> Has(fptr / 512) && sect == Sector(fptr / 512))
    }

    /** The first size bytes of the file on volume v. */
    ghost function Bytes(v: Volume, size: nat): seq<uint8> {
      if g.Sound() && |v| == g.nSectors && ProperChain(g, chain) && Fits(g, chain, size)
      then Content(g, v, chain, size) else []
    }
  }

  // ----- places -----

  lemma AreaSector(g: Geometry, area: set<nat>, s: nat)
    requires g.Sound() && (forall c | c in area :: g.ValidCluster(c)) && AreaHas(g, area, s)
    ensures g.database <= s < g.nSectors && !g.InFat(s) && !g.InFirstFat(s)
  {
    var c :| c in area && g.InCluster(c, s);
    ClusterInside(g, c, s);
  }

  lemma SectorInArea(p: Placement, t: FatTable, size: nat, sclust: nat, q: nat)
    requires p.Ok(t, size, sclust) && p.Has(q)
    ensures AreaHas(p.g, p.area, p.Sector(q)) && AreaHas(p.g, ClustersOf(p.chain), p.Sector(q))
    ensures p.g.database <= p.Sector(q) < p.g.nSectors
  {
    hide WellFormed, Geometry.Sound, ClusterIndex, SectorOffset, Fits;
    FileSectorPlace(p.g, p.chain, q);
    assert p.chain[ClusterIndex(p.g, q)] in p.area;
    assert p.chain[ClusterIndex(p.g, q)] in ClustersOf(p.chain);
  }

  lemma OnFacts(p: Placement, t: FatTable, size: nat, sclust: nat, fptr: nat, clust: nat)
    requires p.Ok(t, size, sclust) && p.On(size, fptr, clust)
    ensures p.g.csize > 0 && p.g.ValidCluster(clust) && 2 <= clust < TWO32
    ensures p.g.ClusterBase(clust) > 0
    ensures p.g.ClusterBase(clust) + SectorOffset(p.g, fptr / 512) == p.Sector(fptr / 512)
    ensures AreaHas(p.g, p.area, p.Sector(fptr / 512)) && p.Sector(fptr / 512) > 0
    ensures AreaHas(p.g, ClustersOf(p.chain), p.Sector(fptr / 512))
  {
    SectorInArea(p, t, size, sclust, fptr / 512);
    ClusterBaseLow(p.g, clust);
    hide WellFormed, ClusterIndex, SectorOffset, Fits, Geometry.ClusterBase;
  }

  lemma BytesLength(p: Placement, t: FatTable, v: Volume, size: nat, sclust: nat)
    requires p.Ok(t, size, sclust) && |v| == p.g.nSectors
    ensures |p.Bytes(v, size)| == size
  {
  }

  // ----- reading -----

  lemma HasBelow(p: Placement, t: FatTable, size: nat, sclust: nat, fptr: nat)
    requires p.Ok(t, size, sclust) && fptr < size
    ensures p.g.csize > 0 && p.Has(fptr / 512) && ClusterIndex(p.g, fptr / 512) < |p.chain|
  {
    hide WellFormed, AreaOf, Fits, ClusterIndex, ProperChain;
    SectorBelow(p.g, p.chain, size, fptr);
  }

  lemma SectorBefore(fptr: nat)
    requires fptr > 0 && fptr % 512 == 0
    ensures fptr / 512 > 0 && (fptr - 1) / 512 == fptr / 512 - 1
  {
  }

  /** Following the chain on a sector boundary leads to the cluster of fptr. */
  lemma AdvanceFacts(p: Placement, t: FatTable, size: nat, sclust: nat, fptr: nat, clust: nat, sect: nat)
    requires p.Ok(t, size, sclust) && p.Cursor(size, fptr, clust, sect)
    requires fptr < size && fptr % 512 == 0
    ensures p.g.csize > 0
    ensures fptr == 0 ==> p.On(size, fptr, sclust)
    ensures fptr > 0 ==> p.g.ValidCluster(clust) && |t| == p.g.nFatent
    ensures fptr > 0 && SectorOffset(p.g, fptr / 512) == 0 ==> p.On(size, fptr, t[clust])
    ensures SectorOffset(p.g, fptr / 512) != 0 ==> p.On(size, fptr, clust)
  {
    hide SectorOffset, ClusterIndex, HasSector, Geometry.Sound, WellFormed, AreaOf, Fits, ProperChain;
    HasBelow(p, t, size, sclust, fptr);
    FirstIndex(p.g);
    if fptr > 0 {
      SectorBefore(fptr);
      if SectorOffset(p.g, fptr / 512) != 0 {
        SplitPrevious(p.g, fptr / 512);
      } else {
        SplitNext(p.g, fptr / 512);
      }
      NextInChain(p, t, size, sclust, ClusterIndex(p.g, fptr / 512 - 1));
    }
  }

  lemma NextInChain(p: Placement, t: FatTable, size: nat, sclust: nat, i: nat)
    requires p.Ok(t, size, sclust) && i < |p.chain|
    ensures p.g.ValidCluster(p.chain[i]) && |t| == p.g.nFatent
    ensures i + 1 < |p.chain| ==> t[p.chain[i]] == p.chain[i + 1]
    ensures i + 1 == |p.chain| ==> t[p.chain[i]] >= |t|
  {
    assert p.chain in AllChains(p.chain, p.others);
    assert IsChain(t, p.chain);
  }

  lemma FirstIndex(g: Geometry)
    requires g.csize > 0
    ensures ClusterIndex(g, 0) == 0 && SectorOffset(g, 0) == 0
  {
  }

  /** A run of sectors of one cluster read from the file at fptr. */
  lemma RunFacts(p: Placement, t: FatTable, v: Volume, size: nat, sclust: nat, fptr: nat, clust: nat, sect: nat,
      cc: nat)
    requires p.Ok(t, size, sclust) && p.On(size, fptr, clust) && |v| == p.g.nSectors
    requires fptr % 512 == 0 && fptr + 512 * cc <= size
    requires p.g.csize > 0 && 0 < cc && SectorOffset(p.g, fptr / 512) + cc <= p.g.csize
    ensures p.Sector(fptr / 512) + cc <= p.g.nSectors
    ensures forall i | p.Sector(fptr / 512) <= i < p.Sector(fptr / 512) + cc :: AreaHas(p.g, p.area, i)
    ensures |p.Bytes(v, size)| == size
    ensures Joined(v, p.Sector(fptr / 512), cc) == p.Bytes(v, size)[fptr..fptr + 512 * cc]
    ensures p.Cursor(size, fptr + 512 * cc, clust, sect)
  {
    hide *;
    OnHas(p, size, fptr, clust);
    RunInArea(p, t, size, sclust, fptr / 512, cc);
    AfterRun(p, size, fptr, clust, cc, sect);
    JoinedBytes(p, t, v, size, sclust, fptr / 512, cc);
  }

  lemma OnHas(p: Placement, size: nat, fptr: nat, clust: nat)
    requires p.On(size, fptr, clust)
    ensures p.Has(fptr / 512) && p.g.csize > 0
  {
  }

  lemma JoinedBytes(p: Placement, t: FatTable, v: Volume, size: nat, sclust: nat, q: nat, cc: nat)
    requires p.Ok(t, size, sclust) && p.Has(q) && |v| == p.g.nSectors && 512 * (q + cc) <= size
    requires SectorOffset(p.g, q) + cc <= p.g.csize && p.Sector(q) + cc <= |v|
    ensures |p.Bytes(v, size)| == size
    ensures Joined(v, p.Sector(q), cc) == p.Bytes(v, size)[512 * q..512 * (q + cc)]
  {
    hide AreaOf, WellFormed, Content, Joined, SectorOffset, FileSector, Geometry.Sound, ProperChain, Fits, HasSector;
    JoinedContent(p.g, v, p.chain, size, q, cc);
  }

  lemma RunSector(p: Placement, t: FatTable, size: nat, sclust: nat, q: nat, j: nat)
    requires p.Ok(t, size, sclust) && p.Has(q) && SectorOffset(p.g, q) + j < p.g.csize
    ensures p.Has(q + j) && p.Sector(q + j) == p.Sector(q) + j
    ensures AreaHas(p.g, p.area, p.Sector(q) + j) && p.Sector(q) + j < p.g.nSectors
    ensures AreaHas(p.g, ClustersOf(p.chain), p.Sector(q) + j)
  {
    FileSectorRun(p.g, p.chain, q, j);
    SectorInArea(p, t, size, sclust, q + j);
  }

  lemma RunInArea(p: Placement, t: FatTable, size: nat, sclust: nat, q: nat, cc: nat)
    requires p.Ok(t, size, sclust) && p.Has(q)
    requires 0 < cc && SectorOffset(p.g, q) + cc <= p.g.csize
    ensures p.Sector(q) + cc <= p.g.nSectors
    ensures forall i | p.Sector(q) <= i < p.Sector(q) + cc ::
        AreaHas(p.g, p.area, i) && AreaHas(p.g, ClustersOf(p.chain), i)
  {
    hide *;
    RunSector(p, t, size, sclust, q, cc - 1);
    forall i | p.Sector(q) <= i < p.Sector(q) + cc
      ensures AreaHas(p.g, p.area, i) && AreaHas(p.g, ClustersOf(p.chain), i)
    {
      RunSector(p, t, size, sclust, q, i - p.Sector(q));
    }
  }

  /** The cursor after a run of whole sectors inside one cluster. */
  lemma AfterRun(p: Placement, size: nat, fptr: nat, clust: nat, cc: nat, sect: nat)
    requires p.On(size, fptr, clust) && fptr % 512 == 0
    requires 0 < cc && SectorOffset(p.g, fptr / 512) + cc <= p.g.csize && fptr + 512 * cc <= size
    ensures p.Cursor(size, fptr + 512 * cc, clust, sect)
  {
    SplitRun(p.g, fptr / 512, cc - 1);
    assert (fptr + 512 * cc - 1) / 512 == fptr / 512 + cc - 1;
    hide ClusterIndex, SectorOffset;
  }

  /** The cursor after a part of the sector of fptr. */
  lemma AfterPart(p: Placement, size: nat, fptr: nat, clust: nat, cnt: nat)
    requires p.On(size, fptr, clust) && 0 < cnt <= 512 - fptr % 512 && fptr + cnt <= size
    ensures p.Cursor(size, fptr + cnt, clust, p.Sector(fptr / 512))
  {
    assert (fptr + cnt - 1) / 512 == fptr / 512;
    assert (fptr + cnt) % 512 != 0 ==> (fptr + cnt) / 512 == fptr / 512;
    hide ClusterIndex, FileSector, HasSector;
  }

  /** A part of one sector read from the file at fptr. */
  lemma PartFacts(p: Placement, t: FatTable, v: Volume, size: nat, sclust: nat, fptr: nat, clust: nat, cnt: nat)
    requires p.Ok(t, size, sclust) && p.On(size, fptr, clust) && |v| == p.g.nSectors
    requires 0 < cnt <= 512 - fptr % 512 && fptr + cnt <= size
    ensures p.Sector(fptr / 512) < |v|
    ensures |p.Bytes(v, size)| == size
    ensures v[p.Sector(fptr / 512)][fptr % 512..fptr % 512 + cnt] == p.Bytes(v, size)[fptr..fptr + cnt]
    ensures p.Cursor(size, fptr + cnt, clust, p.Sector(fptr / 512))
  {
    AfterPart(p, size, fptr, clust, cnt);
    SectorInArea(p, t, size, sclust, fptr / 512);
    PartContent(p.g, v, p.chain, size, fptr, cnt);
  }

  lemma PartContent(g: Geometry, v: Volume, chain: seq<nat>, n: nat, fptr: nat, cnt: nat)
    requires g.Sound() && |v| == g.nSectors && ProperChain(g, chain) && Fits(g, chain, n)
    requires fptr + cnt <= n && HasSector(g, chain, fptr / 512) && fptr % 512 + cnt <= 512
    requires FileSector(g, chain, fptr / 512) < |v|
    ensures v[FileSector(g, chain, fptr / 512)][fptr % 512..fptr % 512 + cnt]
      == Content(g, v, chain, n)[fptr..fptr + cnt]
  {
    hide Geometry.Sound, ProperChain, Fits, HasSector, FileSector;
  }

  /** Inside a sector the cursor already is on the cluster of fptr. */
  lemma InsideSector(p: Placement, size: nat, fptr: nat, clust: nat, sect: nat)
    requires p.Cursor(size, fptr, clust, sect) && fptr % 512 != 0
    ensures p.On(size, fptr, clust) && sect == p.Sector(fptr / 512)
  {
    assert (fptr - 1) / 512 == fptr / 512;
  }

  // ----- growing -----

  /** The last cluster of the chain, 0 when there is none. */
  function LastCluster(chain: seq<nat>): nat {
    if chain == [] then 0 else chain[|chain| - 1]
  }

  /** Allocating r behind the end of the file's chain lengthens this chain and leaves every
      other chain of the volume as it was. */
  lemma GrowFacts(p: Placement, t: FatTable, size: nat, sclust: nat, r: nat)
    requires p.Ok(t, size, sclust) && InTable(t, r) && t[r] == 0
    ensures LastCluster(p.chain) < |t|
    ensures p.(chain := p.chain + [r]).Ok(Linked(p.g, t, LastCluster(p.chain), r), size,
              if p.chain == [] then r else sclust)
  {
    var t', c := Linked(p.g, t, LastCluster(p.chain), r), p.chain + [r];
    if p.chain != [] {
      NextInChain(p, t, size, sclust, |p.chain| - 1);
    }
    assert r !in p.chain by {
      FreshCluster(p, t, size, sclust, r);
    }
    hide Geometry.Sound, ProperChain, Fits, WellFormed, AreaOf, Linked, Disjoint, Covered, IsChain, Apart;
    GrowChains(p, t, size, sclust, r);
    GrowArea(p.g, t, p.chain, p.area, r);
    GrowProper(p.g, p.chain, r);
    FitsPrefix(p.g, p.chain, c, size);
    assert c[0] == if p.chain == [] then r else p.chain[0];
  }

  lemma FreshCluster(p: Placement, t: FatTable, size: nat, sclust: nat, r: nat)
    requires p.Ok(t, size, sclust) && InTable(t, r) && t[r] == 0
    ensures r !in p.chain && forall s | s in p.others :: r !in s
  {
    forall s | s in AllChains(p.chain, p.others) ensures r !in s {
      FreeNotInChain(t, s, r);
    }
    if p.chain != [] {
      assert p.chain in AllChains(p.chain, p.others);
    }
    assert forall s | s in p.others :: s in AllChains(p.chain, p.others);
  }

  lemma GrowChains(p: Placement, t: FatTable, size: nat, sclust: nat, r: nat)
    requires p.Ok(t, size, sclust) && InTable(t, r) && t[r] == 0 && LastCluster(p.chain) < |t|
    ensures p.chain + [r] !in p.others
    ensures WellFormed(Linked(p.g, t, LastCluster(p.chain), r), AllChains(p.chain + [r], p.others))
  {
    hide WellFormed, Mask, Geometry.Sound, ProperChain, Fits, AreaOf;
    FreshCluster(p, t, size, sclust, r);
    OkFacts(p, t, size, sclust);
    OkTable(p, t, size, sclust);
    assert r in p.chain + [r];
    MaskSmall(p.g, 0);
    var all := AllChains(p.chain, p.others);
    if p.chain == [] {
      NewChain(t, all, r, Eoc(p.g.fsType));
      assert p.chain + [r] == [r];
    } else {
      LastNotZero(p, t, size, sclust);
      StretchChain(t, all, p.chain, r, Eoc(p.g.fsType));
      assert all - {p.chain} + {p.chain + [r]} == p.others + {p.chain + [r]};
    }
  }

  lemma LastNotZero(p: Placement, t: FatTable, size: nat, sclust: nat)
    requires p.Ok(t, size, sclust) && p.chain != []
    ensures LastCluster(p.chain) >= 2
  {
  }

  lemma GrowArea(g: Geometry, t: FatTable, chain: seq<nat>, area: set<nat>, r: nat)
    requires AreaOf(g, t, chain, area) && InTable(t, r) && t[r] == 0 && LastCluster(chain) < |t|
    requires g.Sound()
    ensures AreaOf(g, Linked(g, t, LastCluster(chain), r), chain + [r], area)
  {
    MaskSmall(g, 0);
    hide Mask, Geometry.Sound;
  }

  lemma GrowProper(g: Geometry, chain: seq<nat>, r: nat)
    requires ProperChain(g, chain) && g.ValidCluster(r) && r !in chain
    ensures ProperChain(g, chain + [r])
  {
  }

  /** Volumes that differ in the FAT only hold the same file. */
  lemma BytesKept(p: Placement, longer: seq<nat>, v: Volume, w: Volume, size: nat)
    requires p.g.Sound() && |v| == |w| == p.g.nSectors && ProperChain(p.g, longer) && p.chain <= longer
    requires Fits(p.g, p.chain, size) && SameOutsideFat(p.g, v, w)
    ensures p.(chain := longer).Bytes(w, size) == p.Bytes(v, size)
  {
    ProperPrefix(p.g, p.chain, longer);
    forall c, s | c in p.chain && 0 <= s < p.g.nSectors && p.g.InCluster(c, s) ensures v[s] == w[s] {
      assert c in longer;
      ClusterInside(p.g, c, s);
    }
    hide Geometry.Sound, ProperChain, Fits, Content;
    ContentSame(p.g, v, w, p.chain, longer, size);
  }

  /** Cluster j - 1 of the chain (0 for none), behind which create_chain is called. */
  ghost predicate Precedes(p: Placement, c: nat, j: nat) {
    if j == 0 then c == 0 && p.chain == [] else j <= |p.chain| && c == p.chain[j - 1]
  }

  /** On a well-formed volume create_chain follows the chain or allocates behind its end,
      and gives 0 only when no cluster is free. */
  lemma CreateFacts(p: Placement, t: FatTable, size: nat, sclust: nat, last: nat, free: nat, c: nat, j: nat, r: nat)
    requires p.Ok(t, size, sclust) && Precedes(p, c, j)
    requires Created(t, last, free, c, r)
    requires free <= |t| - 2 ==> free == FreeCount(t)
    ensures j <= |p.chain| && |t| == p.g.nFatent && (c == 0 || InTable(t, c))
    ensures j < |p.chain| ==> !AtEnd(t, c) && r == p.chain[j] && r >= 2
    ensures j == |p.chain| ==> AtEnd(t, c) && c == LastCluster(p.chain) && r != 1 && (r == 0 ==> NoneFree(t))
    ensures j == |p.chain| && r >= 2 ==> InTable(t, r) && t[r] == 0
    ensures c != 0 ==> InTable(t, c) && t[c] != 0
  {
    hide Geometry.Sound, ProperChain, Fits, WellFormed, FreeCount, TakenCluster, NoneFree, Placement.Ok, HasReserved;
    OkTable(p, t, size, sclust);
    if j > 0 {
      NextInChain(p, t, size, sclust, j - 1);
      if j < |p.chain| {
        NextInChain(p, t, size, sclust, j);
      }
    }
    NothingReserved(p, t, size, sclust);
    NoFreeCount(t);
    if TakenCluster(t, c, last, r) {
      TakenIsFree(t, c, last, r);
    }
  }

  lemma OkTable(p: Placement, t: FatTable, size: nat, sclust: nat)
    requires p.Ok(t, size, sclust)
    ensures |t| == p.g.nFatent && p.g.nFatent >= 3
  {
  }

  lemma NothingReserved(p: Placement, t: FatTable, size: nat, sclust: nat)
    requires p.Ok(t, size, sclust)
    ensures !HasReserved(t)
  {
    hide Geometry.Sound, ProperChain, Fits, AreaOf, AreaHas;
    var all := AllChains(p.chain, p.others);
    forall c: nat | InTable(t, c) ensures t[c] != 1 {
      if t[c] != 0 {
        assert Owned(all, c);
        var s :| s in all && c in s;
        var i :| 0 <= i < |s| && s[i] == c;
        ChainUsed(t, s, i);
      }
    }
  }

  lemma OkFacts(p: Placement, t: FatTable, size: nat, sclust: nat)
    requires p.Ok(t, size, sclust)
    ensures p.g.Sound() && p.g.csize > 0 && sclust == if p.chain == [] then 0 else p.chain[0]
    ensures p.chain != [] ==> sclust >= 2
  {
  }

  lemma OkBytesKept(p: Placement, longer: seq<nat>, t: FatTable, t': FatTable, v: Volume, w: Volume,
                    size: nat, sclust: nat, sclust': nat)
    requires p.Ok(t, size, sclust) && p.(chain := longer).Ok(t', size, sclust')
    requires |v| == |w| == p.g.nSectors && p.chain <= longer && SameOutsideFat(p.g, v, w)
    ensures p.(chain := longer).Bytes(w, size) == p.Bytes(v, size)
  {
    hide Geometry.Sound, ProperChain, Fits, AreaOf, WellFormed, SameOutsideFat, Placement.Bytes;
    BytesKept(p, longer, v, w, size);
  }

  // ----- writing -----

  /** How a write finds the cluster of fptr on a sector boundary. */
  lemma AdvanceWriteFacts(p: Placement, t: FatTable, size: nat, sclust: nat, fptr: nat, clust: nat, sect: nat)
    requires p.Ok(t, size, sclust) && p.Cursor(size, fptr, clust, sect) && fptr % 512 == 0
    ensures p.g.csize > 0
    ensures fptr == 0 ==> ClusterIndex(p.g, 0) == 0
    ensures fptr > 0 ==> p.chain != []
    ensures fptr == 0 && sclust != 0 ==> p.On(size, fptr, sclust)
    ensures fptr == 0 && sclust == 0 ==> Precedes(p, 0, 0)
    ensures fptr > 0 && SectorOffset(p.g, fptr / 512) == 0 ==> Precedes(p, clust, ClusterIndex(p.g, fptr / 512))
    ensures SectorOffset(p.g, fptr / 512) != 0 ==> fptr > 0 && p.On(size, fptr, clust)
  {
    hide SectorOffset, Fits, Geometry.Sound, WellFormed, AreaOf, ClusterIndex;
    OkFacts(p, t, size, sclust);
    FirstIndex(p.g);
    if fptr > 0 {
      assert (fptr - 1) / 512 == fptr / 512 - 1;
      if SectorOffset(p.g, fptr / 512) != 0 {
        SplitPrevious(p.g, fptr / 512);
      } else {
        SplitNext(p.g, fptr / 512);
      }
    }
  }

  lemma NowOn(p: Placement, size: nat, fptr: nat, clust: nat)
    requires p.g.csize > 0 && fptr <= size
    requires ClusterIndex(p.g, fptr / 512) < |p.chain| && p.chain[ClusterIndex(p.g, fptr / 512)] == clust
    ensures p.On(size, fptr, clust)
  {
  }

  lemma FitsMax(p: Placement, t: FatTable, size: nat, sclust: nat, n: nat)
    requires p.Ok(t, size, sclust) && n < TWO32 && (n > 0 ==> p.Has((n - 1) / 512))
    ensures p.Ok(t, Max(size, n), sclust)
  {
    hide WellFormed, AreaOf, ProperChain, Geometry.Sound;
  }

  /** data written into the sector of fptr, the rest of which is old or beyond the end. */
  lemma PartWriteFacts(p: Placement, t: FatTable, v: Volume, size: nat, sclust: nat, fptr: nat, clust: nat,
                       data: seq<uint8>, d: Sector)
    requires p.Ok(t, size, sclust) && p.On(size, fptr, clust) && |v| == p.g.nSectors
    requires 0 < |data| <= 512 - fptr % 512 && fptr + |data| < TWO32
    requires p.Sector(fptr / 512) < |v|
    requires forall i | 0 <= i < |data| :: d[fptr % 512 + i] == data[i]
    requires forall o | 0 <= o < 512 && !(fptr % 512 <= o < fptr % 512 + |data|) && fptr / 512 * 512 + o < size ::
      d[o] == v[p.Sector(fptr / 512)][o]
    ensures p.Ok(t, Max(size, fptr + |data|), sclust)
    ensures p.Cursor(Max(size, fptr + |data|), fptr + |data|, clust, p.Sector(fptr / 512))
    ensures fptr <= |p.Bytes(v, size)|
    ensures p.Bytes(v[p.Sector(fptr / 512) := d], Max(size, fptr + |data|)) == Overwrite(p.Bytes(v, size), fptr, data)
  {
    hide WellFormed, AreaOf, ProperChain, Geometry.Sound, ClusterIndex, SectorOffset, FileSector, HasSector, Content,
      Fits, Overwrite;
    assert (fptr + |data| - 1) / 512 == fptr / 512;
    FitsMax(p, t, size, sclust, fptr + |data|);
    OnLarger(p, size, fptr, clust, Max(size, fptr + |data|));
    AfterPart(p, Max(size, fptr + |data|), fptr, clust, |data|);
    PatchContent(p.g, v, p.chain, size, fptr, data, d);
  }

  lemma OnLarger(p: Placement, size: nat, fptr: nat, clust: nat, n: nat)
    requires p.On(size, fptr, clust) && size <= n
    ensures p.On(n, fptr, clust) && fptr <= size && p.Has(fptr / 512)
  {
  }

  /** cc whole sectors written from fptr on inside one cluster. */
  lemma RunWriteFacts(p: Placement, t: FatTable, v: Volume, size: nat, sclust: nat, fptr: nat, clust: nat, sect: nat,
                      data: seq<uint8>, cc: nat)
    requires p.Ok(t, size, sclust) && p.On(size, fptr, clust) && |v| == p.g.nSectors
    requires fptr % 512 == 0 && |data| == 512 * cc && fptr + |data| < TWO32
    requires p.g.csize > 0 && 0 < cc && SectorOffset(p.g, fptr / 512) + cc <= p.g.csize
    ensures p.Sector(fptr / 512) + cc <= p.g.nSectors
    ensures forall i | p.Sector(fptr / 512) <= i < p.Sector(fptr / 512) + cc ::
        AreaHas(p.g, p.area, i) && AreaHas(p.g, ClustersOf(p.chain), i)
    ensures p.Ok(t, Max(size, fptr + |data|), sclust)
    ensures p.Cursor(Max(size, fptr + |data|), fptr + |data|, clust, sect)
    ensures fptr <= |p.Bytes(v, size)|
    ensures p.Bytes(PutSectors(v, p.Sector(fptr / 512), Chopped(data, cc)), Max(size, fptr + |data|))
         == Overwrite(p.Bytes(v, size), fptr, data)
  {
    hide *;
    var n := Max(size, fptr + |data|);
    MaxAbove(size, fptr + |data|);
    OnLarger(p, size, fptr, clust, n);
    RunInArea(p, t, size, sclust, fptr / 512, cc);
    AfterRun(p, n, fptr, clust, cc, sect);
    LastOfRun(p, fptr, cc);
    FitsMax(p, t, size, sclust, fptr + |data|);
    PutBytes(p, t, v, size, sclust, fptr / 512, data, cc);
  }

  lemma MaxAbove(a: nat, b: nat)
    ensures Max(a, b) >= a && Max(a, b) >= b
    ensures b <= a ==> Max(a, b) == a
  {
  }

  lemma LastOfRun(p: Placement, fptr: nat, cc: nat)
    requires fptr % 512 == 0 && p.Has(fptr / 512) && 0 < cc && SectorOffset(p.g, fptr / 512) + cc <= p.g.csize
    ensures p.Has((fptr + 512 * cc - 1) / 512)
  {
    FileSectorRun(p.g, p.chain, fptr / 512, cc - 1);
    assert (fptr + 512 * cc - 1) / 512 == fptr / 512 + (cc - 1);
    hide HasSector, SectorOffset;
  }

  lemma PutBytes(p: Placement, t: FatTable, v: Volume, size: nat, sclust: nat, q: nat, data: seq<uint8>, cc: nat)
    requires p.Ok(t, size, sclust) && p.Ok(t, Max(size, 512 * q + |data|), sclust) && |v| == p.g.nSectors
    requires p.Has(q) && SectorOffset(p.g, q) + cc <= p.g.csize && p.Sector(q) + cc <= |v|
    requires |data| == 512 * cc && 512 * q <= size
    ensures 512 * q <= |p.Bytes(v, size)|
    ensures p.Bytes(PutSectors(v, p.Sector(q), Chopped(data, cc)), Max(size, 512 * q + |data|))
         == Overwrite(p.Bytes(v, size), 512 * q, data)
  {
    hide WellFormed, AreaOf, ProperChain, Geometry.Sound, SectorOffset, FileSector, HasSector, Content, Fits,
      Overwrite, PutSectors, Chopped;
    PutContent(p.g, v, p.chain, size, q, data, cc);
  }

  /** Outside the FAT and these clusters, v and w agree. */
  ghost predicate Isolated(g: Geometry, area: set<nat>, v: Volume, w: Volume) {
    |v| == |w| && forall s | 0 <= s < |v| && !g.InFat(s) && !AreaHas(g, area, s) :: w[s] == v[s]
  }

  lemma IsolatedTrans(g: Geometry, chain: seq<nat>, longer: seq<nat>, u: Volume, v: Volume, w: Volume)
    requires Isolated(g, ClustersOf(chain), u, v) && Isolated(g, ClustersOf(longer), v, w) && chain <= longer
    ensures Isolated(g, ClustersOf(longer), u, w)
  {
    forall s | AreaHas(g, ClustersOf(chain), s) ensures AreaHas(g, ClustersOf(longer), s) {
      var c :| c in ClustersOf(chain) && g.InCluster(c, s);
      assert c in longer;
      assert c in ClustersOf(longer);
    }
  }

  lemma FatIsolated(g: Geometry, area: set<nat>, v: Volume, w: Volume)
    requires |v| == g.nSectors && SameOutsideFat(g, v, w)
    ensures Isolated(g, area, v, w)
  {
  }

  lemma PutIsolated(g: Geometry, area: set<nat>, v: Volume, s: nat, ds: seq<Sector>)
    requires s + |ds| <= |v| && forall i | s <= i < s + |ds| :: AreaHas(g, area, i)
    ensures Isolated(g, area, v, PutSectors(v, s, ds))
  {
  }

  /** An open file: its volume with everything written back, where its bytes lie, its size and its pointer. */
  datatype FileImage = FileImage(volume: Volume, place: Placement, size: nat, pos: nat)

  /** data has been written at the pointer, which has moved behind it. */
  ghost predicate WrittenOnto(g: Geometry, s: FileImage, t: FileImage, data: seq<uint8>) {
    && Isolated(g, ClustersOf(t.place.chain), s.volume, t.volume)
    && t.place == s.place.(chain := t.place.chain) && s.place.chain <= t.place.chain
    && t.pos == s.pos + |data| && t.size == Max(s.size, t.pos)
    && s.pos <= |s.place.Bytes(s.volume, s.size)|
    && t.place.Bytes(t.volume, t.size) == Overwrite(s.place.Bytes(s.volume, s.size), s.pos, data)
  }

  /** One write after the other is one write of both. */
  lemma WrittenTwice(g: Geometry, r: FileImage, s: FileImage, t: FileImage, data: seq<uint8>, more: seq<uint8>)
    requires WrittenOnto(g, r, s, data) && WrittenOnto(g, s, t, more)
    ensures WrittenOnto(g, r, t, data + more)
  {
    hide Isolated, Max, Overwrite, Placement.Bytes, ClustersOf;
    IsolatedTrans(g, s.place.chain, t.place.chain, r.volume, s.volume, t.volume);
    MaxTwice(r.size, s.pos, t.pos);
    OverwriteTwice(r.place.Bytes(r.volume, r.size), r.pos, data, more);
  }

  lemma MaxTwice(n: nat, a: nat, b: nat)
    requires a <= b
    ensures Max(Max(n, a), b) == Max(n, b)
  {
  }

  lemma PatchIsolated(g: Geometry, area: set<nat>, v: Volume, s: nat, d: Sector)
    requires s < |v| && AreaHas(g, area, s)
    ensures Isolated(g, area, v, v[s := d])
  {
  }

  // ----- seeking -----

  /** The chain starts at the top of the file. */
  lemma TopStart(p: Placement, t: FatTable, size: nat, sclust: nat)
    requires p.Ok(t, size, sclust)
    ensures sclust != 0 <==> p.chain != []
    ensures sclust != 0 ==> p.Top(0, sclust) && sclust >= 2
    ensures sclust == 0 ==> Precedes(p, 0, 0) && size == 0 && !p.Has(0)
  {
    hide WellFormed, AreaOf, Geometry.Sound, ClusterIndex, SectorOffset;
    OkFacts(p, t, size, sclust);
    FirstIndex(p.g);
  }

  lemma NewTop(p: Placement, clst: nat)
    requires p.g.csize > 0 && |p.chain| > 0 && p.chain[0] == clst
    ensures p.Top(0, clst)
  {
    FirstIndex(p.g);
  }

  /** The cluster of the byte before fptr starts at the rounded-down offset. */
  lemma TopHere(p: Placement, t: FatTable, size: nat, sclust: nat, fptr: nat, clust: nat, sect: nat)
    requires p.Ok(t, size, sclust) && p.Cursor(size, fptr, clust, sect) && fptr > 0 && p.g.csize > 0
    ensures 0 <= fptr - 1 - (fptr - 1) % (512 * p.g.csize) < fptr
    ensures p.Top(fptr - 1 - (fptr - 1) % (512 * p.g.csize), clust) && clust >= 2
  {
    hide WellFormed, AreaOf, Geometry.Sound, ClusterIndex, SectorOffset;
    ClusterStart(p.g, fptr - 1);
  }

  /** One cluster further. */
  lemma StepFacts(p: Placement, t: FatTable, size: nat, sclust: nat, fptr: nat, clst: nat)
    requires p.Ok(t, size, sclust) && p.Top(fptr, clst)
    ensures |t| == p.g.nFatent && p.g.ValidCluster(clst) && p.chain != [] && sclust == p.chain[0]
    ensures Precedes(p, clst, ClusterIndex(p.g, fptr / 512) + 1)
    ensures fptr + 512 * p.g.csize < size ==>
      ClusterIndex(p.g, fptr / 512) + 1 < |p.chain| && t[clst] == p.chain[ClusterIndex(p.g, fptr / 512) + 1]
  {
    hide WellFormed, AreaOf, Geometry.Sound, ClusterIndex, SectorOffset, Fits, HasSector;
    StepPlace(p.g, fptr);
    if fptr + 512 * p.g.csize < size {
      SectorBelow(p.g, p.chain, size, fptr + 512 * p.g.csize);
    }
    HasIndex(p, fptr / 512);
    HasIndex(p, (fptr + 512 * p.g.csize) / 512);
    NextInChain(p, t, size, sclust, ClusterIndex(p.g, fptr / 512));
  }

  lemma HasIndex(p: Placement, q: nat)
    requires p.g.csize > 0
    ensures p.Has(q) <==> ClusterIndex(p.g, q) < |p.chain|
  {
  }

  lemma StepPlace(g: Geometry, fptr: nat)
    requires g.csize > 0 && fptr % 512 == 0
    ensures (fptr + 512 * g.csize) % 512 == 0
    ensures ClusterIndex(g, (fptr + 512 * g.csize) / 512) == ClusterIndex(g, fptr / 512) + 1
    ensures SectorOffset(g, (fptr + 512 * g.csize) / 512) == SectorOffset(g, fptr / 512)
  {
    assert (fptr + 512 * g.csize) / 512 == fptr / 512 + g.csize;
    SplitCluster(g, fptr / 512);
  }

  lemma NextTop(p: Placement, q: Placement, fptr: nat, clst: nat, c: nat)
    requires p.Top(fptr, clst) && q.g == p.g
    requires ClusterIndex(p.g, fptr / 512) + 1 < |q.chain| && q.chain[ClusterIndex(p.g, fptr / 512) + 1] == c
    ensures q.Top(fptr + 512 * p.g.csize, c)
  {
    StepPlace(p.g, fptr);
  }

  lemma TopKept(p: Placement, longer: seq<nat>, fptr: nat, clst: nat)
    requires p.Top(fptr, clst) && p.chain <= longer
    ensures p.(chain := longer).Top(fptr, clst)
  {
  }

  /** The byte before the cursor lies in the cluster that starts at base. */
  lemma SeekEndPlace(p: Placement, t: FatTable, size: nat, sclust: nat, base: nat, clst: nat, ofs: nat)
    requires p.Ok(t, size, sclust) && p.Top(base, clst) && 0 < ofs <= 512 * p.g.csize && base + ofs < TWO32
    ensures p.Ok(t, Max(size, base + ofs), sclust) && p.On(Max(size, base + ofs), base + ofs - 1, clst)
    ensures p.g.ValidCluster(clst) && clst < TWO32 && p.g.ClusterBase(clst) > 0
    ensures p.g.ClusterBase(clst) == p.Sector(base / 512)
  {
    hide WellFormed, AreaOf, Geometry.Sound, ClusterIndex, SectorOffset, Fits, HasSector, FileSector,
      Geometry.ClusterBase, AreaHas, Max, Placement.Ok;
    MaxAbove(size, base + ofs);
    EndSector(p, base / 512, (ofs - 1) / 512);
    assert (base + ofs - 1) / 512 == base / 512 + (ofs - 1) / 512;
    FitsMax(p, t, size, sclust, base + ofs);
    OnFacts(p, t, Max(size, base + ofs), sclust, base, clst);
  }

  /** The sector of the cursor inside the cluster that starts at base. */
  lemma SeekEndSector(p: Placement, t: FatTable, size: nat, sclust: nat, base: nat, clst: nat, ofs: nat)
    requires p.Ok(t, size, sclust) && p.Top(base, clst) && ofs < 512 * p.g.csize
    ensures p.Has((base + ofs) / 512) && p.Sector((base + ofs) / 512) == p.Sector(base / 512) + ofs / 512
    ensures AreaHas(p.g, p.area, p.Sector((base + ofs) / 512))
  {
    hide WellFormed, AreaOf, Geometry.Sound, ClusterIndex, SectorOffset, Fits, HasSector, FileSector,
      Geometry.ClusterBase, AreaHas, Placement.Ok;
    EndSector(p, base / 512, ofs / 512);
    assert (base + ofs) / 512 == base / 512 + ofs / 512;
    SectorInArea(p, t, size, sclust, (base + ofs) / 512);
  }

  lemma CursorAt(p: Placement, size: nat, fptr: nat, clst: nat, sect: nat)
    requires 0 < fptr <= size && p.On(size, fptr - 1, clst)
    requires fptr % 512 != 0 ==> p.Has(fptr / 512) && sect == p.Sector(fptr / 512)
    ensures p.Cursor(size, fptr, clst, sect)
  {
    hide Placement.On, Placement.Has, Placement.Sector;
  }

  lemma SameOffset(base: nat, ofs: nat)
    requires base % 512 == 0
    ensures (base + ofs) % 512 == ofs % 512
  {
  }

  /** The cursor ofs bytes into the cluster that starts at base, its end included. */
  lemma SeekEndFacts(p: Placement, t: FatTable, size: nat, sclust: nat, base: nat, clst: nat, ofs: nat, sect: nat)
    requires p.Ok(t, size, sclust) && p.Top(base, clst) && 0 < ofs <= 512 * p.g.csize && base + ofs < TWO32
    ensures p.Ok(t, Max(size, base + ofs), sclust)
    ensures p.g.ValidCluster(clst) && clst < TWO32 && p.g.ClusterBase(clst) > 0
    ensures (base + ofs) % 512 == ofs % 512
    ensures ofs % 512 != 0 ==> AreaHas(p.g, p.area, p.g.ClusterBase(clst) + ofs / 512)
    ensures (ofs % 512 != 0 ==> sect == p.g.ClusterBase(clst) + ofs / 512) ==>
      p.Cursor(Max(size, base + ofs), base + ofs, clst, sect)
  {
    hide Placement.Ok, Placement.On, Placement.Has, Placement.Sector, Placement.Cursor, Placement.Top, Geometry.Sound,
      Geometry.ClusterBase, Geometry.ValidCluster, AreaHas, Max;
    TopAligned(p, base, clst);
    SameOffset(base, ofs);
    MaxAbove(size, base + ofs);
    SeekEndPlace(p, t, size, sclust, base, clst, ofs);
    if ofs % 512 != 0 {
      SeekEndSector(p, t, size, sclust, base, clst, ofs);
    }
    if ofs % 512 != 0 ==> sect == p.g.ClusterBase(clst) + ofs / 512 {
      CursorAt(p, Max(size, base + ofs), base + ofs, clst, sect);
    }
  }

  lemma TopOn(p: Placement, base: nat, clst: nat)
    requires p.Top(base, clst)
    ensures forall n | n >= base :: p.On(n, base, clst)
  {
  }

  /** Sector j of the cluster that starts at file sector q. */
  lemma EndSector(p: Placement, q: nat, j: nat)
    requires p.Has(q) && SectorOffset(p.g, q) == 0 && j < p.g.csize
    ensures p.Has(q + j) && p.Sector(q + j) == p.Sector(q) + j
    ensures ClusterIndex(p.g, q + j) == ClusterIndex(p.g, q)
  {
    SplitRun(p.g, q, j);
    FileSectorRun(p.g, p.chain, q, j);
  }

  /** A longer file begins with the bytes of the shorter. */
  lemma BytesPrefix(p: Placement, t: FatTable, v: Volume, size: nat, n: nat, sclust: nat)
    requires p.Ok(t, size, sclust) && p.Ok(t, n, sclust) && size <= n && |v| == p.g.nSectors
    ensures |p.Bytes(v, n)| == n && |p.Bytes(v, size)| == size
    ensures p.Bytes(v, n)[..size] == p.Bytes(v, size)
  {
    hide WellFormed, AreaOf, ProperChain, Geometry.Sound, Fits, ByteAt;
    forall k | 0 <= k < size ensures p.Bytes(v, n)[k] == p.Bytes(v, size)[k] {
      ByteOfSize(p.g, v, p.chain, n, size, k);
    }
  }

  lemma TopAligned(p: Placement, fptr: nat, clst: nat)
    requires p.Top(fptr, clst)
    ensures fptr % 512 == 0 && p.g.csize > 0
  {
  }

  lemma CursorTop(p: Placement, size: nat, clust: nat, sect: nat)
    ensures p.Cursor(size, 0, clust, sect)
  {
  }

  // ----- truncating -----

  /** The FAT after the chain has been cut before cluster k: the freed clusters stay in the
      file's area, and every other chain is as it was. */
  lemma CutFacts(p: Placement, t: FatTable, size: nat, sclust: nat, k: nat, n: nat)
    requires p.Ok(t, size, sclust) && k < |p.chain| && n <= size && Fits(p.g, p.chain[..k], n)
    ensures RemoveAllowed(p.g, p.chain[k], if k == 0 then 0 else p.chain[k - 1]) && |t| == p.g.nFatent
    ensures k > 0 ==> t[p.chain[k - 1]] != 0
    ensures
      var r := Removed(p.g, t, p.chain[k], if k == 0 then 0 else p.chain[k - 1]);
      r.0 && p.(chain := p.chain[..k]).Ok(r.1, n, if k == 0 then 0 else sclust)
  {
    hide Geometry.Sound, WellFormed, IsChain, Fits, FreeFrom, Cut, Mask;
    OkFacts(p, t, size, sclust);
    OkTable(p, t, size, sclust);
    MaskSmall(p.g, 0);
    var eoc := Eoc(p.g.fsType);
    assert p.chain in AllChains(p.chain, p.others);
    WellFormedChain(t, AllChains(p.chain, p.others), p.chain);
    FreeIsCut(t, p.chain, k, eoc);
    CutOthers(p, t, size, sclust, k);
    CutArea(p.g, t, p.chain, p.area, k, eoc);
    NextInChain(p, t, size, sclust, k);
    if k > 0 {
      NextInChain(p, t, size, sclust, k - 1);
    }
  }

  lemma WellFormedChain(t: FatTable, chains: set<seq<nat>>, s: seq<nat>)
    requires WellFormed(t, chains) && s in chains
    ensures IsChain(t, s)
  {
  }

  lemma CutOthers(p: Placement, t: FatTable, size: nat, sclust: nat, k: nat)
    requires p.Ok(t, size, sclust) && k < |p.chain| && p.chain in AllChains(p.chain, p.others)
    requires Eoc(p.g.fsType) >= |t| && IsChain(t, p.chain)
    ensures p.chain[..k] !in p.others
    ensures WellFormed(Cut(t, p.chain, k, Eoc(p.g.fsType)), AllChains(p.chain[..k], p.others))
  {
    hide Geometry.Sound, Fits, IsChain, Cut, Mask;
    var all := AllChains(p.chain, p.others);
    forall q | q in p.others ensures q != p.chain[..k] {
      assert q in all && q != p.chain;
      if k > 0 {
        assert Apart(p.chain, q);
        assert p.chain[..k][0] == p.chain[0];
      } else {
        WellFormedChain(t, all, q);
        ChainNotEmpty(t, q);
      }
    }
    assert CutChains(all, p.chain, k) == AllChains(p.chain[..k], p.others);
    hide WellFormed;
    CutChain(t, all, p.chain, k, Eoc(p.g.fsType));
  }

  lemma ChainNotEmpty(t: FatTable, s: seq<nat>)
    requires IsChain(t, s)
    ensures s != []
  {
  }

  lemma CutArea(g: Geometry, t: FatTable, chain: seq<nat>, area: set<nat>, k: nat, eoc: nat)
    requires AreaOf(g, t, chain, area) && IsChain(t, chain) && k < |chain| && eoc >= |t| && eoc > 0
    ensures AreaOf(g, Cut(t, chain, k, eoc), chain[..k], area)
  {
    var t' := Cut(t, chain, k, eoc);
    hide Cut, IsChain;
    ChainInside(t, chain);
    forall c: nat | g.ValidCluster(c) ensures c in area <==> c in chain[..k] || t'[c] == 0 {
      CutCluster(t, chain, k, eoc, c);
    }
  }

  /** A cluster was in the chain or free exactly when it is in what is left of the chain or free now. */
  lemma CutCluster(t: FatTable, chain: seq<nat>, k: nat, eoc: nat, c: nat)
    requires IsChain(t, chain) && k < |chain| && eoc >= |t| && eoc > 0 && c < |t|
    ensures (c in chain || t[c] == 0) <==> (c in chain[..k] || Cut(t, chain, k, eoc)[c] == 0)
  {
    hide IsChain;
    ChainInside(t, chain);
    InParts(chain, k, c);
    var was := if k == 0 then t else t[chain[k - 1] := eoc];
    if k > 0 {
      assert chain[..k][k - 1] == chain[k - 1];
    }
    if c !in chain {
      assert k > 0 ==> c != chain[k - 1];
      assert was[c] == t[c];
    }
  }

  lemma InParts(s: seq<nat>, k: nat, c: nat)
    requires k <= |s|
    ensures c in s <==> c in s[..k] || c in s[k..]
  {
    assert s == s[..k] + s[k..];
  }

  lemma ChainInside(t: FatTable, chain: seq<nat>)
    requires IsChain(t, chain)
    ensures forall i | 0 <= i < |chain| :: InTable(t, chain[i])
  {
  }

  lemma SameTrans(g: Geometry, u: Volume, v: Volume, w: Volume)
    requires |u| == g.nSectors && SameOutsideFat(g, u, v) && SameOutsideFat(g, v, w)
    ensures SameOutsideFat(g, u, w)
  {
  }

  lemma SameRefl(g: Geometry, v: Volume)
    requires |v| == g.nSectors
    ensures SameOutsideFat(g, v, v)
  {
  }

  lemma TruncTop(p: Placement, t: FatTable, size: nat, sclust: nat)
    requires p.Ok(t, size, sclust) && size > 0
    ensures p.g.csize > 0 && |p.chain| > 0 && sclust == p.chain[0] && Fits(p.g, p.chain[..0], 0)
  {
  }

  /** Where f_truncate cuts the chain of a file that keeps fptr bytes. */
  lemma TruncFacts(p: Placement, t: FatTable, size: nat, sclust: nat, fptr: nat, clust: nat, sect: nat)
    requires p.Ok(t, size, sclust) && p.Cursor(size, fptr, clust, sect) && 0 < fptr
    ensures p.g.csize > 0 && p.g.ValidCluster(clust) && |t| == p.g.nFatent
    ensures
      var k := ClusterIndex(p.g, (fptr - 1) / 512) + 1;
      && k <= |p.chain| && clust == p.chain[k - 1]
      && (k < |p.chain| ==> t[clust] == p.chain[k] && p.chain[k] < |t|)
      && (k == |p.chain| ==> t[clust] >= |t|)
      && Fits(p.g, p.chain[..k], fptr)
      && p.(chain := p.chain[..k]).Cursor(fptr, fptr, clust, sect)
  {
    hide WellFormed, AreaOf, Geometry.Sound, ClusterIndex, SectorOffset, Geometry.ClusterBase;
    OkFacts(p, t, size, sclust);
    var k := ClusterIndex(p.g, (fptr - 1) / 512) + 1;
    NextInChain(p, t, size, sclust, k - 1);
    if k < |p.chain| {
      NextInChain(p, t, size, sclust, k);
    }
    assert fptr % 512 != 0 ==> fptr / 512 == (fptr - 1) / 512;
  }

  lemma OkShrink(p: Placement, t: FatTable, size: nat, sclust: nat, n: nat)
    requires p.Ok(t, size, sclust) && n <= size
    ensures p.Ok(t, n, sclust)
  {
    hide WellFormed, AreaOf, Geometry.Sound, ClusterIndex;
    OkFacts(p, t, size, sclust);
    if n > 0 {
      SectorBelow(p.g, p.chain, size, n - 1);
    }
  }

  /** The shorter file holds the first bytes of the longer. */
  lemma BytesOfCut(p: Placement, shorter: seq<nat>, t: FatTable, t': FatTable, v: Volume, w: Volume,
                   size: nat, n: nat, sclust: nat, sclust': nat)
    requires p.Ok(t, size, sclust) && p.(chain := shorter).Ok(t', n, sclust') && n <= size
    requires |v| == |w| == p.g.nSectors && shorter <= p.chain && SameOutsideFat(p.g, v, w)
    ensures n <= |p.Bytes(v, size)|
    ensures p.(chain := shorter).Bytes(w, n) == p.Bytes(v, size)[..n]
  {
    hide Placement.Ok, Placement.Bytes, SameOutsideFat;
    var q := p.(chain := shorter);
    assert q.(chain := p.chain) == p;
    OkShrink(p, t, size, sclust, n);
    BytesPrefix(p, t, v, n, size, sclust);
    SameSym(p.g, v, w);
    OkBytesKept(q, p.chain, t', t, w, v, n, sclust', sclust);
  }

  lemma SameSym(g: Geometry, v: Volume, w: Volume)
    requires |v| == g.nSectors && SameOutsideFat(g, v, w)
    ensures |w| == g.nSectors && SameOutsideFat(g, w, v)
  {
  }
}
