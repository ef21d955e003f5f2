/** What the cluster allocator does, as relations between entry tables. */
module FatAlloc {
  import opened FatGeometry
  import opened FatEntries
  import opened FatChains

  /** The entry value that put_fat stores for 0xFFFFFFFF. */
  function Eoc(t: FsType): nat {
    Mask(t, 0xFFFF_FFFF)
  }

  /** No cluster of the table is free. */
  predicate NoneFree(t: FatTable) {
    forall c | 2 <= c < |t| :: t[c] != 0
  }

  /** Some entry has the reserved value 1, which get_fat's callers take for an error. */
  predicate HasReserved(t: FatTable) {
    exists c | 2 <= c < |t| :: t[c] == 1
  }

  /** c comes before r when clusters are counted cyclically from the one after scl. */
  predicate Before(scl: nat, c: nat, r: nat) {
    if scl < r then scl < c < r else c > scl || c < r
  }

  /** r is the first free cluster after scl, cyclically. */
  predicate FirstFree(t: FatTable, scl: nat, r: nat) {
    InTable(t, r) && t[r] == 0 && forall c | 2 <= c < |t| && Before(scl, c, r) :: t[c] > 1
  }

  /** All clusters the scan has passed are in use. */
  predicate ScanState(t: FatTable, scl: nat, ncl: nat, wrapped: bool) {
    if wrapped then 2 <= ncl < scl && forall c | 2 <= c < |t| && (c > scl || c <= ncl) :: t[c] > 1
    else scl <= ncl < |t| && forall c | 2 <= c < |t| && scl < c <= ncl :: t[c] > 1
  }

  /** The cluster a search for clst with this hint takes. */
  predicate TakenCluster(t: FatTable, clst: nat, last: nat, r: nat) {
    if clst == 0 then
      FirstFree(t, if last == 0 || last >= |t| then 1 else last, r)
    else
      var next := if clst + 1 >= |t| then 2 else clst + 1;
      if InTable(t, next) && t[next] == 0 then r == next
      else FirstFree(t, if 2 <= last < |t| then last else clst, r)
  }

  lemma TakenIsFree(t: FatTable, clst: nat, last: nat, r: nat)
    requires TakenCluster(t, clst, last, r)
    ensures InTable(t, r) && t[r] == 0
  {
  }

  /** The table after r has been allocated behind clst (or as a chain of its own). */
  function Linked(g: Geometry, t: FatTable, clst: nat, r: nat): FatTable
    requires r < |t| && clst < |t|
  {
    if clst == 0 then t[r := Eoc(g.fsType)] else t[r := Eoc(g.fsType)][clst := r]
  }

  lemma MaskSmall(g: Geometry, c: nat)
    requires g.Sound() && c < g.nFatent
    ensures Mask(g.fsType, c) == c
    ensures Eoc(g.fsType) >= g.nFatent
  {
    hide Geometry.Sound;
    TableSize(g);
  }

  lemma TableSize(g: Geometry)
    requires g.Sound()
    ensures g.nFatent <= MaxClusters(g.fsType) + 2
  {
    hide FatBytesNeeded, Geometry.ClusterBase, IsPowerOfTwo, Geometry.FatSectors;
  }

  /** A chain is to be started, or stretched at its last cluster. */
  predicate AtEnd(t: FatTable, clst: nat) {
    clst == 0 || (InTable(t, clst) && t[clst] >= |t|)
  }

  /** create_chain has allocated r. */
  predicate NewlyLinked(t: FatTable, clst: nat, r: nat) {
    AtEnd(t, clst) && InTable(t, r) && t[r] == 0
  }

  /** The result of create_chain. */
  predicate Created(t: FatTable, last: nat, free: nat, clst: nat, r: nat) {
    if AtEnd(t, clst) then
      && (free == 0 ==> r == 0)
      && (r == 0 ==> free == 0 || NoneFree(t))
      && (r == 1 ==> HasReserved(t))
      && (r >= 2 ==> TakenCluster(t, clst, last, r))
    else
      r == if InTable(t, clst) && t[clst] >= 2 then t[clst] else 1
  }

  lemma FatOnlyRefl(g: Geometry, v: Volume)
    requires g.Sound() && |v| == g.nSectors
    ensures FatOnly(g, v, v)
  {
  }

  /** The clusters remove_chain accepts. */
  predicate RemoveAllowed(g: Geometry, clst: nat, pclst: nat) {
    g.ValidCluster(clst) && (pclst == 0 || g.ValidCluster(pclst))
  }

  /** What remove_chain does to the table, and whether it reports success. */
  function Removed(g: Geometry, t: FatTable, clst: nat, pclst: nat): (bool, FatTable)
    requires |t| == g.nFatent && RemoveAllowed(g, clst, pclst)
  {
    FreeFrom(if pclst == 0 then t else t[pclst := Eoc(g.fsType)], clst)
  }

  lemma FreeAfterLink(g: Geometry, t: FatTable, clst: nat, r: nat)
    requires g.Sound() && |t| == g.nFatent && InTable(t, r) && t[r] == 0
    requires clst == 0 || (InTable(t, clst) && t[clst] != 0)
    ensures FreeCount(Linked(g, t, clst, r)) == FreeCount(t) - 1
  {
    MaskSmall(g, 0);
    hide Geometry.Sound, Mask, FreeCount;
    var t1 := t[r := Eoc(g.fsType)];
    FreeCountUpdate(t, r, Eoc(g.fsType));
    if clst != 0 {
      FreeCountUpdate(t1, clst, r);
    }
  }

  lemma NoFreeCount(t: FatTable)
    ensures FreeCount(t) == 0 ==> NoneFree(t)
  {
    FreeBelowBound(t, |t|);
  }

  // ----- the calls as steps -----

  /** What the allocator knows: the entries, where to search next, and how many are free. */
  datatype Allocator = Allocator(t: FatTable, last: nat, free: nat)

  /** A known free count is exact. */
  ghost predicate Exact(g: Geometry, a: Allocator) {
    a.free <= g.nFatent - 2 ==> a.free == FreeCount(a.t)
  }

  /** A call of create_chain. */
  ghost predicate AfterCreate(g: Geometry, a: Allocator, clst: nat, ncl: nat, a': Allocator)
  {
    && Created(a.t, a.last, a.free, clst, ncl)
    && if NewlyLinked(a.t, clst, ncl) then
         && clst < |a.t| && a'.t == Linked(g, a.t, clst, ncl) && a'.last == ncl
         && a'.free == if a.free <= g.nFatent - 2 then a.free - 1 else a.free
       else
         a' == a
  }

  /** A call of remove_chain; the free count is known to stay exact when pclst was in use. */
  ghost predicate AfterRemove(g: Geometry, a: Allocator, clst: nat, pclst: nat, ok: bool, a': Allocator) {
    && |a.t| == g.nFatent && RemoveAllowed(g, clst, pclst)
    && (ok, a'.t) == Removed(g, a.t, clst, pclst) && a'.last == a.last
    && (Exact(g, a) && (pclst != 0 ==> a.t[pclst] != 0) ==> Exact(g, a'))
  }
}
