/** Runs of create_chain and remove_chain keep the cluster chains well formed. */
module AllocRuns {
  import opened FatGeometry
  import opened FatEntries
  import opened FatChains
  import opened FatAlloc

  /** Every used cluster belongs to exactly one of the chains, and a known free count is exact. */
  ghost predicate Safe(g: Geometry, a: Allocator, chains: set<seq<nat>>) {
    && g.Sound() && |a.t| == g.nFatent && WellFormed(a.t, chains) && Exact(g, a)
  }

  datatype Call = Create(clst: nat, ncl: nat) | Remove(clst: nat, pclst: nat, ok: bool)

  /** What callers pass: 0 or a used cluster to stretch; a first cluster to remove, or a cluster
      together with the one that links to it. */
  ghost predicate Proper(t: FatTable, c: Call) {
    match c
    case Create(clst, _) => clst == 0 || (InTable(t, clst) && t[clst] != 0)
    case Remove(clst, pclst, _) =>
      && InTable(t, clst) && t[clst] != 0
      && if pclst == 0 then forall x | 0 <= x < |t| :: t[x] != clst else InTable(t, pclst) && t[pclst] == clst
  }

  ghost predicate Happens(g: Geometry, a: Allocator, c: Call, a': Allocator) {
    match c
    case Create(clst, ncl) => AfterCreate(g, a, clst, ncl, a')
    case Remove(clst, pclst, ok) => AfterRemove(g, a, clst, pclst, ok, a')
  }

  // ----- one call -----

  /** The chain and position of a used cluster. */
  lemma FindOwner(t: FatTable, chains: set<seq<nat>>, c: nat) returns (s: seq<nat>, i: nat)
    requires WellFormed(t, chains) && InTable(t, c) && t[c] != 0
    ensures s in chains && i < |s| && s[i] == c && IsChain(t, s)
  {
    assert Owned(chains, c);
    s :| s in chains && c in s;
    i :| i < |s| && s[i] == c;
  }

  lemma NoReserved(t: FatTable, chains: set<seq<nat>>)
    requires WellFormed(t, chains)
    ensures !HasReserved(t)
  {
    forall c: nat | InTable(t, c) ensures t[c] != 1 {
      if t[c] != 0 {
        var s, i := FindOwner(t, chains, c);
        ChainUsed(t, s, i);
      }
    }
  }

  /** create_chain takes a free cluster into one chain, and fails only when none is free. */
  lemma CreateSafe(g: Geometry, a: Allocator, chains: set<seq<nat>>, clst: nat, ncl: nat, a': Allocator)
    returns (chains': set<seq<nat>>)
    requires Safe(g, a, chains) && Proper(a.t, Create(clst, ncl)) && AfterCreate(g, a, clst, ncl, a')
    ensures Safe(g, a', chains')
    ensures forall q | q in chains && clst !in q :: q in chains'
    ensures forall q | q in chains' && q !in chains :: clst in q || q == [ncl]
    ensures ncl != 1 && (ncl == 0 ==> NoneFree(a.t))
  {
    hide Geometry.Sound, FreeCount, IsChain, Disjoint, Covered, TakenCluster, Mask, FirstFree;
    NoReserved(a.t, chains);
    NoFreeCount(a.t);
    EocLarge(g);
    chains' := chains;
    if NewlyLinked(a.t, clst, ncl) {
      FreeAfterLink(g, a.t, clst, ncl);
      if clst == 0 {
        NewChain(a.t, chains, ncl, Eoc(g.fsType));
        chains' := chains + {[ncl]};
      } else {
        var s := EndOfChain(a.t, chains, clst);
        StretchChain(a.t, chains, s, ncl, Eoc(g.fsType));
        chains' := chains - {s} + {s + [ncl]};
      }
    } else {
      NotLinkedSame(a.t, chains, a.last, a.free, clst, ncl);
    }
  }

  lemma EocLarge(g: Geometry)
    requires g.Sound()
    ensures Eoc(g.fsType) >= g.nFatent
  {
    MaskSmall(g, 0);
  }

  /** The links of a chain. */
  lemma Links(t: FatTable, s: seq<nat>, i: nat)
    requires IsChain(t, s) && i < |s|
    ensures i < |s| - 1 ==> t[s[i]] == s[i + 1] < |t|
    ensures i > 0 ==> s[i - 1] < |t| && t[s[i - 1]] == s[i]
  {
    if i > 0 {
      assert t[s[i - 1]] == s[i - 1 + 1];
    }
  }

  lemma EndOfChain(t: FatTable, chains: set<seq<nat>>, c: nat) returns (s: seq<nat>)
    requires WellFormed(t, chains) && InTable(t, c) && t[c] >= |t|
    ensures s in chains && |s| > 0 && s[|s| - 1] == c && c in s
  {
    var i;
    s, i := FindOwner(t, chains, c);
    Links(t, s, i);
  }

  /** When nothing was linked, the cluster already had a successor, or the volume is full. */
  lemma NotLinkedSame(t: FatTable, chains: set<seq<nat>>, last: nat, free: nat, clst: nat, ncl: nat)
    requires WellFormed(t, chains) && !HasReserved(t) && Proper(t, Create(clst, ncl))
    requires Created(t, last, free, clst, ncl) && !NewlyLinked(t, clst, ncl)
    ensures ncl != 1 && (ncl == 0 ==> AtEnd(t, clst) && (free == 0 || NoneFree(t)))
  {
    hide WellFormed, TakenCluster;
    if AtEnd(t, clst) && ncl >= 2 {
      TakenIsFree(t, clst, last, ncl);
    }
    if !AtEnd(t, clst) {
      assert t[clst] != 1;
    }
  }

  /** remove_chain succeeds, and shortens or deletes the one chain that clst is on. */
  lemma RemoveSafe(g: Geometry, a: Allocator, chains: set<seq<nat>>, clst: nat, pclst: nat, ok: bool, a': Allocator)
    returns (chains': set<seq<nat>>)
    requires Safe(g, a, chains) && Proper(a.t, Remove(clst, pclst, ok)) && AfterRemove(g, a, clst, pclst, ok, a')
    ensures Safe(g, a', chains') && ok
    ensures forall q | q in chains && clst !in q :: q in chains'
    ensures forall q | q in chains' && q !in chains :: pclst != 0 && pclst in q
  {
    hide Geometry.Sound, FreeCount, IsChain, Disjoint, Covered, Mask, FreeFrom, Cut;
    EocLarge(g);
    var s, i := CutPoint(a.t, chains, clst, pclst);
    FreeIsCut(a.t, s, i, Eoc(g.fsType));
    CutChain(a.t, chains, s, i, Eoc(g.fsType));
    chains' := CutChains(chains, s, i);
    if i > 0 {
      assert s[..i][i - 1] == pclst;
    }
  }

  /** The chain that clst is on, and its place there, just behind pclst. */
  lemma CutPoint(t: FatTable, chains: set<seq<nat>>, clst: nat, pclst: nat) returns (s: seq<nat>, i: nat)
    requires WellFormed(t, chains) && Proper(t, Remove(clst, pclst, true))
    ensures s in chains && IsChain(t, s) && i < |s| && s[i] == clst && clst in s
    ensures if i == 0 then pclst == 0 else pclst == s[i - 1]
  {
    if pclst == 0 {
      s, i := FindOwner(t, chains, clst);
      Links(t, s, i);
    } else {
      var j;
      s, j := FindOwner(t, chains, pclst);
      Links(t, s, j);
      i := j + 1;
    }
  }

  // ----- runs -----

  /** The allocator states between the calls of a run. */
  ghost predicate IsRun(g: Geometry, states: seq<Allocator>, calls: seq<Call>) {
    && |states| == |calls| + 1
    && forall i | 0 <= i < |calls| :: Proper(states[i].t, calls[i]) && Happens(g, states[i], calls[i], states[i + 1])
  }

  /** Whatever the calls, at the end of the run every chain is acyclic and ends with an end mark, no
      two of them meet, no used cluster is outside them, and a known free count is exact. */
  lemma {:induction false} RunSafe(g: Geometry, states: seq<Allocator>, calls: seq<Call>, chains: set<seq<nat>>)
    returns (chains': set<seq<nat>>)
    requires IsRun(g, states, calls) && Safe(g, states[0], chains)
    ensures Safe(g, states[|calls|], chains')
    decreases |calls|
  {
    hide Safe, AfterCreate, AfterRemove, Proper;
    chains' := chains;
    if calls != [] {
      var n := |calls| - 1;
      assert Proper(states[n].t, calls[n]) && Happens(g, states[n], calls[n], states[n + 1]);
      chains' := RunSafe(g, states[..|calls|], calls[..n], chains);
      match calls[n]
      case Create(clst, ncl) =>
        chains' := CreateSafe(g, states[n], chains', clst, ncl, states[n + 1]);
      case Remove(clst, pclst, ok) =>
        chains' := RemoveSafe(g, states[n], chains', clst, pclst, ok, states[n + 1]);
    }
  }
}
