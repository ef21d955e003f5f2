/** The FAT seen as a set of cluster chains, and what allocating and freeing do to it. */
module FatChains {

  type FatTable = seq<nat>

  predicate InTable(t: FatTable, c: nat) {
    2 <= c < |t|
  }

  // ----- counting free clusters -----

  /** Zero entries among clusters 2..m-1. */
  function FreeBelow(t: FatTable, m: nat): nat
    requires m <= |t|
  {
    if m <= 2 then 0 else FreeBelow(t, m - 1) + if t[m - 1] == 0 then 1 else 0
  }

  function FreeCount(t: FatTable): nat {
    FreeBelow(t, |t|)
  }

  function One(b: bool): nat {
    if b then 1 else 0
  }

  lemma {:induction false} FreeBelowUpdate(t: FatTable, c: nat, v: nat, m: nat)
    requires InTable(t, c) && m <= |t|
    ensures FreeBelow(t[c := v], m) + One(c < m && t[c] == 0) == FreeBelow(t, m) + One(c < m && v == 0)
  {
    if m > 2 {
      FreeBelowUpdate(t, c, v, m - 1);
    }
  }

  lemma FreeCountUpdate(t: FatTable, c: nat, v: nat)
    requires InTable(t, c)
    ensures FreeCount(t[c := v]) + One(t[c] == 0) == FreeCount(t) + One(v == 0)
  {
    FreeBelowUpdate(t, c, v, |t|);
  }

  lemma {:induction false} FreeBelowBound(t: FatTable, m: nat)
    requires m <= |t|
    ensures FreeBelow(t, m) <= if m <= 2 then 0 else m - 2
    ensures forall c | 2 <= c < m && t[c] != 0 :: FreeBelow(t, m) < m - 2
    ensures FreeBelow(t, m) == 0 <==> forall c | 2 <= c < m :: t[c] != 0
  {
    if m > 2 {
      FreeBelowBound(t, m - 1);
    }
  }

  /** Freeing a used cluster makes one more free cluster, and there was room for it. */
  lemma OneFewerUsed(t: FatTable, c: nat)
    requires InTable(t, c) && t[c] != 0
    ensures FreeCount(t[c := 0]) == FreeCount(t) + 1
    ensures FreeCount(t) < |t| - 2
  {
    FreeCountUpdate(t, c, 0);
    FreeBelowBound(t, |t|);
  }

  // ----- chains -----

  /** s is a cluster chain of t: every cluster leads to the next, the last to an end mark. */
  ghost predicate IsChain(t: FatTable, s: seq<nat>) {
    && |s| > 0
    && (forall i | 0 <= i < |s| :: InTable(t, s[i]))
    && (forall i | 0 <= i < |s| - 1 :: t[s[i]] == s[i + 1])
    && t[s[|s| - 1]] >= |t|
  }

  ghost predicate Apart(s: seq<nat>, r: seq<nat>) {
    forall c | c in s :: c !in r
  }

  ghost predicate Disjoint(chains: set<seq<nat>>) {
    forall s, r | s in chains && r in chains && s != r :: Apart(s, r)
  }

  ghost predicate Owned(chains: set<seq<nat>>, c: nat) {
    exists s | s in chains :: c in s
  }

  ghost predicate Covered(t: FatTable, chains: set<seq<nat>>) {
    forall c: nat | InTable(t, c) && t[c] != 0 :: Owned(chains, c)
  }

  /** The used clusters of t are exactly the clusters of `chains`, which do not meet. */
  ghost predicate WellFormed(t: FatTable, chains: set<seq<nat>>) {
    && (forall s | s in chains :: IsChain(t, s))
    && Disjoint(chains)
    && Covered(t, chains)
  }

  /** A chain never comes back to a cluster. */
  lemma {:induction false} ChainAcyclic(t: FatTable, s: seq<nat>, i: nat, j: nat)
    requires IsChain(t, s) && i < j < |s|
    ensures s[i] != s[j]
    decreases |s| - j
  {
    assert t[s[i]] == s[i + 1];
    if j < |s| - 1 {
      assert t[s[j]] == s[j + 1];
      ChainAcyclic(t, s, i + 1, j + 1);
    }
  }

  /** Clusters of a chain are used. */
  lemma ChainUsed(t: FatTable, s: seq<nat>, i: nat)
    requires IsChain(t, s) && i < |s|
    ensures t[s[i]] >= 2
  {
    if i < |s| - 1 {
      assert InTable(t, s[i + 1]);
    }
  }

  lemma FreeNotInChain(t: FatTable, s: seq<nat>, r: nat)
    requires IsChain(t, s) && InTable(t, r) && t[r] == 0
    ensures r !in s
  {
    if r in s {
      var i :| 0 <= i < |s| && s[i] == r;
      ChainUsed(t, s, i);
    }
  }

  lemma ChainKept(t: FatTable, s: seq<nat>, c: nat, v: nat)
    requires IsChain(t, s) && InTable(t, c) && c !in s
    ensures IsChain(t[c := v], s)
  {
  }

  lemma DisjointReplace(chains: set<seq<nat>>, s: seq<nat>, s': seq<nat>)
    requires Disjoint(chains)
    requires forall q | q in chains && q != s :: Apart(q, s') && Apart(s', q)
    ensures Disjoint(chains - {s} + {s'})
  {
  }

  // ----- allocating -----

  /** A fresh cluster r marked as the end of a chain. */
  lemma NewChain(t: FatTable, chains: set<seq<nat>>, r: nat, eoc: nat)
    requires WellFormed(t, chains) && InTable(t, r) && t[r] == 0 && eoc >= |t|
    ensures WellFormed(t[r := eoc], chains + {[r]})
  {
    var t' := t[r := eoc];
    var chains' := chains + {[r]};
    forall s | s in chains ensures IsChain(t', s) && r !in s {
      FreeNotInChain(t, s, r);
      ChainKept(t, s, r, eoc);
    }
    assert [] !in chains;
    DisjointReplace(chains, [], [r]);
    assert chains - {[]} + {[r]} == chains';
    forall c: nat | InTable(t', c) && t'[c] != 0 ensures Owned(chains', c) {
      OwnedReplace(t, chains, [], [r], c);
    }
  }

  lemma OwnedReplace(t: FatTable, chains: set<seq<nat>>, s: seq<nat>, s': seq<nat>, c: nat)
    requires Covered(t, chains) && InTable(t, c)
    requires c in s' || (t[c] != 0 && c !in s)
    ensures Owned(chains - {s} + {s'}, c)
  {
    var chains' := chains - {s} + {s'};
    if c in s' {
      assert s' in chains';
    } else {
      assert Owned(chains, c);
      var q :| q in chains && c in q;
      assert q in chains';
    }
  }

  /** A fresh cluster r linked behind the last cluster of chain s. */
  lemma StretchChain(t: FatTable, chains: set<seq<nat>>, s: seq<nat>, r: nat, eoc: nat)
    requires WellFormed(t, chains) && s in chains && |s| > 0 && InTable(t, r) && t[r] == 0 && eoc >= |t|
    ensures WellFormed(t[r := eoc][s[|s| - 1] := r], chains - {s} + {s + [r]})
  {
    var t' := t[r := eoc][s[|s| - 1] := r];
    var s' := s + [r];
    var chains' := chains - {s} + {s'};
    StretchedIsChain(t, s, r, eoc);
    forall q | q in chains && q != s ensures IsChain(t', q) && Apart(q, s') && Apart(s', q) {
      OthersStretched(t, chains, s, r, eoc, q);
    }
    hide IsChain, Apart, Owned;
    assert Disjoint(chains') by {
      DisjointReplace(chains, s, s');
    }
    assert Covered(t', chains') by {
      CoveredStretched(t, chains, s, r, eoc);
    }
  }

  lemma CoveredStretched(t: FatTable, chains: set<seq<nat>>, s: seq<nat>, r: nat, eoc: nat)
    requires Covered(t, chains) && |s| > 0 && InTable(t, r) && s[|s| - 1] < |t|
    ensures Covered(t[r := eoc][s[|s| - 1] := r], chains - {s} + {s + [r]})
  {
    var t' := t[r := eoc][s[|s| - 1] := r];
    forall c: nat | InTable(t', c) && t'[c] != 0 ensures Owned(chains - {s} + {s + [r]}, c) {
      OwnedReplace(t, chains, s, s + [r], c);
    }
  }

  lemma OthersStretched(t: FatTable, chains: set<seq<nat>>, s: seq<nat>, r: nat, eoc: nat, q: seq<nat>)
    requires WellFormed(t, chains) && s in chains && |s| > 0 && InTable(t, r) && t[r] == 0
    requires q in chains && q != s
    ensures IsChain(t[r := eoc][s[|s| - 1] := r], q)
    ensures Apart(q, s + [r]) && Apart(s + [r], q)
  {
    var last := s[|s| - 1];
    assert Apart(s, q) && Apart(q, s) && last in s;
    FreeNotInChain(t, q, r);
    ChainKept(t, q, r, eoc);
    ChainKept(t[r := eoc], q, last, r);
  }

  lemma StretchedIsChain(t: FatTable, s: seq<nat>, r: nat, eoc: nat)
    requires IsChain(t, s) && InTable(t, r) && t[r] == 0 && eoc >= |t|
    ensures IsChain(t[r := eoc][s[|s| - 1] := r], s + [r])
  {
    FreeNotInChain(t, s, r);
    var t' := t[r := eoc][s[|s| - 1] := r];
    var s' := s + [r];
    forall i | 0 <= i < |s'| - 1 ensures t'[s'[i]] == s'[i + 1] {
      if i < |s| - 1 {
        ChainAcyclic(t, s, i, |s| - 1);
      }
    }
  }

  // ----- freeing -----

  /** What the freeing loop of remove_chain does from cluster c: it stops at a free
      cluster or an end mark, and reports an entry of value 1. */
  function FreeFrom(t: FatTable, c: nat): (r: (bool, FatTable))
    requires InTable(t, c)
    ensures |r.1| == |t|
    decreases |t| - FreeCount(t)
  {
    if t[c] == 0 then (true, t)
    else if t[c] == 1 then (false, t)
    else
      OneFewerUsed(t, c);
      if t[c] < |t| then FreeFrom(t[c := 0], t[c]) else (true, t[c := 0])
  }

  /** t with the clusters of s free. */
  function Cleared(t: FatTable, s: seq<nat>): (r: FatTable)
    ensures |r| == |t|
    ensures forall c | 0 <= c < |t| :: r[c] == if c in s then 0 else t[c]
  {
    seq(|t|, c requires 0 <= c < |t| => if c in s then 0 else t[c])
  }

  /** A run of clusters of t that is linked to an end mark, without repetition. */
  ghost predicate IsTail(t: FatTable, s: seq<nat>) {
    IsChain(t, s) && forall i, j | 0 <= i < j < |s| :: s[i] != s[j]
  }

  /** Freeing from the head of a chain frees exactly that chain. */
  lemma {:induction false} FreeTail(t: FatTable, s: seq<nat>)
    requires IsTail(t, s)
    ensures FreeFrom(t, s[0]) == (true, Cleared(t, s))
    decreases |s|
  {
    ChainUsed(t, s, 0);
    var t' := t[s[0] := 0];
    if |s| == 1 {
      assert Cleared(t, s) == t';
    } else {
      assert t[s[0]] == s[1];
      var rest := s[1..];
      assert IsTail(t', rest);
      FreeTail(t', rest);
      assert Cleared(t', rest) == Cleared(t, s);
    }
  }

  /** The table after the chain s has been cut before position i: the clusters from i on are
      free, the cluster before them ends the chain. */
  function Cut(t: FatTable, s: seq<nat>, i: nat, eoc: nat): FatTable
    requires i <= |s| && forall k | 0 <= k < |s| :: s[k] < |t|
  {
    Cleared(if i == 0 then t else t[s[i - 1] := eoc], s[i..])
  }

  lemma CutIsChain(t: FatTable, s: seq<nat>, i: nat, eoc: nat)
    requires IsChain(t, s) && 0 < i <= |s| && eoc >= |t|
    ensures IsChain(Cut(t, s, i, eoc), s[..i])
  {
    var t' := Cut(t, s, i, eoc);
    forall k | 0 <= k < i
      ensures s[k] !in s[i..] && (k < i - 1 ==> s[k] != s[i - 1])
    {
      forall j | i <= j < |s| ensures s[k] != s[j] {
        ChainAcyclic(t, s, k, j);
      }
      if k < i - 1 {
        ChainAcyclic(t, s, k, i - 1);
      }
    }
    forall k | 0 <= k < i - 1 ensures t'[s[k]] == s[k + 1] {
      assert t'[s[k]] == t[s[k]];
    }
  }

  lemma OthersCut(t: FatTable, s: seq<nat>, i: nat, eoc: nat, q: seq<nat>)
    requires IsChain(t, s) && i < |s| && IsChain(t, q) && Apart(q, s)
    ensures IsChain(Cut(t, s, i, eoc), q)
  {
    var t' := Cut(t, s, i, eoc);
    forall k | 0 <= k < |q| ensures t'[q[k]] == t[q[k]] {
      assert q[k] in q;
    }
  }

  /** The chains after s has been cut before position i. */
  ghost function CutChains(chains: set<seq<nat>>, s: seq<nat>, i: nat): set<seq<nat>>
    requires i <= |s|
  {
    if i == 0 then chains - {s} else chains - {s} + {s[..i]}
  }

  lemma CutDisjoint(chains: set<seq<nat>>, s: seq<nat>, i: nat)
    requires Disjoint(chains) && s in chains && i <= |s|
    ensures Disjoint(CutChains(chains, s, i))
  {
    forall q | q in chains && q != s ensures Apart(q, s[..i]) && Apart(s[..i], q) {
      assert Apart(q, s) && Apart(s, q);
    }
    DisjointReplace(chains, s, s[..i]);
  }

  /** Cutting a chain keeps all chains well formed and shortens this one only. */
  lemma CutChain(t: FatTable, chains: set<seq<nat>>, s: seq<nat>, i: nat, eoc: nat)
    requires WellFormed(t, chains) && s in chains && i < |s| && eoc >= |t|
    ensures WellFormed(Cut(t, s, i, eoc), CutChains(chains, s, i))
  {
    var t' := Cut(t, s, i, eoc);
    var chains' := CutChains(chains, s, i);
    forall q | q in chains' ensures IsChain(t', q) {
      if q in chains && q != s {
        assert Apart(q, s);
        OthersCut(t, s, i, eoc, q);
      } else {
        CutIsChain(t, s, i, eoc);
      }
    }
    CutDisjoint(chains, s, i);
    hide IsChain, Cut;
    forall c: nat | InTable(t', c) && t'[c] != 0 ensures Owned(chains', c) {
      OwnedAfterCut(t, chains, s, i, eoc, c);
    }
  }

  lemma OwnedAfterCut(t: FatTable, chains: set<seq<nat>>, s: seq<nat>, i: nat, eoc: nat, c: nat)
    requires Covered(t, chains) && IsChain(t, s) && i < |s| && InTable(t, c)
    requires Cut(t, s, i, eoc)[c] != 0
    ensures Owned(CutChains(chains, s, i), c)
  {
    var chains' := CutChains(chains, s, i);
    assert c !in s[i..];
    if c in s {
      var k :| 0 <= k < |s| && s[k] == c;
      forall j | i <= j < |s| ensures s[j] in s[i..] {
        assert s[i..][j - i] == s[j];
      }
      assert s[..i][k] == c;
      assert s[..i] in chains';
    } else {
      assert t[c] != 0;
      assert Owned(chains, c);
      var q :| q in chains && c in q;
      assert q in chains';
    }
  }

  /** remove_chain on cluster i of a chain: mark the cluster before it, then free from it. */
  lemma FreeIsCut(t: FatTable, s: seq<nat>, i: nat, eoc: nat)
    requires IsChain(t, s) && i < |s| && eoc >= |t|
    ensures FreeFrom(if i == 0 then t else t[s[i - 1] := eoc], s[i]) == (true, Cut(t, s, i, eoc))
  {
    var t1 := if i == 0 then t else t[s[i - 1] := eoc];
    var tail := s[i..];
    forall j, k | 0 <= j < k < |s| ensures s[j] != s[k] {
      ChainAcyclic(t, s, j, k);
    }
    assert IsTail(t1, tail);
    FreeTail(t1, tail);
  }
}
