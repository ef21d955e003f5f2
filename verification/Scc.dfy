/** The search for strongly connected components of the include graph. */
module Scc {
  import opened SccSpec
  import opened SccSteps

  /** All nodes of the graph. */
  ghost function Universe(g: Graph): set<Node> {
    g.Keys + set x, y | x in g && y in g[x] :: y
  }

  class SccFinder {
    const graph: Graph
    var indexCounter: nat
    var stack: seq<Node>
    var lowlinks: map<Node, nat>
    var index: map<Node, nat>
    var result: seq<seq<Node>>

    constructor (graph: Graph)
      ensures this.graph == graph && Ok({}) && index == map[] && result == [] && stack == []
    {
      this.graph := graph;
      indexCounter, stack, lowlinks, index, result := 0, [], map[], map[], [];
      new;
      EmptyInv(graph);
    }

    ghost function St(): State
      reads this
    {
      State(index, stack, result)
    }

    /** The invariant of the search, while the calls for `grays` are active. */
    ghost predicate Ok(grays: set<Node>)
      reads this
    {
      && Inv(graph, St(), grays)
      && indexCounter == |index|
      && lowlinks.Keys == index.Keys <= Universe(graph)
    }

    /** Gives node the next number and puts it on the stack. */
    method Enter(node: Node, ghost grays: set<Node>)
      requires Ok(grays) && node !in lowlinks && node in Universe(graph)
      requires AllReach(graph, grays, node)
      modifies this
      ensures Ok(grays + {node}) && node in lowlinks
      ensures Looping(graph, old(St()), St(), node, Low(lowlinks, node), 0)
      ensures old(index.Keys) + {node} <= index.Keys && KeepsLow(old(lowlinks), lowlinks)
      ensures Spread(graph, node, old(index.Keys), index.Keys)
      ensures Inv(graph, old(St()), grays) && node !in old(index)
    {
      hide Inv, Looping, Reach, Edge, Extends, Universe;
      EnterKeepsInv(graph, St(), grays, node);
      LoopStart(graph, St(), grays, node);
      ReachRefl(graph, node);
      index := index[node := indexCounter];
      lowlinks := lowlinks[node := indexCounter];
      indexCounter := indexCounter + 1;
      stack := stack + [node];
    }

    /** Visits node and whatever can be reached from it and has not been visited. */
    method StrongConnect(node: Node, ghost grays: set<Node>)
      requires Ok(grays) && node !in lowlinks && node in Universe(graph)
      requires AllReach(graph, grays, node)
      modifies this
      ensures Ok(grays) && node in lowlinks
      ensures Connected(graph, old(St()), St(), node, Low(lowlinks, node))
      ensures KeepsLow(old(lowlinks), lowlinks)
      ensures Spread(graph, node, old(index.Keys), index.Keys)
      decreases Universe(graph) - index.Keys, 0
    {
      hide Inv, Connected, Looping, Reach, Edge, Extends, Succ, Universe, Low, Spread, AllReach, KeepsLow, Ok;
      ghost var s0 := St();
      Enter(node, grays);
      var successors := Succ(graph, node);
      for k := 0 to |successors|
        invariant Ok(grays + {node}) && node in lowlinks && node !in s0.index
        invariant Looping(graph, s0, St(), node, Low(lowlinks, node), k)
        invariant s0.index.Keys + {node} <= index.Keys
        invariant KeepsLow(old(lowlinks), lowlinks)
        invariant Spread(graph, node, old(index.Keys), index.Keys)
      {
        ghost var low, seen := lowlinks, index.Keys;
        Consider(node, successors[k], k, grays, s0);
        KeepsLowTrans(old(lowlinks), low, lowlinks, node);
        SpreadTrans(graph, node, old(index.Keys), seen, index.Keys);
      }
      CloseUp(node, grays, s0);
    }

    /** Considers successor k of node: an unvisited one is visited, and the low link of node
        takes account of what it reaches on the stack. */
    method Consider(node: Node, successor: Node, ghost k: nat, ghost grays: set<Node>, ghost s0: State)
      requires Ok(grays + {node}) && node in lowlinks && Looping(graph, s0, St(), node, Low(lowlinks, node), k)
      requires k < |Succ(graph, node)| && successor == Succ(graph, node)[k]
      requires AllReach(graph, grays, node)
      modifies this
      ensures Ok(grays + {node}) && node in lowlinks
      ensures Looping(graph, s0, St(), node, Low(lowlinks, node), k + 1)
      ensures KeepsLow(old(lowlinks) - {node}, lowlinks)
      ensures Spread(graph, node, old(index.Keys), index.Keys)
      decreases Universe(graph) - index.Keys, 2
    {
      hide Inv, Connected, Looping, Reach, Edge, Extends, Succ, Universe, AllReach;
      InvNumbered(graph, St(), grays + {node});
      if successor !in lowlinks {
        Recurse(node, successor, k, grays, s0);
      } else if successor in stack {
        LoopOnStack(graph, s0, St(), node, Low(lowlinks, node), k);
        Lower(node, index[successor], grays + {node});
      } else {
        LoopDone(graph, s0, St(), node, Low(lowlinks, node), k);
      }
    }

    method Lower(node: Node, value: nat, ghost active: set<Node>)
      requires Ok(active) && node in lowlinks
      modifies `lowlinks
      ensures Ok(active) && node in lowlinks && Low(lowlinks, node) == Min(old(Low(lowlinks, node)), value)
      ensures KeepsLow(old(lowlinks) - {node}, lowlinks)
    {
      hide Inv;
      lowlinks := lowlinks[node := Min(lowlinks[node], value)];
    }

    /** Visits an unvisited successor; what it reaches on the stack, node reaches. */
    method Recurse(node: Node, successor: Node, ghost k: nat, ghost grays: set<Node>, ghost s0: State)
      requires Ok(grays + {node}) && node in lowlinks && Looping(graph, s0, St(), node, Low(lowlinks, node), k)
      requires k < |Succ(graph, node)| && successor == Succ(graph, node)[k] && successor !in lowlinks
      requires AllReach(graph, grays, node)
      modifies this
      ensures Ok(grays + {node}) && node in lowlinks
      ensures Looping(graph, s0, St(), node, Low(lowlinks, node), k + 1)
      ensures KeepsLow(old(lowlinks) - {node}, lowlinks)
      ensures Spread(graph, node, old(index.Keys), index.Keys)
      decreases Universe(graph) - index.Keys, 1
    {
      hide Inv, Connected, Looping, Reach, Edge, Extends, Succ, Universe, AllReach, Spread, KeepsLow;
      ghost var s, low := St(), lowlinks;
      InvNumbered(graph, s, grays + {node});
      SuccessorReached(graph, grays, node, k);
      StrongConnect(successor, grays + {node});
      ghost var low' := lowlinks;
      KeptLow(low, low', node);
      LoopRecursed(graph, s0, s, St(), node, Low(lowlinks, node), k, Low(lowlinks, successor));
      SpreadFurther(graph, node, k, s.index.Keys, index.Keys);
      ConnectedExtends(graph, s, St(), successor, Low(lowlinks, successor));
      Lower(node, lowlinks[successor], grays + {node});
      KeepsLowExcept(low, low', lowlinks, node);
    }

    /** After all successors: if node is the root of a component, the stack down to node is
        popped into one. */
    method CloseUp(node: Node, ghost grays: set<Node>, ghost s0: State)
      requires Ok(grays + {node}) && node in lowlinks
      requires Inv(graph, s0, grays) && node !in s0.index
      requires Looping(graph, s0, St(), node, Low(lowlinks, node), |Succ(graph, node)|)
      modifies `stack, `result
      ensures Ok(grays) && Connected(graph, s0, St(), node, Low(lowlinks, node))
    {
      hide Inv, Connected, Looping, Reach, Edge, Extends, Succ, Universe;
      LoopingLow(graph, s0, St(), node, Low(lowlinks, node), |Succ(graph, node)|);
      if lowlinks[node] == index[node] {
        PopKeepsInv(graph, s0, St(), grays, node, lowlinks[node]);
        InvDistinct(graph, St(), grays + {node});
        PopComponent(node, |s0.stack|);
      } else {
        StaysOnStack(graph, s0, St(), grays, node, lowlinks[node]);
      }
    }

    /** Pops the stack until node comes off it, and records what was popped. */
    method PopComponent(node: Node, ghost n: nat)
      requires n < |stack| && stack[n] == node
      requires forall i, j | 0 <= i < j < |stack| :: stack[i] != stack[j]
      modifies `stack, `result
      ensures St() == Popped(old(St()), n)
    {
      var component := [];
      while true
        invariant n < |stack| <= |old(stack)| && stack == old(stack)[..|stack|]
        invariant component == Reversed(old(stack)[|stack|..])
        invariant result == old(result)
        decreases |stack|
      {
        var successor := stack[|stack| - 1];
        stack := stack[..|stack| - 1];
        ReversedStep(old(stack), |stack|);
        component := component + [successor];
        if successor == node {
          break;
        }
      }
      result := result + [component];
    }

    /** A root call: no other call is active, so nothing stays on the stack. */
    method Visit(node: Node)
      requires Ok({}) && stack == [] && node in graph
      modifies this
      ensures Ok({}) && stack == [] && node in index
      ensures Spread(graph, node, old(index.Keys), index.Keys)
    {
      hide Inv, Connected, Reach, Edge, Extends;
      if node !in lowlinks {
        StrongConnect(node, {});
        ConnectedExtends(graph, old(St()), St(), node, Low(lowlinks, node));
        NoGrayNoStack(graph, St());
      }
    }
  }

  /** The whole search, over the keys in the order in which they are iterated. */
  method StronglyConnectedComponents(graph: Graph, keys: seq<Node>) returns (result: seq<seq<Node>>)
    requires Set(keys) == graph.Keys
    ensures Partition(graph, result)
    ensures forall i | 0 <= i < |result| :: IsComponent(graph, result[i])
    ensures ReverseTopological(graph, result)
  {
    hide Inv, Reach, Edge, Universe, Partition, ReverseTopological, IsComponent, Elements, Known, Spread;
    var finder := new SccFinder(graph);
    NoneKnown(graph, keys);
    for k := 0 to |keys|
      invariant finder.graph == graph && finder.Ok({}) && finder.stack == [] && fresh(finder)
      invariant Known(graph, keys[..k], finder.index.Keys)
    {
      assert keys[k] in Set(keys);
      ghost var seen := finder.index.Keys;
      finder.Visit(keys[k]);
      KnownSpread(graph, keys, k, seen, finder.index.Keys);
    }
    assert keys[..|keys|] == keys;
    result := finder.result;
    AllFound(graph, finder.St(), keys);
  }

  lemma EmptyInv(g: Graph)
    ensures Inv(g, State(map[], [], []), {})
  {
  }

  function Low(m: map<Node, nat>, x: Node): nat {
    if x in m then m[x] else 0
  }

  ghost predicate KeepsLow(a: map<Node, nat>, b: map<Node, nat>) {
    forall x | x in a :: x in b && b[x] == a[x]
  }

  lemma LoopStart(g: Graph, s: State, grays: set<Node>, x: Node)
    requires Inv(g, s, grays) && x !in s.index
    ensures Looping(g, s, Entered(s, x), x, |s.index|, 0) && |Entered(s, x).index| == |s.index| + 1
  {
    hide Components, StackReaches, ReachesGray, NoWhiteSuccessor, Numbered, Looping;
    LoopStarts(g, s, x);
    EnterSize(s.index, x);
  }

  lemma InvNumbered(g: Graph, s: State, grays: set<Node>)
    requires Inv(g, s, grays)
    ensures Numbered(s)
  {
  }

  lemma InvDistinct(g: Graph, s: State, grays: set<Node>)
    requires Inv(g, s, grays)
    ensures forall i, j | 0 <= i < j < |s.stack| :: s.stack[i] != s.stack[j]
  {
    DistinctAbove(s);
  }

  lemma LoopingLow(g: Graph, s0: State, s: State, x: Node, low: nat, k: nat)
    requires Looping(g, s0, s, x, low, k)
    ensures x in s.index && low <= s.index[x]
  {
  }

  lemma ConnectedExtends(g: Graph, s: State, t: State, x: Node, low: nat)
    requires Connected(g, s, t, x, low)
    ensures s.index.Keys <= t.index.Keys
  {
  }

  /** Every active node reaches each successor of the newest one. */
  lemma SuccessorReached(g: Graph, grays: set<Node>, x: Node, k: nat)
    requires k < |Succ(g, x)| && AllReach(g, grays, x)
    ensures Succ(g, x)[k] in Universe(g)
    ensures AllReach(g, grays + {x}, Succ(g, x)[k])
  {
    hide Reach;
    SuccEdge(g, x, k);
    ReachEdge(g, x, Succ(g, x)[k]);
    forall y | y in grays ensures Reach(g, y, Succ(g, x)[k]) {
      ReachTrans(g, y, x, Succ(g, x)[k]);
    }
  }

  /** Going from before to after, only nodes that x reaches have been visited. */
  ghost predicate Spread(g: Graph, x: Node, before: set<Node>, after: set<Node>) {
    before <= after && forall z | z in after - before :: Reach(g, x, z)
  }

  lemma SpreadTrans(g: Graph, x: Node, a: set<Node>, b: set<Node>, c: set<Node>)
    requires Spread(g, x, a, b) && Spread(g, x, b, c)
    ensures Spread(g, x, a, c) && b <= c
  {
    hide Reach;
  }

  lemma SpreadFurther(g: Graph, x: Node, k: nat, before: set<Node>, after: set<Node>)
    requires k < |Succ(g, x)| && Spread(g, Succ(g, x)[k], before, after)
    ensures Spread(g, x, before, after)
  {
    hide Reach, Succ;
    var y := Succ(g, x)[k];
    SuccEdge(g, x, k);
    ReachEdge(g, x, y);
    forall z | z in after - before ensures Reach(g, x, z) {
      ReachTrans(g, x, y, z);
    }
  }

  ghost predicate AllReach(g: Graph, s: set<Node>, x: Node) {
    forall y | y in s :: Reach(g, y, x)
  }

  lemma KeptLow(a: map<Node, nat>, b: map<Node, nat>, x: Node)
    requires KeepsLow(a, b) && x in a
    ensures x in b && b[x] == a[x]
  {
  }

  lemma KeepsLowExcept(a: map<Node, nat>, b: map<Node, nat>, c: map<Node, nat>, x: Node)
    requires KeepsLow(a, b) && KeepsLow(b - {x}, c)
    ensures KeepsLow(a - {x}, c)
  {
  }

  lemma KeepsLowTrans(a: map<Node, nat>, b: map<Node, nat>, c: map<Node, nat>, x: Node)
    requires KeepsLow(a, b) && KeepsLow(b - {x}, c) && x !in a
    ensures KeepsLow(a, c)
  {
  }

  lemma ReversedStep(s: seq<Node>, n: nat)
    requires n < |s|
    ensures Reversed(s[n..]) == Reversed(s[n + 1..]) + [s[n]]
  {
  }

  /** With no call active the stack is empty, for every node on it reaches an active one. */
  lemma NoGrayNoStack(g: Graph, s: State)
    requires Inv(g, s, {})
    ensures s.stack == []
  {
    hide Components, Numbered, NoWhiteSuccessor, StackReaches;
    NoneHasGray(g, s);
  }

  lemma NoneHasGray(g: Graph, s: State)
    requires ReachesGray(g, s, {})
    ensures s.stack == []
  {
    if s.stack != [] {
      NotGray(g, s, s.stack[0]);
    }
  }

  lemma NotGray(g: Graph, s: State, x: Node)
    ensures !HasGray(g, s, {}, x)
  {
  }

  // ----- what the search returns -----

  ghost predicate FromKey(g: Graph, x: Node) {
    exists k | k in g :: Reach(g, k, x)
  }

  /** The keys have been visited, and only what some key reaches. */
  ghost predicate Known(g: Graph, keys: seq<Node>, seen: set<Node>) {
    Set(keys) <= seen && forall x | x in seen :: FromKey(g, x)
  }

  lemma NoneKnown(g: Graph, keys: seq<Node>)
    ensures Known(g, keys[..0], {})
  {
  }

  lemma KnownSpread(g: Graph, keys: seq<Node>, k: nat, before: set<Node>, after: set<Node>)
    requires k < |keys| && Known(g, keys[..k], before) && keys[k] in g && keys[k] in after
    requires Spread(g, keys[k], before, after)
    ensures Known(g, keys[..k + 1], after)
  {
    hide Reach;
    assert keys[..k + 1] == keys[..k] + [keys[k]];
    forall x | x in after ensures FromKey(g, x) {
      if x !in before {
        assert Reach(g, keys[k], x);
      }
    }
  }

  /** x is in component i. */
  predicate InAt(r: seq<seq<Node>>, i: int, x: Node) {
    0 <= i < |r| && x in r[i]
  }

  ghost predicate Listed(r: seq<seq<Node>>, x: Node) {
    exists i :: InAt(r, i, x)
  }

  /** The components hold exactly the nodes reachable from a key, each in one of them. */
  ghost predicate Partition(g: Graph, r: seq<seq<Node>>) {
    && (forall x :: Listed(r, x) <==> FromKey(g, x))
    && forall i, j, x | InAt(r, i, x) && InAt(r, j, x) :: i == j
  }

  /** A component reaches only itself and earlier ones. */
  ghost predicate ReverseTopological(g: Graph, r: seq<seq<Node>>) {
    forall i, j, x, y | InAt(r, i, x) && InAt(r, j, y) && Reach(g, x, y) :: j <= i
  }

  lemma {:induction false} ElementsListed(r: seq<seq<Node>>, x: Node)
    ensures x in Elements(r) <==> Listed(r, x)
  {
    if r != [] {
      var q := r[..|r| - 1];
      ElementsListed(q, x);
      if i :| InAt(r, i, x) {
        if i < |r| - 1 {
          assert InAt(q, i, x);
        }
      }
      if i :| InAt(q, i, x) {
        assert InAt(r, i, x);
      }
      if x in r[|r| - 1] {
        assert InAt(r, |r| - 1, x);
      }
    }
  }

  lemma Ordered(g: Graph, r: seq<seq<Node>>, i: int, j: int, x: Node, y: Node)
    requires Components(g, r) && InAt(r, i, x) && InAt(r, j, y) && Reach(g, x, y)
    ensures j <= i
  {
    hide Reach, IsComponent, Elements;
    if i < j {
      assert r[..j][i] == r[i];
      InElements(r[..j], i, x);
      ClosedReach(g, Elements(r[..j]), x, y);
      NotInSet(Elements(r[..j]), r[j], y);
      assert false;
    }
  }

  lemma NotInSet(s: set<Node>, c: seq<Node>, x: Node)
    requires s !! Set(c) && x in c
    ensures x !in s
  {
  }

  lemma AllListed(g: Graph, s: State, keys: seq<Node>, x: Node)
    requires Inv(g, s, {}) && s.stack == [] && Set(keys) == g.Keys
    requires Known(g, keys, s.index.Keys)
    ensures Listed(s.result, x) <==> FromKey(g, x)
  {
    hide Inv, Reach, Elements, Listed, Closed;
    ElementsListed(s.result, x);
    AllInResult(g, s);
    if FromKey(g, x) {
      var k :| k in g && Reach(g, k, x);
      ClosedReach(g, Elements(s.result), k, x);
    }
  }

  lemma AllInResult(g: Graph, s: State)
    requires Inv(g, s, {}) && s.stack == []
    ensures s.index.Keys == Elements(s.result) && Closed(g, Elements(s.result))
  {
    hide Components, Elements, Closed, ReachesGray, NoWhiteSuccessor, StackReaches;
    ResultClosed(g, s.result);
  }

  lemma AllOrdered(g: Graph, r: seq<seq<Node>>)
    requires Components(g, r)
    ensures ReverseTopological(g, r)
    ensures forall i, j, x | InAt(r, i, x) && InAt(r, j, x) :: i == j
  {
    hide Components, Reach, InAt;
    forall i, j, x, y | InAt(r, i, x) && InAt(r, j, y) && Reach(g, x, y) ensures j <= i {
      Ordered(g, r, i, j, x, y);
    }
    forall i, j, x | InAt(r, i, x) && InAt(r, j, x) ensures i == j {
      ReachRefl(g, x);
      Ordered(g, r, i, j, x, x);
      Ordered(g, r, j, i, x, x);
    }
  }

  lemma InvComponents(g: Graph, s: State)
    requires Inv(g, s, {})
    ensures Components(g, s.result) && forall i | 0 <= i < |s.result| :: IsComponent(g, s.result[i])
  {
    hide IsComponent, Elements;
  }

  lemma AllFound(g: Graph, s: State, keys: seq<Node>)
    requires Inv(g, s, {}) && s.stack == [] && Set(keys) == g.Keys
    requires Known(g, keys, s.index.Keys)
    ensures Partition(g, s.result) && ReverseTopological(g, s.result)
    ensures forall i | 0 <= i < |s.result| :: IsComponent(g, s.result[i])
  {
    hide Inv, Listed, FromKey, InAt, Components, IsComponent, ReverseTopological, Known;
    InvComponents(g, s);
    AllOrdered(g, s.result);
    forall x ensures Listed(s.result, x) <==> FromKey(g, x) {
      AllListed(g, s, keys, x);
    }
  }
}
