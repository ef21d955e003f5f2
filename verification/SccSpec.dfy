/** Reachability in a graph, strongly connected components, and the invariants of the
    depth-first search that finds them. */
module SccSpec {

  /** A node is only ever compared with another. */
  type Node(==, !new)

  type Graph = map<Node, seq<Node>>

  /** A node that is not a key has no successors. */
  function Succ(g: Graph, x: Node): seq<Node> {
    if x in g then g[x] else []
  }

  predicate Edge(g: Graph, x: Node, y: Node) {
    y in Succ(g, x)
  }

  // ----- reachability -----

  ghost predicate IsPath(g: Graph, p: seq<Node>) {
    |p| > 0 && forall i | 0 <= i < |p| - 1 :: Edge(g, p[i], p[i + 1])
  }

  ghost predicate PathBetween(g: Graph, p: seq<Node>, x: Node, y: Node) {
    IsPath(g, p) && p[0] == x && p[|p| - 1] == y
  }

  ghost predicate Reach(g: Graph, x: Node, y: Node) {
    exists p :: PathBetween(g, p, x, y)
  }

  lemma ReachRefl(g: Graph, x: Node)
    ensures Reach(g, x, x)
  {
    assert PathBetween(g, [x], x, x);
  }

  lemma ReachEdge(g: Graph, x: Node, y: Node)
    requires Edge(g, x, y)
    ensures Reach(g, x, y)
  {
    assert PathBetween(g, [x, y], x, y);
  }

  lemma ReachTrans(g: Graph, x: Node, y: Node, z: Node)
    requires Reach(g, x, y) && Reach(g, y, z)
    ensures Reach(g, x, z)
  {
    var p :| PathBetween(g, p, x, y);
    var q :| PathBetween(g, q, y, z);
    var r := p + q[1..];
    forall i | 0 <= i < |r| - 1 ensures Edge(g, r[i], r[i + 1]) {
      if i < |p| - 1 {
        assert Edge(g, p[i], p[i + 1]);
      } else {
        assert r[i] == q[i - |p| + 1] && r[i + 1] == q[i - |p| + 2];
      }
    }
    assert PathBetween(g, r, x, z);
  }

  /** No edge leaves s. */
  ghost predicate Closed(g: Graph, s: set<Node>) {
    forall x, y | x in s && Edge(g, x, y) :: y in s
  }

  /** A path that leaves a set crosses its border by an edge. */
  lemma {:induction false} PathLeaves(g: Graph, s: set<Node>, p: seq<Node>) returns (a: Node, b: Node)
    requires IsPath(g, p) && p[0] in s && p[|p| - 1] !in s
    ensures a in s && b !in s && Edge(g, a, b)
    decreases |p|
  {
    assert Edge(g, p[0], p[1]);
    if p[1] !in s {
      a, b := p[0], p[1];
    } else {
      var q := p[1..];
      forall i | 0 <= i < |q| - 1 ensures Edge(g, q[i], q[i + 1]) {
        assert Edge(g, p[i + 1], p[i + 2]);
      }
      a, b := PathLeaves(g, s, q);
    }
  }

  lemma ReachLeaves(g: Graph, s: set<Node>, x: Node, y: Node) returns (a: Node, b: Node)
    requires Reach(g, x, y) && x in s && y !in s
    ensures a in s && b !in s && Edge(g, a, b)
  {
    var p :| PathBetween(g, p, x, y);
    a, b := PathLeaves(g, s, p);
  }

  lemma ClosedReach(g: Graph, s: set<Node>, x: Node, y: Node)
    requires Closed(g, s) && x in s && Reach(g, x, y)
    ensures y in s
  {
    if y !in s {
      var a, b := ReachLeaves(g, s, x, y);
      assert false;
    }
  }

  // ----- components -----

  function Set(s: seq<Node>): set<Node> {
    set x | x in s
  }

  ghost predicate Mutual(g: Graph, x: Node, y: Node) {
    Reach(g, x, y) && Reach(g, y, x)
  }

  /** c lists one strongly connected component: all nodes mutually reachable with any of them. */
  ghost predicate IsComponent(g: Graph, c: seq<Node>) {
    && |c| > 0
    && (forall i, j | 0 <= i < j < |c| :: c[i] != c[j])
    && forall x, y | x in c :: y in c <==> Mutual(g, x, y)
  }

  /** The nodes of a list of components. */
  function Elements(r: seq<seq<Node>>): set<Node> {
    if r == [] then {} else Elements(r[..|r| - 1]) + Set(r[|r| - 1])
  }

  lemma {:induction false} InElements(r: seq<seq<Node>>, i: nat, x: Node)
    requires i < |r| && x in r[i]
    ensures x in Elements(r)
  {
    if i < |r| - 1 {
      InElements(r[..|r| - 1], i, x);
    }
  }

  /** The components are disjoint, and no component reaches a later one: whatever the first i
      of them reach is among the first i. */
  ghost predicate Components(g: Graph, r: seq<seq<Node>>) {
    && (forall i | 0 <= i < |r| :: IsComponent(g, r[i]))
    && (forall i | 0 <= i < |r| :: Elements(r[..i]) !! Set(r[i]))
    && (forall i | 0 <= i <= |r| :: Closed(g, Elements(r[..i])))
  }

  lemma ElementsAppend(r: seq<seq<Node>>, c: seq<Node>)
    ensures Elements(r + [c]) == Elements(r) + Set(c)
  {
    assert (r + [c])[..|r|] == r;
  }

  lemma ComponentsAppend(g: Graph, r: seq<seq<Node>>, c: seq<Node>)
    requires Components(g, r) && IsComponent(g, c)
    requires Elements(r) !! Set(c) && Closed(g, Elements(r) + Set(c))
    ensures Components(g, r + [c]) && Elements(r + [c]) == Elements(r) + Set(c)
  {
    hide IsComponent, Closed, Set, Elements;
    var r' := r + [c];
    ElementsAppend(r, c);
    assert r[..|r|] == r && r'[..|r'|] == r';
    forall i | 0 <= i <= |r| ensures r'[..i] == r[..i] {
    }
    forall i | 0 <= i < |r'| ensures IsComponent(g, r'[i]) && Elements(r'[..i]) !! Set(r'[i]) {
      assert r'[..i] == r[..i];
      assert r'[i] == if i < |r| then r[i] else c;
    }
    forall i | 0 <= i <= |r'| ensures Closed(g, Elements(r'[..i])) {
      if i <= |r| {
        assert r'[..i] == r[..i];
      }
    }
  }

  // ----- the invariant of the search -----

  /** What the search has found so far; the stack and low links live beside it. */
  datatype State = State(index: map<Node, nat>, stack: seq<Node>, result: seq<seq<Node>>)

  /** Every visited node is either on the stack or in a component; numbers grow along the
      stack. */
  ghost predicate Numbered(s: State) {
    && s.index.Keys == Set(s.stack) + Elements(s.result)
    && Set(s.stack) !! Elements(s.result)
    && (forall i, j | 0 <= i < j < |s.stack| :: s.index[s.stack[i]] < s.index[s.stack[j]])
    && (forall x | x in s.index :: s.index[x] < |s.index|)
  }

  /** Nodes that are finished have only visited successors. */
  ghost predicate NoWhiteSuccessor(g: Graph, s: State, grays: set<Node>) {
    forall x, y | x in s.index && x !in grays && Edge(g, x, y) :: y in s.index
  }

  /** A node on the stack reaches every later one. */
  ghost predicate StackReaches(g: Graph, stack: seq<Node>) {
    forall i, j | 0 <= i <= j < |stack| :: Reach(g, stack[i], stack[j])
  }

  /** A node on the stack reaches an active one that is not above it. */
  ghost predicate ReachesGray(g: Graph, s: State, grays: set<Node>) {
    forall x | x in s.stack :: HasGray(g, s, grays, x)
  }

  ghost predicate HasGray(g: Graph, s: State, grays: set<Node>, x: Node) {
    exists y | y in grays :: y in s.index && x in s.index && s.index[y] <= s.index[x] && Reach(g, x, y)
  }

  ghost predicate Inv(g: Graph, s: State, grays: set<Node>) {
    && Numbered(s)
    && grays <= Set(s.stack)
    && NoWhiteSuccessor(g, s, grays)
    && StackReaches(g, s.stack)
    && ReachesGray(g, s, grays)
    && Components(g, s.result)
  }

  /** t continues s: nothing visited is renumbered, popped or withdrawn, and what is newly
      visited has higher numbers. */
  ghost predicate Extends(s: State, t: State) {
    && s.stack <= t.stack && s.result <= t.result && |s.index| <= |t.index|
    && (forall x | x in s.index :: x in t.index && t.index[x] == s.index[x])
    && forall x | x in t.index && x !in s.index :: t.index[x] >= |s.index|
  }

  /** low is the number of a stack node that x reaches, or at least x's own number. */
  ghost predicate LowReached(g: Graph, t: State, x: Node, low: nat) {
    x in t.index && low <= t.index[x]
    && (low < t.index[x] ==> exists y | y in t.stack :: y in t.index && t.index[y] == low && Reach(g, x, y))
  }

  /** No node from position m on has an edge to one of the first n of the stack that is
      numbered under low. */
  ghost predicate LowBounds(g: Graph, t: State, m: nat, n: nat, low: nat) {
    forall i, y | m <= i < |t.stack| && y in t.index && y in FirstOf(t.stack, n) && Edge(g, t.stack[i], y) ::
      low <= t.index[y]
  }

  function FirstOf(stack: seq<Node>, n: nat): seq<Node> {
    if n <= |stack| then stack[..n] else stack
  }

  /** What a call of strongconnect on x, made in state s, leaves: the low link of x, and a
      stack on which x remains only if it reaches a node below it. */
  ghost predicate Connected(g: Graph, s: State, t: State, x: Node, low: nat) {
    && Extends(s, t) && x in t.index
    && LowReached(g, t, x, low)
    && LowBounds(g, t, |s.stack|, |s.stack|, low)
    && (|t.stack| > |s.stack| ==> low < t.index[x])
  }
}
