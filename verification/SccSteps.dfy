/** Why each step of strongconnect keeps the invariant of the search. */
module SccSteps {
  import opened SccSpec

  /** Visiting x: it gets the next number and goes on the stack. */
  function Entered(s: State, x: Node): State {
    State(s.index[x := |s.index|], s.stack + [x], s.result)
  }

  lemma EnterKeepsInv(g: Graph, s: State, grays: set<Node>, x: Node)
    requires Inv(g, s, grays) && x !in s.index
    requires forall y | y in grays :: Reach(g, y, x)
    ensures Inv(g, Entered(s, x), grays + {x})
    ensures Extends(s, Entered(s, x))
  {
    hide Components, Reach, Edge, Numbered, NoWhiteSuccessor, StackReaches, ReachesGray, Extends, Set;
    EnterNumbered(s, x, grays);
    EnterWhite(g, s, grays, x);
    EnterReaches(g, s, grays, x);
    EnterGray(g, s, grays, x);
  }

  lemma EnterNumbered(s: State, x: Node, grays: set<Node>)
    requires Numbered(s) && x !in s.index && grays <= Set(s.stack)
    ensures Numbered(Entered(s, x)) && Extends(s, Entered(s, x))
    ensures grays + {x} <= Set(Entered(s, x).stack)
  {
    hide Set, Elements;
    var t := Entered(s, x);
    SetAppend(s.stack, x);
    EnterSize(s.index, x);
    StackVisited(s);
    forall i, j | 0 <= i < j < |t.stack| ensures t.index[t.stack[i]] < t.index[t.stack[j]] {
      assert t.stack[i] == s.stack[i];
    }
  }

  lemma SetAppend(s: seq<Node>, x: Node)
    ensures Set(s + [x]) == Set(s) + {x}
  {
  }

  lemma EnterSize(m: map<Node, nat>, x: Node)
    requires x !in m
    ensures |m[x := |m|]| == |m| + 1 && m[x := |m|].Keys == m.Keys + {x}
  {
  }

  lemma EnterWhite(g: Graph, s: State, grays: set<Node>, x: Node)
    requires NoWhiteSuccessor(g, s, grays) && x !in s.index
    ensures NoWhiteSuccessor(g, Entered(s, x), grays + {x})
  {
    hide Edge;
  }

  lemma EnterReaches(g: Graph, s: State, grays: set<Node>, x: Node)
    requires StackReaches(g, s.stack) && ReachesGray(g, s, grays) && (forall y | y in grays :: Reach(g, y, x))
    ensures StackReaches(g, s.stack + [x])
  {
    hide Reach;
    ReachRefl(g, x);
    forall i | 0 <= i < |s.stack| ensures Reach(g, s.stack[i], x) {
      assert HasGray(g, s, grays, s.stack[i]);
      var y :| y in grays && Reach(g, s.stack[i], y);
      ReachTrans(g, s.stack[i], y, x);
    }
  }

  lemma EnterGray(g: Graph, s: State, grays: set<Node>, x: Node)
    requires ReachesGray(g, s, grays) && x !in s.index
    ensures ReachesGray(g, Entered(s, x), grays + {x})
  {
    hide HasGray;
    forall z | z in Entered(s, x).stack ensures HasGray(g, Entered(s, x), grays + {x}, z) {
      if z == x {
        EnteredItself(g, s, grays, x);
      } else {
        assert z in s.stack;
        EnterGrayAt(g, s, grays, x, z);
      }
    }
  }

  lemma EnteredItself(g: Graph, s: State, grays: set<Node>, x: Node)
    ensures HasGray(g, Entered(s, x), grays + {x}, x)
  {
    hide Reach;
    ReachRefl(g, x);
    assert x in grays + {x};
  }

  lemma EnterGrayAt(g: Graph, s: State, grays: set<Node>, x: Node, z: Node)
    requires HasGray(g, s, grays, z) && x !in s.index
    ensures HasGray(g, Entered(s, x), grays + {x}, z)
  {
    hide Reach;
    var y :| y in grays && y in s.index && z in s.index && s.index[y] <= s.index[z] && Reach(g, z, y);
    assert y in grays + {x};
  }

  // ----- the loop over the successors of x -----

  /** After k successors of x: s0 is the state in which x was visited. */
  ghost predicate Looping(g: Graph, s0: State, s: State, x: Node, low: nat, k: nat) {
    && Extends(Entered(s0, x), s)
    && x in s.index && LowReached(g, s, x, low)
    && LowBounds(g, s, |s0.stack| + 1, |s0.stack|, low)
    && forall j | 0 <= j < k && j < |Succ(g, x)| :: Handled(s0, s, low, Succ(g, x)[j])
  }

  /** A successor has been visited, and low is not above its number if it lies below x. */
  ghost predicate Handled(s0: State, s: State, low: nat, y: Node) {
    y in s.index && (y in s0.stack ==> low <= s.index[y])
  }

  function Min(a: nat, b: nat): nat {
    if b < a then b else a
  }

  lemma LoopStarts(g: Graph, s0: State, x: Node)
    requires Numbered(s0) && x !in s0.index
    ensures Looping(g, s0, Entered(s0, x), x, |s0.index|, 0)
  {
    hide Edge;
  }

  lemma ExtendsTrans(s: State, t: State, u: State)
    requires Extends(s, t) && Extends(t, u)
    ensures Extends(s, u)
  {
  }

  /** The successor was unvisited, and a recursive call has dealt with it. */
  lemma LoopRecursed(g: Graph, s0: State, s: State, t: State, x: Node, low: nat, k: nat, ly: nat)
    requires Looping(g, s0, s, x, low, k) && k < |Succ(g, x)| && Succ(g, x)[k] !in s.index
    requires Connected(g, s, t, Succ(g, x)[k], ly) && Numbered(s)
    ensures Looping(g, s0, t, x, Min(low, ly), k + 1)
  {
    var y := Succ(g, x)[k];
    hide Numbered, Reach, Edge, LowBounds, LowReached, Extends;
    ExtendsTrans(Entered(s0, x), s, t);
    RecursedLow(g, s0, s, t, x, low, k, ly);
    RecursedBounds(g, s0, s, t, x, low, k, ly);
    RecursedHandled(g, s0, s, t, x, low, k, ly);
  }

  lemma RecursedLow(g: Graph, s0: State, s: State, t: State, x: Node, low: nat, k: nat, ly: nat)
    requires Looping(g, s0, s, x, low, k) && k < |Succ(g, x)| && Succ(g, x)[k] !in s.index
    requires Connected(g, s, t, Succ(g, x)[k], ly) && Numbered(s)
    ensures LowReached(g, t, x, Min(low, ly))
  {
    hide Reach, LowBounds;
    var y := Succ(g, x)[k];
    assert Edge(g, x, y);
    ReachEdge(g, x, y);
    if ly < low {
      assert t.index[y] >= |s.index| > s.index[x] == t.index[x];
      var z :| z in t.stack && z in t.index && t.index[z] == ly && Reach(g, y, z);
      ReachTrans(g, x, y, z);
    }
  }

  lemma RecursedBounds(g: Graph, s0: State, s: State, t: State, x: Node, low: nat, k: nat, ly: nat)
    requires Looping(g, s0, s, x, low, k) && k < |Succ(g, x)| && Succ(g, x)[k] !in s.index
    requires Connected(g, s, t, Succ(g, x)[k], ly) && Numbered(s)
    ensures LowBounds(g, t, |s0.stack| + 1, |s0.stack|, Min(low, ly))
  {
    hide Reach, LowReached, Edge, Succ, Handled, Numbered;
    StackVisited(s);
    BoundsJoin(g, s, t, |s0.stack|, low, ly);
  }

  lemma StackVisited(s: State)
    requires Numbered(s)
    ensures forall z | z in s.stack :: z in s.index
  {
    forall z | z in s.stack ensures z in s.index {
      assert z in Set(s.stack);
    }
  }

  /** Bounds for the old part of the stack and for what a call has added to it. */
  lemma BoundsJoin(g: Graph, s: State, t: State, n: nat, low: nat, ly: nat)
    requires s.stack <= t.stack && n < |s.stack|
    requires forall z | z in s.stack :: z in s.index && z in t.index && t.index[z] == s.index[z]
    requires LowBounds(g, s, n + 1, n, low) && LowBounds(g, t, |s.stack|, |s.stack|, ly)
    ensures LowBounds(g, t, n + 1, n, Min(low, ly))
  {
    hide Edge;
    assert FirstOf(t.stack, n) == FirstOf(s.stack, n);
    assert FirstOf(t.stack, |s.stack|) == s.stack;
    forall i, z | n + 1 <= i < |t.stack| && z in t.index && z in FirstOf(t.stack, n) && Edge(g, t.stack[i], z)
      ensures Min(low, ly) <= t.index[z]
    {
      assert z in s.stack;
      if i < |s.stack| {
        assert t.stack[i] == s.stack[i];
      }
    }
  }

  lemma RecursedHandled(g: Graph, s0: State, s: State, t: State, x: Node, low: nat, k: nat, ly: nat)
    requires Looping(g, s0, s, x, low, k) && k < |Succ(g, x)| && Succ(g, x)[k] !in s.index
    requires Connected(g, s, t, Succ(g, x)[k], ly) && Numbered(s)
    ensures forall j | 0 <= j < k + 1 && j < |Succ(g, x)| :: Handled(s0, t, Min(low, ly), Succ(g, x)[j])
  {
    hide Reach, LowReached, LowBounds, Edge, Succ;
    assert s0.stack <= s.stack;
    forall z | z in s0.stack ensures z in s.index {
      assert z in s.stack;
    }
  }

  /** The successor is on the stack. */
  lemma LoopOnStack(g: Graph, s0: State, s: State, x: Node, low: nat, k: nat)
    requires Looping(g, s0, s, x, low, k) && k < |Succ(g, x)| && Succ(g, x)[k] in s.stack && Numbered(s)
    ensures Succ(g, x)[k] in s.index
    ensures Looping(g, s0, s, x, Min(low, s.index[Succ(g, x)[k]]), k + 1)
  {
    hide Extends, Reach, Edge, Numbered, LowReached, LowBounds, Succ;
    StackVisited(s);
    var y := Succ(g, x)[k];
    SuccEdge(g, x, k);
    LowerLow(g, s, x, low, y);
    LowerBounds(g, s, |s0.stack| + 1, |s0.stack|, low, Min(low, s.index[y]));
  }

  lemma SuccEdge(g: Graph, x: Node, k: nat)
    requires k < |Succ(g, x)|
    ensures Edge(g, x, Succ(g, x)[k])
  {
  }

  lemma LowerLow(g: Graph, s: State, x: Node, low: nat, y: Node)
    requires LowReached(g, s, x, low) && y in s.stack && y in s.index && Edge(g, x, y)
    ensures LowReached(g, s, x, Min(low, s.index[y]))
  {
    hide Reach, Edge;
    ReachEdge(g, x, y);
  }

  lemma LowerBounds(g: Graph, s: State, m: nat, n: nat, low: nat, lower: nat)
    requires LowBounds(g, s, m, n, low) && lower <= low
    ensures LowBounds(g, s, m, n, lower)
  {
    hide Edge, FirstOf;
  }

  /** The successor is in a component already. */
  lemma LoopDone(g: Graph, s0: State, s: State, x: Node, low: nat, k: nat)
    requires Looping(g, s0, s, x, low, k) && k < |Succ(g, x)|
    requires Succ(g, x)[k] in s.index && Succ(g, x)[k] !in s.stack
    ensures Looping(g, s0, s, x, low, k + 1)
  {
    hide LowReached, LowBounds;
    assert s0.stack <= s.stack;
  }

  // ----- all successors of x have been considered -----

  /** x is still on the stack, above all that was there before. */
  lemma PlaceOnStack(s0: State, s: State, x: Node)
    requires Extends(Entered(s0, x), s) && Numbered(s0) && x !in s0.index
    ensures |s.stack| > |s0.stack| && s.stack[|s0.stack|] == x && x in s.index && s.index[x] == |s0.index|
    ensures s.stack[..|s0.stack|] == s0.stack && s0.stack <= s.stack
    ensures Extends(s0, s)
    ensures forall z | z in s0.stack :: z in s.index && s.index[z] < s.index[x]
  {
    hide Set, Elements;
    StackVisited(s0);
    assert Entered(s0, x).stack[|s0.stack|] == x;
    assert |s0.index[x := |s0.index|]| == |s0.index| + 1 by {
      EnterSize(s0.index, x);
    }
  }

  lemma NoWhiteLeft(g: Graph, s0: State, s: State, grays: set<Node>, x: Node, low: nat)
    requires NoWhiteSuccessor(g, s, grays + {x}) && Looping(g, s0, s, x, low, |Succ(g, x)|)
    ensures NoWhiteSuccessor(g, s, grays)
  {
    hide LowReached, LowBounds, Extends, Succ;
    forall a, b | a in s.index && a !in grays && Edge(g, a, b) ensures b in s.index {
      if a == x {
        EdgeSucc(g, x, b);
        var j :| 0 <= j < |Succ(g, x)| && Succ(g, x)[j] == b;
        assert Handled(s0, s, low, Succ(g, x)[j]);
      }
    }
  }

  lemma EdgeSucc(g: Graph, x: Node, y: Node)
    requires Edge(g, x, y)
    ensures y in Succ(g, x)
  {
  }

  lemma BoundsWithTop(g: Graph, s0: State, s: State, x: Node, low: nat)
    requires Looping(g, s0, s, x, low, |Succ(g, x)|) && Numbered(s0) && x !in s0.index
    ensures LowBounds(g, s, |s0.stack|, |s0.stack|, low)
  {
    hide LowReached, Extends, Succ, Numbered, Edge;
    PlaceOnStack(s0, s, x);
    forall i, y
      | |s0.stack| <= i < |s.stack| && y in s.index && y in FirstOf(s.stack, |s0.stack|) && Edge(g, s.stack[i], y)
      ensures low <= s.index[y]
    {
      if i == |s0.stack| {
        EdgeSucc(g, x, y);
        var j :| 0 <= j < |Succ(g, x)| && Succ(g, x)[j] == y;
        assert Handled(s0, s, low, Succ(g, x)[j]);
      }
    }
  }

  /** When x reaches below itself, whatever reached x reaches an older active node. */
  lemma GrayBelow(g: Graph, s: State, grays: set<Node>, x: Node, low: nat)
    requires ReachesGray(g, s, grays + {x}) && LowReached(g, s, x, low) && low < s.index[x]
    ensures ReachesGray(g, s, grays)
  {
    hide Reach, HasGray;
    var y :| y in s.stack && y in s.index && s.index[y] == low && Reach(g, x, y);
    assert HasGray(g, s, grays + {x}, y);
    forall z | z in s.stack ensures HasGray(g, s, grays, z) {
      assert HasGray(g, s, grays + {x}, z);
      GrayBelowAt(g, s, grays, x, y, z);
    }
  }

  lemma GrayBelowAt(g: Graph, s: State, grays: set<Node>, x: Node, y: Node, z: Node)
    requires x in s.index && y in s.index && s.index[y] < s.index[x] && Reach(g, x, y)
    requires HasGray(g, s, grays + {x}, y) && HasGray(g, s, grays + {x}, z)
    ensures HasGray(g, s, grays, z)
  {
    hide Reach;
    var a :| a in grays + {x} && a in s.index && y in s.index && s.index[a] <= s.index[y] && Reach(g, y, a);
    var b :| b in grays + {x} && b in s.index && z in s.index && s.index[b] <= s.index[z] && Reach(g, z, b);
    if b == x {
      ReachTrans(g, z, x, y);
      ReachTrans(g, z, y, a);
      assert a in grays;
    } else {
      assert b in grays;
    }
  }

  /** x stays on the stack because it reaches a node below it. */
  lemma StaysOnStack(g: Graph, s0: State, s: State, grays: set<Node>, x: Node, low: nat)
    requires Inv(g, s0, grays) && x !in s0.index && Inv(g, s, grays + {x})
    requires Looping(g, s0, s, x, low, |Succ(g, x)|) && x in s.index && low < s.index[x]
    ensures Inv(g, s, grays) && Connected(g, s0, s, x, low)
  {
    hide Components, Reach, Edge, Numbered, NoWhiteSuccessor, StackReaches, ReachesGray, Extends, Set, LowReached,
      LowBounds, Handled, Succ;
    PlaceOnStack(s0, s, x);
    NoWhiteLeft(g, s0, s, grays, x, low);
    BoundsWithTop(g, s0, s, x, low);
    GrayBelow(g, s, grays, x, low);
  }

  // ----- popping a component -----

  function Reversed(s: seq<Node>): (r: seq<Node>)
    ensures |r| == |s| && forall i | 0 <= i < |s| :: r[i] == s[|s| - 1 - i]
  {
    seq(|s|, i requires 0 <= i < |s| => s[|s| - 1 - i])
  }

  /** The state after the stack above n has been moved into a component. */
  function Popped(s: State, n: nat): State
    requires n <= |s.stack|
  {
    State(s.index, s.stack[..n], s.result + [Reversed(s.stack[n..])])
  }

  /** The nodes at and above x on the stack, together with the finished components, are closed:
      an edge to a node below would have lowered the low link of x. */
  lemma TopClosed(g: Graph, s: State, grays: set<Node>, n: nat, x: Node, low: nat)
    requires Numbered(s) && n <= |s.stack| && Closed(g, Elements(s.result))
    requires grays <= Set(s.stack[..n]) && NoWhiteSuccessor(g, s, grays)
    requires LowBounds(g, s, n, n, low) && x in s.index && low == s.index[x]
    requires forall z | z in s.stack[..n] :: z in s.index && s.index[z] < s.index[x]
    ensures Closed(g, Elements(s.result) + Set(s.stack[n..]))
  {
    hide Edge, Elements;
    SplitSet(s.stack, n);
    StackDistinct(s, n);
    forall a, b | a in Elements(s.result) + Set(s.stack[n..]) && Edge(g, a, b)
      ensures b in Elements(s.result) + Set(s.stack[n..])
    {
      if a in Set(s.stack[n..]) {
        var i :| n <= i < |s.stack| && s.stack[i] == a;
        assert a !in grays;
        assert b in s.index;
        if b in s.stack[..n] {
          assert false;
        }
      }
    }
  }

  lemma SplitSet(s: seq<Node>, n: nat)
    requires n <= |s|
    ensures Set(s) == Set(s[..n]) + Set(s[n..])
    ensures forall z | z in Set(s[n..]) :: exists i | n <= i < |s| :: s[i] == z
  {
    assert s == s[..n] + s[n..];
    forall z | z in Set(s[n..]) ensures exists i | n <= i < |s| :: s[i] == z {
      var j :| 0 <= j < |s| - n && s[n..][j] == z;
      assert s[n + j] == z;
    }
  }

  lemma StackDistinct(s: State, n: nat)
    requires Numbered(s) && n <= |s.stack|
    ensures Set(s.stack[..n]) !! Set(s.stack[n..])
    ensures Set(s.stack[n..]) !! Elements(s.result) && Set(s.stack[..n]) !! Elements(s.result)
    ensures s.index.Keys == Set(s.stack[..n]) + Set(s.stack[n..]) + Elements(s.result)
  {
    hide Elements;
    SplitSet(s.stack, n);
    forall i, j | 0 <= i < n <= j < |s.stack| ensures s.stack[i] != s.stack[j] {
      assert s.index[s.stack[i]] < s.index[s.stack[j]];
    }
  }

  /** Every node at or above x reaches x, for the active node it reaches cannot be below. */
  lemma TopReachesX(g: Graph, s: State, grays: set<Node>, n: nat, x: Node, a: Node)
    requires Numbered(s) && n <= |s.stack| && grays <= Set(s.stack[..n])
    requires ReachesGray(g, s, grays + {x}) && Closed(g, Elements(s.result) + Set(s.stack[n..]))
    requires a in s.stack[n..]
    ensures Reach(g, a, x)
  {
    hide Reach, Numbered, Elements;
    StackDistinct(s, n);
    assert a in s.stack;
    assert HasGray(g, s, grays + {x}, a);
    var y :| y in grays + {x} && Reach(g, a, y);
    if y != x {
      ClosedReach(g, Elements(s.result) + Set(s.stack[n..]), a, y);
      assert false;
    }
  }

  lemma ReversedSet(s: seq<Node>)
    ensures Set(Reversed(s)) == Set(s)
  {
    var r := Reversed(s);
    forall z | z in s ensures z in r {
      var i :| 0 <= i < |s| && s[i] == z;
      assert r[|s| - 1 - i] == z;
    }
  }

  /** The nodes at and above x are one strongly connected component. */
  lemma TopIsComponent(g: Graph, s: State, n: nat, x: Node)
    requires n < |s.stack| && s.stack[n] == x && StackReaches(g, s.stack)
    requires Set(s.stack[n..]) !! Elements(s.result) && Closed(g, Elements(s.result))
    requires Closed(g, Elements(s.result) + Set(s.stack[n..]))
    requires forall a | a in s.stack[n..] :: Reach(g, a, x)
    requires forall i, j | n <= i < j < |s.stack| :: s.stack[i] != s.stack[j]
    ensures IsComponent(g, Reversed(s.stack[n..]))
  {
    hide Reach, Elements, Closed;
    var top := s.stack[n..];
    var c := Reversed(top);
    ReversedSet(top);
    forall a, b | a in c ensures b in c <==> Mutual(g, a, b) {
      assert a in Set(top);
      if b in Set(top) {
        var i :| 0 <= i < |top| && top[i] == a;
        var j :| 0 <= j < |top| && top[j] == b;
        assert Reach(g, s.stack[n], s.stack[n + i]) && Reach(g, s.stack[n], s.stack[n + j]);
        ReachTrans(g, a, x, b);
        ReachTrans(g, b, x, a);
      } else if Mutual(g, a, b) {
        ClosedReach(g, Elements(s.result) + Set(top), a, b);
        ClosedReach(g, Elements(s.result), b, a);
        assert false;
      }
    }
  }

  lemma DistinctAbove(s: State)
    requires Numbered(s)
    ensures forall i, j | 0 <= i < j < |s.stack| :: s.stack[i] != s.stack[j]
  {
    hide Elements, Set;
    StackVisited(s);
    forall i, j | 0 <= i < j < |s.stack| ensures s.stack[i] != s.stack[j] {
      assert s.index[s.stack[i]] < s.index[s.stack[j]];
    }
  }

  /** Popping the nodes at and above x makes them a component and keeps the invariant. */
  lemma PopKeepsInv(g: Graph, s0: State, s: State, grays: set<Node>, x: Node, low: nat)
    requires Inv(g, s0, grays) && x !in s0.index && Inv(g, s, grays + {x})
    requires Looping(g, s0, s, x, low, |Succ(g, x)|) && x in s.index && low == s.index[x]
    ensures |s0.stack| < |s.stack| && s.stack[|s0.stack|] == x
    ensures Inv(g, Popped(s, |s0.stack|), grays)
    ensures Connected(g, s0, Popped(s, |s0.stack|), x, low)
  {
    hide Components, Reach, Edge, Numbered, NoWhiteSuccessor, StackReaches, ReachesGray, Extends, Set, Elements,
      LowReached, LowBounds,
      Handled, Succ, Closed, IsComponent;
    var n := |s0.stack|;
    PlaceOnStack(s0, s, x);
    NoWhiteLeft(g, s0, s, grays, x, low);
    BoundsWithTop(g, s0, s, x, low);
    ResultClosed(g, s.result);
    TopClosed(g, s, grays, n, x, low);
    forall a | a in s.stack[n..] ensures Reach(g, a, x) {
      TopReachesX(g, s, grays, n, x, a);
    }
    StackDistinct(s, n);
    DistinctAbove(s);
    TopIsComponent(g, s, n, x);
    PoppedNumbered(s, n);
    PoppedReach(g, s, grays, n, x);
    ReversedSet(s.stack[n..]);
    ComponentsAppend(g, s.result, Reversed(s.stack[n..]));
    PoppedWhite(g, s, n, grays);
    PoppedConnected(g, s0, s, x, low);
  }

  lemma ResultClosed(g: Graph, r: seq<seq<Node>>)
    requires Components(g, r)
    ensures Closed(g, Elements(r))
  {
    assert r[..|r|] == r;
  }

  lemma PoppedWhite(g: Graph, s: State, n: nat, grays: set<Node>)
    requires NoWhiteSuccessor(g, s, grays) && n <= |s.stack|
    ensures NoWhiteSuccessor(g, Popped(s, n), grays)
  {
  }

  lemma PoppedNumbered(s: State, n: nat)
    requires Numbered(s) && n <= |s.stack|
    ensures Numbered(Popped(s, n))
  {
    hide Set;
    StackDistinct(s, n);
    ReversedSet(s.stack[n..]);
    var r := s.result + [Reversed(s.stack[n..])];
    assert r[..|r| - 1] == s.result;
  }

  lemma PoppedReach(g: Graph, s: State, grays: set<Node>, n: nat, x: Node)
    requires StackReaches(g, s.stack) && ReachesGray(g, s, grays + {x}) && n <= |s.stack|
    requires x in s.index && forall z | z in s.stack[..n] :: z in s.index && s.index[z] < s.index[x]
    ensures StackReaches(g, s.stack[..n]) && ReachesGray(g, Popped(s, n), grays)
  {
    hide Reach;
    forall z | z in s.stack[..n] ensures HasGray(g, Popped(s, n), grays, z) {
      assert z in s.stack;
      assert HasGray(g, s, grays + {x}, z);
      var y :| y in grays + {x} && y in s.index && s.index[y] <= s.index[z] && Reach(g, z, y);
      assert y in grays;
    }
  }

  lemma PoppedConnected(g: Graph, s0: State, s: State, x: Node, low: nat)
    requires Extends(s0, s) && x in s.index && low == s.index[x] && |s0.stack| <= |s.stack|
    requires s.stack[..|s0.stack|] == s0.stack
    ensures Connected(g, s0, Popped(s, |s0.stack|), x, low)
  {
    hide Reach, Edge;
  }
}
