/** a A + b B by one pass over the recoded digits of both scalars. */
module DoubleScalarMult {
  import opened MachineInts
  import opened Digits
  import opened SlideRecoding
  import opened SlideCarry
  import opened PointGroup

  /** u p + v q. */
  function Combination<P(!new)>(g: Group<P>, u: int, p: P, v: int, q: P): P {
    g.add(Multiple(g, u, p), Multiple(g, v, q))
  }

  lemma CombinationDouble<P(!new)>(g: Group<P>, u: int, p: P, v: int, q: P)
    requires IsGroup(g)
    ensures var c := Combination(g, u, p, v, q); g.add(c, c) == Combination(g, 2 * u, p, 2 * v, q)
  {
    hide IsGroup, Multiple;
    Exchange(g, Multiple(g, u, p), Multiple(g, v, q), Multiple(g, u, p), Multiple(g, v, q));
    Double(g, u, p);
    Double(g, v, q);
  }

  lemma CombinationAdd<P(!new)>(g: Group<P>, u: int, p: P, v: int, q: P, d: int)
    requires IsGroup(g)
    ensures g.add(Combination(g, u, p, v, q), Multiple(g, d, p)) == Combination(g, u + d, p, v, q)
    ensures g.add(Combination(g, u, p, v, q), Multiple(g, d, q)) == Combination(g, u, p, v + d, q)
  {
    hide IsGroup, Multiple;
    var x, y := Multiple(g, u, p), Multiple(g, v, q);
    Associate(g, x, y, Multiple(g, d, q));
    MultipleAdd(g, v, d, q);
    Associate(g, x, y, Multiple(g, d, p));
    Commute(g, y, Multiple(g, d, p));
    Associate(g, x, Multiple(g, d, p), y);
    MultipleAdd(g, u, d, p);
  }

  /** table holds p, 3p, 5p, ... */
  ghost predicate OddMultiples<P(!new)>(g: Group<P>, table: seq<P>, p: P) {
    forall k | 0 <= k < |table| :: table[k] == Multiple(g, 2 * k + 1, p)
  }

  lemma OddNext<P(!new)>(g: Group<P>, table: seq<P>, p: P)
    requires IsGroup(g) && OddMultiples(g, table, p) && table != []
    ensures OddMultiples(g, table + [g.add(g.add(p, p), table[|table| - 1])], p)
  {
    hide IsGroup, Multiple;
    MultipleOne(g, p);
    Double(g, 1, p);
    MultipleAdd(g, 2, 2 * (|table| - 1) + 1, p);
  }

  /** The odd multiples of A up to 15 A, each by adding 2A to the one before. */
  method OddTable<P(!new)>(g: Group<P>, p: P) returns (t: seq<P>)
    requires IsGroup(g)
    ensures |t| == 8 && OddMultiples(g, t, p)
  {
    hide IsGroup, Multiple, OddMultiples;
    t := [p];
    OddFirst(g, p);
    var p2 := g.add(p, p);
    OddNext(g, t, p);
    t := t + [g.add(p2, t[0])];
    OddNext(g, t, p);
    t := t + [g.add(p2, t[1])];
    OddNext(g, t, p);
    t := t + [g.add(p2, t[2])];
    OddNext(g, t, p);
    t := t + [g.add(p2, t[3])];
    OddNext(g, t, p);
    t := t + [g.add(p2, t[4])];
    OddNext(g, t, p);
    t := t + [g.add(p2, t[5])];
    OddNext(g, t, p);
    t := t + [g.add(p2, t[6])];
  }

  lemma OddFirst<P(!new)>(g: Group<P>, p: P)
    requires IsGroup(g)
    ensures OddMultiples(g, [p], p)
  {
    hide IsGroup;
    MultipleOne(g, p);
  }

  /** Adds the table entry for a digit: entry |d| / 2, subtracted when d is negative. */
  method AddDigit<P(!new)>(g: Group<P>, x: P, d: int, table: seq<P>, ghost p: P) returns (y: P)
    requires IsGroup(g) && |table| == 8 && OddMultiples(g, table, p) && IsDigit(d)
    ensures y == g.add(x, Multiple(g, d, p))
  {
    hide IsGroup, Multiple;
    y := x;
    if d > 0 {
      y := g.add(x, table[d / 2]);
    } else if d < 0 {
      Negate(g, -d, p);
      y := g.add(x, g.neg(table[(-d) / 2]));
    } else {
      MultipleOne(g, p);
      Zero(g, x);
    }
  }

  lemma {:induction false} ValZeros(s: seq<int>)
    requires AllZeros(s)
    ensures Val(s) == 0
  {
    if s != [] {
      ValZeros(s[1..]);
    }
  }

  /** What the digits from position i on are worth. */
  function Upper(s: seq<int>, i: nat): int {
    if i <= |s| then Val(s[i..]) else 0
  }

  lemma UpperStep(s: seq<int>, i: nat)
    requires i < |s|
    ensures Upper(s, i) == s[i] + 2 * Upper(s, i + 1)
  {
    assert s[i..][1..] == s[i + 1..];
  }

  lemma UpperAll(s: seq<int>)
    ensures Upper(s, 0) == Val(s)
  {
    assert s[0..] == s;
  }

  /** The index of the highest position where either digit is nonzero, or -1. */
  method HighestDigit(s: array<int>, t: array<int>) returns (i: int)
    requires s.Length == 256 && t.Length == 256
    ensures -1 <= i < 256
    ensures forall j | i < j < 256 :: s[j] == 0 && t[j] == 0
  {
    i := 255;
    while i >= 0
      invariant -1 <= i < 256
      invariant forall j | i < j < 256 :: s[j] == 0 && t[j] == 0
    {
      if s[i] != 0 || t[i] != 0 {
        break;
      }
      i := i - 1;
    }
  }

  /** bi is the table of odd multiples of the base point b0. */
  method DoubleScalarmultVartime<P(!new)>(g: Group<P>, a: seq<uint8>, p: P, b: seq<uint8>, bi: seq<P>, ghost b0: P)
    returns (r: P)
    requires IsGroup(g) && |a| == 32 && |b| == 32
    requires |bi| == 8 && OddMultiples(g, bi, b0)
    ensures r == Combination(g, Worth(a), p, Worth(b), b0)
    ensures a[31] < 128 && b[31] < 128 ==> r == Combination(g, Value(a), p, Value(b), b0)
  {
    hide IsGroup, Multiple, OddMultiples, Val, Value, Combination, IsDigit, Shift, Slid, Worth;
    var aslide := new int[256];
    var bslide := new int[256];
    Slide(aslide, a);
    Slide(bslide, b);
    var ai := OddTable(g, p);
    r := Evaluate(g, aslide, ai, p, bslide, bi, b0);
    SlidWorth(a);
    SlidWorth(b);
  }

  /** From the highest digit down: double, then add what either digit selects. */
  method Evaluate<P(!new)>(g: Group<P>, aslide: array<int>, ai: seq<P>, ghost p: P,
      bslide: array<int>, bi: seq<P>, ghost b0: P)
    returns (r: P)
    requires IsGroup(g) && aslide.Length == 256 && bslide.Length == 256
    requires forall j | 0 <= j < 256 :: IsDigit(aslide[j]) && IsDigit(bslide[j])
    requires |ai| == 8 && OddMultiples(g, ai, p) && |bi| == 8 && OddMultiples(g, bi, b0)
    ensures r == Combination(g, Val(aslide[..]), p, Val(bslide[..]), b0)
  {
    hide IsGroup, Multiple, OddMultiples, Val, Combination, IsDigit, Upper;
    ghost var s, t := aslide[..], bslide[..];
    r := g.zero;
    var i := HighestDigit(aslide, bslide);
    NothingAbove(s, i);
    NothingAbove(t, i);
    CombinationZero(g, p, b0);
    while i >= 0
      invariant -1 <= i < 256 && |s| == |t| == 256
      invariant r == Combination(g, Upper(s, i + 1), p, Upper(t, i + 1), b0)
    {
      CombinationStep(g, s, t, i, p, b0);
      r := DoubleAndAdd(g, r, aslide[i], ai, p, bslide[i], bi, b0);
      i := i - 1;
    }
    UpperAll(s);
    UpperAll(t);
  }

  method DoubleAndAdd<P(!new)>(g: Group<P>, x: P, c: int, ai: seq<P>, ghost p: P, d: int, bi: seq<P>, ghost b0: P)
    returns (y: P)
    requires IsGroup(g) && IsDigit(c) && IsDigit(d)
    requires |ai| == 8 && OddMultiples(g, ai, p) && |bi| == 8 && OddMultiples(g, bi, b0)
    ensures y == g.add(g.add(g.add(x, x), Multiple(g, c, p)), Multiple(g, d, b0))
  {
    hide IsGroup, Multiple, OddMultiples, IsDigit;
    y := g.add(x, x);
    y := AddDigit(g, y, c, ai, p);
    y := AddDigit(g, y, d, bi, b0);
  }

  lemma NothingAbove(s: seq<int>, i: int)
    requires -1 <= i < |s| && forall j | i < j < |s| :: s[j] == 0
    ensures Upper(s, i + 1) == 0
  {
    ValZeros(s[i + 1..]);
  }

  lemma CombinationZero<P(!new)>(g: Group<P>, p: P, q: P)
    requires IsGroup(g)
    ensures Combination(g, 0, p, 0, q) == g.zero
  {
    hide IsGroup;
    MultipleOne(g, p);
    MultipleOne(g, q);
    Zero(g, g.zero);
  }

  /** Doubling and adding both digits takes in position i. */
  lemma CombinationStep<P(!new)>(g: Group<P>, s: seq<int>, t: seq<int>, i: nat, p: P, q: P)
    requires IsGroup(g) && i < |s| == |t|
    ensures var r := Combination(g, Upper(s, i + 1), p, Upper(t, i + 1), q);
      g.add(g.add(g.add(r, r), Multiple(g, s[i], p)), Multiple(g, t[i], q))
      == Combination(g, Upper(s, i), p, Upper(t, i), q)
  {
    hide IsGroup, Multiple, Val, Combination, Upper;
    var u, v := Upper(s, i + 1), Upper(t, i + 1);
    CombinationDouble(g, u, p, v, q);
    CombinationAdd(g, 2 * u, p, 2 * v, q, s[i]);
    CombinationAdd(g, 2 * u + s[i], p, 2 * v, q, t[i]);
    UpperStep(s, i);
    UpperStep(t, i);
  }
}
