/** An abstract commutative group of points, and multiples of points. */
module PointGroup {
  import opened Digits

  /** The operations that the curve formulas provide. */
  datatype Group<!P(!new)> = Group(zero: P, add: (P, P) -> P, neg: P -> P)

  ghost predicate IsGroup<P(!new)>(g: Group<P>) {
    && (forall x :: g.add(x, g.zero) == x)
    && (forall x :: g.add(x, g.neg(x)) == g.zero)
    && (forall x, y :: g.add(x, y) == g.add(y, x))
    && (forall x, y, z :: g.add(g.add(x, y), z) == g.add(x, g.add(y, z)))
  }

  lemma Zero<P(!new)>(g: Group<P>, x: P)
    requires IsGroup(g)
    ensures g.add(x, g.zero) == x && g.add(g.zero, x) == x
  {
  }

  lemma Inverse<P(!new)>(g: Group<P>, x: P)
    requires IsGroup(g)
    ensures g.add(x, g.neg(x)) == g.zero
  {
  }

  lemma Commute<P(!new)>(g: Group<P>, x: P, y: P)
    requires IsGroup(g)
    ensures g.add(x, y) == g.add(y, x)
  {
  }

  lemma Associate<P(!new)>(g: Group<P>, x: P, y: P, z: P)
    requires IsGroup(g)
    ensures g.add(g.add(x, y), z) == g.add(x, g.add(y, z))
  {
  }

  /** (w + x) + (y + z) == (w + y) + (x + z). */
  lemma Exchange<P(!new)>(g: Group<P>, w: P, x: P, y: P, z: P)
    requires IsGroup(g)
    ensures g.add(g.add(w, x), g.add(y, z)) == g.add(g.add(w, y), g.add(x, z))
  {
    hide IsGroup;
    Associate(g, w, x, g.add(y, z));
    Associate(g, x, y, z);
    Commute(g, x, y);
    Associate(g, y, x, z);
    Associate(g, w, y, g.add(x, z));
  }

  lemma InverseUnique<P(!new)>(g: Group<P>, x: P, y: P)
    requires IsGroup(g) && g.add(x, y) == g.zero
    ensures y == g.neg(x)
  {
    hide IsGroup;
    Inverse(g, x);
    Commute(g, x, g.neg(x));
    Associate(g, g.neg(x), x, y);
    Zero(g, y);
    Zero(g, g.neg(x));
  }

  function Times<P(!new)>(g: Group<P>, n: nat, p: P): P {
    if n == 0 then g.zero else g.add(Times(g, n - 1, p), p)
  }

  /** n p, for any integer n. */
  function Multiple<P(!new)>(g: Group<P>, n: int, p: P): P {
    if n >= 0 then Times(g, n, p) else g.neg(Times(g, -n, p))
  }

  /** One more p. */
  lemma MultipleNext<P(!new)>(g: Group<P>, n: int, p: P)
    requires IsGroup(g)
    ensures g.add(Multiple(g, n, p), p) == Multiple(g, n + 1, p)
  {
    hide IsGroup;
    if n < 0 {
      var t := Times(g, -n - 1, p);
      var s := Times(g, -n, p);
      Inverse(g, s);
      Commute(g, s, g.neg(s));
      Associate(g, t, p, g.neg(s));
      Commute(g, p, g.neg(s));
      InverseUnique(g, t, g.add(g.neg(s), p));
      NegateZero(g);
    }
  }

  lemma NegateZero<P(!new)>(g: Group<P>)
    requires IsGroup(g)
    ensures g.neg(g.zero) == g.zero
  {
    hide IsGroup;
    Zero(g, g.zero);
    InverseUnique(g, g.zero, g.zero);
  }

  lemma {:induction false} MultipleAddNat<P(!new)>(g: Group<P>, m: int, n: nat, p: P)
    requires IsGroup(g)
    ensures g.add(Multiple(g, m, p), Times(g, n, p)) == Multiple(g, m + n, p)
    decreases n
  {
    hide IsGroup, Multiple;
    if n == 0 {
      Zero(g, Multiple(g, m, p));
    } else {
      MultipleAddNat(g, m, n - 1, p);
      Associate(g, Multiple(g, m, p), Times(g, n - 1, p), p);
      MultipleNext(g, m + n - 1, p);
    }
  }

  lemma Negate<P(!new)>(g: Group<P>, n: int, p: P)
    requires IsGroup(g)
    ensures g.neg(Multiple(g, n, p)) == Multiple(g, -n, p)
  {
    hide IsGroup;
    if n < 0 {
      var s := Times(g, -n, p);
      Inverse(g, s);
      Commute(g, s, g.neg(s));
      InverseUnique(g, g.neg(s), s);
    } else if n == 0 {
      NegateZero(g);
    }
  }

  lemma MultipleAdd<P(!new)>(g: Group<P>, m: int, n: int, p: P)
    requires IsGroup(g)
    ensures g.add(Multiple(g, m, p), Multiple(g, n, p)) == Multiple(g, m + n, p)
  {
    hide IsGroup;
    if n >= 0 {
      MultipleAddNat(g, m, n, p);
    } else {
      // m + n + (-n) == m, so adding n p undoes adding -n p.
      var s := Times(g, -n, p);
      MultipleAddNat(g, m + n, -n, p);
      Associate(g, Multiple(g, m + n, p), s, g.neg(s));
      Inverse(g, s);
      Zero(g, Multiple(g, m + n, p));
    }
  }

  lemma MultipleOne<P(!new)>(g: Group<P>, p: P)
    requires IsGroup(g)
    ensures Multiple(g, 1, p) == p && Multiple(g, 0, p) == g.zero
  {
    hide IsGroup;
    Zero(g, p);
    assert Times(g, 0, p) == g.zero;
  }

  lemma Double<P(!new)>(g: Group<P>, n: int, p: P)
    requires IsGroup(g)
    ensures g.add(Multiple(g, n, p), Multiple(g, n, p)) == Multiple(g, 2 * n, p)
  {
    MultipleAdd(g, n, n, p);
  }
}
