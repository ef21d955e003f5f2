/** Point formulas on the twisted Edwards curve -x^2 + y^2 = 1 + d x^2 y^2, on limbs. */
module Edwards {
  import opened Field25519
  import opened FieldOps
  import opened FieldReps

  // ----- the representations of a point -----

  /** The coordinates of a point, as numbers. */
  datatype Coords = Coords(x: int, y: int, z: int, t: int)

  /** x = X / Z, y = Y / Z; odd limbs are at most o. */
  class P2 {
    var X: Fe
    var Y: Fe
    var Z: Fe

    constructor () {
    }

    ghost predicate Holds(n: Coords, o: int)
      reads this
    {
      Rep(X, n.x, o) && Rep(Y, n.y, o) && Rep(Z, n.z, o)
    }
  }

  /** x = X / Z, y = Y / Z, and X Y = Z T */
  class P3 {
    var X: Fe
    var Y: Fe
    var Z: Fe
    var T: Fe

    ghost predicate Holds(n: Coords, o: int)
      reads this
    {
      Rep(X, n.x, o) && Rep(Y, n.y, o) && Rep(Z, n.z, o) && Rep(T, n.t, o)
    }
  }

  /** x = X / Z, y = Y / T; the limbs are within the bounds that multiplication asks for. */
  class P1p1 {
    var X: Fe
    var Y: Fe
    var Z: Fe
    var T: Fe

    constructor () {
    }

    ghost predicate Holds(n: Coords)
      reads this
    {
      Rep(X, n.x, IN) && Rep(Y, n.y, IN) && Rep(Z, n.z, IN) && Rep(T, n.t, IN)
    }
  }

  class Cached {
    var YplusX: Fe
    var YminusX: Fe
    var Z: Fe
    var T2d: Fe

    ghost predicate Holds(c: Coords, d: int)
      reads this
    {
      && Rep(YplusX, c.y + c.x, 2 * CARRIED + 1) && Rep(YminusX, c.y - c.x, 2 * CARRIED + 1)
      && Rep(Z, c.z, CARRIED) && Rep(T2d, 2 * d * c.t, OUT)
    }
  }

  /** The table form of a point with Z = 1. */
  datatype Precomp = Precomp(yplusx: Fe, yminusx: Fe, xy2d: Fe)
  {
    ghost predicate Holds(c: Coords, d: int) {
      && c.z == 1 && Rep(yplusx, c.y + c.x, IN) && Rep(yminusx, c.y - c.x, IN) && Rep(xy2d, 2 * d * c.t, IN)
    }
  }

  // ----- what the formulas compute -----

  /** The completed sum of two points. */
  function SumOf(p: Coords, c: Coords, d: int): Coords {
    Coords(2 * (p.x * c.y + c.x * p.y), 2 * (p.y * c.y + p.x * c.x),
      2 * (p.z * c.z) + 2 * (d * (p.t * c.t)), 2 * (p.z * c.z) - 2 * (d * (p.t * c.t)))
  }

  /** The completed double of a point. */
  function DoubleOf(p: Coords): Coords {
    Coords(2 * (p.x * p.y), p.y * p.y + p.x * p.x, p.y * p.y - p.x * p.x, 2 * (p.z * p.z) - (p.y * p.y - p.x * p.x))
  }

  /** The completed point (X : Z), (Y : T) in extended coordinates. */
  function Converted(r: Coords): Coords {
    Coords(r.x * r.t, r.y * r.z, r.z * r.t, r.x * r.y)
  }

  function Minus(c: Coords): Coords {
    Coords(-c.x, c.y, c.z, -c.t)
  }

  // ----- additions -----

  lemma ExpandSums(x1: int, y1: int, x2: int, y2: int)
    ensures (y1 + x1) * (y2 + x2) - (y1 - x1) * (y2 - x2) == 2 * (x1 * y2 + x2 * y1)
    ensures (y1 + x1) * (y2 + x2) + (y1 - x1) * (y2 - x2) == 2 * (y1 * y2 + x1 * x2)
  {
    assert (y1 + x1) * (y2 + x2) == y1 * y2 + y1 * x2 + x1 * y2 + x1 * x2;
    assert (y1 - x1) * (y2 - x2) == y1 * y2 - y1 * x2 - x1 * y2 + x1 * x2;
  }

  lemma TwiceD(d: int, t: int, p: int)
    ensures (2 * d * t) * p == 2 * (d * (p * t))
  {
    assert (2 * d * t) * p == 2 * ((d * t) * p);
    assert (d * t) * p == d * (t * p) == d * (p * t);
  }

  lemma NegatedT(d: int, p: int, t: int)
    ensures d * (p * -t) == -(d * (p * t))
  {
    assert p * -t == -(p * t);
  }

  /** r = p + q */
  method GeAdd(r: P1p1, p: P3, q: Cached, ghost n: Coords, ghost c: Coords, ghost d: int)
    requires p.Holds(n, CARRIED) && q.Holds(c, d)
    modifies r
    ensures r.Holds(SumOf(n, c, d))
  {
    hide Rep;
    ghost var sum, a, b := 2 * CARRIED + 1, n.y + n.x, n.y - n.x;
    ghost var u, v, w, dt := a * (c.y + c.x), b * (c.y - c.x), n.z * c.z, (2 * d * c.t) * n.t;
    r.X := Add(p.Y, p.X, n.y, n.x, CARRIED, CARRIED);
    r.Y := Sub(p.Y, p.X, n.y, n.x, CARRIED, CARRIED);
    r.Z := Mul(r.X, q.YplusX, a, c.y + c.x, sum, sum);
    r.Y := Mul(r.Y, q.YminusX, b, c.y - c.x, sum, sum);
    r.T := Mul(q.T2d, p.T, 2 * d * c.t, n.t, OUT, CARRIED);
    r.X := Mul(p.Z, q.Z, n.z, c.z, CARRIED, CARRIED);
    var t0 := Add(r.X, r.X, w, w, OUT, OUT);
    RepLooser(t0, 2 * w, 2 * OUT + 1, sum);
    Combine(r, t0, 2 * w, v, u, dt);
    ExpandSums(n.x, n.y, c.x, c.y);
    TwiceD(d, c.t, n.t);
  }

  /** The last steps of all additions: Z - Y, Z + Y, t0 + T and t0 - T. */
  method Combine(r: P1p1, t0: Fe, ghost w: int, ghost v: int, ghost u: int, ghost dt: int)
    requires Rep(t0, w, 2 * CARRIED + 1) && Rep(r.Y, v, OUT) && Rep(r.Z, u, OUT) && Rep(r.T, dt, OUT)
    modifies r
    ensures r.Holds(Coords(u - v, u + v, w + dt, w - dt))
  {
    hide Rep;
    ghost var sum, small := 2 * CARRIED + 1, 2 * OUT + 1;
    r.X := Sub(r.Z, r.Y, u, v, OUT, OUT);
    r.Y := Add(r.Z, r.Y, u, v, OUT, OUT);
    r.Z := Add(t0, r.T, w, dt, sum, OUT);
    r.T := Sub(t0, r.T, w, dt, sum, OUT);
    RepLooser(r.X, u - v, small, IN);
    RepLooser(r.Y, u + v, small, IN);
    RepLooser(r.Z, w + dt, sum + OUT + 1, IN);
    RepLooser(r.T, w - dt, sum + OUT + 1, IN);
  }

  /** The same for subtractions, where the last two results change places. */
  method CombineMinus(r: P1p1, t0: Fe, ghost w: int, ghost v: int, ghost u: int, ghost dt: int)
    requires Rep(t0, w, 2 * CARRIED + 1) && Rep(r.Y, v, OUT) && Rep(r.Z, u, OUT) && Rep(r.T, dt, OUT)
    modifies r
    ensures r.Holds(Coords(u - v, u + v, w - dt, w + dt))
  {
    hide Rep;
    ghost var sum, small := 2 * CARRIED + 1, 2 * OUT + 1;
    r.X := Sub(r.Z, r.Y, u, v, OUT, OUT);
    r.Y := Add(r.Z, r.Y, u, v, OUT, OUT);
    r.Z := Sub(t0, r.T, w, dt, sum, OUT);
    r.T := Add(t0, r.T, w, dt, sum, OUT);
    RepLooser(r.X, u - v, small, IN);
    RepLooser(r.Y, u + v, small, IN);
    RepLooser(r.Z, w - dt, sum + OUT + 1, IN);
    RepLooser(r.T, w + dt, sum + OUT + 1, IN);
  }

  /** r = p - q */
  method GeSub(r: P1p1, p: P3, q: Cached, ghost n: Coords, ghost c: Coords, ghost d: int)
    requires p.Holds(n, CARRIED) && q.Holds(c, d)
    modifies r
    ensures r.Holds(SumOf(n, Minus(c), d))
  {
    hide Rep;
    ghost var sum, a, b := 2 * CARRIED + 1, n.y + n.x, n.y - n.x;
    ghost var u, v, w, dt := a * (c.y - c.x), b * (c.y + c.x), n.z * c.z, (2 * d * c.t) * n.t;
    r.X := Add(p.Y, p.X, n.y, n.x, CARRIED, CARRIED);
    r.Y := Sub(p.Y, p.X, n.y, n.x, CARRIED, CARRIED);
    r.Z := Mul(r.X, q.YminusX, a, c.y - c.x, sum, sum);
    r.Y := Mul(r.Y, q.YplusX, b, c.y + c.x, sum, sum);
    r.T := Mul(q.T2d, p.T, 2 * d * c.t, n.t, OUT, CARRIED);
    r.X := Mul(p.Z, q.Z, n.z, c.z, CARRIED, CARRIED);
    var t0 := Add(r.X, r.X, w, w, OUT, OUT);
    RepLooser(t0, 2 * w, 2 * OUT + 1, sum);
    CombineMinus(r, t0, 2 * w, v, u, dt);
    ExpandSums(n.x, n.y, -c.x, c.y);
    TwiceD(d, c.t, n.t);
    NegatedT(d, n.t, c.t);
  }

  /** r = p + q, with a point from the table */
  method GeMadd(r: P1p1, p: P3, q: Precomp, ghost n: Coords, ghost c: Coords, ghost d: int)
    requires p.Holds(n, CARRIED) && q.Holds(c, d)
    modifies r
    ensures r.Holds(SumOf(n, c, d))
  {
    hide Rep;
    ghost var sum, a, b := 2 * CARRIED + 1, n.y + n.x, n.y - n.x;
    ghost var u, v, dt := a * (c.y + c.x), b * (c.y - c.x), (2 * d * c.t) * n.t;
    r.X := Add(p.Y, p.X, n.y, n.x, CARRIED, CARRIED);
    r.Y := Sub(p.Y, p.X, n.y, n.x, CARRIED, CARRIED);
    r.Z := Mul(r.X, q.yplusx, a, c.y + c.x, sum, IN);
    r.Y := Mul(r.Y, q.yminusx, b, c.y - c.x, sum, IN);
    r.T := Mul(q.xy2d, p.T, 2 * d * c.t, n.t, IN, CARRIED);
    var t0 := Add(p.Z, p.Z, n.z, n.z, CARRIED, CARRIED);
    Combine(r, t0, 2 * n.z, v, u, dt);
    ExpandSums(n.x, n.y, c.x, c.y);
    TwiceD(d, c.t, n.t);
  }

  /** r = p - q, with a point from the table */
  method GeMsub(r: P1p1, p: P3, q: Precomp, ghost n: Coords, ghost c: Coords, ghost d: int)
    requires p.Holds(n, CARRIED) && q.Holds(c, d)
    modifies r
    ensures r.Holds(SumOf(n, Minus(c), d))
  {
    hide Rep;
    ghost var sum, a, b := 2 * CARRIED + 1, n.y + n.x, n.y - n.x;
    ghost var u, v, dt := a * (c.y - c.x), b * (c.y + c.x), (2 * d * c.t) * n.t;
    r.X := Add(p.Y, p.X, n.y, n.x, CARRIED, CARRIED);
    r.Y := Sub(p.Y, p.X, n.y, n.x, CARRIED, CARRIED);
    r.Z := Mul(r.X, q.yminusx, a, c.y - c.x, sum, IN);
    r.Y := Mul(r.Y, q.yplusx, b, c.y + c.x, sum, IN);
    r.T := Mul(q.xy2d, p.T, 2 * d * c.t, n.t, IN, CARRIED);
    var t0 := Add(p.Z, p.Z, n.z, n.z, CARRIED, CARRIED);
    CombineMinus(r, t0, 2 * n.z, v, u, dt);
    ExpandSums(n.x, n.y, -c.x, c.y);
    TwiceD(d, c.t, n.t);
    NegatedT(d, n.t, c.t);
  }

  // ----- doubling -----

  /** r = 2 p */
  method GeP2Dbl(r: P1p1, p: P2, ghost n: Coords)
    requires p.Holds(n, CARRIED)
    modifies r
    ensures r.Holds(DoubleOf(n))
  {
    hide Rep;
    ghost var sum, small, s := 2 * CARRIED + 1, 2 * OUT + 1, n.x + n.y;
    ghost var xx, yy, zz := n.x * n.x, n.y * n.y, 2 * (n.z * n.z);
    r.X := Sq(p.X, n.x, CARRIED);
    r.Z := Sq(p.Y, n.y, CARRIED);
    r.T := Sq2(p.Z, n.z, CARRIED);
    r.Y := Add(p.X, p.Y, n.x, n.y, CARRIED, CARRIED);
    var t0 := Sq(r.Y, s, sum);
    r.Y := Add(r.Z, r.X, yy, xx, OUT, OUT);
    r.Z := Sub(r.Z, r.X, yy, xx, OUT, OUT);
    r.X := Sub(t0, r.Y, s * s, yy + xx, OUT, small);
    r.T := Sub(r.T, r.Z, zz, yy - xx, OUT, small);
    SquareOfSum(n.x, n.y);
    RepLooser(r.X, 2 * (n.x * n.y), small + OUT + 1, IN);
    RepLooser(r.Y, yy + xx, small, IN);
    RepLooser(r.Z, yy - xx, small, IN);
    RepLooser(r.T, zz - (yy - xx), small + OUT + 1, IN);
  }

  lemma SquareOfSum(x: int, y: int)
    ensures (x + y) * (x + y) - (y * y + x * x) == 2 * (x * y)
  {
  }

  /** r = p */
  method GeP3ToP2(r: P2, p: P3, ghost n: Coords)
    requires p.Holds(n, CARRIED)
    modifies r
    ensures r.Holds(n, CARRIED)
  {
    hide Rep;
    r.X := p.X;
    r.Y := p.Y;
    r.Z := p.Z;
  }

  /** r = 2 p */
  method GeP3Dbl(r: P1p1, p: P3, ghost n: Coords)
    requires p.Holds(n, CARRIED)
    modifies r
    ensures r.Holds(DoubleOf(n))
  {
    var q := new P2();
    GeP3ToP2(q, p, n);
    GeP2Dbl(r, q, n);
  }

  // ----- conversions -----

  /** s = the point with x = X / Z and y = Y / T */
  method GeP1p1ToP3(s: P3, r: P1p1, ghost n: Coords)
    requires r.Holds(n)
    modifies s
    ensures s.Holds(Converted(n), OUT)
  {
    hide Rep;
    s.X := Mul(r.X, r.T, n.x, n.t, IN, IN);
    s.Y := Mul(r.Y, r.Z, n.y, n.z, IN, IN);
    s.Z := Mul(r.Z, r.T, n.z, n.t, IN, IN);
    s.T := Mul(r.X, r.Y, n.x, n.y, IN, IN);
  }

  method GeP1p1ToP2(s: P2, r: P1p1, ghost n: Coords)
    requires r.Holds(n)
    modifies s
    ensures s.Holds(Converted(n), OUT)
  {
    hide Rep;
    s.X := Mul(r.X, r.T, n.x, n.t, IN, IN);
    s.Y := Mul(r.Y, r.Z, n.y, n.z, IN, IN);
    s.Z := Mul(r.Z, r.T, n.z, n.t, IN, IN);
  }

  /** What a conversion leaves can be an operand again. */
  lemma P3Operand(p: P3, n: Coords)
    requires p.Holds(n, OUT)
    ensures p.Holds(n, CARRIED)
  {
    hide Rep;
    RepLooser(p.X, n.x, OUT, CARRIED);
    RepLooser(p.Y, n.y, OUT, CARRIED);
    RepLooser(p.Z, n.z, OUT, CARRIED);
    RepLooser(p.T, n.t, OUT, CARRIED);
  }

  lemma P2Operand(p: P2, n: Coords)
    requires p.Holds(n, OUT)
    ensures p.Holds(n, CARRIED)
  {
    hide Rep;
    RepLooser(p.X, n.x, OUT, CARRIED);
    RepLooser(p.Y, n.y, OUT, CARRIED);
    RepLooser(p.Z, n.z, OUT, CARRIED);
  }

  /** The curve constant d, and 2 d. */
  const D_LIMBS: Fe := Fe(-10913610, 13857413, -15372611, 6949391, 114729, -8787816, -6275908, -3247719, -18696448,
    -12055116)
  const D2_LIMBS: Fe := Fe(-21827239, -5839606, -30745221, 13898782, 229458, 15978800, -12551817, -6495438, 29715968,
    9444199)

  /** d is -121665 / 121666, and the second constant is twice the first. */
  lemma CurveConstants()
    ensures Cong(121666 * Val(D_LIMBS), -121665)
    ensures Cong(Val(D2_LIMBS), 2 * Val(D_LIMBS))
  {
    CongBy(121666 * Val(D_LIMBS), -121665, -43711);
    CongBy(Val(D2_LIMBS), 2 * Val(D_LIMBS), 1);
  }

  lemma ConstantRep()
    ensures Rep(D2_LIMBS, 2 * Val(D_LIMBS), OUT)
  {
    hide Cong, Val;
    CurveConstants();
  }

  method GeP3ToCached(q: Cached, p: P3, ghost n: Coords)
    requires p.Holds(n, CARRIED)
    modifies q
    ensures q.Holds(n, Val(D_LIMBS))
  {
    hide Rep, Val, D_LIMBS, D2_LIMBS;
    ghost var d := Val(D_LIMBS);
    ConstantRep();
    q.YplusX := Add(p.Y, p.X, n.y, n.x, CARRIED, CARRIED);
    q.YminusX := Sub(p.Y, p.X, n.y, n.x, CARRIED, CARRIED);
    q.Z := p.Z;
    q.T2d := Mul(p.T, D2_LIMBS, n.t, 2 * d, CARRIED, OUT);
    assert n.t * (2 * d) == 2 * d * n.t;
  }
}
