/** The addition formulas are complete: where d is not a square, no sum has denominator zero. */
module EdwardsComplete {
  import opened Arith
  import opened Field25519
  import opened FieldMul
  import opened FieldOps
  import opened FieldBytes
  import opened FieldReps
  import opened PrimeField
  import opened Edwards
  import opened EdwardsLaw

  /** A point of the curve with a denominator. */
  ghost predicate IsFinite(p: Coords, d: int) {
    IsPoint(p, d) && !IsZero(p.z)
  }

  // ----- a square root of d -----

  /** (y + i x)^2 = y^2 - x^2 + 2 i x y, where i i = -1. */
  lemma ComplexSquare(i: int, x: int, y: int)
    requires Cong(i * i, -1)
    ensures Cong((y + i * x) * (y + i * x), (y * y - x * x) + (2 * i) * (x * y))
  {
    hide Cong;
    CongScaled(x * x, i * i, -1);
    CongRefl(y * y + (2 * i) * (x * y));
    CongAdd(y * y + (2 * i) * (x * y), y * y + (2 * i) * (x * y), (x * x) * (i * i), (x * x) * -1);
    SquareOfSum2(y, i, x);
  }

  lemma SquareOfSum2(y: int, i: int, x: int)
    ensures (y + i * x) * (y + i * x) == y * y + (2 * i) * (x * y) + (x * x) * (i * i)
  {
    var w := i * x;
    assert (y + w) * (y + w) == y * y + 2 * (w * y) + w * w;
    Interchange(i, x, i, x);
    assert (i * x) * y == i * (x * y);
  }

  /** The real parts agree: z2^2 (y1^2 - x1^2) = d t1^2 (y2^2 - x2^2), when the squares of the denominators do. */
  lemma RealParts(p: Coords, q: Coords, d: int)
    requires OnCurve(p, d) && OnCurve(q, d)
    requires Cong((p.z * q.z) * (p.z * q.z), (d * (p.t * q.t)) * (d * (p.t * q.t)))
    ensures Cong((q.z * q.z) * (p.y * p.y - p.x * p.x), (d * (p.t * p.t)) * (q.y * q.y - q.x * q.x))
  {
    hide Cong;
    var m, n, k, l := p.z * p.z, d * (p.t * p.t), q.z * q.z, d * (q.t * q.t);
    SquaresAre(p, q, d);
    CongScaled(k, p.y * p.y - p.x * p.x, m + n);
    CongScaled(n, q.y * q.y - q.x * q.x, k + l);
    CongRefl(k * n);
    CongAdd(k * n, k * n, m * k, n * l);
    assert k * (m + n) == k * n + m * k && n * (k + l) == k * n + n * l;
    CongTrans(k * (p.y * p.y - p.x * p.x), k * n + m * k, k * n + n * l);
    CongSym(n * (q.y * q.y - q.x * q.x), n * (k + l));
    CongTrans(k * (p.y * p.y - p.x * p.x), k * n + n * l, n * (q.y * q.y - q.x * q.x));
  }

  /** The imaginary parts agree: z2^2 x1 y1 s = d t1^2 x2 y2, when d t1 t2 = s z1 z2. */
  lemma ImaginaryParts(p: Coords, q: Coords, d: int, s: int)
    requires Extended(p) && Extended(q) && Cong(d * (p.t * q.t), s * (p.z * q.z))
    ensures Cong((q.z * q.z) * (s * (p.x * p.y)), (d * (p.t * p.t)) * (q.x * q.y))
  {
    hide Cong;
    var c := q.z * p.t;
    CongScaled((q.z * q.z) * s, p.x * p.y, p.z * p.t);
    CongScaled(d * (p.t * p.t), q.x * q.y, q.z * q.t);
    CongScaled(c, d * (p.t * q.t), s * (p.z * q.z));
    ImaginaryProducts(p, q, d, s);
    CongSym(c * (d * (p.t * q.t)), c * (s * (p.z * q.z)));
    CongTrans((q.z * q.z) * (s * (p.x * p.y)), c * (s * (p.z * q.z)), c * (d * (p.t * q.t)));
    CongSym((d * (p.t * p.t)) * (q.x * q.y), c * (d * (p.t * q.t)));
    CongTrans((q.z * q.z) * (s * (p.x * p.y)), c * (d * (p.t * q.t)), (d * (p.t * p.t)) * (q.x * q.y));
  }

  lemma ImaginaryProducts(p: Coords, q: Coords, d: int, s: int)
    ensures ((q.z * q.z) * s) * (p.x * p.y) == (q.z * q.z) * (s * (p.x * p.y))
    ensures ((q.z * q.z) * s) * (p.z * p.t) == (q.z * p.t) * (s * (p.z * q.z))
    ensures (d * (p.t * p.t)) * (q.z * q.t) == (q.z * p.t) * (d * (p.t * q.t))
  {
    MoveOut(q.z, q.z, s, p.z, p.t);
    MoveOut2(d, p.t, p.t, q.z, q.t);
  }

  lemma MoveOut(a: int, b: int, s: int, c: int, e: int)
    ensures ((a * b) * s) * (c * e) == (a * e) * (s * (c * b))
  {
    assert ((a * b) * s) * (c * e) == s * ((a * b) * (c * e));
    Regroup(a, c, e, b);
    Interchange(a, b, e, c);
    assert (a * b) * (c * e) == (a * e) * (c * b);
    Rotate(s, a * e, c * b);
  }

  lemma MoveOut2(d: int, a: int, b: int, c: int, e: int)
    ensures (d * (a * b)) * (c * e) == (c * a) * (d * (b * e))
  {
    assert (d * (a * b)) * (c * e) == d * ((a * b) * (c * e));
    Interchange(a, b, c, e);
    Rotate(d, a * c, b * e);
  }

  /** z2 (y1 + s i x1) is a root of d (t1 (y2 + i x2))^2, for i i = -1 and s = 1 or s = -1. */
  lemma RootOfD(p: Coords, q: Coords, d: int, i: int, s: int)
    requires IsPoint(p, d) && IsPoint(q, d) && Cong(i * i, -1) && (s == 1 || s == -1)
    requires Cong(d * (p.t * q.t), s * (p.z * q.z))
    ensures IsSquareTimes(q.z * (p.y + (s * i) * p.x), d, p.t * (q.y + i * q.x))
  {
    hide Cong;
    var u, v := p.z * q.z, d * (p.t * q.t);
    CongMul(v, s * u, v, s * u);
    assert (s * u) * (s * u) == u * u;
    CongSym(v * v, u * u);
    RealParts(p, q, d);
    ImaginaryParts(p, q, d, s);
    assert (s * i) * (s * i) == i * i;
    ComplexSquare(s * i, p.x, p.y);
    ComplexSquare(i, q.x, q.y);
    RootEquation(q.z, p.t, p.y * p.y - p.x * p.x, q.y * q.y - q.x * q.x, p.x * p.y, q.x * q.y, p.y + (s * i) * p.x,
      q.y + i * q.x, d, i, s);
  }

  lemma RootEquation(z: int, t: int, u: int, v: int, m: int, n: int, f: int, g: int, d: int, i: int, s: int)
    requires Cong((z * z) * u, (d * (t * t)) * v) && Cong((z * z) * (s * m), (d * (t * t)) * n)
    requires Cong(f * f, u + (2 * (s * i)) * m) && Cong(g * g, v + (2 * i) * n)
    ensures Cong((z * f) * (z * f), d * ((t * g) * (t * g)))
  {
    hide Cong;
    var k, l := z * z, d * (t * t);
    CongScaled(k, f * f, u + (2 * (s * i)) * m);
    CongScaled(l, g * g, v + (2 * i) * n);
    CongScaled(2 * i, k * (s * m), l * n);
    CongAdd(k * u, l * v, (2 * i) * (k * (s * m)), (2 * i) * (l * n));
    Spread(k, u, i, s, m);
    Rotate(l, 2 * i, n);
    assert l * (v + (2 * i) * n) == l * v + l * ((2 * i) * n);
    Interchange(z, f, z, f);
    Interchange(t, g, t, g);
    assert d * ((t * t) * (g * g)) == l * (g * g);
    CongTrans(k * (f * f), k * u + (2 * i) * (k * (s * m)), l * v + (2 * i) * (l * n));
    CongSym(l * (g * g), l * v + (2 * i) * (l * n));
    CongTrans(k * (f * f), l * v + (2 * i) * (l * n), l * (g * g));
  }

  lemma Spread(k: int, u: int, i: int, s: int, m: int)
    ensures k * (u + (2 * (s * i)) * m) == k * u + (2 * i) * (k * (s * m))
  {
    assert (2 * (s * i)) * m == (2 * i) * (s * m) by {
      assert (s * i) * m == i * (s * m);
    }
    Rotate(k, 2 * i, s * m);
    assert k * (u + (2 * i) * (s * m)) == k * u + k * ((2 * i) * (s * m));
  }

  // ----- completeness -----

  /** No product of coordinates t makes d t1 t2 equal to z1 z2 or its negative. */
  lemma NeverEqual(p: Coords, q: Coords, d: int, i: int, s: int)
    requires NoZeroDivisors() && NonSquare(d) && IsFinite(p, d) && IsFinite(q, d) && Cong(i * i, -1)
    requires s == 1 || s == -1
    ensures !Cong(d * (p.t * q.t), s * (p.z * q.z))
  {
    hide Cong, IsZero, NoZeroDivisors, IsSquareTimes, IsPoint;
    if Cong(d * (p.t * q.t), s * (p.z * q.z)) {
      RootOfD(p, q, d, i, s);
      assert -i * -i == i * i;
      RootOfD(p, q, d, -i, s);
      ZeroFactor(p.t, q.y + i * q.x);
      ZeroFactor(p.t, q.y + -i * q.x);
      if IsZero(p.t) {
        ZeroT(p, q, d, s);
      } else {
        BothZero(q, d, i);
      }
    }
  }

  lemma ZeroT(p: Coords, q: Coords, d: int, s: int)
    requires NoZeroDivisors() && IsZero(p.t) && Cong(d * (p.t * q.t), s * (p.z * q.z)) && (s == 1 || s == -1)
    ensures IsZero(p.z) || IsZero(q.z)
  {
    hide Cong, NoZeroDivisors;
    ZeroTimes(p.t, d * q.t);
    assert (d * q.t) * p.t == d * (p.t * q.t);
    CongSym(d * (p.t * q.t), s * (p.z * q.z));
    ZeroCong(s * (p.z * q.z), d * (p.t * q.t));
    ZeroTimes(s * (p.z * q.z), s);
    assert s * (s * (p.z * q.z)) == p.z * q.z;
    ZeroFactor(p.z, q.z);
  }

  lemma BothZero(q: Coords, d: int, i: int)
    requires NoZeroDivisors() && IsPoint(q, d) && Cong(i * i, -1)
    requires IsZero(q.y + i * q.x) && IsZero(q.y + -i * q.x)
    ensures IsZero(q.z)
  {
    hide Cong, NoZeroDivisors;
    ZeroSum(q.y + i * q.x, q.y + -i * q.x);
    assert q.y + -i * q.x == q.y - i * q.x;
    TwoNotZero();
    ZeroFactor(2, q.y);
    ZeroFactor(2, i * q.x);
    XIsZero(q.x, i);
    ZIsZero(q, d);
  }

  lemma XIsZero(x: int, i: int)
    requires IsZero(i * x) && Cong(i * i, -1)
    ensures IsZero(x)
  {
    hide Cong;
    ZeroTimes(i * x, i);
    assert i * (i * x) == x * (i * i);
    CongScaled(x, i * i, -1);
    CongSym(x * (i * i), x * -1);
    ZeroCong(-x, x * (i * i));
    ZeroTimes(-x, -1);
  }

  lemma ZIsZero(q: Coords, d: int)
    requires NoZeroDivisors() && IsPoint(q, d) && IsZero(q.x) && IsZero(q.y)
    ensures IsZero(q.z)
  {
    hide Cong, NoZeroDivisors;
    ZeroTimes(q.y, q.x);
    CongSym(q.x * q.y, q.z * q.t);
    ZeroCong(q.z * q.t, q.x * q.y);
    ZeroFactor(q.z, q.t);
    if IsZero(q.t) {
      ZeroTimes(q.y, q.y);
      ZeroTimes(q.x, q.x);
      ZeroSum(q.y * q.y, q.x * q.x);
      CongSym(q.y * q.y - q.x * q.x, q.z * q.z + d * (q.t * q.t));
      ZeroCong(q.z * q.z + d * (q.t * q.t), q.y * q.y - q.x * q.x);
      ZeroTimes(q.t, d * q.t);
      assert (d * q.t) * q.t == d * (q.t * q.t);
      ZeroSum(q.z * q.z + d * (q.t * q.t), d * (q.t * q.t));
      ZeroFactor(q.z, q.z);
    }
  }

  /** The sum of two points has a denominator and lies on the curve. */
  lemma AdditionComplete(p: Coords, q: Coords, d: int, i: int)
    requires NoZeroDivisors() && NonSquare(d) && Cong(i * i, -1) && IsFinite(p, d) && IsFinite(q, d)
    ensures IsFinite(Converted(SumOf(p, q, d)), d)
  {
    hide Cong, IsZero, NoZeroDivisors, NonSquare, IsPoint;
    AdditionClosed(p, q, d);
    NeverEqual(p, q, d, i, 1);
    NeverEqual(p, q, d, i, -1);
    var u, v := p.z * q.z, d * (p.t * q.t);
    if IsZero((2 * u + 2 * v) * (2 * u - 2 * v)) {
      ZeroDenominator(u, v);
    }
  }

  lemma ZeroDenominator(u: int, v: int)
    requires NoZeroDivisors() && IsZero((2 * u + 2 * v) * (2 * u - 2 * v))
    ensures Cong(v, 1 * u) || Cong(v, -1 * u)
  {
    hide Cong, NoZeroDivisors;
    ZeroFactor(2 * u + 2 * v, 2 * u - 2 * v);
    TwoNotZero();
    if IsZero(2 * u + 2 * v) {
      ZeroFactor(2, u + v);
      DifferenceZero(v, -u);
    } else {
      ZeroFactor(2, u - v);
      ZeroTimes(u - v, -1);
      DifferenceZero(v, u);
    }
  }

  /** The double of a point has a denominator and lies on the curve. */
  lemma DoublingComplete(p: Coords, d: int, i: int)
    requires NoZeroDivisors() && NonSquare(d) && Cong(i * i, -1) && IsFinite(p, d)
    ensures IsFinite(Converted(DoubleOf(p)), d)
  {
    hide Cong, IsZero, NoZeroDivisors, NonSquare, IsPoint;
    PlaneCurve(p, d);
    DoublingClosed(p, d);
    NeverEqual(p, p, d, i, 1);
    NeverEqual(p, p, d, i, -1);
    var m, u, v := p.y * p.y - p.x * p.x, p.z * p.z, d * (p.t * p.t);
    CurveOfPoint(p, d);
    if IsZero(m * (2 * u - m)) {
      ZeroDouble(m, u, v);
    }
  }

  lemma CurveOfPoint(p: Coords, d: int)
    requires IsPoint(p, d)
    ensures OnCurve(p, d)
  {
  }

  lemma ZeroDouble(m: int, u: int, v: int)
    requires NoZeroDivisors() && IsZero(m * (2 * u - m)) && Cong(m, u + v)
    ensures Cong(v, 1 * u) || Cong(v, -1 * u)
  {
    hide Cong, NoZeroDivisors;
    ZeroFactor(m, 2 * u - m);
    CongSym(m, u + v);
    if IsZero(m) {
      ZeroCong(u + v, m);
      DifferenceZero(v, -u);
    } else {
      DifferenceZero(u + v, m);
      ZeroSum(2 * u - m, u + v - m);
      ZeroTimes(u - v, -1);
      DifferenceZero(v, u);
    }
  }

  // ----- what the program does with points -----

  /** The curve is over a field in which d is not a square. */
  ghost predicate GoodCurve(d: int) {
    NoZeroDivisors() && NonSquare(d)
  }

  /** The curve of the program is good when p is prime. */
  lemma ProgramCurve()
    requires IsPrime(P)
    ensures GoodCurve(Val(D_LIMBS))
  {
    hide IsPrime, NoZeroDivisors, NonSquare, Val, D_LIMBS;
    PrimeHasNoZeroDivisors();
    DIsNoSquare();
  }

  lemma SumOfPoints(n: Coords, c: Coords, d: int)
    requires GoodCurve(d) && IsFinite(n, d) && IsFinite(c, d)
    ensures var s := Converted(SumOf(n, c, d)); IsFinite(s, d) && SumLaw(s, n, c, d)
  {
    hide Cong, Val, SQRTM1_LIMBS, SumLaw, NoZeroDivisors, NonSquare, Extended, OnCurve;
    RootOfMinusOne();
    AdditionComplete(n, c, d, Val(SQRTM1_LIMBS));
    AdditionLaw(n, c, d);
  }

  lemma DoubleOfPoint(n: Coords, d: int)
    requires GoodCurve(d) && IsFinite(n, d)
    ensures var s := Converted(DoubleOf(n)); IsFinite(s, d) && SumLaw(s, n, n, d)
  {
    hide Cong, Val, SQRTM1_LIMBS, SumLaw, NoZeroDivisors, NonSquare, Extended, OnCurve, OnPlaneCurve;
    RootOfMinusOne();
    DoublingComplete(n, d, Val(SQRTM1_LIMBS));
    PlaneCurve(n, d);
    DoublingLaw(n, d);
  }

  lemma MinusFinite(c: Coords, d: int)
    requires IsFinite(c, d)
    ensures IsFinite(Minus(c), d)
  {
    hide IsPoint, IsZero;
    MinusPoint(c, d);
  }

  /** ge_add, and then ge_p1p1_to_p3: s holds the sum, again a point of the curve. It may take the place of p. */
  method AddCached(s: P3, p: P3, q: Cached, ghost n: Coords, ghost c: Coords, ghost d: int) returns (ghost m: Coords)
    requires p.Holds(n, CARRIED) && q.Holds(c, d)
    modifies s
    ensures s.Holds(m, OUT) && s.Holds(m, CARRIED)
    ensures GoodCurve(d) && IsFinite(n, d) && IsFinite(c, d) ==> IsFinite(m, d) && SumLaw(m, n, c, d)
  {
    hide IsFinite, Rep, SumLaw, GoodCurve;
    var t := new P1p1();
    GeAdd(t, p, q, n, c, d);
    GeP1p1ToP3(s, t, SumOf(n, c, d));
    m := Converted(SumOf(n, c, d));
    P3Operand(s, m);
    if GoodCurve(d) && IsFinite(n, d) && IsFinite(c, d) {
      SumOfPoints(n, c, d);
    }
  }

  /** ge_madd, and then ge_p1p1_to_p3. */
  method AddTable(s: P3, p: P3, q: Precomp, ghost n: Coords, ghost c: Coords, ghost d: int) returns (ghost m: Coords)
    requires p.Holds(n, CARRIED) && q.Holds(c, d)
    modifies s
    ensures s.Holds(m, OUT) && s.Holds(m, CARRIED)
    ensures GoodCurve(d) && IsFinite(n, d) && IsFinite(c, d) ==> IsFinite(m, d) && SumLaw(m, n, c, d)
  {
    hide IsFinite, Rep, SumLaw, GoodCurve;
    var t := new P1p1();
    GeMadd(t, p, q, n, c, d);
    GeP1p1ToP3(s, t, SumOf(n, c, d));
    m := Converted(SumOf(n, c, d));
    P3Operand(s, m);
    if GoodCurve(d) && IsFinite(n, d) && IsFinite(c, d) {
      SumOfPoints(n, c, d);
    }
  }

  /** ge_sub, and then ge_p1p1_to_p3: the sum with the negated point. */
  method SubCached(s: P3, p: P3, q: Cached, ghost n: Coords, ghost c: Coords, ghost d: int) returns (ghost m: Coords)
    requires p.Holds(n, CARRIED) && q.Holds(c, d)
    modifies s
    ensures s.Holds(m, OUT) && s.Holds(m, CARRIED)
    ensures GoodCurve(d) && IsFinite(n, d) && IsFinite(c, d) ==> IsFinite(m, d) && SumLaw(m, n, Minus(c), d)
  {
    hide IsFinite, Rep, SumLaw, GoodCurve;
    var t := new P1p1();
    GeSub(t, p, q, n, c, d);
    GeP1p1ToP3(s, t, SumOf(n, Minus(c), d));
    m := Converted(SumOf(n, Minus(c), d));
    P3Operand(s, m);
    if GoodCurve(d) && IsFinite(n, d) && IsFinite(c, d) {
      MinusFinite(c, d);
      SumOfPoints(n, Minus(c), d);
    }
  }

  /** ge_msub, and then ge_p1p1_to_p3. */
  method SubTable(s: P3, p: P3, q: Precomp, ghost n: Coords, ghost c: Coords, ghost d: int) returns (ghost m: Coords)
    requires p.Holds(n, CARRIED) && q.Holds(c, d)
    modifies s
    ensures s.Holds(m, OUT) && s.Holds(m, CARRIED)
    ensures GoodCurve(d) && IsFinite(n, d) && IsFinite(c, d) ==> IsFinite(m, d) && SumLaw(m, n, Minus(c), d)
  {
    hide IsFinite, Rep, SumLaw, GoodCurve;
    var t := new P1p1();
    GeMsub(t, p, q, n, c, d);
    GeP1p1ToP3(s, t, SumOf(n, Minus(c), d));
    m := Converted(SumOf(n, Minus(c), d));
    P3Operand(s, m);
    if GoodCurve(d) && IsFinite(n, d) && IsFinite(c, d) {
      MinusFinite(c, d);
      SumOfPoints(n, Minus(c), d);
    }
  }

  /** ge_p3_dbl, and then ge_p1p1_to_p3: the sum of the point with itself. */
  method DoublePoint(s: P3, p: P3, ghost n: Coords, ghost d: int) returns (ghost m: Coords)
    requires p.Holds(n, CARRIED)
    modifies s
    ensures s.Holds(m, OUT) && s.Holds(m, CARRIED)
    ensures GoodCurve(d) && IsFinite(n, d) ==> IsFinite(m, d) && SumLaw(m, n, n, d)
  {
    hide IsFinite, Rep, SumLaw, GoodCurve;
    var t := new P1p1();
    GeP3Dbl(t, p, n);
    GeP1p1ToP3(s, t, DoubleOf(n));
    m := Converted(DoubleOf(n));
    P3Operand(s, m);
    if GoodCurve(d) && IsFinite(n, d) {
      DoubleOfPoint(n, d);
    }
  }
}
