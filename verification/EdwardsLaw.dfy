/** The formulas compute the sum and the double of section 5.1.4 of RFC 8032, and stay on the curve. */
module EdwardsLaw {
  import opened Arith
  import opened Field25519
  import opened FieldMul
  import opened FieldOps
  import opened Edwards

  /** x y = z t, as extended coordinates require. */
  ghost predicate Extended(p: Coords) {
    Cong(p.x * p.y, p.z * p.t)
  }

  /** The curve equation -x^2 + y^2 = 1 + d x^2 y^2 in extended coordinates, multiplied by Z^2. */
  ghost predicate OnCurve(p: Coords, d: int) {
    Cong(p.y * p.y - p.x * p.x, p.z * p.z + d * (p.t * p.t))
  }

  /** The curve equation without T, multiplied by Z^4. */
  ghost predicate OnPlaneCurve(p: Coords, d: int) {
    var u := p.z * p.z;
    Cong((p.y * p.y - p.x * p.x) * u, u * u + d * ((p.x * p.y) * (p.x * p.y)))
  }

  ghost predicate IsPoint(p: Coords, d: int) {
    Extended(p) && OnCurve(p, d)
  }

  /** s is the sum of p and q: with x = X / Z and y = Y / Z, the two equations
      x3 (1 + d x1 x2 y1 y2) = x1 y2 + x2 y1 and y3 (1 - d x1 x2 y1 y2) = y1 y2 + x1 x2,
      multiplied by all denominators. */
  ghost predicate SumLaw(s: Coords, p: Coords, q: Coords, d: int) {
    var u := p.z * q.z;
    var e := d * ((p.x * p.y) * (q.x * q.y));
    && Cong(s.x * (u * u + e), s.z * ((p.x * q.y + q.x * p.y) * u))
    && Cong(s.y * (u * u - e), s.z * ((p.y * q.y + p.x * q.x) * u))
  }

  // ----- rules -----

  /** What conversion gives is in extended coordinates. */
  lemma ConvertedExtended(r: Coords)
    ensures Extended(Converted(r))
  {
    hide Cong;
    Regroup(r.x, r.y, r.z, r.t);
    CongRefl((r.x * r.t) * (r.y * r.z));
  }

  /** d x1 y1 x2 y2 = (z1 z2) (d t1 t2), because both points are extended. */
  lemma CrossTerm(p: Coords, q: Coords, d: int)
    requires Extended(p) && Extended(q)
    ensures Cong(d * ((p.x * p.y) * (q.x * q.y)), (p.z * q.z) * (d * (p.t * q.t)))
  {
    hide Cong;
    CongMul(p.x * p.y, p.z * p.t, q.x * q.y, q.z * q.t);
    CongScaled(d, (p.x * p.y) * (q.x * q.y), (p.z * p.t) * (q.z * q.t));
    Interchange(p.z, p.t, q.z, q.t);
    Rotate(d, p.z * q.z, p.t * q.t);
  }

  // ----- the addition law -----

  /** ((2 a) m) (u w) == (m (2 w)) (a u) */
  lemma FactorOne(a: int, m: int, u: int, w: int)
    ensures ((2 * a) * m) * (u * w) == (m * (2 * w)) * (a * u)
  {
    Regroup(2 * a, u, w, m);
    assert ((2 * a) * m) * (u * w) == (w * m) * ((2 * a) * u);
    assert (2 * a) * u == 2 * (a * u);
    assert (w * m) * (2 * (a * u)) == (m * (2 * w)) * (a * u);
  }

  /** One equation of the law, for numerator 2 a and denominators 2 u + 2 v and 2 u - 2 v. */
  lemma Equation(a: int, u: int, v: int, e: int)
    requires Cong(e, u * v)
    ensures Cong(((2 * a) * (2 * u - 2 * v)) * (u * u + e), ((2 * u + 2 * v) * (2 * u - 2 * v)) * (a * u))
  {
    hide Cong;
    var m := 2 * u - 2 * v;
    CongRefl(u * u);
    CongAdd(u * u, u * u, e, u * v);
    CongScaled((2 * a) * m, u * u + e, u * u + u * v);
    assert u * u + u * v == u * (u + v);
    FactorOne(a, m, u, u + v);
    assert m * (2 * (u + v)) == (2 * u + 2 * v) * m;
  }

  /** The completed sum, converted, is the sum in extended coordinates. */
  lemma AdditionLaw(p: Coords, q: Coords, d: int)
    requires Extended(p) && Extended(q)
    ensures var s := Converted(SumOf(p, q, d)); SumLaw(s, p, q, d) && Extended(s)
  {
    hide Cong, Extended;
    var u, v := p.z * q.z, d * (p.t * q.t);
    var e := d * ((p.x * p.y) * (q.x * q.y));
    ConvertedExtended(SumOf(p, q, d));
    CrossTerm(p, q, d);
    Equation(p.x * q.y + q.x * p.y, u, v, e);
    OtherEquation(p.y * q.y + p.x * q.x, u, v, e);
  }

  lemma OtherEquation(b: int, u: int, v: int, e: int)
    requires Cong(e, u * v)
    ensures Cong(((2 * b) * (2 * u + 2 * v)) * (u * u - e), ((2 * u + 2 * v) * (2 * u - 2 * v)) * (b * u))
  {
    hide Cong;
    CongRefl(0);
    CongAdd(0, 0, e, u * v);
    assert u * -v == -(u * v);
    Equation(b, u, -v, -e);
    assert (2 * u + 2 * -v) * (2 * u - 2 * -v) == (2 * u + 2 * v) * (2 * u - 2 * v);
  }

  // ----- sums stay on the curve -----

  /** x1 y1 = z1 t1 squared and times d. */
  lemma SquaredTerm(p: Coords, d: int)
    requires Extended(p)
    ensures Cong(d * ((p.x * p.y) * (p.x * p.y)), (p.z * p.z) * (d * (p.t * p.t)))
  {
    hide Extended;
    CrossTerm(p, p, d);
  }

  /** With the numerators A = x1 y2 + x2 y1 and B = y1 y2 + x1 x2: their squares and product by the
      points' own products P, Q, sums of squares S, T and differences of squares U, V. */
  lemma Numerators(x1: int, y1: int, x2: int, y2: int)
    ensures var a, b := x1 * y2 + x2 * y1, y1 * y2 + x1 * x2;
      && b * b - a * a == (y1 * y1 - x1 * x1) * (y2 * y2 - x2 * x2)
      && b * b + a * a == (y1 * y1 + x1 * x1) * (y2 * y2 + x2 * x2) + 4 * ((x1 * y1) * (x2 * y2))
      && a * b == (x1 * y1) * (y2 * y2 + x2 * x2) + (x2 * y2) * (y1 * y1 + x1 * x1)
  {
    Squares(x1, y1, x2, y2);
    Squares(y1, x1, x2, y2);
    Product(x1, y1, x2, y2);
    Distribute(y1 * y1, x1 * x1, y2 * y2, x2 * x2);
  }

  lemma Squares(x1: int, y1: int, x2: int, y2: int)
    ensures (x1 * y2 + x2 * y1) * (x1 * y2 + x2 * y1)
         == (x1 * x1) * (y2 * y2) + (x2 * x2) * (y1 * y1) + 2 * ((x1 * y1) * (x2 * y2))
  {
    var m, n := x1 * y2, x2 * y1;
    assert (m + n) * (m + n) == m * m + n * n + 2 * (m * n);
    Interchange(x1, y2, x1, y2);
    Interchange(x2, y1, x2, y1);
    Regroup(x1, x2, y1, y2);
    assert m * n == (y1 * y2) * (x1 * x2);
    Interchange(x1, y1, x2, y2);
    assert (x1 * y1) * (x2 * y2) == (x1 * x2) * (y1 * y2);
  }

  lemma Product(x1: int, y1: int, x2: int, y2: int)
    ensures (x1 * y2 + x2 * y1) * (y1 * y2 + x1 * x2)
         == (x1 * y1) * (y2 * y2 + x2 * x2) + (x2 * y2) * (y1 * y1 + x1 * x1)
  {
    Distribute(x1 * y2, x2 * y1, y1 * y2, x1 * x2);
    Interchange(x1, y2, y1, y2);
    Interchange(x1, y2, x1, x2);
    Interchange(x2, y1, y1, y2);
    Interchange(x2, y1, x1, x2);
    FourProducts(x1, y1, x2, y2);
  }

  lemma FourProducts(x1: int, y1: int, x2: int, y2: int)
    ensures (x1 * x1) * (y2 * x2) == (x2 * y2) * (x1 * x1) && (x2 * y1) * (y1 * y2) == (x2 * y2) * (y1 * y1)
    ensures (x2 * y1) * (x1 * x2) == (x1 * y1) * (x2 * x2)
    ensures (x1 * y1) * (y2 * y2 + x2 * x2) == (x1 * y1) * (y2 * y2) + (x1 * y1) * (x2 * x2)
    ensures (x2 * y2) * (y1 * y1 + x1 * x1) == (x2 * y2) * (y1 * y1) + (x2 * y2) * (x1 * x1)
  {
    Regroup(x2, y1, y2, y1);
    Interchange(y1, x2, x1, x2);
  }

  lemma Distribute(a: int, b: int, c: int, e: int)
    ensures (a + b) * (c + e) == a * c + a * e + b * c + b * e
    ensures (a - b) * (c - e) == a * c - a * e - b * c + b * e
  {
    assert (a + b) * (c + e) == a * (c + e) + b * (c + e);
    assert (a - b) * (c - e) == a * (c - e) - b * (c - e);
  }

  /** d times the square of P T + Q S, when d P P, d Q Q and d P Q are known. */
  lemma ProductTerm(d: int, p: int, q: int, s: int, t: int, mn: int, kl: int, w: int)
    requires Cong(d * (p * p), mn) && Cong(d * (q * q), kl) && Cong(d * (p * q), w)
    ensures Cong(d * ((p * t + q * s) * (p * t + q * s)), mn * (t * t) + 2 * (w * (s * t)) + kl * (s * s))
  {
    hide Cong;
    CongScaled(t * t, d * (p * p), mn);
    CongScaled(s * s, d * (q * q), kl);
    CongScaled(2 * (s * t), d * (p * q), w);
    CongAdd((t * t) * (d * (p * p)), (t * t) * mn, (2 * (s * t)) * (d * (p * q)), (2 * (s * t)) * w);
    CongAdd((t * t) * (d * (p * p)) + (2 * (s * t)) * (d * (p * q)), (t * t) * mn + (2 * (s * t)) * w,
      (s * s) * (d * (q * q)), (s * s) * kl);
    SquareOfTwo(p, t, q, s);
    ThreeTerms(d, p * p, t * t, p * q, s * t, q * q, s * s);
    assert (2 * (s * t)) * w == 2 * (w * (s * t));
  }

  lemma SquareOfTwo(p: int, t: int, q: int, s: int)
    ensures (p * t + q * s) * (p * t + q * s) == (p * p) * (t * t) + 2 * ((p * q) * (s * t)) + (q * q) * (s * s)
  {
    var m, n := p * t, q * s;
    assert (m + n) * (m + n) == m * m + 2 * (m * n) + n * n;
    Interchange(p, t, p, t);
    Interchange(q, s, q, s);
    Interchange(p, t, q, s);
  }

  lemma ThreeTerms(d: int, a: int, b: int, c: int, e: int, f: int, g: int)
    ensures d * (a * b + 2 * (c * e) + f * g) == b * (d * a) + (2 * e) * (d * c) + g * (d * f)
  {
    assert d * (a * b + 2 * (c * e) + f * g) == d * (a * b) + 2 * (d * (c * e)) + d * (f * g);
    Rotate(d, b, a);
    Rotate(d, e, c);
    Rotate(d, g, f);
  }

  /** d P P Q Q, in two ways. */
  lemma MixedTerm(d: int, p: int, q: int, mn: int, w: int)
    requires Cong(d * (p * p), mn) && Cong(d * (p * q), w)
    ensures Cong(mn * (q * q), w * (p * q))
  {
    hide Cong;
    CongScaled(q * q, d * (p * p), mn);
    CongScaled(p * q, d * (p * q), w);
    Rotate(q * q, d, p * p);
    Rotate(p * q, d, p * q);
    Interchange(p, p, q, q);
    CongSym((q * q) * (d * (p * p)), (q * q) * mn);
    CongTrans(mn * (q * q), (q * q) * (d * (p * p)), w * (p * q));
  }

  lemma ThreeScaled(r: int, x: int, x': int, a: int, y: int, y': int, b: int, z: int, z': int)
    requires Cong(x, x') && Cong(y, y') && Cong(z, z')
    ensures Cong(r * x - a * y - b * z, r * x' - a * y' - b * z')
  {
    hide Cong;
    CongScaled(r, x, x');
    CongScaled(a, y, y');
    CongScaled(b, z, z');
    CongAdd(r * x, r * x', a * y, a * y');
    CongAdd(r * x - a * y, r * x' - a * y', b * z, b * z');
  }

  /** The rest of the equation, where U and V are sums m + n and k + l. */
  lemma RestTerm(u: int, v: int, m: int, n: int, k: int, l: int)
    requires Cong(u, m + n) && Cong(v, k + l)
    ensures Cong((m * k + n * l) * (u * v) - (m * n) * (v * v) - (k * l) * (u * u), (m * k - n * l) * (m * k - n * l))
  {
    hide Cong;
    CongMul(u, m + n, v, k + l);
    CongMul(v, k + l, v, k + l);
    CongMul(u, m + n, u, m + n);
    ThreeScaled(m * k + n * l, u * v, (m + n) * (k + l), m * n, v * v, (k + l) * (k + l), k * l, u * u,
      (m + n) * (m + n));
    RestIsSquare(m, n, k, l);
  }

  lemma RestIsSquare(m: int, n: int, k: int, l: int)
    ensures (m * k + n * l) * ((m + n) * (k + l)) - (m * n) * ((k + l) * (k + l)) - (k * l) * ((m + n) * (m + n))
         == (m * k - n * l) * (m * k - n * l)
  {
    var a, b := m * k, n * l;
    var c, e := m * l, n * k;
    Distribute(m, n, k, l);
    assert (m + n) * (k + l) == a + b + c + e;
    CrossSquares(m, n, k, l);
    assert (m * n) * ((k + l) * (k + l)) == e * a + b * c + 2 * (a * b);
    CrossSquares(k, l, m, n);
    assert (k * l) * ((m + n) * (m + n)) == c * a + b * e + 2 * (a * b);
    RestProduct(a, b, c, e);
  }

  lemma RestProduct(a: int, b: int, c: int, e: int)
    ensures (a + b) * (a + b + c + e) - (e * a + b * c + 2 * (a * b)) - (c * a + b * e + 2 * (a * b))
         == (a - b) * (a - b)
  {
    Distribute(a, b, a + b, c + e);
    assert a * (a + b) == a * a + a * b && b * (a + b) == b * a + b * b;
    assert a * (c + e) == a * c + a * e && b * (c + e) == b * c + b * e;
    Distribute(a, b, a, b);
  }

  lemma CrossSquares(m: int, n: int, k: int, l: int)
    ensures (m * n) * ((k + l) * (k + l)) == (n * k) * (m * k) + (n * l) * (m * l) + 2 * ((m * k) * (n * l))
  {
    assert (k + l) * (k + l) == k * k + l * l + 2 * (k * l);
    assert (m * n) * (k * k + l * l + 2 * (k * l)) == (m * n) * (k * k) + (m * n) * (l * l) + 2 * ((m * n) * (k * l));
    Interchange(m, n, k, k);
    Interchange(m, n, l, l);
    Interchange(m, n, k, l);
  }

  /** All terms together; w is u v. */
  lemma Assemble(left: int, right: int, uvr: int, wst: int, wpq: int, mnv: int, mnq: int, klu: int, klp: int, sq: int)
    requires left == uvr + 2 * wst + 8 * wpq && Cong(right, (mnv + 4 * mnq) + 2 * wst + (klu + 4 * klp))
    requires Cong(mnq, wpq) && Cong(klp, wpq) && Cong(uvr - mnv - klu, sq)
    ensures Cong(left, sq + right)
  {
    hide Cong;
    CongAdd(mnq, wpq, klp, wpq);
    CongScaled(4, mnq + klp, 2 * wpq);
    CongRefl(mnv + klu + 2 * wst);
    CongAdd(mnv + klu + 2 * wst, mnv + klu + 2 * wst, 4 * (mnq + klp), 8 * wpq);
    CongTrans(right, mnv + klu + 2 * wst + 4 * (mnq + klp), mnv + klu + 2 * wst + 8 * wpq);
    CongAdd(uvr - mnv - klu, sq, right, mnv + klu + 2 * wst + 8 * wpq);
    CongSym(uvr - mnv - klu + right, sq + mnv + klu + 2 * wst + 8 * wpq);
    CongSym(right, mnv + klu + 2 * wst + 8 * wpq);
    CongAdd(uvr - mnv - klu, sq, mnv + klu + 2 * wst + 8 * wpq, right);
  }

  lemma LeftSplit(a: int, b: int, u: int, v: int)
    ensures b * ((u + v) * (u + v)) - a * ((u - v) * (u - v)) == (b - a) * (u * u + v * v) + (b + a) * (2 * (u * v))
  {
    var s, w := u * u + v * v, 2 * (u * v);
    assert (u + v) * (u + v) == s + w && (u - v) * (u - v) == s - w;
    assert b * (s + w) == b * s + b * w && a * (s - w) == a * s - a * w;
    assert (b - a) * s == b * s - a * s && (b + a) * w == b * w + a * w;
  }

  /** The curve equation for numerators A and B and denominators u + v and u - v. */
  lemma SumEquation(p: Coords, q: Coords, d: int)
    requires IsPoint(p, d) && IsPoint(q, d)
    ensures var a, b := p.x * q.y + q.x * p.y, p.y * q.y + p.x * q.x;
      var u, v := p.z * q.z, d * (p.t * q.t);
      Cong((b * b) * ((u + v) * (u + v)) - (a * a) * ((u - v) * (u - v)),
        (u * u - v * v) * (u * u - v * v) + d * ((a * b) * (a * b)))
  {
    hide Cong;
    var a, b := p.x * q.y + q.x * p.y, p.y * q.y + p.x * q.x;
    var u, v, pp, qq := p.z * q.z, d * (p.t * q.t), p.x * p.y, q.x * q.y;
    var m, n, k, l := p.z * p.z, d * (p.t * p.t), q.z * q.z, d * (q.t * q.t);
    var du, dv, s, t := p.y * p.y - p.x * p.x, q.y * q.y - q.x * q.x, p.y * p.y + p.x * p.x, q.y * q.y + q.x * q.x;
    CrossTerm(p, q, d);
    CrossTerm(q, p, d);
    SquaredTerm(p, d);
    SquaredTerm(q, d);
    Numerators(p.x, p.y, q.x, q.y);
    LeftSplit(a * a, b * b, u, v);
    SquaresAre(p, q, d);
    ProductTerm(d, pp, qq, s, t, m * n, k * l, u * v);
    MixedTerm(d, pp, qq, m * n, u * v);
    SwapSides(p, q, d);
    MixedTerm(d, qq, pp, k * l, u * v);
    RestTerm(du, dv, m, n, k, l);
    SumSquare(p.x, p.y);
    SumSquare(q.x, q.y);
    AssembleSum(a, b, u, v, pp, qq, m, n, k, l, du, dv, s, t, d);
  }

  lemma SwapSides(p: Coords, q: Coords, d: int)
    ensures (q.x * q.y) * (p.x * p.y) == (p.x * p.y) * (q.x * q.y)
    ensures (q.z * p.z) * (d * (q.t * p.t)) == (p.z * q.z) * (d * (p.t * q.t))
  {
  }

  lemma SquaresAre(p: Coords, q: Coords, d: int)
    ensures (p.z * q.z) * (p.z * q.z) == (p.z * p.z) * (q.z * q.z)
    ensures (d * (p.t * q.t)) * (d * (p.t * q.t)) == (d * (p.t * p.t)) * (d * (q.t * q.t))
  {
    Interchange(p.z, q.z, p.z, q.z);
    Interchange(d, p.t * q.t, d, p.t * q.t);
    Interchange(p.t, q.t, p.t, q.t);
    Interchange(d, p.t * p.t, d, q.t * q.t);
  }

  lemma SumSquare(x: int, y: int)
    ensures (y * y + x * x) * (y * y + x * x) == (y * y - x * x) * (y * y - x * x) + 4 * ((x * y) * (x * y))
  {
    var m, n := y * y, x * x;
    assert (m + n) * (m + n) == (m - n) * (m - n) + 4 * (n * m);
    Interchange(x, x, y, y);
  }

  lemma AndFour(m: int, x: int, y: int)
    ensures m * (x + 4 * y) == m * x + 4 * (m * y)
  {
  }

  lemma AssembleSum(a: int, b: int, u: int, v: int, p: int, q: int, m: int, n: int, k: int, l: int, du: int, dv: int,
      s: int, t: int, d: int)
    requires b * b - a * a == du * dv && b * b + a * a == s * t + 4 * (p * q) && a * b == p * t + q * s
    requires u * u == m * k && v * v == n * l
    requires s * s == du * du + 4 * (p * p) && t * t == dv * dv + 4 * (q * q)
    requires (b * b) * ((u + v) * (u + v)) - (a * a) * ((u - v) * (u - v))
          == (b * b - a * a) * (u * u + v * v) + (b * b + a * a) * (2 * (u * v))
    requires Cong(d * ((p * t + q * s) * (p * t + q * s)),
      (m * n) * (t * t) + 2 * ((u * v) * (s * t)) + (k * l) * (s * s))
    requires Cong((m * n) * (q * q), (u * v) * (p * q)) && Cong((k * l) * (p * p), (u * v) * (q * p))
    requires Cong((m * k + n * l) * (du * dv) - (m * n) * (dv * dv) - (k * l) * (du * du),
      (m * k - n * l) * (m * k - n * l))
    ensures Cong((b * b) * ((u + v) * (u + v)) - (a * a) * ((u - v) * (u - v)),
      (u * u - v * v) * (u * u - v * v) + d * ((a * b) * (a * b)))
  {
    hide Cong;
    var w, st, pq, mn, kl := u * v, s * t, p * q, m * n, k * l;
    AndFour(2 * w, st, pq);
    AndFour(mn, dv * dv, q * q);
    AndFour(kl, du * du, p * p);
    Assemble((b * b) * ((u + v) * (u + v)) - (a * a) * ((u - v) * (u - v)), d * ((a * b) * (a * b)),
      (du * dv) * (m * k + n * l), w * st, w * pq, mn * (dv * dv), mn * (q * q), kl * (du * du), kl * (p * p),
      (m * k - n * l) * (m * k - n * l));
  }

  lemma ScaledSquare(a: int, w: int)
    ensures ((2 * a) * (2 * w)) * ((2 * a) * (2 * w)) == 16 * ((a * a) * (w * w))
  {
    Interchange(2 * a, 2 * w, 2 * a, 2 * w);
    assert (2 * a) * (2 * a) == 4 * (a * a) && (2 * w) * (2 * w) == 4 * (w * w);
  }

  /** The sum of two points of the curve lies on the curve. */
  lemma AdditionClosed(p: Coords, q: Coords, d: int)
    requires IsPoint(p, d) && IsPoint(q, d)
    ensures IsPoint(Converted(SumOf(p, q, d)), d)
  {
    hide Cong;
    var a, b := p.x * q.y + q.x * p.y, p.y * q.y + p.x * q.x;
    var u, v := p.z * q.z, d * (p.t * q.t);
    ConvertedExtended(SumOf(p, q, d));
    SumEquation(p, q, d);
    ScaledSum(a, b, u, v, d);
  }

  lemma ScaledSum(a: int, b: int, u: int, v: int, d: int)
    requires Cong((b * b) * ((u + v) * (u + v)) - (a * a) * ((u - v) * (u - v)),
      (u * u - v * v) * (u * u - v * v) + d * ((a * b) * (a * b)))
    ensures OnCurve(Converted(Coords(2 * a, 2 * b, 2 * u + 2 * v, 2 * u - 2 * v)), d)
  {
    hide Cong;
    ScaledSquare(b, u + v);
    ScaledSquare(a, u - v);
    ScaledSquare(u + v, u - v);
    ScaledSquare(a, b);
    Interchange(u + v, u - v, u + v, u - v);
    assert (u + v) * (u - v) == u * u - v * v;
    Interchange(a, b, a, b);
    CongScaled(16, (b * b) * ((u + v) * (u + v)) - (a * a) * ((u - v) * (u - v)),
      (u * u - v * v) * (u * u - v * v) + d * ((a * b) * (a * b)));
    Rotate(d, 16, (a * b) * (a * b));
  }

  // ----- doubling -----

  /** Points of the curve satisfy the equation without T. */
  lemma PlaneCurve(p: Coords, d: int)
    requires IsPoint(p, d)
    ensures OnPlaneCurve(p, d)
  {
    hide Cong, Extended;
    SquaredTerm(p, d);
    PlaneEquation(p.y * p.y - p.x * p.x, p.z * p.z, d * (p.t * p.t), d * ((p.x * p.y) * (p.x * p.y)));
  }

  lemma PlaneEquation(m: int, u: int, n: int, e: int)
    requires Cong(m, u + n) && Cong(e, u * n)
    ensures Cong(m * u, u * u + e)
  {
    hide Cong;
    CongScaled(u, m, u + n);
    CongSym(e, u * n);
    CongRefl(u * u);
    CongAdd(u * u, u * u, u * n, e);
    assert u * (u + n) == u * u + u * n;
    CongTrans(u * m, u * u + u * n, u * u + e);
  }

  /** Both equations of a double: the numerators are a and b, m is y^2 - x^2 and k is 2 z^2 - m. */
  lemma DoubleEquations(a: int, b: int, m: int, u: int, e: int)
    requires Cong(m * u, u * u + e)
    ensures Cong((a * (2 * u - m)) * (u * u + e), (m * (2 * u - m)) * (a * u))
    ensures Cong((b * m) * (u * u - e), (m * (2 * u - m)) * (b * u))
  {
    hide Cong;
    var k := 2 * u - m;
    CongSym(m * u, u * u + e);
    CongScaled(a * k, u * u + e, m * u);
    CongRefl(2 * (u * u));
    CongAdd(2 * (u * u), 2 * (u * u), u * u + e, m * u);
    CongScaled(b * m, u * u - e, 2 * (u * u) - m * u);
    assert 2 * (u * u) - m * u == u * k;
    assert m * u == u * m;
    Interchange(a, k, u, m);
    assert (a * u) * (k * m) == (m * k) * (a * u);
    Interchange(b, m, u, k);
    assert (b * u) * (m * k) == (m * k) * (b * u);
  }

  /** The completed double, converted, is the sum of the point with itself, in extended coordinates. */
  lemma DoublingLaw(p: Coords, d: int)
    requires OnPlaneCurve(p, d)
    ensures var s := Converted(DoubleOf(p)); SumLaw(s, p, p, d) && Extended(s)
  {
    hide Cong, Extended;
    ConvertedExtended(DoubleOf(p));
    DoubleEquations(2 * (p.x * p.y), p.y * p.y + p.x * p.x, p.y * p.y - p.x * p.x, p.z * p.z,
      d * ((p.x * p.y) * (p.x * p.y)));
  }

  /** The double of a point of the curve lies on the curve. */
  lemma DoublingClosed(p: Coords, d: int)
    requires OnPlaneCurve(p, d)
    ensures IsPoint(Converted(DoubleOf(p)), d)
  {
    hide Cong;
    var m, u := p.y * p.y - p.x * p.x, p.z * p.z;
    ConvertedExtended(DoubleOf(p));
    SumSquare(p.x, p.y);
    DoubleEquation(p.x * p.y, p.y * p.y + p.x * p.x, m, u, d);
  }

  lemma DoubleEquation(q: int, s: int, m: int, u: int, d: int)
    requires s * s == m * m + 4 * (q * q) && Cong(m * u, u * u + d * (q * q))
    ensures var k := 2 * u - m;
      Cong((s * m) * (s * m) - ((2 * q) * k) * ((2 * q) * k), (m * k) * (m * k) + d * (((2 * q) * s) * ((2 * q) * s)))
  {
    hide Cong;
    var k, f, e := 2 * u - m, s * s, d * (q * q);
    CongScaled(4 * f, m * u, u * u + e);
    var rest := (m * k) * (m * k) + d * (((2 * q) * s) * ((2 * q) * s)) - (4 * f) * (u * u + e);
    CongRefl(rest);
    CongAdd((4 * f) * (m * u), (4 * f) * (u * u + e), rest, rest);
    DoubleDifference(q, s, m, u, d);
  }

  lemma DoubleDifference(q: int, s: int, m: int, u: int, d: int)
    requires s * s == m * m + 4 * (q * q)
    ensures var k := 2 * u - m;
      (s * m) * (s * m) - ((2 * q) * k) * ((2 * q) * k) - (m * k) * (m * k) - d * (((2 * q) * s) * ((2 * q) * s))
      == (4 * (s * s)) * (m * u) - (4 * (s * s)) * (u * u + d * (q * q))
  {
    var k := 2 * u - m;
    Interchange(s, m, s, m);
    Interchange(2 * q, k, 2 * q, k);
    Interchange(m, k, m, k);
    Interchange(2 * q, s, 2 * q, s);
    assert (2 * q) * (2 * q) == 4 * (q * q);
    assert k * k == m * m - 4 * (m * u) + 4 * (u * u);
    WithSquares(s * s, q * q, m * m, m * u, u * u, k * k, d);
  }

  lemma WithSquares(f: int, g: int, mm: int, mu: int, uu: int, kk: int, d: int)
    requires f == mm + 4 * g && kk == mm - 4 * mu + 4 * uu
    ensures f * mm - (4 * g) * kk - mm * kk - d * ((4 * g) * f) == (4 * f) * mu - (4 * f) * (uu + d * g)
  {
    assert (4 * g + mm) * kk == (4 * g) * kk + mm * kk;
    assert f * mm - f * kk == f * (mm - kk);
    assert f * (4 * mu - 4 * uu) == (4 * f) * mu - (4 * f) * uu;
    Rotate(d, 4 * g, f);
    FourTimes(d, g, f);
  }

  lemma FourTimes(d: int, g: int, f: int)
    ensures (4 * g) * (d * f) == (4 * f) * (d * g)
  {
    Regroup(4 * g, d, f, 1);
    assert (4 * g) * (d * f) == 4 * (g * (d * f));
    Rotate(g, d, f);
    Rotate(f, d, g);
  }

  // ----- subtraction -----

  lemma MinusPoint(c: Coords, d: int)
    requires IsPoint(c, d)
    ensures IsPoint(Minus(c), d)
  {
    hide Cong;
    CongRefl(0);
    CongAdd(0, 0, c.x * c.y, c.z * c.t);
    assert -c.x * c.y == -(c.x * c.y) && c.z * -c.t == -(c.z * c.t);
    assert -c.x * -c.x == c.x * c.x && -c.t * -c.t == c.t * c.t;
  }
}
