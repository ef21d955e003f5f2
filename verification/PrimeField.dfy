/** The numbers modulo 2^255 - 19, when this is a prime: no zero divisors, the theorem of Fermat, and that the curve
    constant is not a square. */
module PrimeField {
  import opened Arith
  import opened Field25519
  import opened FieldMul
  import opened FieldOps
  import opened FieldBytes
  import opened FieldReps
  import opened Edwards

  ghost predicate IsZero(a: int) {
    Cong(a, 0)
  }

  /** A product is zero modulo p only if a factor is: p is prime. */
  ghost predicate NoZeroDivisors() {
    forall a, b | ProductIsZero(a, b) :: IsZero(a) || IsZero(b)
  }

  ghost predicate ProductIsZero(a: int, b: int) {
    IsZero(a * b)
  }

  /** d w^2 is a square only for w = 0. */
  ghost predicate NonSquare(d: int) {
    forall r, w | IsSquareTimes(r, d, w) :: IsZero(w)
  }

  ghost predicate IsSquareTimes(r: int, d: int, w: int) {
    Cong(r * r, d * (w * w))
  }

  // ----- zero -----

  lemma ZeroFactor(a: int, b: int)
    requires NoZeroDivisors() && IsZero(a * b)
    ensures IsZero(a) || IsZero(b)
  {
    hide IsZero;
    assert ProductIsZero(a, b);
  }

  lemma TwoNotZero()
    ensures !IsZero(2)
  {
    hide Cong;
    if IsZero(2) {
      CongMod(2, 0);
    }
  }

  lemma ZeroTimes(a: int, b: int)
    requires IsZero(a)
    ensures IsZero(b * a)
  {
    hide Cong;
    CongScaled(b, a, 0);
  }

  lemma ZeroSum(a: int, b: int)
    requires IsZero(a) && IsZero(b)
    ensures IsZero(a + b) && IsZero(a - b)
  {
    hide Cong;
    CongAdd(a, 0, b, 0);
  }

  lemma ZeroCong(a: int, b: int)
    requires Cong(a, b) && IsZero(b)
    ensures IsZero(a)
  {
    hide Cong;
    CongTrans(a, b, 0);
  }

  lemma DifferenceZero(a: int, b: int)
    ensures IsZero(a - b) <==> Cong(a, b)
  {
    hide Cong;
    CongRefl(b);
    if IsZero(a - b) {
      CongAdd(a - b, 0, b, b);
    } else if Cong(a, b) {
      CongAdd(a, b, b, b);
    }
  }

  lemma ZeroIsMultiple(a: int)
    ensures IsZero(a) <==> a % P == 0
  {
    hide Cong;
    if IsZero(a) {
      CongMod(a, 0);
    } else if a % P == 0 {
      CongBy(a, 0, a / P);
    }
  }

  // ----- primes -----

  ghost predicate Divides(k: int, n: int) {
    k > 0 && n % k == 0
  }

  ghost predicate IsPrime(p: int) {
    p > 1 && forall k | 1 < k < p :: !Divides(k, p)
  }

  /** p divides the k-fold of a. */
  ghost predicate Kills(p: int, a: nat, k: nat) {
    Divides(p, k * a)
  }

  /** The least number of times that a has to be taken. */
  lemma {:induction false} LeastKiller(p: int, a: nat, n: nat) returns (c: nat)
    requires n >= 1 && Kills(p, a, n)
    ensures 1 <= c <= n && Kills(p, a, c) && forall k | 1 <= k < c :: !Kills(p, a, k)
    decreases n
  {
    if k :| 1 <= k < n && Kills(p, a, k) {
      c := LeastKiller(p, a, k);
    } else {
      c := n;
    }
  }

  lemma DividesRest(p: int, x: int, y: int, q: int)
    requires Divides(p, x) && Divides(p, y)
    ensures Divides(p, x - q * y)
  {
    var i, j := x / p, y / p;
    assert q * (p * j) == p * (q * j) by {
      Rotate(q, p, j);
    }
    assert p * (i - q * j) == p * i - p * (q * j);
    ModUnique(x - q * y, p, i - q * j, 0);
  }

  /** The least number divides every other. */
  lemma KillersAreMultiples(p: int, a: nat, c: nat, m: nat)
    requires Kills(p, a, c) && c >= 1 && Kills(p, a, m) && forall k | 1 <= k < c :: !Kills(p, a, k)
    ensures Divides(c, m)
  {
    var q, r := m / c, m % c;
    DivideBack(m, c);
    DividesRest(p, m * a, c * a, q);
    assert (c * q) * a == q * (c * a) by {
      Rotate(q, c, a);
    }
    assert r * a == m * a - (c * q) * a;
    assert Kills(p, a, r);
  }

  /** A prime that divides a product divides a factor. */
  lemma Euclid(p: int, a: nat, b: nat)
    requires IsPrime(p) && Divides(p, a * b)
    ensures Divides(p, a) || Divides(p, b)
  {
    ModUnique(p * a, p, a, 0);
    assert Kills(p, a, p);
    var c := LeastKiller(p, a, p);
    KillersAreMultiples(p, a, c, p);
    if c == 1 {
      assert 1 * a == a;
    } else {
      assert c == p;
      assert b * a == a * b;
      KillersAreMultiples(p, a, c, b);
    }
  }

  lemma PrimeHasNoZeroDivisors()
    requires IsPrime(P)
    ensures NoZeroDivisors()
  {
    hide Cong, IsPrime;
    forall a, b | ProductIsZero(a, b) ensures IsZero(a) || IsZero(b) {
      var a', b' := a % P, b % P;
      CongBy(a, a', a / P);
      CongBy(b, b', b / P);
      CongMul(a, a', b, b');
      CongSym(a * b, a' * b');
      ZeroCong(a' * b', a * b);
      ZeroIsMultiple(a' * b');
      Euclid(P, a', b');
      ZeroIsMultiple(a);
      ZeroIsMultiple(b);
    }
  }

  // ----- binomial coefficients -----

  function Choose(n: nat, k: nat): nat {
    if k == 0 then 1 else if n == 0 then 0 else Choose(n - 1, k - 1) + Choose(n - 1, k)
  }

  lemma {:induction false} ChooseNone(n: nat, k: nat)
    requires k > n
    ensures Choose(n, k) == 0
    decreases n
  {
    if n > 0 {
      ChooseNone(n - 1, k - 1);
      ChooseNone(n - 1, k);
    }
  }

  /** k C(n, k) = n C(n - 1, k - 1) */
  lemma {:induction false} ChooseFactor(n: nat, k: nat)
    requires n >= 1 && k >= 1
    ensures k * Choose(n, k) == n * Choose(n - 1, k - 1)
    decreases n
  {
    if n == 1 {
      if k > 1 {
        ChooseNone(0, k - 1);
        ChooseNone(0, k);
      }
    } else {
      ChooseFactor(n - 1, k);
      if k > 1 {
        ChooseFactor(n - 1, k - 1);
        PascalStep(n, k, Choose(n - 1, k - 1), Choose(n - 1, k), Choose(n - 2, k - 2), Choose(n - 2, k - 1));
      }
    }
  }

  lemma PascalStep(n: int, k: int, a: int, b: int, c: int, e: int)
    requires k * b == (n - 1) * e && (k - 1) * a == (n - 1) * c && a == c + e
    ensures k * (a + b) == n * a
  {
    assert k * (a + b) == (k - 1) * a + a + k * b;
    assert (n - 1) * (c + e) == (n - 1) * c + (n - 1) * e;
  }

  /** The first k terms of (a + 1)^n. */
  function Terms(a: int, n: nat, k: nat): int {
    if k == 0 then 0 else Terms(a, n, k - 1) + Choose(n, k - 1) * Pow(a, k - 1)
  }

  lemma {:induction false} TermsNext(a: int, n: nat, k: nat)
    ensures Terms(a, n + 1, k + 1) == Terms(a, n, k + 1) + a * Terms(a, n, k)
    decreases k
  {
    if k > 0 {
      TermsNext(a, n, k - 1);
      NextTerm(a, Choose(n, k - 1), Choose(n, k), Pow(a, k - 1), Terms(a, n, k - 1));
    } else {
      assert Terms(a, n + 1, 1) == Terms(a, n, 1);
    }
  }

  lemma NextTerm(a: int, b: int, c: int, w: int, s: int)
    ensures (b + c) * (a * w) == c * (a * w) + a * (b * w)
    ensures a * (s + b * w) == a * s + a * (b * w)
  {
    Rotate(a, b, w);
  }

  lemma {:induction false} Binomial(a: int, n: nat)
    ensures Pow(a + 1, n) == Terms(a, n, n + 1)
    decreases n
  {
    if n == 0 {
      assert Terms(a, 0, 1) == Terms(a, 0, 0) + Choose(0, 0) * Pow(a, 0);
    } else {
      Binomial(a, n - 1);
      TermsNext(a, n - 1, n);
      ChooseNone(n - 1, n);
      var t := Terms(a, n - 1, n);
      assert (a + 1) * t == t + a * t;
      assert Terms(a, n - 1, n + 1) == t + 0 * Pow(a, n);
    }
  }

  // ----- the theorem of Fermat -----

  lemma SmallNotZero(k: int)
    requires 0 < k < P
    ensures !IsZero(k)
  {
    hide Cong;
    ZeroIsMultiple(k);
  }

  lemma InnerTerm(p: nat, k: nat, w: int)
    requires NoZeroDivisors() && p == P && 0 < k < p
    ensures IsZero(Choose(p, k) * w)
  {
    hide Cong, NoZeroDivisors, Choose;
    ChooseFactor(p, k);
    CongBy(k * Choose(p, k), 0, Choose(p - 1, k - 1));
    ZeroFactor(k, Choose(p, k));
    SmallNotZero(k);
    ZeroTimes(Choose(p, k), w);
    assert w * Choose(p, k) == Choose(p, k) * w;
  }

  /** All terms between the first and the last vanish. */
  lemma {:induction false} InnerTerms(p: nat, a: int, k: nat)
    requires NoZeroDivisors() && p == P && 1 <= k <= p
    ensures Cong(Terms(a, p, k), 1)
    decreases k
  {
    hide Cong, NoZeroDivisors, Pow, Choose;
    if k == 1 {
      FirstTerm(p, a);
      CongRefl(1);
    } else {
      InnerTerms(p, a, k - 1);
      InnerTerm(p, k - 1, Pow(a, k - 1));
      CongAdd(Terms(a, p, k - 1), 1, Choose(p, k - 1) * Pow(a, k - 1), 0);
    }
  }

  lemma FirstTerm(n: nat, a: int)
    ensures Terms(a, n, 1) == 1
  {
    assert Terms(a, n, 1) == Terms(a, n, 0) + Choose(n, 0) * Pow(a, 0);
  }

  lemma {:induction false} ChooseAll(n: nat)
    ensures Choose(n, n) == 1
  {
    if n > 0 {
      ChooseAll(n - 1);
      ChooseNone(n - 1, n);
    }
  }

  /** (a + 1)^p = a^p + 1 */
  lemma NextPower(p: nat, a: int)
    requires NoZeroDivisors() && p == P
    ensures Cong(Pow(a + 1, p), Pow(a, p) + 1)
  {
    hide Cong, NoZeroDivisors, Pow, Choose;
    Binomial(a, p);
    InnerTerms(p, a, p);
    ChooseAll(p);
    CongRefl(Pow(a, p));
    CongAdd(Terms(a, p, p), 1, Pow(a, p), Pow(a, p));
  }

  lemma {:induction false} FermatNat(p: nat, a: nat)
    requires NoZeroDivisors() && p == P
    ensures Cong(Pow(a, p), a)
    decreases a
  {
    hide Cong, NoZeroDivisors, Pow;
    if a == 0 {
      PowZero(p);
      CongRefl(0);
    } else {
      FermatNat(p, a - 1);
      NextPower(p, a - 1);
      CongRefl(1);
      CongAdd(Pow(a - 1, p), a - 1, 1, 1);
      CongTrans(Pow(a, p), Pow(a - 1, p) + 1, a);
    }
  }

  lemma PowZero(n: nat)
    requires n > 0
    ensures Pow(0, n) == 0
  {
  }

  /** a^(p - 1) = 1 for all numbers but zero. */
  lemma Fermat(p: nat, a: int)
    requires IsPrime(P) && p == P && !IsZero(a)
    ensures Cong(Pow(a, p - 1), 1)
  {
    hide Cong, IsPrime, NoZeroDivisors, Pow;
    PrimeHasNoZeroDivisors();
    var b := a % P;
    CongBy(a, b, a / P);
    FermatNat(p, b);
    PowCong(a, b, p);
    CongTrans(Pow(a, p), Pow(b, p), b);
    CongSym(a, b);
    CongTrans(Pow(a, p), b, a);
    OnePower(a, p);
    DifferenceZero(Pow(a, p), a);
    assert a * (Pow(a, p - 1) - 1) == a * Pow(a, p - 1) - a;
    ZeroFactor(a, Pow(a, p - 1) - 1);
    DifferenceZero(Pow(a, p - 1), 1);
  }

  lemma OnePower(a: int, n: nat)
    requires n > 0
    ensures Pow(a, n) == a * Pow(a, n - 1)
  {
  }

  /** What fe_invert computes is the inverse. */
  lemma InverseExists(z: int, out: int)
    requires IsPrime(P) && !IsZero(z) && Cong(out, Pow(z, P - 2))
    ensures Cong(z * out, 1)
  {
    hide Cong, IsPrime, Pow;
    Fermat(P, z);
    InverseMeaning(z, out);
  }

  // ----- the constants of the curve -----

  /** The square root of -1 that the program uses. */
  const SQRTM1_LIMBS: Fe := Fe(-32595792, -7943725, 9377950, 3500415, 12389472, -272473, -25146209, -2005654, 326686,
    11406482)

  const ROOT: int := 19681161376707505956807079304988542015446066515923890162744021073123829784752

  lemma RootValue()
    ensures Val(SQRTM1_LIMBS) == ROOT
  {
  }

  lemma RootOfMinusOne()
    ensures Cong(Val(SQRTM1_LIMBS) * Val(SQRTM1_LIMBS), -1)
  {
    hide Cong, Val, SQRTM1_LIMBS;
    RootValue();
    CongBy(ROOT * ROOT, -1, 6690407189080634018507799843845558368979872843924222843531373839242004886245);
  }

  /** A square root of 2 d. */
  const ROOT2D: int := 55487632915927625549282413919184614932259505768049324239291840100650878933168

  const D: int := -20800338683988658368647408995589388737092878452977063003340006470870624536394

  lemma DValue()
    ensures Val(D_LIMBS) == D
  {
  }

  lemma RootOf2D()
    ensures Cong(ROOT2D * ROOT2D, 2 * D)
  {
    hide Cong;
    CongBy(ROOT2D * ROOT2D, 2 * D, 53179408487959267070981863600993299124359631661352230105186135972200424991588);
  }

  lemma DNotZero()
    ensures !IsZero(D)
  {
    hide Cong;
    ZeroIsMultiple(D);
  }

  // ----- the curve constant is not a square -----

  lemma {:induction false} PowSquared(x: int, n: nat)
    ensures Pow(x * x, n) == Pow(x, 2 * n)
    decreases n
  {
    if n > 0 {
      PowSquared(x, n - 1);
      OnePower(x, 2 * n);
      OnePower(x, 2 * n - 1);
      assert (x * x) * Pow(x, 2 * n - 2) == x * (x * Pow(x, 2 * n - 2));
    }
  }

  lemma {:induction false} PowNegated(x: int, n: nat)
    ensures Pow(-x, 2 * n + 1) == -Pow(x, 2 * n + 1)
    decreases n
  {
    OnePower(x, 2 * n + 1);
    OnePower(-x, 2 * n + 1);
    if n == 0 {
      assert Pow(x, 0) == 1 && Pow(-x, 0) == 1;
    } else {
      OnePower(x, 2 * n);
      OnePower(-x, 2 * n);
      PowNegated(x, n - 1);
      assert -x * -Pow(x, 2 * n - 1) == x * Pow(x, 2 * n - 1);
      assert -x * (x * Pow(x, 2 * n - 1)) == -(x * (x * Pow(x, 2 * n - 1)));
    }
  }

  /** If d were a square, i would be one as well: with x = (1 + i) s r and y = 2 d w, where s s = 2 d and
      r r = d w w. */
  lemma RootOfI(r: int, w: int, d: int, i: int, s: int)
    requires Cong(r * r, d * (w * w)) && Cong(i * i, -1) && Cong(s * s, 2 * d)
    ensures var x, y := (1 + i) * (s * r), 2 * (d * w); Cong(x * x, i * (y * y))
  {
    hide Cong;
    var a, b := s * r, d * w;
    CongMul(s * s, 2 * d, r * r, d * (w * w));
    Interchange(s, r, s, r);
    TwoSquares(d, w);
    CongRefl(1 + 2 * i);
    CongAdd(1 + 2 * i, 1 + 2 * i, i * i, -1);
    assert (1 + i) * (1 + i) == 1 + 2 * i + i * i;
    CongMul((1 + i) * (1 + i), 2 * i, a * a, 2 * (b * b));
    Interchange(1 + i, a, 1 + i, a);
    assert (2 * i) * (2 * (b * b)) == i * ((2 * b) * (2 * b));
  }

  lemma TwoSquares(d: int, w: int)
    ensures (2 * d) * (d * (w * w)) == 2 * ((d * w) * (d * w))
  {
    Interchange(d, w, d, w);
    assert (d * d) * (w * w) == d * (d * (w * w));
  }

  /** A square cannot be i times a square, as 4 divides p - 1 and 8 does not. */
  lemma IIsNoSquare(p: nat, x: int, y: int, i: int)
    requires IsPrime(P) && p == P && Cong(i * i, -1) && !IsZero(x) && !IsZero(y)
    ensures !Cong(x * x, i * (y * y))
  {
    hide Cong, IsPrime, Pow, IsZero;
    if Cong(x * x, i * (y * y)) {
      var u, v, n := x * x, y * y, (p - 1) / 4;
      CongMul(u, i * v, u, i * v);
      Interchange(i, v, i, v);
      CongScaled(v * v, i * i, -1);
      CongTrans(u * u, (v * v) * (i * i), -(v * v));
      PowCong(u * u, -(v * v), n);
      FourthPower(x, n);
      FourthPower(y, n);
      assert n == 2 * ((n - 1) / 2) + 1;
      PowNegated(v * v, (n - 1) / 2);
      Fermat(p, x);
      Fermat(p, y);
      MinusOne(Pow(x, p - 1), Pow(y, p - 1));
    }
  }

  lemma FourthPower(x: int, n: nat)
    ensures Pow((x * x) * (x * x), n) == Pow(x, 4 * n)
  {
    PowSquared(x * x, n);
    PowSquared(x, 2 * n);
  }

  lemma MinusOne(a: int, b: int)
    requires Cong(a, 1) && Cong(b, 1)
    ensures !Cong(a, -b)
  {
    hide Cong;
    if Cong(a, -b) {
      CongAdd(a, 1, b, 1);
      CongRefl(b);
      CongAdd(a, -b, b, b);
      CongSym(a + b, 2);
      CongTrans(2, a + b, 0);
      TwoNotZero();
    }
  }

  lemma NotSquare(r: int, w: int, d: int, i: int, s: int)
    requires IsPrime(P) && Cong(i * i, -1) && Cong(s * s, 2 * d) && !IsZero(d) && IsSquareTimes(r, d, w)
    ensures IsZero(w)
  {
    hide Cong, IsPrime, IsZero, NoZeroDivisors;
    if !IsZero(w) {
      PrimeHasNoZeroDivisors();
      var x, y := (1 + i) * (s * r), 2 * (d * w);
      RootOfI(r, w, d, i, s);
      NotZeroProduct(d, w);
      TwoNotZero();
      NotZeroProduct(2, d * w);
      RootNotZero(x, y, i);
      IIsNoSquare(P, x, y, i);
    }
  }

  lemma NotZeroProduct(a: int, b: int)
    requires NoZeroDivisors() && !IsZero(a) && !IsZero(b)
    ensures !IsZero(a * b)
  {
    hide IsZero, NoZeroDivisors;
    if IsZero(a * b) {
      ZeroFactor(a, b);
    }
  }

  lemma RootNotZero(x: int, y: int, i: int)
    requires NoZeroDivisors() && Cong(x * x, i * (y * y)) && Cong(i * i, -1) && !IsZero(y)
    ensures !IsZero(x)
  {
    hide Cong, NoZeroDivisors;
    if IsZero(x) {
      ZeroTimes(x, x);
      CongSym(x * x, i * (y * y));
      ZeroCong(i * (y * y), x * x);
      ZeroTimes(i * (y * y), i);
      assert i * (i * (y * y)) == (i * i) * (y * y);
      CongScaled(y * y, i * i, -1);
      CongSym((y * y) * (i * i), -(y * y));
      ZeroCong(-(y * y), (i * i) * (y * y));
      ZeroTimes(-(y * y), -1);
      ZeroFactor(y, y);
    }
  }

  /** Where p is prime, the constant of the curve is not a square. */
  lemma DIsNoSquare()
    requires IsPrime(P)
    ensures NonSquare(Val(D_LIMBS))
  {
    hide Cong, Val, D_LIMBS, SQRTM1_LIMBS, IsPrime, IsZero, IsSquareTimes;
    RootOfMinusOne();
    RootOf2D();
    DNotZero();
    DValue();
    forall r, w | IsSquareTimes(r, Val(D_LIMBS), w) ensures IsZero(w) {
      NotSquare(r, w, D, Val(SQRTM1_LIMBS), ROOT2D);
    }
  }
}
