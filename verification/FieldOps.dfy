/** Addition, subtraction and powers of field elements, with bounds on the limbs. */
module FieldOps {
  import opened Field25519
  import opened FieldMul

  // ----- congruence -----

  lemma CongRefl(a: int)
    ensures Cong(a, a)
  {
    CongBy(a, a, 0);
  }

  lemma CongSym(a: int, b: int)
    requires Cong(a, b)
    ensures Cong(b, a)
  {
    var k :| Differ(a, b, k);
    DifferMeans(a, b, k);
    CongBy(b, a, -k);
  }

  lemma CongAdd(a: int, b: int, c: int, d: int)
    requires Cong(a, b) && Cong(c, d)
    ensures Cong(a + c, b + d) && Cong(a - c, b - d)
  {
    var j :| Differ(a, b, j);
    DifferMeans(a, b, j);
    var k :| Differ(c, d, k);
    DifferMeans(c, d, k);
    CongBy(a + c, b + d, j + k);
    CongBy(a - c, b - d, j - k);
  }

  lemma CongMul(a: int, b: int, c: int, d: int)
    requires Cong(a, b) && Cong(c, d)
    ensures Cong(a * c, b * d)
  {
    var j :| Differ(a, b, j);
    DifferMeans(a, b, j);
    var k :| Differ(c, d, k);
    DifferMeans(c, d, k);
    MulWitness(a, b, c, d, j, k);
    CongBy(a * c, b * d, b * k + j * d + P * (j * k));
  }

  lemma CongScaled(c: int, a: int, b: int)
    requires Cong(a, b)
    ensures Cong(c * a, c * b)
  {
    hide Cong;
    CongRefl(c);
    CongMul(c, c, a, b);
  }

  lemma MulWitness(a: int, b: int, c: int, d: int, j: int, k: int)
    requires a == b + P * j && c == d + P * k
    ensures a * c == b * d + P * (b * k + j * d + P * (j * k))
  {
    assert a * c == (b + P * j) * (d + P * k);
    assert (b + P * j) * (d + P * k) == b * d + b * (P * k) + (P * j) * d + (P * j) * (P * k);
  }

  // ----- bounds -----

  /** Odd limbs are at most o, even limbs at most twice that, and one. */
  predicate Upto(f: Fe, o: int) {
    Within(f, 2 * o + 1, o)
  }

  /** 1.01 * 2^24, 1.1 * 2^24 and 1.65 * 2^25: what multiplication and carrying leave, and what
      multiplication takes. */
  const OUT: int := 16944988
  const CARRIED: int := 18454937
  const IN: int := 55364812

  lemma Bounds(f: Fe)
    ensures MulOutput(f) ==> Upto(f, OUT)
    ensures Reduced(f) <==> Upto(f, CARRIED)
    ensures MulInput(f) <==> Upto(f, IN)
  {
  }

  lemma Looser(f: Fe, a: int, b: int)
    requires Upto(f, a) && a <= b
    ensures Upto(f, b)
  {
  }

  // ----- addition -----

  lemma SumVal(f: Fe, g: Fe)
    ensures Number(f.x0 + g.x0, f.x1 + g.x1, f.x2 + g.x2, f.x3 + g.x3, f.x4 + g.x4, f.x5 + g.x5,
      f.x6 + g.x6, f.x7 + g.x7, f.x8 + g.x8, f.x9 + g.x9) == Val(f) + Val(g)
  {
  }

  lemma DifferenceVal(f: Fe, g: Fe)
    ensures Number(f.x0 - g.x0, f.x1 - g.x1, f.x2 - g.x2, f.x3 - g.x3, f.x4 - g.x4, f.x5 - g.x5,
      f.x6 - g.x6, f.x7 - g.x7, f.x8 - g.x8, f.x9 - g.x9) == Val(f) - Val(g)
  {
  }

  /** h = f + g; the bounds on the operands add up. */
  method FeAdd(f: Fe, g: Fe, ghost a: int, ghost b: int) returns (h: Fe)
    requires Upto(f, a) && Upto(g, b) && a + b < 0x2000_0000
    ensures Upto(h, a + b + 1) && Val(h) == Val(f) + Val(g)
  {
    hide Number;
    var h0: int32 := f.x0 + g.x0;
    var h1: int32 := f.x1 + g.x1;
    var h2: int32 := f.x2 + g.x2;
    var h3: int32 := f.x3 + g.x3;
    var h4: int32 := f.x4 + g.x4;
    var h5: int32 := f.x5 + g.x5;
    var h6: int32 := f.x6 + g.x6;
    var h7: int32 := f.x7 + g.x7;
    var h8: int32 := f.x8 + g.x8;
    var h9: int32 := f.x9 + g.x9;
    h := Fe(h0, h1, h2, h3, h4, h5, h6, h7, h8, h9);
    SumVal(f, g);
  }

  /** h = f - g */
  method FeSub(f: Fe, g: Fe, ghost a: int, ghost b: int) returns (h: Fe)
    requires Upto(f, a) && Upto(g, b) && a + b < 0x2000_0000
    ensures Upto(h, a + b + 1) && Val(h) == Val(f) - Val(g)
  {
    hide Number;
    var h0: int32 := f.x0 - g.x0;
    var h1: int32 := f.x1 - g.x1;
    var h2: int32 := f.x2 - g.x2;
    var h3: int32 := f.x3 - g.x3;
    var h4: int32 := f.x4 - g.x4;
    var h5: int32 := f.x5 - g.x5;
    var h6: int32 := f.x6 - g.x6;
    var h7: int32 := f.x7 - g.x7;
    var h8: int32 := f.x8 - g.x8;
    var h9: int32 := f.x9 - g.x9;
    h := Fe(h0, h1, h2, h3, h4, h5, h6, h7, h8, h9);
    DifferenceVal(f, g);
  }

  /** h = -f */
  method FeNeg(f: Fe, ghost a: int) returns (h: Fe)
    requires Upto(f, a) && a < 0x2000_0000
    ensures Upto(h, a) && Val(h) == -Val(f)
  {
    h := Fe(-f.x0, -f.x1, -f.x2, -f.x3, -f.x4, -f.x5, -f.x6, -f.x7, -f.x8, -f.x9);
  }

  /** h = 121666 f */
  method FeMul121666(f: Fe) returns (h: Fe)
    requires Upto(f, 36909875)
    ensures Upto(h, CARRIED) && Cong(Val(h), 121666 * Val(f))
  {
    hide Cong, Number;
    var w := Scaled(f);
    ScaledVal(f);
    h := CarryOddEven(w);
    Bounds(h);
  }

  method Scaled(f: Fe) returns (w: Wide)
    requires Upto(f, 36909875)
    ensures SmallWide(w)
    ensures WideLimbs(w) == Ten(121666 * f.x0, 121666 * f.x1, 121666 * f.x2, 121666 * f.x3, 121666 * f.x4,
      121666 * f.x5, 121666 * f.x6, 121666 * f.x7, 121666 * f.x8, 121666 * f.x9)
  {
    var h0: int64 := 121666 * f.x0;
    var h1: int64 := 121666 * f.x1;
    var h2: int64 := 121666 * f.x2;
    var h3: int64 := 121666 * f.x3;
    var h4: int64 := 121666 * f.x4;
    var h5: int64 := 121666 * f.x5;
    var h6: int64 := 121666 * f.x6;
    var h7: int64 := 121666 * f.x7;
    var h8: int64 := 121666 * f.x8;
    var h9: int64 := 121666 * f.x9;
    w := Wide(h0, h1, h2, h3, h4, h5, h6, h7, h8, h9);
  }

  lemma ScaledVal(f: Fe)
    ensures Number(121666 * f.x0, 121666 * f.x1, 121666 * f.x2, 121666 * f.x3, 121666 * f.x4, 121666 * f.x5,
      121666 * f.x6, 121666 * f.x7, 121666 * f.x8, 121666 * f.x9) == 121666 * Val(f)
  {
  }

  // ----- powers -----

  function Pow(z: int, e: nat): int {
    if e == 0 then 1 else z * Pow(z, e - 1)
  }

  lemma {:induction false} PowAdd(z: int, i: nat, j: nat)
    ensures Pow(z, i + j) == Pow(z, i) * Pow(z, j)
    decreases i
  {
    if i > 0 {
      PowAdd(z, i - 1, j);
      assert z * (Pow(z, i - 1) * Pow(z, j)) == (z * Pow(z, i - 1)) * Pow(z, j);
    }
  }

  /** f represents z to the power e, and can be multiplied. */
  ghost predicate Power(f: Fe, z: int, e: int) {
    MulInput(f) && e >= 0 && Cong(Val(f), Pow(z, e))
  }

  lemma OutputIsInput(f: Fe)
    requires MulOutput(f)
    ensures MulInput(f)
  {
  }

  lemma PowOne(f: Fe)
    requires MulInput(f)
    ensures Power(f, Val(f), 1)
  {
    hide Cong, Val, MulInput;
    assert Pow(Val(f), 0) == 1;
    CongRefl(Val(f));
  }

  method MulPower(f: Fe, g: Fe, ghost z: int, ghost i: int, ghost j: int) returns (h: Fe)
    requires Power(f, z, i) && Power(g, z, j)
    ensures Power(h, z, i + j) && MulOutput(h)
  {
    hide Cong, Pow, Val, MulOutput, MulInput;
    h := FeMul(f, g);
    OutputIsInput(h);
    CongMul(Val(f), Pow(z, i), Val(g), Pow(z, j));
    PowAdd(z, i, j);
    CongTrans(Val(h), Val(f) * Val(g), Pow(z, i + j));
  }

  method SquarePower(f: Fe, ghost z: int, ghost e: int) returns (h: Fe)
    requires Power(f, z, e)
    ensures Power(h, z, 2 * e)
  {
    hide Cong, Pow, Val, MulOutput, MulInput;
    h := FeSq(f);
    OutputIsInput(h);
    CongMul(Val(f), Pow(z, e), Val(f), Pow(z, e));
    PowAdd(z, e, e);
    CongTrans(Val(h), Val(f) * Val(f), Pow(z, 2 * e));
  }

  /** e times 2^n. */
  function Doubled(e: int, n: nat): int
    decreases n
  {
    if n == 0 then e else Doubled(2 * e, n - 1)
  }

  lemma {:induction false} DoubledTwice(e: int, m: nat, n: nat)
    ensures Doubled(e, m + n) == Doubled(Doubled(e, m), n)
    decreases m
  {
    if m > 0 {
      assert m + n - 1 == m - 1 + n;
      DoubledTwice(2 * e, m - 1, n);
    }
  }

  lemma DoubledFive(e: int)
    ensures Doubled(e, 1) == 2 * e && Doubled(e, 2) == 4 * e && Doubled(e, 5) == 32 * e
  {
    assert Doubled(e, 5) == Doubled(2 * e, 4) == Doubled(4 * e, 3) == Doubled(8 * e, 2) == Doubled(16 * e, 1);
  }

  lemma DoubledTen(e: int)
    ensures Doubled(e, 10) == 0x400 * e && Doubled(e, 20) == 0x10_0000 * e
  {
    hide Doubled;
    DoubledFive(e);
    DoubledFive(32 * e);
    DoubledTwice(e, 5, 5);
    DoubledFive(0x400 * e);
    DoubledFive(0x8000 * e);
    DoubledTwice(0x400 * e, 5, 5);
    DoubledTwice(e, 10, 10);
  }

  lemma DoubledFifty(e: int)
    ensures Doubled(e, 50) == 0x4_0000_0000_0000 * e && Doubled(e, 100) == 0x10_0000_0000_0000_0000_0000_0000 * e
  {
    hide Doubled;
    FortyTen(e);
    FortyTen(0x4_0000_0000_0000 * e);
    DoubledTwice(e, 50, 50);
  }

  lemma FortyTen(e: int)
    ensures Doubled(e, 50) == 0x4_0000_0000_0000 * e
  {
    hide Doubled;
    DoubledTen(e);
    DoubledTen(0x10_0000 * e);
    DoubledTwice(e, 20, 20);
    DoubledTen(0x100_0000_0000 * e);
    DoubledTwice(e, 40, 10);
  }

  /** One squaring, and a loop of n - 1 more. */
  method SquareTimes(f: Fe, n: nat, ghost z: int, ghost e: int) returns (h: Fe)
    requires Power(f, z, e) && n > 0
    ensures Power(h, z, Doubled(e, n))
  {
    hide Power;
    h := SquarePower(f, z, e);
    ghost var d := 2 * e;
    for i := 1 to n
      invariant Power(h, z, d) && Doubled(d, n - i) == Doubled(e, n)
    {
      h := SquarePower(h, z, d);
      d := 2 * d;
    }
  }

  /** out = z^(p - 2), by 254 squarings and 11 multiplications. */
  method FeInvert(z: Fe) returns (out: Fe)
    requires MulInput(z)
    ensures MulOutput(out) && Cong(Val(out), Pow(Val(z), P - 2))
  {
    hide Cong, Pow, MulInput, MulOutput, Val, Doubled;
    ghost var v := Val(z);
    PowOne(z);
    DoubledFive(1);
    var t0 := SquareTimes(z, 1, v, 1);
    DoubledFive(2);
    var t1 := SquareTimes(t0, 2, v, 2);
    t1 := MulPower(z, t1, v, 1, 8);
    t0 := MulPower(t0, t1, v, 2, 9);
    DoubledFive(11);
    var t2 := SquareTimes(t0, 1, v, 11);
    t1 := MulPower(t1, t2, v, 9, 22);
    DoubledFive(31);
    t2 := SquareTimes(t1, 5, v, 31);
    t1 := MulPower(t2, t1, v, 992, 31);
    DoubledTen(1023);
    t2 := SquareTimes(t1, 10, v, 1023);
    t2 := MulPower(t2, t1, v, 0xffc00, 1023);
    DoubledTen(0xfffff);
    var t3 := SquareTimes(t2, 20, v, 0xfffff);
    t2 := MulPower(t3, t2, v, 0xfffff00000, 0xfffff);
    DoubledTen(0xffffffffff);
    t2 := SquareTimes(t2, 10, v, 0xffffffffff);
    t1 := MulPower(t2, t1, v, 0x3fffffffffc00, 1023);
    DoubledFifty(0x3ffffffffffff);
    t2 := SquareTimes(t1, 50, v, 0x3ffffffffffff);
    t2 := MulPower(t2, t1, v, 0xffffffffffffc000000000000, 0x3ffffffffffff);
    DoubledFifty(0xfffffffffffffffffffffffff);
    t3 := SquareTimes(t2, 100, v, 0xfffffffffffffffffffffffff);
    t2 := MulPower(t3, t2, v, 0xfffffffffffffffffffffffff0000000000000000000000000, 0xfffffffffffffffffffffffff);
    DoubledFifty(0xffffffffffffffffffffffffffffffffffffffffffffffffff);
    t2 := SquareTimes(t2, 50, v, 0xffffffffffffffffffffffffffffffffffffffffffffffffff);
    t1 := MulPower(t2, t1, v, 0x3fffffffffffffffffffffffffffffffffffffffffffffffffc000000000000, 0x3ffffffffffff);
    DoubledFive(0x3ffffffffffffffffffffffffffffffffffffffffffffffffffffffffffffff);
    t1 := SquareTimes(t1, 5, v, 0x3ffffffffffffffffffffffffffffffffffffffffffffffffffffffffffffff);
    out := MulPower(t1, t0, v, 0x7fffffffffffffffffffffffffffffffffffffffffffffffffffffffffffffe0, 11);
  }

  /** out = z^((p - 5) / 8) */
  method FePow22523(z: Fe) returns (out: Fe)
    requires MulInput(z)
    ensures MulOutput(out) && Cong(Val(out), Pow(Val(z), (P - 5) / 8))
  {
    hide Cong, Pow, MulInput, MulOutput, Val, Doubled;
    ghost var v := Val(z);
    PowOne(z);
    DoubledFive(1);
    var t0 := SquareTimes(z, 1, v, 1);
    DoubledFive(2);
    var t1 := SquareTimes(t0, 2, v, 2);
    t1 := MulPower(z, t1, v, 1, 8);
    t0 := MulPower(t0, t1, v, 2, 9);
    DoubledFive(11);
    t0 := SquareTimes(t0, 1, v, 11);
    t0 := MulPower(t1, t0, v, 9, 22);
    DoubledFive(31);
    t1 := SquareTimes(t0, 5, v, 31);
    t0 := MulPower(t1, t0, v, 992, 31);
    DoubledTen(1023);
    t1 := SquareTimes(t0, 10, v, 1023);
    t1 := MulPower(t1, t0, v, 0xffc00, 1023);
    DoubledTen(0xfffff);
    var t2 := SquareTimes(t1, 20, v, 0xfffff);
    t1 := MulPower(t2, t1, v, 0xfffff00000, 0xfffff);
    DoubledTen(0xffffffffff);
    t1 := SquareTimes(t1, 10, v, 0xffffffffff);
    t0 := MulPower(t1, t0, v, 0x3fffffffffc00, 1023);
    DoubledFifty(0x3ffffffffffff);
    t1 := SquareTimes(t0, 50, v, 0x3ffffffffffff);
    t1 := MulPower(t1, t0, v, 0xffffffffffffc000000000000, 0x3ffffffffffff);
    DoubledFifty(0xfffffffffffffffffffffffff);
    t2 := SquareTimes(t1, 100, v, 0xfffffffffffffffffffffffff);
    t1 := MulPower(t2, t1, v, 0xfffffffffffffffffffffffff0000000000000000000000000, 0xfffffffffffffffffffffffff);
    DoubledFifty(0xffffffffffffffffffffffffffffffffffffffffffffffffff);
    t1 := SquareTimes(t1, 50, v, 0xffffffffffffffffffffffffffffffffffffffffffffffffff);
    t0 := MulPower(t1, t0, v, 0x3fffffffffffffffffffffffffffffffffffffffffffffffffc000000000000, 0x3ffffffffffff);
    DoubledFive(0x3ffffffffffffffffffffffffffffffffffffffffffffffffffffffffffffff);
    t0 := SquareTimes(t0, 2, v, 0x3ffffffffffffffffffffffffffffffffffffffffffffffffffffffffffffff);
    out := MulPower(t0, z, v, 0xffffffffffffffffffffffffffffffffffffffffffffffffffffffffffffffc, 1);
  }

  /** When z^(p - 1) is 1, as it is for every z that p, being prime, does not divide, the result is
      the inverse of z. */
  lemma InverseMeaning(z: int, out: int)
    requires Cong(out, Pow(z, P - 2)) && Cong(Pow(z, P - 1), 1)
    ensures Cong(z * out, 1)
  {
    hide Cong, Pow;
    CongRefl(z);
    CongMul(z, z, out, Pow(z, P - 2));
    PowNext(z, P - 2);
    CongTrans(z * out, Pow(z, P - 1), 1);
  }

  lemma PowNext(z: int, e: nat)
    ensures Pow(z, e + 1) == z * Pow(z, e)
  {
  }
}
